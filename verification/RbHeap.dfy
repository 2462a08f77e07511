/**
 Red-black trees in memory (kernel/rbtree.c): nodes linked by left, right and parent pointers, with a
 ghost tree that says what the pointers spell. A zipper of context and subtree is the view from a node
 in the middle, which is where rotations and the insertion repair work.
 */
module RbHeap {
  import opened RbTrees

  /** struct rb_tree */
  class Root {
    var root: Node?

    constructor ()
      ensures root == null
    {
      root := null;
    }
  }

  // ---- what the pointers spell --------------------------------------------------------------------

  /** From x downwards the pointers form t, with p as the parent pointer of its root. */
  ghost predicate Linked(t: Tree, x: Node?, p: Node?)
    reads t.Nodes()
    decreases t
  {
    match t
    case Leaf => x == null
    case Branch(l, n, red, r) =>
      x == n && n.parent == p && n.red == red && Linked(l, n.left, n) && Linked(r, n.right, n)
  }

  /** Around a hole filled by x whose parent pointer is p, the pointers form c. */
  ghost predicate LinkedUp(c: Ctx, x: Node?, p: Node?, tree: Root)
    reads tree`root, c.Nodes()
    decreases c
  {
    match c
    case Top => p == null && tree.root == x
    case InLeft(n, red, r, up) =>
      p == n && n.left == x && n.red == red && Linked(r, n.right, n) && LinkedUp(up, n, n.parent, tree)
    case InRight(l, n, red, up) =>
      p == n && n.right == x && n.red == red && Linked(l, n.left, n) && LinkedUp(up, n, n.parent, tree)
  }

  ghost predicate Distinct(t: Tree)
  {
    match t
    case Leaf => true
    case Branch(l, n, _, r) =>
      Distinct(l) && Distinct(r) && n !in l.Nodes() + r.Nodes() && l.Nodes() !! r.Nodes()
  }

  ghost predicate DistinctUp(c: Ctx)
  {
    match c
    case Top => true
    case InLeft(n, _, r, up) =>
      Distinct(r) && DistinctUp(up) && n !in r.Nodes() + up.Nodes() && r.Nodes() !! up.Nodes()
    case InRight(l, n, _, up) =>
      Distinct(l) && DistinctUp(up) && n !in l.Nodes() + up.Nodes() && l.Nodes() !! up.Nodes()
  }

  /** The whole tree, seen from the subtree t at x. */
  ghost predicate Zip(c: Ctx, t: Tree, x: Node?, p: Node?, tree: Root)
    reads tree`root, c.Nodes(), t.Nodes()
  {
    && LinkedUp(c, x, p, tree) && Linked(t, x, p)
    && DistinctUp(c) && Distinct(t) && c.Nodes() !! t.Nodes()
  }

  ghost predicate Spells(tree: Root, t: Tree)
    reads tree`root, t.Nodes()
  {
    Linked(t, tree.root, null) && Distinct(t)
  }

  /** The context and the subtree one step up. */
  function Up(c: Ctx, t: Tree): Tree
    requires c != Top
  {
    if c.InLeft? then Branch(t, c.n, c.red, c.r) else Branch(c.l, c.n, c.red, t)
  }

  lemma ZipUp(c: Ctx, t: Tree, x: Node?, p: Node?, tree: Root)
    requires Zip(c, t, x, p, tree) && c != Top
    ensures p == c.n && Zip(c.up, Up(c, t), c.n, c.n.parent, tree)
    ensures c.Plug(t) == c.up.Plug(Up(c, t))
  {
  }

  lemma ZipLeft(c: Ctx, t: Tree, x: Node?, p: Node?, tree: Root)
    requires Zip(c, t, x, p, tree) && t.Branch?
    ensures x == t.n && Zip(InLeft(t.n, t.red, t.r, c), t.l, t.n.left, t.n, tree)
  {
  }

  lemma ZipRight(c: Ctx, t: Tree, x: Node?, p: Node?, tree: Root)
    requires Zip(c, t, x, p, tree) && t.Branch?
    ensures x == t.n && Zip(InRight(t.l, t.n, t.red, c), t.r, t.n.right, t.n, tree)
  {
  }

  /** Zooming all the way out. */
  lemma {:induction false} ZipOut(c: Ctx, t: Tree, x: Node?, p: Node?, tree: Root)
    requires Zip(c, t, x, p, tree)
    ensures Spells(tree, c.Plug(t))
    decreases c
  {
    if c != Top {
      ZipUp(c, t, x, p, tree);
      ZipOut(c.up, Up(c, t), c.n, c.n.parent, tree);
    }
  }

  /** Zooming in along a context. */
  lemma {:induction false} ZipIn(c: Ctx, t: Tree, tree: Root) returns (x: Node?, p: Node?)
    requires Spells(tree, c.Plug(t))
    ensures Zip(c, t, x, p, tree)
    decreases c
  {
    if c == Top {
      x, p := tree.root, null;
    } else {
      var y, q := ZipIn(c.up, Up(c, t), tree);
      if c.InLeft? {
        ZipLeft(c.up, Up(c, t), y, q, tree);
        x, p := c.n.left, c.n;
      } else {
        ZipRight(c.up, Up(c, t), y, q, tree);
        x, p := c.n.right, c.n;
      }
    }
  }

  lemma LinkedRoot(t: Tree, x: Node?, p: Node?)
    requires Linked(t, x, p)
    ensures x == if t.Leaf? then null else t.n
  {
  }

  lemma RootInNodes(t: Tree)
    ensures t.Branch? ==> t.n in t.Nodes()
  {
  }

  /** The tests the rotations make on the parent tell where the hole is. */
  lemma SidesOf(c: Ctx, t: Tree, x: Node?, p: Node?, tree: Root)
    requires Zip(c, t, x, p, tree) && t.Branch?
    ensures p == null <==> c == Top
    ensures c.InLeft? ==> p == c.n && p.left == x && p.right != x
    ensures c.InRight? ==> p == c.n && p.right == x && p.left != x
  {
    RootInNodes(t);
    if c.InLeft? {
      LinkedRoot(c.r, c.n.right, c.n);
      RootInNodes(c.r);
    } else if c.InRight? {
      LinkedRoot(c.l, c.n.left, c.n);
      RootInNodes(c.l);
    }
  }

  // ---- what an update leaves alone ----------------------------------------------------------------

  /** A subtree t that hangs at x below p; nodes are the nodes of t. */
  datatype Spot = Spot(t: Tree, x: Node?, p: Node?, nodes: set<Node>)

  /** A context c around the hole at x below p; nodes are the nodes of c. */
  datatype Hole = Hole(c: Ctx, x: Node?, p: Node?, tree: Root, nodes: set<Node>)

  /** A subtree whose root got a new parent and is otherwise unchanged. */
  twostate lemma Reparented(s: Spot, new q: Node?)
    requires old(Linked(s.t, s.x, s.p)) && Distinct(s.t) && s.nodes == s.t.Nodes()
    requires unchanged(s.nodes - {s.x})
    requires s.x != null ==> unchanged((s.x)`left, (s.x)`right, (s.x)`red) && s.x.parent == q
    ensures Linked(s.t, s.x, q)
  {
    var t, x := s.t, s.x;
    if t.Branch? {
      RootInNodes(t);
      SameTree(Spot(t.l, x.left, x, t.l.Nodes()));
      SameTree(Spot(t.r, x.right, x, t.r.Nodes()));
    }
  }

  /** A context whose hole got a new filling: only the slot of the hole changed. */
  twostate lemma Refilled(h: Hole, new y: Node?)
    requires old(LinkedUp(h.c, h.x, h.p, h.tree)) && DistinctUp(h.c) && h.nodes == h.c.Nodes()
    requires if h.c == Top then h.tree.root == y else unchanged((h.tree)`root) && unchanged(h.nodes - {h.c.n})
    requires h.c.InLeft? ==> h.c.n.left == y && unchanged((h.c.n)`right, (h.c.n)`parent, (h.c.n)`red)
    requires h.c.InRight? ==> h.c.n.right == y && unchanged((h.c.n)`left, (h.c.n)`parent, (h.c.n)`red)
    ensures LinkedUp(h.c, y, h.p, h.tree)
  {
    var c := h.c;
    if c.InLeft? {
      SameTree(Spot(c.r, c.n.right, c.n, c.r.Nodes()));
      SameCtx(Hole(c.up, c.n, c.n.parent, h.tree, c.up.Nodes()));
    } else if c.InRight? {
      SameTree(Spot(c.l, c.n.left, c.n, c.l.Nodes()));
      SameCtx(Hole(c.up, c.n, c.n.parent, h.tree, c.up.Nodes()));
    }
  }

  twostate lemma SameTree(s: Spot)
    requires old(Linked(s.t, s.x, s.p)) && s.nodes == s.t.Nodes() && unchanged(s.nodes)
    ensures Linked(s.t, s.x, s.p)
  {
  }

  twostate lemma SameCtx(h: Hole)
    requires old(LinkedUp(h.c, h.x, h.p, h.tree)) && unchanged((h.tree)`root)
    requires h.nodes == h.c.Nodes() && unchanged(h.nodes)
    ensures LinkedUp(h.c, h.x, h.p, h.tree)
  {
  }

  // ---- rotations ----------------------------------------------------------------------------------

  /** The disjoint parts around a rotation: the context, the pair x and y, and three subtrees. */
  ghost predicate Apart(c: Ctx, a: Tree, x: Node, b: Tree, y: Node, d: Tree)
  {
    && x != y && x !in a.Nodes() + b.Nodes() + d.Nodes() + c.Nodes()
    && y !in a.Nodes() + b.Nodes() + d.Nodes() + c.Nodes()
    && a.Nodes() !! b.Nodes() && a.Nodes() !! d.Nodes() && b.Nodes() !! d.Nodes()
    && c.Nodes() !! a.Nodes() && c.Nodes() !! b.Nodes() && c.Nodes() !! d.Nodes()
    && Distinct(a) && Distinct(b) && Distinct(d) && DistinctUp(c)
    && (c != Top ==> c.n in c.Nodes()) && (b.Branch? ==> b.n in b.Nodes())
  }

  /** What is around a rotation: the context above x, and the subtrees a below x, b and d below y. */
  datatype Turn = Turn(h: Hole, a: Spot, b: Spot, d: Spot)

  /** What a rotation does to the context and the three subtrees: y replaces x in its slot, the root of
      the middle subtree gets x as its parent, the rest stays. */
  twostate lemma Rebuilt(r: Turn, new x: Node, new y: Node)
    requires DistinctUp(r.h.c) && Distinct(r.b.t)
    requires r.a.nodes == r.a.t.Nodes() && r.b.nodes == r.b.t.Nodes() && r.d.nodes == r.d.t.Nodes()
    requires r.h.nodes == r.h.c.Nodes() && r.a.p == x && r.d.p == y
    requires old(LinkedUp(r.h.c, r.h.x, r.h.p, r.h.tree))
    requires old(Linked(r.a.t, r.a.x, r.a.p) && Linked(r.b.t, r.b.x, r.b.p) && Linked(r.d.t, r.d.x, r.d.p))
    requires unchanged(r.a.nodes) && unchanged(r.d.nodes) && unchanged(r.b.nodes - {r.b.x})
    requires var m := r.b.x; m != null ==> unchanged(m`left, m`right, m`red) && m.parent == x
    requires var c := r.h.c;
             && (if c == Top then r.h.tree.root == y
                 else unchanged((r.h.tree)`root) && unchanged(r.h.nodes - {c.n}))
             && (c.InLeft? ==> c.n.left == y && unchanged((c.n)`right, (c.n)`parent, (c.n)`red))
             && (c.InRight? ==> c.n.right == y && unchanged((c.n)`left, (c.n)`parent, (c.n)`red))
    ensures LinkedUp(r.h.c, y, r.h.p, r.h.tree)
    ensures Linked(r.a.t, r.a.x, x) && Linked(r.b.t, r.b.x, x) && Linked(r.d.t, r.d.x, y)
  {
    assert LinkedUp(r.h.c, y, r.h.p, r.h.tree) by { Refilled(r.h, y); }
    assert Linked(r.b.t, r.b.x, x) by { Reparented(r.b, x); }
    assert Linked(r.a.t, r.a.x, x) by { SameTree(r.a); }
    assert Linked(r.d.t, r.d.x, y) by { SameTree(r.d); }
  }

  ghost function Only(n: Node?): set<Node> { if n == null then {} else {n} }

  /** The pointer that leads to x: its parent's left or right, or the root. */
  ghost predicate Hangs(x: Node)
    reads x, x.parent
  {
    x.parent != null ==> x.parent.left == x || x.parent.right == x
  }

  /** Below p, or at the root when p is null, y stands where x stood. */
  twostate predicate Replaced(tree: Root, p: Node?, x: Node, y: Node)
    reads tree, p
  {
    if p == null then tree.root == y
    else
      && unchanged(tree`root) && unchanged(p`parent, p`red)
      && p.left == (if old(p.left) == x then y else old(p.left))
      && p.right == (if old(p.left) == x then old(p.right) else y)
  }

  /** y takes the place of x below x's parent. */
  method Replace(tree: Root, x: Node, y: Node)
    requires x != y && x.parent != y && Hangs(x)
    modifies tree, Only(x.parent)`left, Only(x.parent)`right, y`parent
    ensures y.parent == old(x.parent) && Replaced(tree, old(x.parent), x, y)
  {
    y.parent := x.parent;
    if x.parent == null {
      tree.root := y;
    } else if x == x.parent.left {
      x.parent.left := y;
    } else {
      x.parent.right := y;
    }
  }

  /** The pointer work of rb_lrotate on x and its right child. */
  method SwingLeft(tree: Root, x: Node)
    requires x.right != null && x.right != x && x.parent != x && x.parent != x.right && Hangs(x)
    requires x.right.left != null ==> x.right.left !in {x, x.right, x.parent}
    modifies tree, {x, x.right}`left, {x, x.right}`right, {x, x.right}`parent
    modifies Only(x.parent)`left, Only(x.parent)`right, Only(x.right.left)`parent
    ensures var y := old(x.right);
            && x.left == old(x.left) && x.right == old(x.right.left) && x.parent == y
            && y.left == x && y.right == old(x.right.right) && y.parent == old(x.parent)
            && (x.right != null ==> x.right.parent == x)
            && Replaced(tree, y.parent, x, y)
  {
    var y := x.right;
    x.right := y.left;
    if y.left != null {
      y.left.parent := x;
    }
    Replace(tree, x, y);
    y.left := x;
    x.parent := y;
  }

  /** rb_lrotate: from a x (b y d) to (a x b) y d */
  method LRotate(tree: Root, x: Node, ghost c: Ctx, ghost a: Tree, ghost b: Tree, ghost y: Node, ghost d: Tree)
    requires Zip(c, Branch(a, x, x.red, Branch(b, y, y.red, d)), x, x.parent, tree)
    modifies tree, (c.Nodes() + {x, y})`left, (c.Nodes() + {x, y})`right, ({x, y} + b.Nodes())`parent
    ensures Zip(c, Branch(Branch(a, x, x.red, b), y, y.red, d), y, y.parent, tree)
  {
    PartsOfLeft(c, a, x, b, y, d, tree);
    ghost var around := Turn(Hole(c, x, x.parent, tree, c.Nodes()), Spot(a, x.left, x, a.Nodes()),
                             Spot(b, y.left, y, b.Nodes()), Spot(d, y.right, y, d.Nodes()));
    SwingLeft(tree, x);
    Rebuilt(around, x, y);
    ZipOfLeft(c, a, x, b, y, d, tree);
  }

  lemma PartsOfLeft(c: Ctx, a: Tree, x: Node, b: Tree, y: Node, d: Tree, tree: Root)
    requires Zip(c, Branch(a, x, x.red, Branch(b, y, y.red, d)), x, x.parent, tree)
    ensures Apart(c, a, x, b, y, d) && x.right == y && y.parent == x
    ensures Linked(a, x.left, x) && Linked(b, y.left, y) && Linked(d, y.right, y)
    ensures y.left == if b.Leaf? then null else b.n
    ensures x.parent == null <==> c == Top
    ensures c.InLeft? ==> x.parent == c.n && c.n.left == x && c.n.right != x
    ensures c.InRight? ==> x.parent == c.n && c.n.right == x && c.n.left != x
  {
    var t := Branch(b, y, y.red, d);
    SidesOf(c, Branch(a, x, x.red, t), x, x.parent, tree);
    assert Linked(t, x.right, x) && Distinct(t) && t.Nodes() == b.Nodes() + {y} + d.Nodes();
    LinkedRoot(b, y.left, y);
    RootInNodes(b);
  }

  lemma ZipOfLeft(c: Ctx, a: Tree, x: Node, b: Tree, y: Node, d: Tree, tree: Root)
    requires Apart(c, a, x, b, y, d) && LinkedUp(c, y, y.parent, tree)
    requires Linked(a, x.left, x) && Linked(b, x.right, x) && Linked(d, y.right, y) && x.parent == y && y.left == x
    ensures Zip(c, Branch(Branch(a, x, x.red, b), y, y.red, d), y, y.parent, tree)
  {
    var t := Branch(a, x, x.red, b);
    assert Linked(t, y.left, y) && Distinct(t) && t.Nodes() == a.Nodes() + {x} + b.Nodes();
  }

  /** The same for rb_rrotate, which looks at the right slot first. */
  method ReplaceFromRight(tree: Root, x: Node, y: Node)
    requires x != y && x.parent != y && Hangs(x)
    requires x.parent != null ==> x.parent.left != x.parent.right
    modifies tree, Only(x.parent)`left, Only(x.parent)`right, y`parent
    ensures y.parent == old(x.parent) && Replaced(tree, old(x.parent), x, y)
  {
    y.parent := x.parent;
    if x.parent == null {
      tree.root := y;
    } else if x == x.parent.right {
      x.parent.right := y;
    } else {
      x.parent.left := y;
    }
  }

  /** The pointer work of rb_rrotate on x and its left child. */
  method SwingRight(tree: Root, x: Node)
    requires x.left != null && x.left != x && x.parent != x && x.parent != x.left && Hangs(x)
    requires x.parent != null ==> x.parent.left != x.parent.right
    requires x.left.right != null ==> x.left.right !in {x, x.left, x.parent}
    modifies tree, {x, x.left}`left, {x, x.left}`right, {x, x.left}`parent
    modifies Only(x.parent)`left, Only(x.parent)`right, Only(x.left.right)`parent
    ensures var y := old(x.left);
            && x.right == old(x.right) && x.left == old(x.left.right) && x.parent == y
            && y.right == x && y.left == old(x.left.left) && y.parent == old(x.parent)
            && (x.left != null ==> x.left.parent == x)
            && Replaced(tree, y.parent, x, y)
  {
    var y := x.left;
    x.left := y.right;
    if y.right != null {
      y.right.parent := x;
    }
    ReplaceFromRight(tree, x, y);
    y.right := x;
    x.parent := y;
  }

  /** rb_rrotate: from (d y b) x a to d y (b x a) */
  method RRotate(tree: Root, x: Node, ghost c: Ctx, ghost d: Tree, ghost y: Node, ghost b: Tree, ghost a: Tree)
    requires Zip(c, Branch(Branch(d, y, y.red, b), x, x.red, a), x, x.parent, tree)
    modifies tree, (c.Nodes() + {x, y})`left, (c.Nodes() + {x, y})`right, ({x, y} + b.Nodes())`parent
    ensures Zip(c, Branch(d, y, y.red, Branch(b, x, x.red, a)), y, y.parent, tree)
  {
    PartsOfRight(c, a, x, b, y, d, tree);
    ghost var around := Turn(Hole(c, x, x.parent, tree, c.Nodes()), Spot(a, x.right, x, a.Nodes()),
                             Spot(b, y.right, y, b.Nodes()), Spot(d, y.left, y, d.Nodes()));
    SwingRight(tree, x);
    Rebuilt(around, x, y);
    ZipOfRight(c, a, x, b, y, d, tree);
  }

  lemma PartsOfRight(c: Ctx, a: Tree, x: Node, b: Tree, y: Node, d: Tree, tree: Root)
    requires Zip(c, Branch(Branch(d, y, y.red, b), x, x.red, a), x, x.parent, tree)
    ensures Apart(c, a, x, b, y, d) && x.left == y && y.parent == x
    ensures Linked(a, x.right, x) && Linked(b, y.right, y) && Linked(d, y.left, y)
    ensures y.right == if b.Leaf? then null else b.n
    ensures x.parent == null <==> c == Top
    ensures c.InLeft? ==> x.parent == c.n && c.n.left == x && c.n.right != x
    ensures c.InRight? ==> x.parent == c.n && c.n.right == x && c.n.left != x
  {
    var t := Branch(d, y, y.red, b);
    SidesOf(c, Branch(t, x, x.red, a), x, x.parent, tree);
    assert Linked(t, x.left, x) && Distinct(t) && t.Nodes() == d.Nodes() + {y} + b.Nodes();
    LinkedRoot(b, y.right, y);
    RootInNodes(b);
  }

  lemma ZipOfRight(c: Ctx, a: Tree, x: Node, b: Tree, y: Node, d: Tree, tree: Root)
    requires Apart(c, a, x, b, y, d) && LinkedUp(c, y, y.parent, tree)
    requires Linked(a, x.right, x) && Linked(b, x.left, x) && Linked(d, y.left, y) && x.parent == y && y.right == x
    ensures Zip(c, Branch(d, y, y.red, Branch(b, x, x.red, a)), y, y.parent, tree)
  {
    var t := Branch(b, x, x.red, a);
    assert Linked(t, y.right, y) && Distinct(t) && t.Nodes() == b.Nodes() + {x} + a.Nodes();
  }

  // ---- the insertion repair -----------------------------------------------------------------------

  /** A subtree whose root was recoloured and is otherwise unchanged. */
  twostate lemma Recoloured(s: Spot, new red: bool)
    requires old(Linked(s.t, s.x, s.p)) && Distinct(s.t) && s.nodes == s.t.Nodes() && s.t.Branch?
    requires unchanged(s.nodes - {s.x})
    requires s.x != null && unchanged((s.x)`left, (s.x)`right, (s.x)`parent) && s.x.red == red
    ensures Linked(s.t.(red := red), s.x, s.p)
  {
    var t, x := s.t, s.x;
    assert Linked(t.l, x.left, x) by { SameTree(Spot(t.l, x.left, x, t.l.Nodes())); }
    assert Linked(t.r, x.right, x) by { SameTree(Spot(t.r, x.right, x, t.r.Nodes())); }
  }

  /** Parent and grandparent as rb_fixins reads them. */
  lemma Elders(c: Ctx, t: Tree, x: Node, tree: Root)
    requires Zip(c, t, x, x.parent, tree) && HasGrand(c)
    ensures x.parent == c.n && c.n.parent == c.up.n && c.n.red == c.red && c.up.n.red == c.up.red
    ensures c.n == c.up.n.left <==> c.up.InLeft?
    ensures c.n == c.up.n.right <==> c.up.InRight?
    ensures x == c.n.left <==> c.InLeft?
    ensures x == c.n.right <==> c.InRight?
    ensures (if c.up.InLeft? then c.up.n.right else c.up.n.left) == if Uncle(c).Leaf? then null else Uncle(c).n
    ensures Uncle(c).Branch? ==> Uncle(c).n.red == Uncle(c).red
  {
    ZipUp(c, t, x, x.parent, tree);
    SidesOf(c, t, x, x.parent, tree);
    SidesOf(c.up, Up(c, t), c.n, c.n.parent, tree);
    if c.up.InLeft? { LinkedRoot(c.up.r, c.up.n.right, c.up.n); } else { LinkedRoot(c.up.l, c.up.n.left, c.up.n); }
  }

  /** The node in the same, and in the other, slot of n as the hole of c. */
  function SlotIn(c: Ctx, n: Node): Node?
    requires c != Top
    reads n
  {
    if c.InLeft? then n.left else n.right
  }

  function OtherSlot(c: Ctx, n: Node): Node?
    requires c != Top
    reads n
  {
    if c.InLeft? then n.right else n.left
  }

  /** Subtree, sibling, uncle, outer context and the two nodes between them share no node. */
  ghost predicate Scattered(c: Ctx, t: Tree)
    requires HasGrand(c)
  {
    var (p, g, s, u, gg) := (c.n, c.up.n, Sibling(c), Uncle(c), c.up.up);
    && Distinct(t) && Distinct(s) && Distinct(u) && DistinctUp(gg)
    && p != g && {p, g} !! t.Nodes() && {p, g} !! s.Nodes() && {p, g} !! u.Nodes() && {p, g} !! gg.Nodes()
    && t.Nodes() !! s.Nodes() && t.Nodes() !! u.Nodes() && t.Nodes() !! gg.Nodes()
    && s.Nodes() !! u.Nodes() && s.Nodes() !! gg.Nodes() && u.Nodes() !! gg.Nodes()
  }

  /** Two steps up: the pieces of the tree around parent and grandparent. */
  lemma Pieces(c: Ctx, t: Tree, x: Node, tree: Root)
    requires Zip(c, t, x, x.parent, tree) && HasGrand(c)
    ensures Scattered(c, t) && LinkedUp(c.up.up, c.up.n, c.up.n.parent, tree)
    ensures Linked(t, x, c.n) && Linked(Sibling(c), OtherSlot(c, c.n), c.n)
    ensures Linked(Uncle(c), OtherSlot(c.up, c.up.n), c.up.n)
  {
    ZipUp(c, t, x, x.parent, tree);
    ZipUp(c.up, Up(c, t), c.n, c.n.parent, tree);
  }

  /** The colours of parent, uncle and grandparent in the recolouring turn. */
  method RecolourThree(x: Node) returns (grandparent: Node)
    requires x.parent != null && x.parent.parent != null
    requires var g := x.parent.parent; g.left != null && g.right != null && g !in {x.parent, g.left, g.right}
    modifies {x.parent, x.parent.parent, x.parent.parent.left, x.parent.parent.right}`red
    ensures grandparent == x.parent.parent && grandparent.red && !x.parent.red
    ensures var bigUnc := if x.parent == grandparent.left then grandparent.right else grandparent.left;
            !bigUnc.red
  {
    var parent := x.parent;
    grandparent := parent.parent;
    var bigUnc := if parent == grandparent.left then grandparent.right else grandparent.left;
    parent.red := false;
    bigUnc.red := false;
    grandparent.red := true;
  }

  /** The pieces around parent and grandparent: the subtree and its sibling, the uncle, the outer context. */
  datatype Family = Family(t: Spot, s: Spot, u: Spot, up: Hole)

  ghost function FamilyOf(c: Ctx, t: Tree, x: Node, tree: Root): Family
    requires HasGrand(c)
    reads c.n, c.up.n
  {
    Family(Spot(t, x, c.n, t.Nodes()),
           Spot(Sibling(c), OtherSlot(c, c.n), c.n, Sibling(c).Nodes()),
           Spot(Uncle(c), OtherSlot(c.up, c.up.n), c.up.n, Uncle(c).Nodes()),
           Hole(c.up.up, c.up.n, c.up.n.parent, tree, c.up.up.Nodes()))
  }

  ghost predicate LinkedAt(s: Spot)
    reads s.t.Nodes()
  {
    Linked(s.t, s.x, s.p) && s.nodes == s.t.Nodes()
  }

  ghost predicate LinkedAround(h: Hole)
    reads (h.tree)`root, h.c.Nodes()
  {
    LinkedUp(h.c, h.x, h.p, h.tree) && h.nodes == h.c.Nodes()
  }

  /** The pieces after the recolouring. */
  twostate lemma PiecesRecoloured(f: Family)
    requires f.u.t.RootRed() && Distinct(f.u.t) && f.u.x != null
    requires old(LinkedAt(f.t) && LinkedAt(f.s) && LinkedAt(f.u) && LinkedAround(f.up))
    requires unchanged((f.up.tree)`root) && unchanged(f.t.nodes) && unchanged(f.s.nodes) && unchanged(f.up.nodes)
    requires unchanged(f.u.nodes - {f.u.x})
    requires unchanged((f.u.x)`left, (f.u.x)`right, (f.u.x)`parent) && !f.u.x.red
    ensures Linked(f.t.t, f.t.x, f.t.p) && Linked(f.s.t, f.s.x, f.s.p)
    ensures Linked(f.u.t.Black(), f.u.x, f.u.p) && LinkedUp(f.up.c, f.up.x, f.up.p, f.up.tree)
  {
    assert Linked(f.t.t, f.t.x, f.t.p) by { SameTree(f.t); }
    assert Linked(f.s.t, f.s.x, f.s.p) by { SameTree(f.s); }
    assert Linked(f.u.t.Black(), f.u.x, f.u.p) by { Recoloured(f.u, false); }
    assert LinkedUp(f.up.c, f.up.x, f.up.p, f.up.tree) by { SameCtx(f.up); }
  }

  /** The pieces when none of their nodes was touched. */
  twostate lemma PiecesKept(f: Family)
    requires old(LinkedAt(f.t) && LinkedAt(f.s) && LinkedAt(f.u) && LinkedAround(f.up))
    requires unchanged((f.up.tree)`root)
    requires unchanged(f.t.nodes) && unchanged(f.s.nodes) && unchanged(f.u.nodes) && unchanged(f.up.nodes)
    ensures Linked(f.t.t, f.t.x, f.t.p) && Linked(f.s.t, f.s.x, f.s.p)
    ensures Linked(f.u.t, f.u.x, f.u.p) && LinkedUp(f.up.c, f.up.x, f.up.p, f.up.tree)
  {
    assert Linked(f.t.t, f.t.x, f.t.p) by { SameTree(f.t); }
    assert Linked(f.s.t, f.s.x, f.s.p) by { SameTree(f.s); }
    assert Linked(f.u.t, f.u.x, f.u.p) by { SameTree(f.u); }
    assert LinkedUp(f.up.c, f.up.x, f.up.p, f.up.tree) by { SameCtx(f.up); }
  }

  /** The recolouring turn of rb_fixins. */
  method RecolourStep(tree: Root, x: Node, ghost c: Ctx, ghost t: Tree) returns (grandparent: Node)
    requires Zip(c, t, x, x.parent, tree) && HasGrand(c) && Uncle(c).RootRed()
    modifies (c.Nodes())`red
    ensures grandparent == c.up.n
    ensures Zip(c.up.up, Recolour(c, t), grandparent, grandparent.parent, tree)
  {
    Elders(c, t, x, tree);
    Pieces(c, t, x, tree);
    RootInNodes(Uncle(c));
    ghost var family := FamilyOf(c, t, x, tree);
    grandparent := RecolourThree(x);
    PiecesRecoloured(family);
    ZipRecoloured(c, t, x, tree);
  }

  lemma RecolouredApart(c: Ctx, t: Tree)
    requires HasGrand(c) && Scattered(c, t)
    ensures Distinct(Recolour(c, t)) && c.up.up.Nodes() !! Recolour(c, t).Nodes()
  {
    BlackOrder(Uncle(c));
    assert Distinct(Uncle(c).Black());
  }

  lemma ZipRecoloured(c: Ctx, t: Tree, x: Node, tree: Root)
    requires HasGrand(c)
    requires var (p, g) := (c.n, c.up.n);
             && Scattered(c, t) && LinkedUp(c.up.up, g, g.parent, tree)
             && Linked(t, x, p) && Linked(Sibling(c), OtherSlot(c, p), p)
             && Linked(Uncle(c).Black(), OtherSlot(c.up, g), g)
             && x == SlotIn(c, p) && p == SlotIn(c.up, g) && p.parent == g && !p.red && g.red
    ensures Zip(c.up.up, Recolour(c, t), c.up.n, c.up.n.parent, tree)
  {
    var parent := if c.InLeft? then Branch(t, c.n, false, c.r) else Branch(c.l, c.n, false, t);
    assert Linked(parent, c.n, c.up.n);
    RecolouredApart(c, t);
  }

  /** The first rotation of rb_fixins, when x is on the inner side; x ends up on the outer side. */
  method StraightenStep(tree: Root, x: Node, uncRight: bool, ghost c: Ctx, ghost t: Tree) returns (x': Node)
    requires Zip(c, t, x, x.parent, tree) && HasGrand(c) && t.Branch? && uncRight == c.up.InLeft?
    modifies tree, (c.Nodes() + t.Nodes())`left, (c.Nodes() + t.Nodes())`right, (c.Nodes() + t.Nodes())`parent
    ensures var v := Straightened(c, t); Zip(v.c, v.t, x', x'.parent, tree)
  {
    Elders(c, t, x, tree);
    var parent := x.parent;
    var inner := if uncRight then parent.right else parent.left;
    x' := x;
    if x == inner {
      x' := parent;
      ZipUp(c, t, x, x.parent, tree);
      RootInNodes(t);
      if uncRight {
        LRotate(tree, x', c.up, c.l, t.l, x, t.r);
        ZipLeft(c.up, Branch(Branch(c.l, c.n, c.red, t.l), t.n, t.red, t.r), x, x.parent, tree);
      } else {
        RRotate(tree, x', c.up, t.l, x, t.r, c.r);
        ZipRight(c.up, Branch(t.l, t.n, t.red, Branch(t.r, c.n, c.red, c.r)), x, x.parent, tree);
      }
    }
  }

  /** The context with a black parent below a red grandparent. */
  function Painted(c: Ctx): Ctx
    requires HasGrand(c)
  {
    c.(red := false, up := c.up.(red := true))
  }

  /** The recolouring before the second rotation. */
  method PaintStep(x: Node, ghost c: Ctx, ghost t: Tree, ghost tree: Root)
    requires Zip(c, t, x, x.parent, tree) && HasGrand(c)
    modifies {c.n, c.up.n}`red
    ensures Zip(Painted(c), t, x, x.parent, tree)
  {
    Elders(c, t, x, tree);
    Pieces(c, t, x, tree);
    ghost var family := FamilyOf(c, t, x, tree);
    var parent := x.parent;
    var grandparent := parent.parent;
    parent.red := false;
    grandparent.red := true;
    PiecesKept(family);
    ZipPainted(c, t, x, tree);
  }

  lemma ZipPainted(c: Ctx, t: Tree, x: Node, tree: Root)
    requires HasGrand(c)
    requires var (p, g) := (c.n, c.up.n);
             && Scattered(c, t) && LinkedUp(c.up.up, g, g.parent, tree)
             && Linked(t, x, p) && Linked(Sibling(c), OtherSlot(c, p), p)
             && Linked(Uncle(c), OtherSlot(c.up, g), g) && x.parent == p
             && x == SlotIn(c, p) && p == SlotIn(c.up, g) && p.parent == g && !p.red && g.red
    ensures Zip(Painted(c), t, x, x.parent, tree)
  {
    assert LinkedUp(Painted(c).up, c.n, c.up.n, tree) && DistinctUp(Painted(c).up);
  }

  /** The last turn of rb_fixins: parent black, grandparent red and rotated below the parent. */
  method TurnStep(tree: Root, x: Node, uncRight: bool, ghost c: Ctx, ghost t: Tree)
    requires Zip(c, t, x, x.parent, tree) && HasGrand(c) && t.Branch?
    requires !Inner(c) && uncRight == c.up.InLeft?
    modifies tree, (c.Nodes() + t.Nodes())`left, (c.Nodes() + t.Nodes())`right
    modifies (c.Nodes() + t.Nodes())`parent, (c.Nodes() + t.Nodes())`red
    ensures var w := Turned(c, t); Zip(w.c, w.t, x, x.parent, tree)
  {
    PaintStep(x, c, t, tree);
    ghost var k := Painted(c);
    Elders(k, t, x, tree);
    ZipUp(k, t, x, x.parent, tree);
    ZipUp(k.up, Up(k, t), k.n, k.n.parent, tree);
    RootInNodes(t);
    ghost var p, g := c.n, c.up.n;
    var grandparent := x.parent.parent;
    if uncRight {
      RRotate(tree, grandparent, c.up.up, t, p, c.r, c.up.r);
      ZipLeft(c.up.up, Branch(t, p, false, Branch(c.r, g, true, c.up.r)), p, p.parent, tree);
    } else {
      LRotate(tree, grandparent, c.up.up, c.up.l, c.l, p, t);
      ZipRight(c.up.up, Branch(Branch(c.up.l, g, true, c.l), p, false, t), p, p.parent, tree);
    }
  }

  /** The root pointer leads to x exactly when nothing is above the hole. */
  lemma {:induction false} RootOfZip(c: Ctx, t: Tree, x: Node, p: Node?, tree: Root)
    requires Zip(c, t, x, p, tree)
    ensures tree.root == if c == Top then x else RootOf(c).n
    ensures c != Top ==> RootOf(c).n in c.Nodes() && RootOf(c).n != x
    decreases c
  {
    RootInNodes(t);
    if c != Top {
      ZipUp(c, t, x, p, tree);
      RootOfZip(c.up, Up(c, t), c.n, c.n.parent, tree);
    }
  }

  /** One turn of rb_fixins with a black uncle. */
  method RotateStep(tree: Root, x: Node, ghost c: Ctx, ghost t: Tree) returns (x': Node, ghost w: View)
    requires Zip(c, t, x, x.parent, tree) && Repairable(c, t) && Conflict(c) && HasGrand(c) && !Uncle(c).RootRed()
    modifies tree, AllNodes(c, t)`left, AllNodes(c, t)`right, AllNodes(c, t)`parent, AllNodes(c, t)`red
    ensures Zip(w.c, w.t, x', x'.parent, tree) && Repairable(w.c, w.t) && !Conflict(w.c)
    ensures Fixed(w.c, w.t) == Fixed(c, t) && AllNodes(w.c, w.t) == AllNodes(c, t)
  {
    Elders(c, t, x, tree);
    TurnedIsFixed(c, t);
    ghost var v := Straightened(c, t);
    StraightenedNodes(c, t);
    TurnedNodes(v.c, v.t);
    var uncRight := x.parent == x.parent.parent.left;
    x' := StraightenStep(tree, x, uncRight, c, t);
    TurnStep(tree, x', uncRight, v.c, v.t);
    w := Turned(v.c, v.t);
  }

  /** One turn of the loop of rb_fixins. */
  method FixTurn(tree: Root, x: Node, ghost c: Ctx, ghost t: Tree) returns (x': Node, ghost w: View)
    requires Zip(c, t, x, x.parent, tree) && Repairable(c, t) && Conflict(c)
    modifies tree, AllNodes(c, t)`left, AllNodes(c, t)`right, AllNodes(c, t)`parent, AllNodes(c, t)`red
    ensures Zip(w.c, w.t, x', x'.parent, tree) && Repairable(w.c, w.t)
    ensures Fixed(w.c, w.t) == Fixed(c, t) && AllNodes(w.c, w.t) == AllNodes(c, t)
    ensures Conflict(w.c) ==> w.c.Depth() < c.Depth()
  {
    RecolourRepairable(c, t);
    Elders(c, t, x, tree);
    var parent := x.parent;
    var grandparent := parent.parent;
    var bigUnc := if parent == grandparent.left then grandparent.right else grandparent.left;
    if bigUnc != null && bigUnc.red {
      RecolourNodes(c, t);
      x' := RecolourStep(tree, x, c, t);
      w := View(c.up.up, Recolour(c, t));
    } else {
      x', w := RotateStep(tree, x, c, t);
    }
  }

  /** The loop test of rb_fixins asks whether the node in the hole has a red parent. */
  lemma LoopTest(c: Ctx, t: Tree, x: Node, tree: Root)
    requires Zip(c, t, x, x.parent, tree)
    ensures x == tree.root <==> c == Top
    ensures c != Top ==> x.parent == c.n && c.n.red == c.red
  {
    RootOfZip(c, t, x, x.parent, tree);
    SidesOf(c, t, x, x.parent, tree);
  }

  /** rb_fixins */
  method FixIns(tree: Root, x0: Node, ghost c0: Ctx, ghost t0: Tree)
    requires Zip(c0, t0, x0, x0.parent, tree) && Repairable(c0, t0)
    modifies tree, AllNodes(c0, t0)`left, AllNodes(c0, t0)`right, AllNodes(c0, t0)`parent, AllNodes(c0, t0)`red
    ensures Spells(tree, Fixed(c0, t0))
  {
    var x := x0;
    ghost var v := View(c0, t0);
    LoopTest(v.c, v.t, x, tree);
    while x != tree.root && x.parent.red
      invariant Zip(v.c, v.t, x, x.parent, tree) && Repairable(v.c, v.t)
      invariant x == tree.root <==> v.c == Top
      invariant v.c != Top ==> x.parent == v.c.n && v.c.n.red == v.c.red
      invariant Fixed(v.c, v.t) == Fixed(c0, t0) && AllNodes(v.c, v.t) == AllNodes(c0, t0)
      decreases if Conflict(v.c) then v.c.Depth() + 1 else 0
    {
      x, v := FixTurn(tree, x, v.c, v.t);
      LoopTest(v.c, v.t, x, tree);
    }
    BlackenRoot(tree, v.c, v.t, x);
  }

  /** The last line of rb_fixins. */
  method BlackenRoot(tree: Root, ghost c: Ctx, ghost t: Tree, ghost x: Node)
    requires Zip(c, t, x, x.parent, tree)
    modifies AllNodes(c, t)`red
    ensures Spells(tree, c.Plug(t).Black())
  {
    ZipOut(c, t, x, x.parent, tree);
    PlugNodes(c, t);
    RootOfZip(c, t, x, x.parent, tree);
    ghost var whole := c.Plug(t);
    if c != Top { PlugRoot(c, t); }
    tree.root.red := false;
    assert Linked(whole.Black(), tree.root, null) by {
      Recoloured(Spot(whole, tree.root, null, whole.Nodes()), false);
    }
  }

  // ---- insertion ----------------------------------------------------------------------------------

  /** A pointer to a pointer to a node (struct rb_node **). */
  datatype Link = AtRoot | LeftOf(n: Node) | RightOf(n: Node)

  /** What the link points at. */
  function Load(tree: Root, link: Link): Node?
    reads tree, if link.AtRoot? then {} else {link.n}
  {
    match link
    case AtRoot => tree.root
    case LeftOf(n) => n.left
    case RightOf(n) => n.right
  }

  /** The link is made to point at a node. */
  method Store(tree: Root, link: Link, node: Node?)
    modifies tree, (if link.LeftOf? then {link.n} else {})`left, (if link.RightOf? then {link.n} else {})`right
    ensures link.AtRoot? ==> tree.root == node
    ensures !link.AtRoot? ==> unchanged(tree`root)
    ensures link.LeftOf? ==> link.n.left == node
    ensures link.RightOf? ==> link.n.right == node
  {
    match link
    case AtRoot => tree.root := node;
    case LeftOf(n) => n.left := node;
    case RightOf(n) => n.right := node;
  }

  /** The link that points at the hole. */
  function LinkTo(c: Ctx): Link
  {
    match c
    case Top => AtRoot
    case InLeft(n, _, _, _) => LeftOf(n)
    case InRight(_, n, _, _) => RightOf(n)
  }

  /** rb_insert: a new red node at a null link, then the repair. */
  method Insert(tree: Root, node: Node?, parent: Node?, link: Link, ghost c: Ctx)
    requires node != null ==>
               && Zip(c, Leaf, null, parent, tree) && link == LinkTo(c)
               && node !in c.Nodes() && c.Plug(Leaf).RedBlack()
    modifies tree, (c.Nodes() + Only(node))`left, (c.Nodes() + Only(node))`right
    modifies (c.Nodes() + Only(node))`parent, (c.Nodes() + Only(node))`red
    ensures node == null ==> unchanged(tree`root)
    ensures node != null ==>
              var t := Fixed(c, Branch(Leaf, node, true, Leaf));
              && Spells(tree, t) && t.RedBlack() && t.Nodes() == c.Nodes() + {node}
              && t.Order() == c.Before() + [node] + c.After()
  {
    if node == null { return; }
    ghost var t := Branch(Leaf, node, true, Leaf);
    node.left := null;
    node.right := null;
    node.parent := parent;
    node.red := true;
    if c != Top { assert c.n in c.Nodes(); }
    Store(tree, link, node);
    assert LinkedUp(c, node, parent, tree) by { Refilled(Hole(c, null, parent, tree, c.Nodes()), node); }
    InsertRedBlack(c, node);
    assert Repairable(c, t) by {
      if c != Top { PlugRoot(c, Leaf); }
      UnplugBalanced(c, Leaf);
    }
    FixedNodes(c, t);
    FixIns(tree, node, c, t);
  }
}
