/**
 rb_remove of kernel/rbtree.c, wherever the node it takes out of the links is red or has a child. Then
 no repair is called, and the deletion keeps the red-black conditions and the order of the others.
 */
module RbRemove {
  import opened RbTrees
  import opened RbHeap

  // ---- on values ----------------------------------------------------------------------------------

  /** What takes the place of a node with at most one child. */
  function Joined(l: Tree, r: Tree): Tree
    requires l.Leaf? || r.Leaf?
  {
    if l.Branch? then l.Black() else r.Black()
  }

  /** The subtree at the leftmost node. */
  function Lowest(t: Tree): (low: Tree)
    requires t.Branch?
    ensures low.Branch? && low.l.Leaf?
  {
    if t.l.Leaf? then t else Lowest(t.l)
  }

  /** The way down to the leftmost node. */
  function PathToLowest(t: Tree, up: Ctx): Ctx
    requires t.Branch?
    decreases t
  {
    if t.l.Leaf? then up else PathToLowest(t.l, InLeft(t.n, t.red, t.r, up))
  }

  function WithoutLowest(t: Tree): Tree
    requires t.Branch?
  {
    if t.l.Leaf? then t.r.Black() else Branch(WithoutLowest(t.l), t.n, t.red, t.r)
  }

  /** The node that leaves the links is red or has a child, so that rb_fixdel is not called. */
  predicate Clean(l: Tree, red: bool, r: Tree)
  {
    if l.Leaf? || r.Leaf? then red || l.Branch? || r.Branch?
    else Lowest(r).red || Lowest(r).r.Branch?
  }

  /** The subtree that ends up in the hole. */
  function Kept(l: Tree, red: bool, r: Tree): Tree
  {
    if l.Leaf? || r.Leaf? then Joined(l, r) else Branch(l, Lowest(r).n, red, WithoutLowest(r))
  }

  /** The tree after the removal of the node between l and r in the hole of c. */
  function Removed(c: Ctx, l: Tree, red: bool, r: Tree): Tree
  {
    c.Plug(Kept(l, red, r))
  }

  lemma {:induction false} PathSplits(t: Tree, up: Ctx)
    requires t.Branch?
    ensures PathToLowest(t, up).Plug(Lowest(t)) == up.Plug(t)
    ensures PathToLowest(t, up).Plug(Lowest(t).r.Black()) == up.Plug(WithoutLowest(t))
    decreases t
  {
    if t.l.Branch? { PathSplits(t.l, InLeft(t.n, t.red, t.r, up)); }
  }

  lemma {:induction false} WithoutLowestOrder(t: Tree)
    requires t.Branch?
    ensures t.Order() == [Lowest(t).n] + WithoutLowest(t).Order()
  {
    if t.l.Leaf? { BlackOrder(t.r); } else { WithoutLowestOrder(t.l); }
  }

  lemma KeptOrder(l: Tree, red: bool, r: Tree)
    ensures Kept(l, red, r).Order() == l.Order() + r.Order()
  {
    if l.Leaf? || r.Leaf? {
      BlackOrder(l);
      BlackOrder(r);
    } else {
      WithoutLowestOrder(r);
      var a, m, w := l.Order(), Lowest(r).n, WithoutLowest(r).Order();
      assert (a + [m]) + w == a + ([m] + w);
    }
  }

  /** Removal takes exactly one node out of the sequence. */
  lemma RemovedOrder(c: Ctx, l: Tree, n: Node, red: bool, r: Tree)
    ensures c.Plug(Branch(l, n, red, r)).Order() == c.Before() + (l.Order() + [n] + r.Order()) + c.After()
    ensures Removed(c, l, red, r).Order() == c.Before() + (l.Order() + r.Order()) + c.After()
  {
    PlugOrder(c, Branch(l, n, red, r));
    PlugOrder(c, Kept(l, red, r));
    KeptOrder(l, red, r);
  }

  /** A tree with another subtree of the same black height in the hole, black at its root. */
  lemma Refitted(c: Ctx, t: Tree, s: Tree)
    requires c.Plug(t).RedBlack()
    requires t.Balanced() && c.Accepts(t.BlackHeight()) ==>
               s.Balanced() && s.BlackHeight() == t.BlackHeight() && (s.RootRed() ==> t.RootRed())
    ensures c.Plug(s).RedBlack()
  {
    if c != Top { PlugRoot(c, t); PlugRoot(c, s); }
    UnplugBalanced(c, t);
    PlugBalanced(c, s);
  }

  /** The only child of a node in a red-black tree is red, and the node is black. */
  lemma JoinedRedBlack(c: Ctx, l: Tree, n: Node, red: bool, r: Tree)
    requires c.Plug(Branch(l, n, red, r)).RedBlack() && (l.Leaf? || r.Leaf?) && Clean(l, red, r)
    ensures c.Plug(Joined(l, r)).RedBlack()
  {
    var t, s := Branch(l, n, red, r), Joined(l, r);
    if t.Balanced() && s.Branch? {
      var child := if l.Branch? then l else r;
      assert child.Balanced() && child.BlackHeight() == 0 && child.red && !red;
      assert child.l.Balanced() && child.r.Balanced();
    }
    Refitted(c, t, s);
  }

  /** Removal on the paths without repair keeps the red-black conditions. */
  lemma RemovedRedBlack(c: Ctx, l: Tree, n: Node, red: bool, r: Tree)
    requires c.Plug(Branch(l, n, red, r)).RedBlack() && Clean(l, red, r)
    ensures Removed(c, l, red, r).RedBlack()
  {
    if l.Leaf? || r.Leaf? {
      JoinedRedBlack(c, l, n, red, r);
    } else {
      var up, low := InRight(l, n, red, c), Lowest(r);
      PathSplits(r, up);
      JoinedRedBlack(PathToLowest(r, up), Leaf, low.n, low.red, low.r);
      Refitted(c, Branch(l, n, red, WithoutLowest(r)), Branch(l, low.n, red, WithoutLowest(r)));
    }
  }

  // ---- in memory ----------------------------------------------------------------------------------

  /** Context, node and the two subtrees below it share no node. */
  ghost predicate Around(c: Ctx, l: Tree, n: Node, r: Tree)
  {
    && DistinctUp(c) && Distinct(l) && Distinct(r)
    && n !in c.Nodes() + l.Nodes() + r.Nodes()
    && c.Nodes() !! l.Nodes() && c.Nodes() !! r.Nodes() && l.Nodes() !! r.Nodes()
    && (c != Top ==> c.n in c.Nodes()) && (l.Branch? ==> l.n in l.Nodes()) && (r.Branch? ==> r.n in r.Nodes())
  }

  function RootNode(t: Tree): Node? { if t.Leaf? then null else t.n }

  lemma Parts(c: Ctx, l: Tree, n: Node, r: Tree, tree: Root)
    requires Zip(c, Branch(l, n, n.red, r), n, n.parent, tree)
    ensures Around(c, l, n, r) && LinkedUp(c, n, n.parent, tree)
    ensures Linked(l, n.left, n) && Linked(r, n.right, n)
    ensures n.left == RootNode(l) && n.right == RootNode(r)
  {
    var t := Branch(l, n, n.red, r);
    assert Linked(t, n, n.parent) && Distinct(t) && t.Nodes() == l.Nodes() + {n} + r.Nodes();
    LinkedRoot(l, n.left, n);
    LinkedRoot(r, n.right, n);
    RootInNodes(l);
    RootInNodes(r);
  }

  lemma Assembled(c: Ctx, l: Tree, n: Node, r: Tree, tree: Root)
    requires Around(c, l, n, r) && LinkedUp(c, n, n.parent, tree)
    requires Linked(l, n.left, n) && Linked(r, n.right, n)
    ensures Spells(tree, c.Plug(Branch(l, n, n.red, r)))
  {
    var t := Branch(l, n, n.red, r);
    assert Linked(t, n, n.parent) && Distinct(t) && t.Nodes() == l.Nodes() + {n} + r.Nodes();
    ZipOut(c, t, n, n.parent, tree);
  }

  /** The pointer that leads to the node: parent_ptr_node. */
  function PointerTo(tree: Root, node: Node): Link
    requires node != tree.root ==> node.parent != null
    reads tree, node, node.parent
  {
    if node == tree.root then AtRoot
    else if node == node.parent.left then LeftOf(node.parent)
    else RightOf(node.parent)
  }

  lemma PointerIsLink(c: Ctx, t: Tree, node: Node, tree: Root)
    requires Zip(c, t, node, node.parent, tree)
    ensures node != tree.root ==> node.parent != null
    ensures PointerTo(tree, node) == LinkTo(c)
  {
    RootOfZip(c, t, node, node.parent, tree);
    SidesOf(c, t, node, node.parent, tree);
  }

  /** A subtree whose root got a new parent and turned black. */
  twostate lemma Lifted(s: Spot, new q: Node?)
    requires old(Linked(s.t, s.x, s.p)) && Distinct(s.t) && s.nodes == s.t.Nodes() && s.t.Branch?
    requires unchanged(s.nodes - {s.x})
    requires s.x != null && unchanged((s.x)`left, (s.x)`right) && s.x.parent == q && !s.x.red
    ensures Linked(s.t.Black(), s.x, q)
  {
    var t, x := s.t, s.x;
    RootInNodes(t);
    assert Linked(t.l, x.left, x) by { SameTree(Spot(t.l, x.left, x, t.l.Nodes())); }
    assert Linked(t.r, x.right, x) by { SameTree(Spot(t.r, x.right, x, t.r.Nodes())); }
  }

  /** The only child of rb_remove takes the place of the node, in black. */
  method LiftChild(tree: Root, node: Node, x: Node, link: Link)
    requires !link.AtRoot? ==> link.n !in {node, x}
    modifies tree, Target(link)`left, Target(link)`right, x`parent, x`red
    ensures Stored(tree, link, x) && x.parent == node.parent && !x.red
  {
    Store(tree, link, x);
    x.parent := node.parent;
    x.red := false;
  }

  ghost function Target(link: Link): set<Node> { if link.AtRoot? then {} else {link.n} }

  /** The link was overwritten and its neighbour was not. */
  twostate predicate Stored(tree: Root, link: Link, x: Node?)
    reads tree, Target(link)
  {
    match link
    case AtRoot => tree.root == x
    case LeftOf(n) => n.left == x && unchanged(n`right, n`parent, n`red) && unchanged(tree`root)
    case RightOf(n) => n.right == x && unchanged(n`left, n`parent, n`red) && unchanged(tree`root)
  }

  /** The first two cases of rb_remove: no child, or one child that moves up and turns black. */
  method Unlink(tree: Root, node: Node, link: Link, ghost c: Ctx, ghost l: Tree, ghost r: Tree)
    requires Zip(c, Branch(l, node, node.red, r), node, node.parent, tree) && link == LinkTo(c)
    requires (l.Leaf? || r.Leaf?) && Clean(l, node.red, r)
    modifies tree, (c.Nodes())`left, (c.Nodes())`right, (l.Nodes() + r.Nodes())`parent, (l.Nodes() + r.Nodes())`red
    ensures Spells(tree, c.Plug(Joined(l, r)))
  {
    ghost var child, p := if l.Branch? then l else r, node.parent;
    Parts(c, l, node, r, tree);
    if node.left == null && node.right == null {
      Store(tree, link, null);
      assert LinkedUp(c, null, p, tree) by { Refilled(Hole(c, node, p, tree, c.Nodes()), null); }
      ZipOut(c, Leaf, null, p, tree);
    } else {
      var x := if node.left != null then node.left else node.right;
      LiftChild(tree, node, x, link);
      assert LinkedUp(c, x, p, tree) by { Refilled(Hole(c, node, p, tree, c.Nodes()), x); }
      assert Linked(child.Black(), x, p) by { Lifted(Spot(child, x, node, child.Nodes()), p); }
      BlackOrder(child);
      ZipOut(c, child.Black(), x, p, tree);
    }
  }

  /** The pointer work of the last lines of rb_remove: x takes the place of node. */
  method Occupy(tree: Root, node: Node, x: Node, link: Link)
    requires node != x && Target(link) !! {node, x}
    requires node.left != node.right || node.left == null
    requires Only(node.left) !! Target(link) + {node, x} && Only(node.right) !! Target(link) + {node, x}
    modifies tree, (Target(link) + {x})`left, (Target(link) + {x})`right
    modifies (Only(node.left) + Only(node.right) + {x})`parent, x`red
    ensures Stored(tree, link, x)
    ensures x.left == node.left && x.right == node.right && x.red == node.red && x.parent == node.parent
    ensures x.left != null ==> x.left.parent == x
    ensures x.right != null ==> x.right.parent == x
  {
    Store(tree, link, x);
    x.left := node.left;
    if x.left != null { x.left.parent := x; }
    x.right := node.right;
    if x.right != null { x.right.parent := x; }
    x.red := node.red;
    x.parent := node.parent;
  }

  /** The last lines of rb_remove: x, which is not in the tree, takes the place of node. */
  method Substitute(tree: Root, node: Node, x: Node, link: Link, ghost c: Ctx, ghost l: Tree, ghost r: Tree)
    requires Zip(c, Branch(l, node, node.red, r), node, node.parent, tree) && link == LinkTo(c)
    requires x !in c.Nodes() + l.Nodes() + r.Nodes() + {node}
    modifies tree, (c.Nodes() + {x})`left, (c.Nodes() + {x})`right, (l.Nodes() + r.Nodes() + {x})`parent, x`red
    ensures Spells(tree, c.Plug(Branch(l, x, node.red, r)))
  {
    ghost var p, pl, pr := node.parent, node.left, node.right;
    Parts(c, l, node, r, tree);
    Occupy(tree, node, x, link);
    assert LinkedUp(c, x, p, tree) by { Refilled(Hole(c, node, p, tree, c.Nodes()), x); }
    assert Linked(l, pl, x) by { Reparented(Spot(l, pl, node, l.Nodes()), x); }
    assert Linked(r, pr, x) by { Reparented(Spot(r, pr, node, r.Nodes()), x); }
    Assembled(c, l, x, r, tree);
  }

  /** The search of rb_remove for the leftmost node of the right subtree. */
  method Successor(tree: Root, node: Node, ghost c: Ctx, ghost l: Tree, ghost r: Tree) returns (x: Node)
    requires Zip(c, Branch(l, node, node.red, r), node, node.parent, tree) && r.Branch?
    ensures x == Lowest(r).n && x.red == Lowest(r).red
    ensures Zip(PathToLowest(r, InRight(l, node, node.red, c)), Lowest(r), x, x.parent, tree)
  {
    ghost var k, s := InRight(l, node, node.red, c), r;
    ghost var path := PathToLowest(s, k);
    ZipRight(c, Branch(l, node, node.red, r), node, node.parent, tree);
    x := node.right;
    while x.left != null
      invariant s.Branch? && x == s.n && Zip(k, s, x, x.parent, tree)
      invariant Lowest(s) == Lowest(r) && PathToLowest(s, k) == path
      decreases s
    {
      x, k, s := StepLeft(tree, x, k, s);
    }
    Parts(k, s.l, x, s.r, tree);
  }

  method StepLeft(ghost tree: Root, x: Node, ghost k: Ctx, ghost s: Tree)
    returns (y: Node, ghost k': Ctx, ghost s': Tree)
    requires s.Branch? && Zip(k, s, x, x.parent, tree) && x.left != null
    ensures y == x.left && s' == s.l && k' == InLeft(s.n, s.red, s.r, k)
    ensures s'.Branch? && y == s'.n && Zip(k', s', y, y.parent, tree)
  {
    ZipLeft(k, s, x, x.parent, tree);
    y, k', s' := x.left, InLeft(s.n, s.red, s.r, k), s.l;
  }

  /** rb_remove of a node that is there. */
  method RemoveAt(tree: Root, node: Node, ghost c: Ctx, ghost l: Tree, ghost r: Tree)
    requires Zip(c, Branch(l, node, node.red, r), node, node.parent, tree) && Clean(l, node.red, r)
    modifies tree, (c.Nodes() + l.Nodes() + r.Nodes() + {node})`left, (c.Nodes() + l.Nodes() + r.Nodes() + {node})`right
    modifies (l.Nodes() + r.Nodes())`parent, (l.Nodes() + r.Nodes())`red
    ensures Spells(tree, Removed(c, l, old(node.red), r))
    decreases l.Branch? && r.Branch?
  {
    Parts(c, l, node, r, tree);
    PointerIsLink(c, Branch(l, node, node.red, r), node, tree);
    var link := PointerTo(tree, node);
    if node.left == null || node.right == null {
      Unlink(tree, node, link, c, l, r);
    } else {
      var x := Successor(tree, node, c, l, r);
      PathNodes(r, InRight(l, node, node.red, c));
      ghost var red := node.red;
      RemoveAt(tree, x, PathToLowest(r, InRight(l, node, red, c)), Leaf, Lowest(r).r);
      PathSplits(r, InRight(l, node, red, c));
      BackToNode(c, l, node, red, r, tree);
      Substitute(tree, node, x, link, c, l, WithoutLowest(r));
    }
  }

  /** With the successor gone, the node is where it was. */
  lemma BackToNode(c: Ctx, l: Tree, n: Node, red: bool, r: Tree, tree: Root)
    requires r.Branch? && Distinct(r) && Around(c, l, n, r)
    requires Spells(tree, c.Plug(Branch(l, n, red, WithoutLowest(r))))
    ensures n.red == red && Zip(c, Branch(l, n, red, WithoutLowest(r)), n, n.parent, tree)
    ensures Lowest(r).n !in c.Nodes() + l.Nodes() + WithoutLowest(r).Nodes() + {n}
  {
    var y, p := ZipIn(c, Branch(l, n, red, WithoutLowest(r)), tree);
    LowestGone(r);
  }

  lemma {:induction false} LowestGone(t: Tree)
    requires t.Branch? && Distinct(t)
    ensures Lowest(t).n in t.Nodes() && WithoutLowest(t).Nodes() == t.Nodes() - {Lowest(t).n}
  {
    if t.l.Branch? { LowestGone(t.l); } else { BlackOrder(t.r); }
  }

  /** rb_remove */
  method Remove(tree: Root, node: Node?, ghost c: Ctx, ghost l: Tree, ghost r: Tree) returns (removed: Node?)
    requires node != null ==>
               Zip(c, Branch(l, node, node.red, r), node, node.parent, tree) && Clean(l, node.red, r)
    modifies tree, (c.Nodes() + l.Nodes() + r.Nodes() + Only(node))`left
    modifies (c.Nodes() + l.Nodes() + r.Nodes() + Only(node))`right
    modifies (l.Nodes() + r.Nodes())`parent, (l.Nodes() + r.Nodes())`red
    ensures removed == node
    ensures node == null ==> unchanged(tree`root)
    ensures node != null ==> Spells(tree, Removed(c, l, old(node.red), r))
  {
    if node == null { return null; }
    RemoveAt(tree, node, c, l, r);
    return node;
  }

  lemma {:induction false} PathNodes(t: Tree, up: Ctx)
    requires t.Branch?
    ensures PathToLowest(t, up).Nodes() <= up.Nodes() + t.Nodes()
    ensures Lowest(t).Nodes() <= t.Nodes() && WithoutLowest(t).Nodes() <= t.Nodes()
    decreases t
  {
    if t.l.Branch? { PathNodes(t.l, InLeft(t.n, t.red, t.r, up)); } else { BlackOrder(t.r); }
  }

  // ---- the path left out: a black node without children -------------------------------------------

  /** Taking out a black leaf breaks the red-black conditions unless it is alone, so a repair is due. */
  lemma BlackLeafNeedsRepair(c: Ctx, n: Node)
    requires c.Plug(Branch(Leaf, n, false, Leaf)).RedBlack()
    ensures Removed(c, Leaf, false, Leaf).RedBlack() <==> c == Top
  {
    if c != Top {
      PlugRoot(c, Leaf);
      PlugRoot(c, Branch(Leaf, n, false, Leaf));
      UnplugBalanced(c, Branch(Leaf, n, false, Leaf));
      if c.Plug(Leaf).RedBlack() { UnplugBalanced(c, Leaf); }
    }
  }

  /** Removal without repair keeps the red-black conditions of a tree exactly on the paths that call none,
      and for the last node. */
  lemma RemovedIff(c: Ctx, l: Tree, n: Node, red: bool, r: Tree)
    requires c.Plug(Branch(l, n, red, r)).RedBlack()
    ensures Removed(c, l, red, r).RedBlack() <==> Clean(l, red, r) || (c == Top && l.Leaf? && r.Leaf?)
  {
    if Clean(l, red, r) {
      RemovedRedBlack(c, l, n, red, r);
    } else if l.Leaf? || r.Leaf? {
      BlackLeafNeedsRepair(c, n);
    } else {
      var up, low, w := InRight(l, n, red, c), Lowest(r), WithoutLowest(r);
      PathSplits(r, up);
      InsidePath(r, up);
      BlackLeafNeedsRepair(PathToLowest(r, up), low.n);
      if c.Plug(Branch(l, low.n, red, w)).RedBlack() {
        Refitted(c, Branch(l, low.n, red, w), Branch(l, n, red, w));
        assert false;
      }
    }
  }

  lemma {:induction false} InsidePath(t: Tree, up: Ctx)
    requires t.Branch? && up != Top
    ensures PathToLowest(t, up) != Top
    decreases t
  {
    if t.l.Branch? { InsidePath(t.l, InLeft(t.n, t.red, t.r, up)); }
  }

  /** The first lines of rb_fixdel on x follow a null pointer: x has no parent, or the slot it takes for
      the sibling's is empty. */
  ghost predicate RepairFollowsNull(tree: Root, x: Node)
    reads tree, x, x.parent
  {
    x != tree.root && !x.red
    && (x.parent == null || (if x.parent.left == x then x.parent.right else x.parent.left) == null)
  }

  /** rb_remove calls rb_fixdel when the links no longer lead to the leaf. The sibling is then found
      exactly when the leaf was a right child. */
  lemma RepairComesTooLate(c: Ctx, n: Node, tree: Root)
    requires c.Plug(Branch(Leaf, n, false, Leaf)).RedBlack() && n !in c.Nodes() && !n.red
    requires Zip(c, Leaf, null, n.parent, tree)
    ensures RepairFollowsNull(tree, n) <==> !c.InRight?
  {
    ZipOut(c, Leaf, null, n.parent, tree);
    PlugNodes(c, Leaf);
    LinkedRoot(c.Plug(Leaf), tree.root, null);
    RootInNodes(c.Plug(Leaf));
    if c != Top { PlugRoot(c, Branch(Leaf, n, false, Leaf)); }
    UnplugBalanced(c, Branch(Leaf, n, false, Leaf));
    if c.InRight? {
      LinkedRoot(c.l, c.n.left, c.n);
      RootInNodes(c.l);
    }
  }
}
