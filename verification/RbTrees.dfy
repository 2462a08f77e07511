/**
 Red-black trees as values: shapes with a hole, the insertion repair of kernel/rbtree.c as a function
 on them, and why it restores the red-black conditions without touching the order of the nodes.
 */
module RbTrees {
  import opened Powers

  /** struct rb_node, together with the record that embeds it (kernel_vma_t in kernel/mm/vma.h). */
  class Node {
    var left: Node?
    var right: Node?
    var parent: Node?
    var red: bool

    var vmStart: nat
    var vmEnd: nat
    var vmFlags: nat

    constructor (start: nat, end: nat, flags: nat)
      ensures vmStart == start && vmEnd == end && vmFlags == flags
    {
      left, right, parent, red := null, null, null, false;
      vmStart, vmEnd, vmFlags := start, end, flags;
    }
  }

  datatype Tree = Leaf | Branch(l: Tree, n: Node, red: bool, r: Tree)
  {
    ghost function Nodes(): set<Node>
    {
      match this
      case Leaf => {}
      case Branch(l, n, _, r) => l.Nodes() + {n} + r.Nodes()
    }

    /** The nodes from left to right. */
    function Order(): seq<Node>
    {
      match this
      case Leaf => []
      case Branch(l, n, _, r) => l.Order() + [n] + r.Order()
    }

    function Height(): nat
    {
      match this
      case Leaf => 0
      case Branch(l, _, _, r) => 1 + if l.Height() < r.Height() then r.Height() else l.Height()
    }

    predicate RootRed() { Branch? && red }

    function Black(): Tree { if Leaf? then Leaf else Branch(l, n, false, r) }

    /** Black nodes on the leftmost path. */
    function BlackHeight(): nat
    {
      match this
      case Leaf => 0
      case Branch(l, _, red, _) => l.BlackHeight() + if red then 0 else 1
    }

    /** No red node has a red child, and all paths down have the same number of black nodes. */
    predicate Balanced()
    {
      match this
      case Leaf => true
      case Branch(l, _, red, r) =>
        && l.Balanced() && r.Balanced() && l.BlackHeight() == r.BlackHeight()
        && (red ==> !l.RootRed() && !r.RootRed())
    }

    /** The red-black conditions. */
    predicate RedBlack() { Balanced() && !RootRed() }
  }

  /** A tree with a hole: the path from the hole up to the root with the siblings it passes. */
  datatype Ctx =
    | Top
    | InLeft(n: Node, red: bool, r: Tree, up: Ctx)    // the hole is n's left subtree
    | InRight(l: Tree, n: Node, red: bool, up: Ctx)   // the hole is n's right subtree
  {
    function Plug(t: Tree): Tree
    {
      match this
      case Top => t
      case InLeft(n, red, r, up) => up.Plug(Branch(t, n, red, r))
      case InRight(l, n, red, up) => up.Plug(Branch(l, n, red, t))
    }

    ghost function Nodes(): set<Node>
    {
      match this
      case Top => {}
      case InLeft(n, _, r, up) => {n} + r.Nodes() + up.Nodes()
      case InRight(l, n, _, up) => {n} + l.Nodes() + up.Nodes()
    }

    /** The nodes before and after the hole. */
    function Before(): seq<Node>
    {
      match this
      case Top => []
      case InLeft(_, _, _, up) => up.Before()
      case InRight(l, n, _, up) => up.Before() + l.Order() + [n]
    }

    function After(): seq<Node>
    {
      match this
      case Top => []
      case InLeft(n, _, r, up) => [n] + r.Order() + up.After()
      case InRight(_, _, _, up) => up.After()
    }

    function Depth(): nat { if Top? then 0 else 1 + up.Depth() }

    /** Fits a balanced tree of black height h: everything around the hole is red-black, where a red
        root in the hole is nobody's fault but the hole's. */
    predicate Accepts(h: nat)
    {
      match this
      case Top => true
      case InLeft(_, red, s, up) =>
        && s.Balanced() && s.BlackHeight() == h && (red ==> !s.RootRed() && up != Top && !up.red)
        && up.Accepts(h + if red then 0 else 1)
      case InRight(s, _, red, up) =>
        && s.Balanced() && s.BlackHeight() == h && (red ==> !s.RootRed() && up != Top && !up.red)
        && up.Accepts(h + if red then 0 else 1)
    }
  }

  // ---- plugging ---------------------------------------------------------------------------------

  lemma {:induction false} PlugOrder(c: Ctx, t: Tree)
    ensures c.Plug(t).Order() == c.Before() + t.Order() + c.After()
    decreases c
  {
    match c
    case Top =>
    case InLeft(n, red, r, up) =>
      PlugOrder(up, Branch(t, n, red, r));
    case InRight(l, n, red, up) =>
      PlugOrder(up, Branch(l, n, red, t));
  }

  lemma {:induction false} PlugNodes(c: Ctx, t: Tree)
    ensures c.Plug(t).Nodes() == c.Nodes() + t.Nodes()
    decreases c
  {
    match c
    case Top =>
    case InLeft(n, red, r, up) => PlugNodes(up, Branch(t, n, red, r));
    case InRight(l, n, red, up) => PlugNodes(up, Branch(l, n, red, t));
  }

  /** Filling a hole that accepts the tree gives a red-black tree, up to the colour of the root. */
  lemma {:induction false} PlugBalanced(c: Ctx, t: Tree)
    requires t.Balanced() && c.Accepts(t.BlackHeight())
    requires c != Top && c.red ==> !t.RootRed()
    ensures c.Plug(t).Balanced()
    decreases c
  {
    match c
    case Top =>
    case InLeft(n, red, r, up) => PlugBalanced(up, Branch(t, n, red, r));
    case InRight(l, n, red, up) => PlugBalanced(up, Branch(l, n, red, t));
  }

  /** The outermost frame of a context. */
  function RootOf(c: Ctx): (root: Ctx)
    requires c != Top
    ensures root != Top && root.up == Top
  {
    if c.up == Top then c else RootOf(c.up)
  }

  /** A hole cut out of a red-black tree accepts what was there. */
  lemma {:induction false} UnplugBalanced(c: Ctx, t: Tree)
    requires c.Plug(t).Balanced() && (c != Top ==> !RootOf(c).red)
    ensures t.Balanced() && c.Accepts(t.BlackHeight())
    ensures c != Top && c.red ==> !t.RootRed()
    decreases c
  {
    match c
    case Top =>
    case InLeft(n, red, r, up) =>
      UnplugBalanced(up, Branch(t, n, red, r));
    case InRight(l, n, red, up) =>
      UnplugBalanced(up, Branch(l, n, red, t));
  }

  lemma {:induction false} PlugRoot(c: Ctx, t: Tree)
    requires c != Top
    ensures c.Plug(t).Branch? && c.Plug(t).n == RootOf(c).n && c.Plug(t).red == RootOf(c).red
    decreases c
  {
    match c
    case InLeft(n, red, r, up) => if up != Top { PlugRoot(up, Branch(t, n, red, r)); }
    case InRight(l, n, red, up) => if up != Top { PlugRoot(up, Branch(l, n, red, t)); }
  }

  // ---- the insertion repair ---------------------------------------------------------------------

  /** Whether the loop of rb_fixins goes on: the hole's tree has a red parent. */
  predicate Conflict(c: Ctx) { c != Top && c.red }

  /** The grandparent of the hole exists. */
  predicate HasGrand(c: Ctx) { c != Top && c.up != Top }

  /** The uncle of the hole. */
  function Uncle(c: Ctx): Tree
    requires HasGrand(c)
  {
    if c.up.InLeft? then c.up.r else c.up.l
  }

  /** Recolouring: parent and uncle turn black, the grandparent red. */
  function Recolour(c: Ctx, t: Tree): Tree
    requires HasGrand(c)
  {
    var parent := if c.InLeft? then Branch(t, c.n, false, c.r) else Branch(c.l, c.n, false, t);
    if c.up.InLeft? then Branch(parent, c.up.n, true, c.up.r.Black())
    else Branch(c.up.l.Black(), c.up.n, true, parent)
  }

  /** The one or two rotations that end the loop, with the middle of the three nodes on top, black. */
  function Rotated(c: Ctx, t: Tree): Tree
    requires HasGrand(c) && t.Branch?
  {
    match (c, c.up)
    case (InLeft(p, _, s, _), InLeft(g, _, u, _)) => Branch(t, p, false, Branch(s, g, true, u))
    case (InRight(s, p, _, _), InLeft(g, _, u, _)) =>
      Branch(Branch(s, p, true, t.l), t.n, false, Branch(t.r, g, true, u))
    case (InRight(s, p, _, _), InRight(u, g, _, _)) => Branch(Branch(u, g, true, s), p, false, t)
    case (InLeft(p, _, s, _), InRight(u, g, _, _)) =>
      Branch(Branch(u, g, true, t.l), t.n, false, Branch(t.r, p, true, s))
  }

  /** The tree rb_fixins leaves behind when the hole of c holds the freshly red t. */
  function Fixed(c: Ctx, t: Tree): Tree
    requires t.Branch?
    decreases c
  {
    if !Conflict(c) || !HasGrand(c) then c.Plug(t).Black()
    else if Uncle(c).RootRed() then Fixed(c.up.up, Recolour(c, t))
    else c.up.up.Plug(Rotated(c, t)).Black()
  }

  /** A hole and its filling. */
  datatype View = View(c: Ctx, t: Tree)

  /** The node in the hole is on the inner side of its parent. */
  predicate Inner(c: Ctx)
    requires HasGrand(c)
  {
    c.InLeft? != c.up.InLeft?
  }

  /** The first rotation turns the inner case into the outer one, seen from the old parent. */
  function Straightened(c: Ctx, t: Tree): View
    requires HasGrand(c) && t.Branch?
  {
    if !Inner(c) then View(c, t)
    else if c.InRight? then View(InLeft(t.n, t.red, t.r, c.up), Branch(c.l, c.n, c.red, t.l))
    else View(InRight(t.l, t.n, t.red, c.up), Branch(t.r, c.n, c.red, c.r))
  }

  /** The second rotation puts the parent, now black, on top of the grandparent, now red. */
  function Turned(c: Ctx, t: Tree): View
    requires HasGrand(c) && !Inner(c)
  {
    if c.InLeft? then View(InLeft(c.n, false, Branch(c.r, c.up.n, true, c.up.r), c.up.up), t)
    else View(InRight(Branch(c.up.l, c.up.n, true, c.l), c.n, false, c.up.up), t)
  }

  /** After the rotations the loop stops with the tree the repair stands for. */
  lemma TurnedIsFixed(c: Ctx, t: Tree)
    requires HasGrand(c) && Conflict(c) && t.Branch? && t.red && !Uncle(c).RootRed()
    ensures var v := Straightened(c, t);
            && HasGrand(v.c) && !Inner(v.c) && v.c.red && v.t.Branch? && v.t.red
            && var w := Turned(v.c, v.t);
               !Conflict(w.c) && w.t.Branch? && w.t.red && Fixed(w.c, w.t) == Fixed(c, t)
  {
  }

  ghost function AllNodes(c: Ctx, t: Tree): set<Node> { c.Nodes() + t.Nodes() }

  lemma RecolourNodes(c: Ctx, t: Tree)
    requires HasGrand(c)
    ensures AllNodes(c.up.up, Recolour(c, t)) == AllNodes(c, t)
  {
    GrandNodes(c, t);
    BlackOrder(Uncle(c));
    var parent := if c.InLeft? then Branch(t, c.n, false, c.r) else Branch(c.l, c.n, false, t);
    assert parent.Nodes() == Sibling(c).Nodes() + {c.n} + t.Nodes();
  }

  /** The sibling of the hole. */
  function Sibling(c: Ctx): Tree
    requires c != Top
  {
    if c.InLeft? then c.r else c.l
  }

  lemma GrandNodes(c: Ctx, t: Tree)
    requires HasGrand(c)
    ensures AllNodes(c, t)
         == c.up.up.Nodes() + {c.up.n} + Uncle(c).Nodes() + {c.n} + Sibling(c).Nodes() + t.Nodes()
  {
    assert c.up.Nodes() == c.up.up.Nodes() + {c.up.n} + Uncle(c).Nodes();
  }

  lemma StraightenedNodes(c: Ctx, t: Tree)
    requires HasGrand(c) && t.Branch?
    ensures AllNodes(Straightened(c, t).c, Straightened(c, t).t) == AllNodes(c, t)
  {
  }

  lemma TurnedNodes(c: Ctx, t: Tree)
    requires HasGrand(c) && !Inner(c)
    ensures AllNodes(Turned(c, t).c, Turned(c, t).t) == AllNodes(c, t)
  {
    GrandNodes(c, t);
    var low := if c.InLeft? then Branch(c.r, c.up.n, true, c.up.r) else Branch(c.up.l, c.up.n, true, c.l);
    assert low.Nodes() == Sibling(c).Nodes() + {c.up.n} + Uncle(c).Nodes();
  }

  /** A conflict the loop can work on: the surroundings are red-black but for the red parent. */
  ghost predicate Repairable(c: Ctx, t: Tree)
  {
    t.Branch? && t.red && (Conflict(c) ==> t.Balanced() && c.Accepts(t.BlackHeight()))
  }

  lemma RecolourRepairable(c: Ctx, t: Tree)
    requires Repairable(c, t) && Conflict(c)
    ensures HasGrand(c)
    ensures Uncle(c).RootRed() ==> Repairable(c.up.up, Recolour(c, t)) && Fixed(c.up.up, Recolour(c, t)) == Fixed(c, t)
  {
    var h := t.BlackHeight();
    assert c.up.Accepts(h);
    assert c.up.up.Accepts(h + 1);
    assert Uncle(c).Balanced() && Uncle(c).BlackHeight() == h;
  }

  lemma BlackOrder(t: Tree)
    ensures t.Black().Order() == t.Order() && t.Black().Nodes() == t.Nodes()
  {
  }

  /** The tree at the grandparent before the repair. */
  function GrandTree(c: Ctx, t: Tree): Tree
    requires HasGrand(c)
  {
    var parent := if c.InLeft? then Branch(t, c.n, c.red, c.r) else Branch(c.l, c.n, c.red, t);
    if c.up.InLeft? then Branch(parent, c.up.n, c.up.red, c.up.r)
    else Branch(c.up.l, c.up.n, c.up.red, parent)
  }

  lemma GrandPlug(c: Ctx, t: Tree)
    requires HasGrand(c)
    ensures c.Plug(t) == c.up.up.Plug(GrandTree(c, t))
  {
  }

  lemma RecolourOrder(c: Ctx, t: Tree)
    requires HasGrand(c)
    ensures Recolour(c, t).Order() == GrandTree(c, t).Order()
  {
    BlackOrder(Uncle(c));
  }

  lemma RotatedOrder(c: Ctx, t: Tree)
    requires HasGrand(c) && t.Branch?
    ensures Rotated(c, t).Order() == GrandTree(c, t).Order()
  {
    match (c, c.up)
    case (InLeft(p, _, s, _), InLeft(g, _, u, _)) =>
      assert t.Order() + [p] + (s.Order() + [g] + u.Order()) == (t.Order() + [p] + s.Order()) + [g] + u.Order();
    case (InRight(s, p, _, _), InLeft(g, _, u, _)) =>
      var a, b := t.l.Order(), t.r.Order();
      assert (s.Order() + [p] + a) + [t.n] + (b + [g] + u.Order())
          == (s.Order() + [p] + (a + [t.n] + b)) + [g] + u.Order();
    case (InRight(s, p, _, _), InRight(u, g, _, _)) =>
      assert (u.Order() + [g] + s.Order()) + [p] + t.Order() == u.Order() + [g] + (s.Order() + [p] + t.Order());
    case (InLeft(p, _, s, _), InRight(u, g, _, _)) =>
      var a, b := t.l.Order(), t.r.Order();
      assert (u.Order() + [g] + a) + [t.n] + (b + [p] + s.Order())
          == u.Order() + [g] + ((a + [t.n] + b) + [p] + s.Order());
  }

  /** The repair keeps the in-order sequence. */
  lemma {:induction false} FixedOrder(c: Ctx, t: Tree)
    requires t.Branch?
    ensures Fixed(c, t).Order() == c.Plug(t).Order()
    decreases c
  {
    BlackOrder(c.Plug(t));
    if Conflict(c) && HasGrand(c) {
      var gg := c.up.up;
      GrandPlug(c, t);
      PlugOrder(gg, GrandTree(c, t));
      if Uncle(c).RootRed() {
        RecolourOrder(c, t);
        PlugOrder(gg, Recolour(c, t));
        FixedOrder(gg, Recolour(c, t));
      } else {
        RotatedOrder(c, t);
        PlugOrder(gg, Rotated(c, t));
        BlackOrder(gg.Plug(Rotated(c, t)));
      }
    }
  }

  /** The repair keeps the set of nodes. */
  lemma {:induction false} FixedNodes(c: Ctx, t: Tree)
    requires t.Branch?
    ensures Fixed(c, t).Nodes() == AllNodes(c, t)
    decreases c
  {
    PlugNodes(c, t);
    BlackOrder(c.Plug(t));
    if Conflict(c) && HasGrand(c) {
      if Uncle(c).RootRed() {
        RecolourNodes(c, t);
        FixedNodes(c.up.up, Recolour(c, t));
      } else {
        var whole := c.up.up.Plug(Rotated(c, t));
        PlugNodes(c.up.up, Rotated(c, t));
        BlackOrder(whole);
        OrderNodes(Rotated(c, t));
        OrderNodes(GrandTree(c, t));
        RotatedOrder(c, t);
        GrandPlug(c, t);
        PlugNodes(c.up.up, GrandTree(c, t));
      }
    }
  }

  lemma {:induction false} InOrder(t: Tree, n: Node)
    ensures n in t.Order() <==> n in t.Nodes()
  {
    if t.Branch? {
      InOrder(t.l, n);
      InOrder(t.r, n);
    }
  }

  lemma OrderNodes(t: Tree)
    ensures forall n :: n in t.Nodes() <==> n in t.Order()
  {
    forall n ensures n in t.Nodes() <==> n in t.Order() { InOrder(t, n); }
  }

  /** The repair restores the red-black conditions. */
  lemma {:induction false} FixedRedBlack(c: Ctx, t: Tree)
    requires t.Branch? && t.red && t.Balanced() && c.Accepts(t.BlackHeight())
    ensures Fixed(c, t).RedBlack()
    decreases c
  {
    if !Conflict(c) {
      PlugBalanced(c, t);
      BlackenBalanced(c.Plug(t));
    } else if Uncle(c).RootRed() {
      FixedRedBlack(c.up.up, Recolour(c, t));
    } else {
      PlugBalanced(c.up.up, Rotated(c, t));
      BlackenBalanced(c.up.up.Plug(Rotated(c, t)));
    }
  }

  lemma BlackenBalanced(t: Tree)
    requires t.Balanced()
    ensures t.Black().RedBlack()
  {
  }

  /** Inserting a node at a null link of a red-black tree. */
  lemma InsertRedBlack(c: Ctx, n: Node)
    requires c.Plug(Leaf).RedBlack()
    ensures Fixed(c, Branch(Leaf, n, true, Leaf)).RedBlack()
    ensures Fixed(c, Branch(Leaf, n, true, Leaf)).Order() == c.Before() + [n] + c.After()
    ensures c.Plug(Leaf).Order() == c.Before() + c.After()
  {
    if c != Top { PlugRoot(c, Leaf); }
    UnplugBalanced(c, Leaf);
    FixedRedBlack(c, Branch(Leaf, n, true, Leaf));
    FixedOrder(c, Branch(Leaf, n, true, Leaf));
    PlugOrder(c, Branch(Leaf, n, true, Leaf));
    PlugOrder(c, Leaf);
  }

  // ---- height -----------------------------------------------------------------------------------

  /** A balanced tree of black height h has at least 2^h - 1 nodes and no path longer than 2h + 1. */
  lemma {:induction false} BalancedSize(t: Tree)
    requires t.Balanced()
    ensures Pow2(t.BlackHeight()) <= |t.Order()| + 1
    ensures t.Height() <= 2 * t.BlackHeight() + if t.RootRed() then 1 else 0
  {
    match t
    case Leaf =>
    case Branch(l, n, red, r) =>
      BalancedSize(l);
      BalancedSize(r);
  }

  /** Height is at most 2 log2(n + 1). */
  lemma LogarithmicHeight(t: Tree)
    requires t.RedBlack()
    ensures Pow2((t.Height() + 1) / 2) <= |t.Order()| + 1
  {
    BalancedSize(t);
    Pow2Monotone((t.Height() + 1) / 2, t.BlackHeight());
  }
}
