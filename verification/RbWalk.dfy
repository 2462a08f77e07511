/**
 Walking a red-black tree (kernel/rbtree.c): rb_first, rb_last, rb_next and rb_prev follow the in-order
 sequence of whatever tree the pointers spell.
 */
module RbWalk {
  import opened Sequences
  import opened RbTrees
  import opened RbHeap

  // ---- the order the walks follow -----------------------------------------------------------------

  function IndexOf(s: seq<Node>, n: Node): (i: nat)
    requires n in s
    ensures i < |s| && s[i] == n && forall j :: 0 <= j < i ==> s[j] != n
  {
    if s[0] == n then 0 else 1 + IndexOf(s[1..], n)
  }

  /** The node after n, and the node before it. */
  function After(s: seq<Node>, n: Node): Node?
    requires n in s
  {
    var i := IndexOf(s, n) + 1;
    if i < |s| then s[i] else null
  }

  function Before(s: seq<Node>, n: Node): Node?
    requires n in s
  {
    var i := IndexOf(s, n);
    if i > 0 then s[i - 1] else null
  }

  lemma IndexIs(s: seq<Node>, i: nat)
    requires Once(s) && i < |s|
    ensures IndexOf(s, s[i]) == i
  {
  }

  /** The two steps undo each other. */
  lemma StepsAreInverse(s: seq<Node>, n: Node)
    requires Once(s) && n in s
    ensures var m := After(s, n); m != null ==> m in s && Before(s, m) == n
    ensures var m := Before(s, n); m != null ==> m in s && After(s, m) == n
  {
    var i := IndexOf(s, n);
    if i + 1 < |s| { IndexIs(s, i + 1); }
    if i > 0 { IndexIs(s, i - 1); }
  }

  /** Everything met from n on, one step after the other. */
  ghost function Onwards(s: seq<Node>, n: Node?): seq<Node>
    requires Once(s) && (n != null ==> n in s)
    decreases if n == null then 0 else |s| - IndexOf(s, n)
  {
    if n == null then []
    else
      var m := After(s, n);
      assert m != null ==> IndexOf(s, m) == IndexOf(s, n) + 1 by {
        if m != null { IndexIs(s, IndexOf(s, n) + 1); }
      }
      [n] + Onwards(s, m)
  }

  /** From the first node on, every node is met once, in order, and the walk ends after the last. */
  lemma {:induction false} WalkVisitsAll(s: seq<Node>, i: nat)
    requires Once(s) && i <= |s|
    ensures Onwards(s, if i < |s| then s[i] else null) == s[i..]
    decreases |s| - i
  {
    if i < |s| {
      IndexIs(s, i);
      WalkVisitsAll(s, i + 1);
    }
  }

  lemma OnceAround(a: seq<Node>, n: Node, b: seq<Node>)
    requires Once(a) && Once(b) && n !in a && n !in b && forall x :: x in a ==> x !in b
    ensures Once(a + [n] + b)
  {
    var s := a + [n] + b;
    forall i, j | 0 <= i < j < |s| ensures s[i] != s[j] {
      assert j > |a| ==> s[j] == b[j - |a| - 1] && s[j] in b;
      assert i < |a| ==> s[i] in a;
    }
  }

  lemma {:induction false} OrderOnce(t: Tree)
    requires Distinct(t)
    ensures Once(t.Order())
  {
    if t.Branch? {
      OrderOnce(t.l);
      OrderOnce(t.r);
      InOrder(t.l, t.n);
      InOrder(t.r, t.n);
      forall x | x in t.l.Order() ensures x !in t.r.Order() {
        InOrder(t.l, x);
        InOrder(t.r, x);
      }
      OnceAround(t.l.Order(), t.n, t.r.Order());
    }
  }

  /** The place of the i-th node: its subtree and the context around it. */
  lemma {:induction false} Locate(c: Ctx, t: Tree, i: nat) returns (c': Ctx, s: Tree)
    requires i < |t.Order()|
    ensures s.Branch? && s.n == t.Order()[i] && c'.Plug(s) == c.Plug(t)
    ensures |c'.Before()| + |s.l.Order()| == |c.Before()| + i
    decreases t
  {
    if i < |t.l.Order()| {
      c', s := Locate(InLeft(t.n, t.red, t.r, c), t.l, i);
    } else if i == |t.l.Order()| {
      c', s := c, t;
    } else {
      c', s := Locate(InRight(t.l, t.n, t.red, c), t.r, i - |t.l.Order()| - 1);
    }
  }

  /** Where a node of the tree sits in memory. */
  lemma Find(t: Tree, n: Node, tree: Root) returns (c: Ctx, s: Tree)
    requires Spells(tree, t) && n in t.Order()
    ensures s.Branch? && s.n == n && c.Plug(s) == t && Zip(c, s, n, n.parent, tree)
    ensures |c.Before()| + |s.l.Order()| == IndexOf(t.Order(), n)
  {
    c, s := Locate(Top, t, IndexOf(t.Order(), n));
    var x, p := ZipIn(c, s, tree);
  }

  // ---- the walks ----------------------------------------------------------------------------------

  function FirstOf(t: Tree): Node
    requires t.Branch?
  {
    if t.l.Leaf? then t.n else FirstOf(t.l)
  }

  function LastOf(t: Tree): Node
    requires t.Branch?
  {
    if t.r.Leaf? then t.n else LastOf(t.r)
  }

  lemma {:induction false} EndsOfOrder(t: Tree)
    requires t.Branch?
    ensures |t.Order()| > 0 && t.Order()[0] == FirstOf(t) && t.Order()[|t.Order()| - 1] == LastOf(t)
  {
    if t.l.Branch? { EndsOfOrder(t.l); }
    if t.r.Branch? { EndsOfOrder(t.r); }
  }

  /** Down along left children as far as they go. */
  method Leftmost(from: Node, ghost t: Tree, ghost p: Node?) returns (node: Node)
    requires Linked(t, from, p)
    ensures t.Branch? && node == FirstOf(t)
  {
    node := from;
    ghost var s, q := t, p;
    while node.left != null
      invariant Linked(s, node, q) && s.Branch? && t.Branch? && FirstOf(s) == FirstOf(t)
      decreases s
    {
      q := node;
      node := node.left;
      s := s.l;
    }
  }

  /** Down along right children as far as they go. */
  method Rightmost(from: Node, ghost t: Tree, ghost p: Node?) returns (node: Node)
    requires Linked(t, from, p)
    ensures t.Branch? && node == LastOf(t)
  {
    node := from;
    ghost var s, q := t, p;
    while node.right != null
      invariant Linked(s, node, q) && s.Branch? && t.Branch? && LastOf(s) == LastOf(t)
      decreases s
    {
      q := node;
      node := node.right;
      s := s.r;
    }
  }

  /** rb_first */
  method First(tree: Root, ghost t: Tree) returns (node: Node?)
    requires Spells(tree, t)
    ensures node == if t.Order() == [] then null else t.Order()[0]
  {
    node := tree.root;
    if node == null { return null; }
    node := Leftmost(node, t, null);
    EndsOfOrder(t);
  }

  /** rb_last */
  method Last(tree: Root, ghost t: Tree) returns (node: Node?)
    requires Spells(tree, t)
    ensures node == if t.Order() == [] then null else t.Order()[|t.Order()| - 1]
  {
    node := tree.root;
    if node == null { return null; }
    node := Rightmost(node, t, null);
    EndsOfOrder(t);
  }

  /** rb_next */
  method Next(node: Node?, ghost t: Tree, ghost tree: Root) returns (next: Node?)
    requires node != null ==> Spells(tree, t) && node in t.Order()
    ensures next == if node == null then null else After(t.Order(), node)
  {
    if node == null { return null; }
    ghost var c, s := Find(t, node, tree);
    PlugOrder(c, s);
    if node.right != null {
      next := Leftmost(node.right, s.r, node);
      EndsOfOrder(s.r);
      return;
    }
    LinkedRoot(s.r, node.right, node);
    var below, parent := node, node.parent;
    while parent != null && below == parent.right
      invariant Zip(c, s, below, parent, tree) && s.Branch? && c.Plug(s) == t
      invariant |c.Before()| + |s.Order()| == IndexOf(t.Order(), node) + 1
      decreases c
    {
      SidesOf(c, s, below, parent, tree);
      ZipUp(c, s, below, parent, tree);
      s, c := Up(c, s), c.up;
      below := parent;
      parent := parent.parent;
    }
    SidesOf(c, s, below, parent, tree);
    PlugOrder(c, s);
    return parent;
  }

  /** rb_prev */
  method Prev(node: Node?, ghost t: Tree, ghost tree: Root) returns (prev: Node?)
    requires node != null ==> Spells(tree, t) && node in t.Order()
    ensures prev == if node == null then null else Before(t.Order(), node)
  {
    if node == null { return null; }
    ghost var c, s := Find(t, node, tree);
    PlugOrder(c, s);
    if node.left != null {
      prev := Rightmost(node.left, s.l, node);
      EndsOfOrder(s.l);
      return;
    }
    LinkedRoot(s.l, node.left, node);
    var below, parent := node, node.parent;
    while parent != null && below == parent.left
      invariant Zip(c, s, below, parent, tree) && s.Branch? && c.Plug(s) == t
      invariant |c.Before()| == IndexOf(t.Order(), node)
      decreases c
    {
      SidesOf(c, s, below, parent, tree);
      ZipUp(c, s, below, parent, tree);
      s, c := Up(c, s), c.up;
      below := parent;
      parent := parent.parent;
    }
    SidesOf(c, s, below, parent, tree);
    PlugOrder(c, s);
    return parent;
  }
}
