/** Singly linked lists threaded through memory. */
module LinkedLists {
  import opened Sequences

  /** The i-th element, or null behind the last. */
  function At(s: seq<nat>, i: nat): nat { if i < |s| then s[i] else 0 }

  /** From head on, the next pointers spell s. */
  ghost predicate Linked(next: map<nat, nat>, head: nat, s: seq<nat>)
  {
    head == At(s, 0) && forall i :: 0 <= i < |s| ==> Hop(next, s, i)
  }

  ghost predicate Hop(next: map<nat, nat>, s: seq<nat>, i: nat)
    requires i < |s|
  {
    s[i] != 0 && s[i] in next && next[s[i]] == At(s, i + 1)
  }

  /** The list head is rewritten to skip the first element. */
  lemma HeadSkipped(next: map<nat, nat>, head: nat, s: seq<nat>)
    requires Linked(next, head, s) && s != []
    ensures s[0] in next && Linked(next, next[s[0]], Without(s, 0))
  {
    assert Hop(next, s, 0);
    forall i | 0 <= i < |s| - 1 ensures Hop(next, Without(s, 0), i) {
      assert Hop(next, s, i + 1);
    }
  }

  /** The pointer of the element before is rewritten to skip element j. */
  lemma ElementSkipped(next: map<nat, nat>, head: nat, s: seq<nat>, j: nat)
    requires Linked(next, head, s) && Once(s) && 0 < j < |s|
    ensures s[j] in next && Linked(next[s[j - 1] := next[s[j]]], head, Without(s, j))
  {
    assert Hop(next, s, j);
    var t, next' := Without(s, j), next[s[j - 1] := next[s[j]]];
    forall i | 0 <= i < |t| ensures Hop(next', t, i) {
      assert Hop(next, s, if i < j then i else i + 1);
    }
  }

  /** An element hung behind the last one. */
  lemma Appended(next: map<nat, nat>, head: nat, s: seq<nat>, x: nat)
    requires Linked(next, head, s) && Once(s) && x !in s && x != 0
    ensures s == [] ==> Linked(next[x := 0], x, [x])
    ensures s != [] ==> Linked(next[x := 0][s[|s| - 1] := x], head, s + [x])
  {
    if s != [] {
      var next' := next[x := 0][s[|s| - 1] := x];
      forall i | 0 <= i <= |s| ensures Hop(next', s + [x], i) {
        if i < |s| { assert Hop(next, s, i); }
      }
    }
  }

  /** Pointers of other elements do not matter. */
  lemma Elsewhere(next: map<nat, nat>, next': map<nat, nat>, head: nat, s: seq<nat>)
    requires Linked(next, head, s)
    requires forall x :: x in s && x in next ==> x in next' && next'[x] == next[x]
    ensures Linked(next', head, s)
  {
    forall i | 0 <= i < |s| ensures Hop(next', s, i) {
      assert Hop(next, s, i);
      assert s[i] in s;
    }
  }
}
