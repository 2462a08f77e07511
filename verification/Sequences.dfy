/** Sequences in which no element occurs twice. */
module Sequences {

  /** No element occurs twice. */
  ghost predicate Once<T>(s: seq<T>) { forall i, j :: 0 <= i < j < |s| ==> s[i] != s[j] }

  /** The list without its element j. */
  function Without(s: seq<nat>, j: nat): seq<nat>
    requires j < |s|
  {
    s[..j] + s[j + 1..]
  }

  lemma WithoutMembers(s: seq<nat>, j: nat)
    requires Once(s) && j < |s|
    ensures Once(Without(s, j)) && forall x :: x in Without(s, j) <==> x in s && x != s[j]
  {
    var t := Without(s, j);
    assert forall i :: 0 <= i < |t| ==> t[i] == if i < j then s[i] else s[i + 1];
    forall x | x in s && x != s[j] ensures x in t {
      var i :| 0 <= i < |s| && s[i] == x;
      assert t[if i < j then i else i - 1] == x;
    }
  }

  /** Distinct indices below n are at most n, and all of them when they are n. */
  lemma {:induction false} AllTaken(s: seq<nat>, n: nat)
    requires Once(s) && forall i :: 0 <= i < |s| ==> s[i] < n
    ensures |s| <= n
    ensures |s| == n ==> forall x: nat :: x < n ==> x in s
    decreases n
  {
    assert s != [] ==> s[0] < n;
    if n > 0 {
      if j :| 0 <= j < |s| && s[j] == n - 1 {
        var t := Without(s, j);
        WithoutMembers(s, j);
        assert forall i :: 0 <= i < |t| ==> t[i] in t;
        AllTaken(t, n - 1);
      } else {
        AllTaken(s, n - 1);
      }
    }
  }
}
