/** Ordered sets of numbers, as ascending sequences. */
module Ordered {
  /** In-order iteration of a set. */
  ghost predicate Ascending(s: seq<nat>) {
    forall i, j | 0 <= i < j < |s| :: s[i] < s[j]
  }

  /** How many elements of an ordered set lie below `p`. */
  function Rank(s: seq<nat>, p: nat): (k: nat)
    requires Ascending(s)
    ensures k <= |s|
    ensures forall i | 0 <= i < k :: s[i] < p
    ensures forall i | k <= i < |s| :: s[i] >= p
  {
    if s == [] || s[|s| - 1] < p then |s| else Rank(s[..|s| - 1], p)
  }

  /** Inserting into an ordered set. */
  function Insert(s: seq<nat>, p: nat): (r: seq<nat>)
    requires Ascending(s)
    ensures forall i | 0 <= i < |r| :: r[i] == p || r[i] in s
  {
    var k := Rank(s, p);
    if k < |s| && s[k] == p then s else s[..k] + [p] + s[k..]
  }

  lemma InsertIs(s: seq<nat>, p: nat)
    requires Ascending(s)
    ensures Ascending(Insert(s, p)) && Insert(s, p) != []
    ensures forall x :: x in Insert(s, p) <==> x == p || x in s
    ensures p in s ==> Insert(s, p) == s
  {
    var k := Rank(s, p);
    if k < |s| && s[k] == p {
      assert p in s;
    } else {
      assert p !in s;
      assert s == s[..k] + s[k..];
      InsertAt(s, p, k);
      hide Rank, Ascending;
    }
  }

  lemma InsertAt(s: seq<nat>, p: nat, k: nat)
    requires Ascending(s) && k <= |s|
    requires (forall i | 0 <= i < k :: s[i] < p) && forall i | k <= i < |s| :: s[i] > p
    ensures Ascending(s[..k] + [p] + s[k..])
  {
    var r := s[..k] + [p] + s[k..];
    forall i, j | 0 <= i < j < |r|
      ensures r[i] < r[j]
    {
      assert r[i] == if i < k then s[i] else if i == k then p else s[i - 1];
      assert r[j] == if j < k then s[j] else if j == k then p else s[j - 1];
    }
  }

  lemma InOrder(s: seq<nat>, i: nat, j: nat)
    requires Ascending(s) && i <= j < |s|
    ensures s[i] <= s[j]
  {
  }

  lemma RankIn(s: seq<nat>, p: nat)
    requires Ascending(s) && p in s
    ensures Rank(s, p) < |s| && s[Rank(s, p)] == p
  {
    var i :| 0 <= i < |s| && s[i] == p;
    hide Rank;
    InOrder(s, Rank(s, p), i);
  }
}
