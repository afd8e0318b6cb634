/** Gap analysis on the 4096-step encoder circle (calibrate.rs, and its Python port
    arc.py): from the set of positions a motor has been seen at to the arc it
    moves on. The two programs differ only in how their sort orders equal gaps. */
module Calibrate {
  import opened Ordered

  const FULL_RANGE := 4096

  /** The arc from `min` clockwise to `max`; it crosses zero when max < min. */
  datatype MotorArc = MotorArc(min: nat, max: nat)

  /** The gap after each reading; the last one goes round to the first. */
  function GapAfter(s: seq<nat>, i: nat): int
    requires i < |s|
  {
    if i < |s| - 1 then s[i + 1] - s[i] else FULL_RANGE - s[i] + s[0]
  }

  function Gaps(s: seq<nat>): (gaps: seq<int>)
    ensures |gaps| == |s|
    ensures forall i | 0 <= i < |s| :: gaps[i] == GapAfter(s, i)
  {
    seq(|s|, i requires 0 <= i < |s| => GapAfter(s, i))
  }

  /** What any sort of the indices by descending gap returns. */
  ghost predicate IsOrder(order: seq<nat>, gaps: seq<int>) {
    |order| == |gaps| &&
    (forall k | 0 <= k < |order| :: order[k] < |gaps|) &&
    (forall k, l | 0 <= k < l < |order| :: order[k] != order[l]) &&
    (forall i: nat | i < |gaps| :: i in order) &&
    (forall k, l | 0 <= k < l < |order| :: gaps[order[k]] >= gaps[order[l]])
  }

  /** `(i + 1) % n` */
  function NextIndex(i: nat, n: nat): (r: nat)
    requires i < n
    ensures r == if i + 1 < n then i + 1 else 0
  {
    (i + 1) % n
  }

  /** The reading clockwise after the one at `i`. */
  function After(s: seq<nat>, i: nat): nat
    requires i < |s|
  {
    if i + 1 < |s| then s[i + 1] else s[0]
  }

  /** The decision, from the readings and the sorted gap indices. */
  function ChooseArc(s: seq<nat>, gaps: seq<int>, order: seq<nat>): MotorArc
    requires |s| == |gaps| == |order| >= 2
    requires order[0] < |s| && order[1] < |s|
  {
    var largest := order[0];
    if largest == |gaps| - 1 then MotorArc(s[0], s[|s| - 1])
    else if gaps[largest] > gaps[order[1]] * 3 then MotorArc(s[NextIndex(largest, |s|)], s[largest])
    else MotorArc(s[0], s[|s| - 1])
  }

  /** One gap exceeds three times every other gap. */
  ghost predicate Dominates(gaps: seq<int>, i: nat) {
    i < |gaps| && forall j | 0 <= j < |gaps| && j != i :: gaps[i] > 3 * gaps[j]
  }

  /** The arc wraps exactly when an internal gap dominates, and then runs from the
      reading after that gap to the reading before it. */
  ghost predicate IsArc(arc: MotorArc, s: seq<nat>) {
    if s == [] then arc == MotorArc(0, 0)
    else if |s| == 1 then arc == MotorArc(s[0], s[0])
    else
      (forall i | 0 <= i < |s| - 1 && Dominates(Gaps(s), i) :: arc == MotorArc(s[i + 1], s[i])) &&
      ((forall i | 0 <= i < |s| - 1 :: !Dominates(Gaps(s), i)) ==> arc == MotorArc(s[0], s[|s| - 1]))
  }

  /** calculate_arc */
  method CalculateArc(s: seq<nat>) returns (arc: MotorArc)
    requires Ascending(s)
    ensures IsArc(arc, s)
  {
    if |s| < 2 {
      arc := if s == [] then MotorArc(0, 0) else MotorArc(s[0], s[0]);
      return;
    }
    var gaps: seq<int>, starts: seq<nat> := [], [];
    for i := 0 to |s|
      invariant |gaps| == |starts| == i
      invariant forall k | 0 <= k < i :: gaps[k] == GapAfter(s, k) && starts[k] == s[k]
    {
      starts := starts + [s[i]];
      if i + 1 < |s| {
        gaps := gaps + [s[i + 1] - s[i]];
      } else {
        gaps := gaps + [FULL_RANGE - s[i] + s[0]];
      }
    }
    assert starts == s && gaps == Gaps(s);
    var indices := new nat[|gaps|](i => i);
    SortByGap(indices, gaps);
    var order := indices[..];
    arc := ChooseArc(starts, gaps, order);
    ChoiceIsArc(s, order);
  }

  /** A sort of the gap indices in place; which one is immaterial. */
  method SortByGap(a: array<nat>, gaps: seq<int>)
    requires a.Length == |gaps| && forall k | 0 <= k < a.Length :: a[k] == k
    modifies a
    ensures IsOrder(a[..], gaps)
  {
    InsertingNone(a[..], gaps);
    hide Inserting;
    for i := 0 to a.Length
      invariant Inserting(a[..], gaps, i, i)
    {
      SinkIn(a, gaps, i);
    }
    InsertedAll(a[..], gaps);
  }

  method SinkIn(a: array<nat>, gaps: seq<int>, i: nat)
    requires i < a.Length && Inserting(a[..], gaps, i, i)
    modifies a
    ensures Inserting(a[..], gaps, i + 1, i + 1)
  {
    hide Inserting;
    InsertedNext(a[..], gaps, i);
    var j := i;
    while j > 0 && gaps[a[j - 1]] < gaps[a[j]]
      invariant 0 <= j <= i && InRange(a[..], gaps) && Inserting(a[..], gaps, i + 1, j)
    {
      SwapDown(a[..], gaps, i + 1, j);
      ghost var was := a[..];
      a[j - 1], a[j] := a[j], a[j - 1];
      assert a[..] == was[j - 1 := was[j]][j := was[j - 1]];
      j := j - 1;
    }
    InsertedOne(a[..], gaps, i + 1, j);
  }

  ghost predicate InRange(q: seq<nat>, gaps: seq<int>) {
    |q| == |gaps| && forall k | 0 <= k < |q| :: q[k] < |gaps|
  }

  lemma InsertedNext(q: seq<nat>, gaps: seq<int>, i: nat)
    requires Inserting(q, gaps, i, i) && i < |q|
    ensures InRange(q, gaps) && Inserting(q, gaps, i + 1, i)
  {
  }

  lemma InsertingNone(q: seq<nat>, gaps: seq<int>)
    requires |q| == |gaps| && forall k | 0 <= k < |q| :: q[k] == k
    ensures Inserting(q, gaps, 0, 0)
  {
    forall i: nat | i < |gaps|
      ensures i in q
    {
      assert q[i] == i;
    }
  }

  lemma InsertedOne(q: seq<nat>, gaps: seq<int>, n: nat, j: nat)
    requires Inserting(q, gaps, n, j) && j < n && (j > 0 ==> gaps[q[j - 1]] >= gaps[q[j]])
    ensures Inserting(q, gaps, n, n)
  {
  }

  lemma InsertedAll(q: seq<nat>, gaps: seq<int>)
    requires Inserting(q, gaps, |q|, |q|)
    ensures IsOrder(q, gaps)
  {
  }

  /** The indices are those of the gaps, and the first `n` are in order but for the
      one that has come down to `j`. */
  ghost predicate Inserting(q: seq<nat>, gaps: seq<int>, n: nat, j: nat) {
    |q| == |gaps| && n <= |q| &&
    (forall k | 0 <= k < |q| :: q[k] < |gaps|) &&
    (forall k, l | 0 <= k < l < |q| :: q[k] != q[l]) &&
    (forall i: nat | i < |gaps| :: i in q) &&
    (forall k, l | 0 <= k < l < n && l != j :: gaps[q[k]] >= gaps[q[l]])
  }

  lemma SwapDown(q: seq<nat>, gaps: seq<int>, n: nat, j: nat)
    requires Inserting(q, gaps, n, j) && 0 < j < n && gaps[q[j - 1]] < gaps[q[j]]
    ensures Inserting(q[j - 1 := q[j]][j := q[j - 1]], gaps, n, j - 1)
    ensures InRange(q[j - 1 := q[j]][j := q[j - 1]], gaps)
  {
    var r := q[j - 1 := q[j]][j := q[j - 1]];
    forall i: nat | i < |gaps|
      ensures i in r
    {
      assert i in q;
      var k :| 0 <= k < |q| && q[k] == i;
      assert r[if k == j then j - 1 else if k == j - 1 then j else k] == i;
    }
  }

  // What the choice means

  /** The first two indices of an order carry the largest and the largest other gap. */
  lemma TopTwo(gaps: seq<int>, order: seq<nat>)
    requires |gaps| >= 2 && IsOrder(order, gaps)
    ensures order[0] < |gaps| && order[1] < |gaps| && order[0] != order[1]
    ensures forall i | 0 <= i < |gaps| && i != order[0] :: gaps[order[0]] >= gaps[order[1]] >= gaps[i]
  {
    forall i | 0 <= i < |gaps| && i != order[0]
      ensures gaps[order[1]] >= gaps[i]
    {
      assert i in order;
      var k :| 0 <= k < |order| && order[k] == i;
    }
  }

  /** For every sorted order of the gaps the choice is the arc. */
  lemma ChoiceIsArc(s: seq<nat>, order: seq<nat>)
    requires Ascending(s) && |s| >= 2 && IsOrder(order, Gaps(s))
    ensures IsArc(ChooseArc(s, Gaps(s), order), s)
  {
    var gaps := Gaps(s);
    TopTwo(gaps, order);
    var top, second := order[0], order[1];
    hide IsOrder, NextIndex;
    assert Dominates(gaps, top) <==> gaps[top] > 3 * gaps[second];
    forall i | 0 <= i < |s| - 1 && Dominates(gaps, i)
      ensures i == top
    {
      assert gaps[i] == s[i + 1] - s[i] > 0;
    }
  }

  /** Any two sorted orders of the gaps, stable or not, give the same arc. */
  lemma TiesDoNotMatter(s: seq<nat>, order: seq<nat>, order': seq<nat>)
    requires Ascending(s) && |s| >= 2 && IsOrder(order, Gaps(s)) && IsOrder(order', Gaps(s))
    ensures ChooseArc(s, Gaps(s), order) == ChooseArc(s, Gaps(s), order')
  {
    ChoiceIsArc(s, order);
    ChoiceIsArc(s, order');
    hide ChooseArc, IsOrder;
    assert IsArc(ChooseArc(s, Gaps(s), order), s) && IsArc(ChooseArc(s, Gaps(s), order'), s);
  }

  lemma ArcUnique(a: MotorArc, b: MotorArc, s: seq<nat>)
    requires IsArc(a, s) && IsArc(b, s)
    ensures a == b
  {
    if i :| 0 <= i < |s| - 1 && Dominates(Gaps(s), i) {
      hide Dominates;
      assert a == MotorArc(s[i + 1], s[i]);
      assert b == MotorArc(s[i + 1], s[i]);
    }
  }

  /** The arc of a set of readings. */
  ghost function ArcOf(s: seq<nat>): (arc: MotorArc)
    requires Ascending(s)
    ensures IsArc(arc, s)
  {
    if s == [] then MotorArc(0, 0)
    else if |s| == 1 then MotorArc(s[0], s[0])
    else if exists i :: 0 <= i < |s| - 1 && Dominates(Gaps(s), i) then
      var i :| 0 <= i < |s| - 1 && Dominates(Gaps(s), i);
      OneDominates(s, i);
      MotorArc(s[i + 1], s[i])
    else MotorArc(s[0], s[|s| - 1])
  }

  lemma OneDominates(s: seq<nat>, i: nat)
    requires Ascending(s) && i < |s| - 1 && Dominates(Gaps(s), i)
    ensures forall j | 0 <= j < |s| - 1 && Dominates(Gaps(s), j) :: j == i
  {
    forall j | 0 <= j < |s| - 1 && Dominates(Gaps(s), j)
      ensures j == i
    {
      var gaps := Gaps(s);
      assert gaps[j] == s[j + 1] - s[j] > 0 && gaps[i] == s[i + 1] - s[i] > 0;
      NotBoth(gaps, i, j);
    }
  }

  lemma NotBoth(gaps: seq<int>, i: nat, j: nat)
    requires Dominates(gaps, i) && Dominates(gaps, j) && gaps[i] > 0
    ensures i == j
  {
  }

  // The arc on the circle

  predicate InArc(arc: MotorArc, p: nat) {
    if arc.min <= arc.max then arc.min <= p <= arc.max else p >= arc.min || p <= arc.max
  }

  /** The arc contains every reading. */
  lemma ArcContains(arc: MotorArc, s: seq<nat>, p: nat)
    requires Ascending(s) && IsArc(arc, s) && p in s
    ensures InArc(arc, p)
  {
    var k :| 0 <= k < |s| && s[k] == p;
    if |s| >= 2 {
      if i :| 0 <= i < |s| - 1 && Dominates(Gaps(s), i) {
        assert arc == MotorArc(s[i + 1], s[i]) && s[i] < s[i + 1];
        if k <= i { assert s[k] <= s[i]; } else { assert s[k] >= s[i + 1]; }
      } else {
        assert s[0] <= s[k] <= s[|s| - 1];
      }
    }
  }

  /** Steps clockwise from one position to another. */
  function Clockwise(a: int, b: int): nat { (b - a) % FULL_RANGE }

  ghost predicate IsNext(S: set<nat>, b: nat, a: nat) {
    b in S && a in S && a != b && forall c | c in S && c != b :: Clockwise(b, a) <= Clockwise(b, c)
  }

  /** The gap from `b` clockwise to `a` exceeds three times every other gap. */
  ghost predicate WidestGap(S: set<nat>, b: nat, a: nat) {
    IsNext(S, b, a) &&
    forall c: nat, d: nat | IsNext(S, c, d) && c != b :: Clockwise(b, a) > 3 * Clockwise(c, d)
  }

  ghost predicate Enumerates(s: seq<nat>, S: set<nat>) {
    Ascending(s) && (forall p :: p in s <==> p in S) && forall p | p in S :: p < FULL_RANGE
  }

  function Rotate(p: int, k: int): nat { (p + k) % FULL_RANGE }

  function RotateAll(S: set<nat>, k: int): set<nat> { set p | p in S :: Rotate(p, k) }

  lemma RotationKeepsDistance(a: nat, b: nat, k: int)
    ensures Clockwise(Rotate(a, k), Rotate(b, k)) == Clockwise(a, b)
    ensures a < FULL_RANGE && b < FULL_RANGE && a != b ==> Rotate(a, k) != Rotate(b, k)
  {
    var x, y := (a + k) / FULL_RANGE, (b + k) / FULL_RANGE;
    assert Rotate(b, k) - Rotate(a, k) == (b - a) + (x - y) * FULL_RANGE;
    ModShift(b - a, x - y);
  }

  lemma ModShift(a: int, q: int)
    ensures (a + q * FULL_RANGE) % FULL_RANGE == a % FULL_RANGE
  {
  }

  lemma RotateBack(S: set<nat>, k: int)
    requires forall p | p in S :: p < FULL_RANGE
    ensures RotateAll(RotateAll(S, k), -k) == S
    ensures forall p | p in S :: Rotate(Rotate(p, k), -k) == p
  {
    forall p | p in S
      ensures Rotate(Rotate(p, k), -k) == p
    {
      RotateOnce(p, k);
    }
    assert forall p | p in S :: Rotate(p, k) in RotateAll(S, k);
  }

  lemma RotateOnce(p: nat, k: int)
    requires p < FULL_RANGE
    ensures Rotate(Rotate(p, k), -k) == p
  {
    var q := (p + k) / FULL_RANGE;
    ModShift(p, -q);
  }

  lemma RotateBackOne(c': nat, b: nat, k: int)
    requires c' < FULL_RANGE && b < FULL_RANGE && c' != Rotate(b, k)
    ensures Rotate(c', -k) != b
  {
    RotateOnce(c', -k);
  }

  lemma RotatedNext(S: set<nat>, b: nat, a: nat, k: int)
    requires forall p | p in S :: p < FULL_RANGE
    requires IsNext(S, b, a)
    ensures IsNext(RotateAll(S, k), Rotate(b, k), Rotate(a, k))
  {
    RotationKeepsDistance(b, a, k);
    forall c' | c' in RotateAll(S, k) && c' != Rotate(b, k)
      ensures Clockwise(Rotate(b, k), Rotate(a, k)) <= Clockwise(Rotate(b, k), c')
    {
      var c :| c in S && c' == Rotate(c, k);
      RotationKeepsDistance(b, c, k);
    }
  }

  lemma NextInside(S: set<nat>, b: nat, a: nat)
    requires IsNext(S, b, a)
    ensures b in S && a in S
  {
  }

  lemma WiderThan(S: set<nat>, b: nat, a: nat, c: nat, d: nat)
    requires WidestGap(S, b, a) && IsNext(S, c, d) && c != b
    ensures Clockwise(b, a) > 3 * Clockwise(c, d)
  {
  }

  lemma RotatedWidest(S: set<nat>, b: nat, a: nat, k: int)
    requires forall p | p in S :: p < FULL_RANGE
    requires WidestGap(S, b, a)
    ensures WidestGap(RotateAll(S, k), Rotate(b, k), Rotate(a, k))
  {
    hide WidestGap, IsNext, Clockwise, Rotate, RotateAll;
    var R := RotateAll(S, k);
    assert forall p | p in R :: p < FULL_RANGE by { RotatedBelow(S, k); }
    assert RotateAll(R, -k) == S by { RotateBack(S, k); }
    NextInside(S, b, a) by { WidestIsNext(S, b, a); }
    RotatedNext(S, b, a, k) by { WidestIsNext(S, b, a); }
    RotationKeepsDistance(b, a, k);
    forall c: nat, d: nat | IsNext(R, c, d) && c != Rotate(b, k)
      ensures Clockwise(Rotate(b, k), Rotate(a, k)) > 3 * Clockwise(c, d)
    {
      NextInside(R, c, d);
      RotatedNext(R, c, d, -k);
      RotationKeepsDistance(c, d, -k);
      RotateBackOne(c, b, k);
      WiderThan(S, b, a, Rotate(c, -k), Rotate(d, -k));
    }
    IsWidest(R, Rotate(b, k), Rotate(a, k));
  }

  lemma RotatedBelow(S: set<nat>, k: int)
    ensures forall p | p in RotateAll(S, k) :: p < FULL_RANGE
  {
  }

  lemma IsWidest(S: set<nat>, b: nat, a: nat)
    requires IsNext(S, b, a)
    requires forall c: nat, d: nat | IsNext(S, c, d) && c != b :: Clockwise(b, a) > 3 * Clockwise(c, d)
    ensures WidestGap(S, b, a)
  {
  }

  lemma NextInOrder(s: seq<nat>, S: set<nat>, i: nat)
    requires Enumerates(s, S) && |s| >= 2 && i < |s|
    ensures IsNext(S, s[i], After(s, i))
    ensures Clockwise(s[i], After(s, i)) == GapAfter(s, i)
  {
    assert s[i] in s && After(s, i) in s;
    forall c | c in S && c != s[i]
      ensures GapAfter(s, i) <= Clockwise(s[i], c)
    {
      var k :| 0 <= k < |s| && s[k] == c;
      assert s[0] <= s[k];
      if i + 1 < |s| && k > i { assert s[k] >= s[i + 1]; }
    }
  }

  /** A gap that dominates on the circle, wherever zero lies, is the one left out. */
  lemma WidestGapIsLeftOut(arc: MotorArc, s: seq<nat>, S: set<nat>, b: nat, a: nat)
    requires Enumerates(s, S) && IsArc(arc, s) && WidestGap(S, b, a)
    ensures arc == MotorArc(a, b)
  {
    hide IsArc, WidestGap;
    assert b in S by { WidestIsNext(S, b, a); }
    assert b in s;
    var i :| 0 <= i < |s| && s[i] == b;
    TwoReadings(s, S, b, a);
    WidestDominates(s, S, i, a);
    LeftOut(arc, s, i);
  }

  lemma TwoReadings(s: seq<nat>, S: set<nat>, b: nat, a: nat)
    requires Enumerates(s, S) && WidestGap(S, b, a)
    ensures |s| >= 2
  {
    assert a in s && b in s;
  }

  lemma WidestIsNext(S: set<nat>, b: nat, a: nat)
    requires WidestGap(S, b, a)
    ensures IsNext(S, b, a) && a in S && b in S && a != b
  {
  }

  lemma WidestDominates(s: seq<nat>, S: set<nat>, i: nat, a: nat)
    requires Enumerates(s, S) && |s| >= 2 && i < |s| && WidestGap(S, s[i], a)
    ensures a == After(s, i) && Dominates(Gaps(s), i)
  {
    NextInOrder(s, S, i);
    NextUnique(S, s[i], a, After(s, i));
    forall j | 0 <= j < |s| && j != i
      ensures GapAfter(s, i) > 3 * GapAfter(s, j)
    {
      NextInOrder(s, S, j);
      hide IsNext;
      assert s[j] != s[i];
    }
  }

  lemma LeftOut(arc: MotorArc, s: seq<nat>, i: nat)
    requires Ascending(s) && |s| >= 2 && i < |s| && Dominates(Gaps(s), i) && IsArc(arc, s)
    ensures arc == MotorArc(After(s, i), s[i])
  {
    if i == |s| - 1 {
      forall j | 0 <= j < |s| - 1
        ensures !Dominates(Gaps(s), j)
      {
        assert Gaps(s)[j] > 0;
      }
    }
  }

  lemma NextUnique(S: set<nat>, b: nat, a: nat, c: nat)
    requires IsNext(S, b, a) && IsNext(S, b, c) && forall p | p in S :: p < FULL_RANGE
    ensures a == c
  {
    assert Clockwise(b, a) == Clockwise(b, c);
  }

  /** When one gap dominates all others threefold, the arc turns with the data. */
  lemma ArcRotates(S: set<nat>, b: nat, a: nat, k: int, s: seq<nat>, t: seq<nat>, arc: MotorArc, arc': MotorArc)
    requires WidestGap(S, b, a)
    requires Enumerates(s, S) && Enumerates(t, RotateAll(S, k))
    requires IsArc(arc, s) && IsArc(arc', t)
    ensures arc' == MotorArc(Rotate(arc.min, k), Rotate(arc.max, k))
  {
    WidestGapIsLeftOut(arc, s, S, b, a);
    RotatedWidest(S, b, a, k);
    WidestGapIsLeftOut(arc', t, RotateAll(S, k), Rotate(b, k), Rotate(a, k));
  }
}
