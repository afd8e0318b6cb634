/** Index tables and action chunks of the training dataset (dataset.py). */
module Chunks {
  import opened Options
  import opened Ordered

  /** A row of a file: its episode's start stamp, its joints' goals and its images. */
  datatype Row<A, I> = Row(start: nat, action: A, images: I)

  // One table

  function Starts<A, I>(table: seq<Row<A, I>>): (col: seq<nat>)
    ensures |col| == |table| && forall i | 0 <= i < |col| :: col[i] == table[i].start
  {
    seq(|table|, i requires 0 <= i < |table| => table[i].start)
  }

  /** The sorted distinct values of a column: `np.unique`. */
  function Unique(col: seq<nat>): (u: seq<nat>)
    ensures Ascending(u)
  {
    if col == [] then []
    else
      InsertIs(Unique(col[..|col| - 1]), col[|col| - 1]);
      Insert(Unique(col[..|col| - 1]), col[|col| - 1])
  }

  lemma {:induction false} UniqueIs(col: seq<nat>, x: nat)
    ensures x in Unique(col) <==> x in col
  {
    if col == [] {
    } else {
      var n := |col| - 1;
      UniqueIs(col[..n], x);
      InsertIs(Unique(col[..n]), col[n]);
      assert col == col[..n] + [col[n]];
      hide Unique, Insert;
    }
  }

  /** Where the run of equal values around `l` ends. */
  function RunEnd(col: seq<nat>, l: nat): (end: nat)
    requires l < |col|
    ensures l < end <= |col|
    ensures forall i | l <= i < end :: col[i] == col[l]
    ensures end < |col| ==> col[end] != col[l]
    decreases |col| - l
  {
    if l + 1 < |col| && col[l + 1] == col[l] then RunEnd(col, l + 1) else l + 1
  }

  /** `boundaries` so far: the rows before `n` that differ from the one before. */
  ghost predicate AreBoundaries(bs: seq<nat>, col: seq<nat>, n: nat) {
    Ascending(bs) &&
    (forall k | 0 <= k < |bs| :: 0 < bs[k] < n && bs[k] < |col| && col[bs[k]] != col[bs[k] - 1]) &&
    forall i: nat | 0 < i < n && i < |col| && col[i] != col[i - 1] :: i in bs
  }

  lemma {:induction false} NoBoundary(col: seq<nat>, l: nat, end: nat)
    requires l < end <= |col| && (end < |col| ==> col[end] != col[end - 1])
    requires forall i | l < i < end :: col[i] == col[i - 1]
    ensures RunEnd(col, l) == end
    decreases end - l
  {
    if l + 1 < end {
      NoBoundary(col, l + 1, end);
      assert col[l + 1] == col[l + 1 - 1];
    } else if end < |col| {
      assert col[end] != col[end - 1];
    }
  }

  /** `row_ep_end[start:end] = end`, of the rows before the boundary `end`. */
  method FillRange(filled: array<nat>, col: seq<nat>, start: nat, end: nat)
    requires start <= end <= |col| == filled.Length
    requires forall l | start <= l < end :: RunEnd(col, l) == end
    requires forall j | 0 <= j < start :: filled[j] == RunEnd(col, j)
    modifies filled
    ensures forall j | 0 <= j < end :: filled[j] == RunEnd(col, j)
  {
    hide RunEnd;
    for l := start to end
      invariant forall j | 0 <= j < l :: filled[j] == RunEnd(col, j)
    {
      filled[l] := end;
    }
  }

  lemma EndsAt(col: seq<nat>, start: nat, end: nat)
    requires start <= end <= |col| && forall l | start < l < end :: col[l] == col[l - 1]
    requires end < |col| && start < end ==> col[end] != col[end - 1]
    ensures forall l | start <= l < end :: RunEnd(col, l) == end
  {
    hide RunEnd;
    forall l | start <= l < end
      ensures RunEnd(col, l) == end
    {
      NoBoundary(col, l, end);
    }
  }

  /** The episode bounds of a table: every row's exclusive end. */
  method EpisodeEnds(col: seq<nat>) returns (rowEpEnd: seq<nat>)
    requires col != []
    ensures |rowEpEnd| == |col| && forall l | 0 <= l < |col| :: rowEpEnd[l] == RunEnd(col, l)
  {
    var ends: seq<nat> := [];
    for i := 1 to |col|
      invariant AreBoundaries(ends, col, i)
    {
      if col[i] != col[i - 1] { ends := ends + [i]; }
    }
    assert AreBoundaries(ends, col, |col|);
    ghost var bs := ends;
    ends := ends + [|col|];
    var filled := new nat[|col|](i => 0);
    var start := 0;
    for k := 0 to |ends|
      invariant start == if k == 0 then 0 else ends[k - 1]
      invariant start <= |col| && (k == |ends| ==> start == |col|)
      invariant forall l | 0 <= l < start :: filled[l] == RunEnd(col, l)
    {
      var end := ends[k];
      Between(bs, col, k, start, end);
      EndsAt(col, start, end);
      FillRange(filled, col, start, end);
      start := end;
    }
    rowEpEnd := filled[..];
  }

  /** Between consecutive boundaries nothing changes. */
  lemma Between(bs: seq<nat>, col: seq<nat>, k: nat, start: nat, end: nat)
    requires AreBoundaries(bs, col, |col|) && k <= |bs| && col != []
    requires start == (if k == 0 then 0 else bs[k - 1]) && end == (if k < |bs| then bs[k] else |col|)
    ensures start < end <= |col| && (end < |col| ==> col[end] != col[end - 1])
    ensures forall i | start < i < end :: col[i] == col[i - 1]
  {
    forall i | start < i < end
      ensures col[i] == col[i - 1]
    {
      assert col[i] != col[i - 1] ==> i in bs;
      NotBetween(bs, k, i);
    }
  }

  lemma NotBetween(bs: seq<nat>, k: nat, i: int)
    requires Ascending(bs) && k <= |bs| && (k == 0 || bs[k - 1] < i) && (k < |bs| ==> i < bs[k])
    ensures i !in bs
  {
    forall m | 0 <= m < |bs|
      ensures bs[m] != i
    {
      assert if m < k then bs[m] <= bs[k - 1] else bs[m] >= bs[k];
    }
  }

  // All tables

  /** Rows of the tables before `t`. */
  function Offset<A, I>(tables: seq<seq<Row<A, I>>>, t: nat): nat
    requires t <= |tables|
  {
    if t == 0 then 0 else Offset(tables, t - 1) + |tables[t - 1]|
  }

  /** Episodes of the tables before `t`. */
  function EpBase<A, I>(tables: seq<seq<Row<A, I>>>, t: nat): nat
    requires t <= |tables|
  {
    if t == 0 then 0 else EpBase(tables, t - 1) + |Unique(Starts(tables[t - 1]))|
  }

  /** The tables with rows: an empty one is skipped before its images are appended. */
  function Nonempty<A, I>(tables: seq<seq<Row<A, I>>>, t: nat): seq<seq<Row<A, I>>>
    requires t <= |tables|
  {
    if t == 0 then []
    else Nonempty(tables, t - 1) + (if tables[t - 1] == [] then [] else [tables[t - 1]])
  }

  /** The global episode index of row `l` of table `t`. */
  function GlobalEpisode<A, I>(tables: seq<seq<Row<A, I>>>, t: nat, l: nat): nat
    requires t < |tables| && l < |tables[t]|
  {
    EpBase(tables, t) + Rank(Unique(Starts(tables[t])), tables[t][l].start)
  }

  datatype Index<A, I> = Index(
    actionAll: seq<A>, rowTable: seq<nat>, rowLocal: seq<nat>, rowEpEnd: seq<nat>, rowEpGlobal: seq<nat>,
    imagesCols: seq<seq<Row<A, I>>>, nextEp: nat)

  ghost predicate RowIs<A(!new), I(!new)>(x: Index<A, I>, tables: seq<seq<Row<A, I>>>, t: nat, l: nat)
    requires t < |tables| && l < |tables[t]|
  {
    var r := Offset(tables, t) + l;
    r < |x.actionAll| == |x.rowTable| == |x.rowLocal| == |x.rowEpEnd| == |x.rowEpGlobal| &&
    x.actionAll[r] == tables[t][l].action && x.rowTable[r] == t && x.rowLocal[r] == l &&
    x.rowEpEnd[r] == RunEnd(Starts(tables[t]), l) && x.rowEpGlobal[r] == GlobalEpisode(tables, t, l)
  }

  /** The index tables of the first `n` files. */
  ghost predicate Built<A(!new), I(!new)>(x: Index<A, I>, tables: seq<seq<Row<A, I>>>, n: nat) {
    n <= |tables| &&
    |x.actionAll| == |x.rowTable| == |x.rowLocal| == |x.rowEpEnd| == |x.rowEpGlobal| == Offset(tables, n) &&
    x.imagesCols == Nonempty(tables, n) && x.nextEp == EpBase(tables, n) &&
    forall t: nat, l: nat | t < n && l < |tables[t]| :: RowIs(x, tables, t, l)
  }

  method BuildIndex<A(!new), I(!new)>(tables: seq<seq<Row<A, I>>>) returns (x: Index<A, I>)
    ensures Built(x, tables, |tables|)
  {
    x := Index([], [], [], [], [], [], 0);
    for t := 0 to |tables|
      invariant Built(x, tables, t)
    {
      var table := tables[t];
      var n := |table|;
      if n == 0 {
        SkipEmpty(x, tables, t);
        continue;
      }
      var col := Starts(table);
      var uniq := Unique(col);
      var ends := EpisodeEnds(col);
      var part := Part(table, t, ends, uniq, x);
      AddTable(x, tables, t, ends);
      x := part;
    }
  }

  /** The index tables with those of one more file. */
  function Part<A, I>(table: seq<Row<A, I>>, t: nat, ends: seq<nat>, uniq: seq<nat>, x: Index<A, I>): Index<A, I>
    requires |ends| == |table| && Ascending(uniq)
  {
    var n := |table|;
    Index(x.actionAll + seq(n, i requires 0 <= i < n => table[i].action),
          x.rowTable + seq(n, i => t),
          x.rowLocal + seq(n, i requires 0 <= i < n => i),
          x.rowEpEnd + ends,
          x.rowEpGlobal + seq(n, i requires 0 <= i < n => x.nextEp + Rank(uniq, table[i].start)),
          x.imagesCols + [table], x.nextEp + |uniq|)
  }

  lemma SkipEmpty<A(!new), I(!new)>(x: Index<A, I>, tables: seq<seq<Row<A, I>>>, t: nat)
    requires Built(x, tables, t) && t < |tables| && tables[t] == []
    ensures Built(x, tables, t + 1)
  {
    assert Starts(tables[t]) == [];
    hide RowIs;
  }

  lemma OldRow<A(!new), I(!new)>(x: Index<A, I>, tables: seq<seq<Row<A, I>>>, n: nat, ends: seq<nat>, uniq: seq<nat>,
                                 t: nat, l: nat)
    requires n < |tables| && |ends| == |tables[n]| && Ascending(uniq)
    requires t < |tables| && l < |tables[t]| && RowIs(x, tables, t, l)
    ensures RowIs(Part(tables[n], n, ends, uniq, x), tables, t, l)
  {
    hide Unique, RunEnd, Starts, Offset, GlobalEpisode;
  }

  lemma NewRow<A(!new), I(!new)>(x: Index<A, I>, tables: seq<seq<Row<A, I>>>, n: nat, ends: seq<nat>, l: nat)
    requires Built(x, tables, n) && n < |tables| && l < |tables[n]| && |ends| == |tables[n]|
    requires ends[l] == RunEnd(Starts(tables[n]), l)
    ensures RowIs(Part(tables[n], n, ends, Unique(Starts(tables[n])), x), tables, n, l)
  {
    hide Unique, RunEnd, Starts, Offset, EpBase, RowIs;
    var y := Part(tables[n], n, ends, Unique(Starts(tables[n])), x);
    var r := Offset(tables, n) + l;
    assert y.actionAll[r] == tables[n][l].action && y.rowTable[r] == n && y.rowLocal[r] == l;
    assert y.rowEpEnd[r] == ends[l];
    assert y.rowEpGlobal[r] == GlobalEpisode(tables, n, l);
    Rows(y, tables, n, l);
  }

  lemma Rows<A(!new), I(!new)>(y: Index<A, I>, tables: seq<seq<Row<A, I>>>, n: nat, l: nat)
    requires n < |tables| && l < |tables[n]|
    requires var r := Offset(tables, n) + l;
             r < |y.actionAll| == |y.rowTable| == |y.rowLocal| == |y.rowEpEnd| == |y.rowEpGlobal| &&
             y.actionAll[r] == tables[n][l].action && y.rowTable[r] == n && y.rowLocal[r] == l &&
             y.rowEpEnd[r] == RunEnd(Starts(tables[n]), l) && y.rowEpGlobal[r] == GlobalEpisode(tables, n, l)
    ensures RowIs(y, tables, n, l)
  {
  }

  lemma AddTable<A(!new), I(!new)>(x: Index<A, I>, tables: seq<seq<Row<A, I>>>, n: nat, ends: seq<nat>)
    requires Built(x, tables, n) && n < |tables| && tables[n] != [] && |ends| == |tables[n]|
    requires forall l | 0 <= l < |ends| :: ends[l] == RunEnd(Starts(tables[n]), l)
    ensures Built(Part(tables[n], n, ends, Unique(Starts(tables[n])), x), tables, n + 1)
  {
    hide *;
    var uniq := Unique(Starts(tables[n]));
    var y := Part(tables[n], n, ends, uniq, x);
    AddSizes(x, tables, n, ends);
    forall t: nat, l: nat | t < n + 1 && l < |tables[t]|
      ensures RowIs(y, tables, t, l)
    {
      if t < n {
        BuiltRow(x, tables, n, t, l);
        OldRow(x, tables, n, ends, uniq, t, l);
      } else {
        NewRow(x, tables, n, ends, l);
      }
    }
    Assembled(y, tables, n + 1);
  }

  lemma BuiltRow<A(!new), I(!new)>(x: Index<A, I>, tables: seq<seq<Row<A, I>>>, n: nat, t: nat, l: nat)
    requires Built(x, tables, n) && t < n && l < |tables[t]|
    ensures RowIs(x, tables, t, l)
  {
  }

  lemma AddSizes<A(!new), I(!new)>(x: Index<A, I>, tables: seq<seq<Row<A, I>>>, n: nat, ends: seq<nat>)
    requires Built(x, tables, n) && n < |tables| && tables[n] != [] && |ends| == |tables[n]|
    ensures var y := Part(tables[n], n, ends, Unique(Starts(tables[n])), x);
            |y.actionAll| == |y.rowTable| == |y.rowLocal| == |y.rowEpEnd| == |y.rowEpGlobal| == Offset(tables, n + 1) &&
            y.imagesCols == Nonempty(tables, n + 1) && y.nextEp == EpBase(tables, n + 1)
  {
    hide Unique, Starts, RowIs, RunEnd;
  }

  lemma Assembled<A(!new), I(!new)>(y: Index<A, I>, tables: seq<seq<Row<A, I>>>, n: nat)
    requires n <= |tables|
    requires |y.actionAll| == |y.rowTable| == |y.rowLocal| == |y.rowEpEnd| == |y.rowEpGlobal| == Offset(tables, n)
    requires y.imagesCols == Nonempty(tables, n) && y.nextEp == EpBase(tables, n)
    requires forall t: nat, l: nat | t < n && l < |tables[t]| :: RowIs(y, tables, t, l)
    ensures Built(y, tables, n)
  {
  }

  // Rows and episodes across files

  lemma {:induction false} Offsets<A, I>(tables: seq<seq<Row<A, I>>>, t: nat, u: nat)
    requires t < u <= |tables|
    ensures Offset(tables, t) + |tables[t]| <= Offset(tables, u)
    ensures EpBase(tables, t) + |Unique(Starts(tables[t]))| <= EpBase(tables, u)
  {
    hide Unique, Starts;
    if t + 1 == u {
    } else {
      Offsets(tables, t, u - 1);
    }
  }

  /** Every row of the flat view is a row of one file. */
  lemma {:induction false} RowOf<A, I>(tables: seq<seq<Row<A, I>>>, n: nat, r: nat) returns (t: nat, l: nat)
    requires n <= |tables| && r < Offset(tables, n)
    ensures t < n && l < |tables[t]| && r == Offset(tables, t) + l
  {
    t := n - 1;
    if r < Offset(tables, t) {
      t, l := RowOf(tables, t, r);
    } else {
      l := r - Offset(tables, t);
    }
  }

  lemma RowUnique<A, I>(tables: seq<seq<Row<A, I>>>, t: nat, l: nat, u: nat, m: nat)
    requires t < |tables| && l < |tables[t]| && u < |tables| && m < |tables[u]|
    requires Offset(tables, t) + l == Offset(tables, u) + m
    ensures t == u && l == m
  {
    if t < u { Offsets(tables, t, u); }
    if u < t { Offsets(tables, u, t); }
  }

  /** Two rows share a global episode index exactly when they share file and start stamp. */
  lemma SameEpisode<A, I>(tables: seq<seq<Row<A, I>>>, t: nat, l: nat, u: nat, m: nat)
    requires t < |tables| && l < |tables[t]| && u < |tables| && m < |tables[u]|
    ensures GlobalEpisode(tables, t, l) == GlobalEpisode(tables, u, m) <==>
            t == u && tables[t][l].start == tables[u][m].start
  {
    EpisodeInRange(tables, t, l);
    EpisodeInRange(tables, u, m);
    hide Unique, Starts;
    if t < u { Offsets(tables, t, u); }
    if u < t { Offsets(tables, u, t); }
  }

  lemma RankAt(u: seq<nat>, k: nat)
    requires Ascending(u) && k < |u|
    ensures Rank(u, u[k]) == k
  {
    RankIn(u, u[k]);
    hide Rank;
  }

  /** Episodes are numbered by file and then by ascending start stamp. */
  lemma EpisodeOrder<A, I>(tables: seq<seq<Row<A, I>>>, t: nat, l: nat, u: nat, m: nat)
    requires t < |tables| && l < |tables[t]| && u < |tables| && m < |tables[u]|
    ensures GlobalEpisode(tables, t, l) < GlobalEpisode(tables, u, m) <==>
            t < u || (t == u && tables[t][l].start < tables[u][m].start)
  {
    EpisodeInRange(tables, t, l);
    EpisodeInRange(tables, u, m);
    hide Unique, Starts, Rank;
    if t < u { Offsets(tables, t, u); }
    if u < t { Offsets(tables, u, t); }
  }

  /** The numbers run from 0 without gaps: below that of any row, each is that of some row. */
  lemma EpisodeNumbers<A, I>(tables: seq<seq<Row<A, I>>>, n: nat, number: nat)
    returns (t: nat, l: nat)
    requires n < |tables|
    requires exists k | 0 <= k < |tables[n]| :: number <= GlobalEpisode(tables, n, k)
    ensures t < |tables| && l < |tables[t]| && GlobalEpisode(tables, t, l) == number
  {
    var k :| 0 <= k < |tables[n]| && number <= GlobalEpisode(tables, n, k);
    EpisodeInRange(tables, n, k);
    hide Unique, Starts, Rank;
    t, l := NumberUsed(tables, n + 1, number);
  }

  lemma {:induction false} NumberUsed<A, I>(tables: seq<seq<Row<A, I>>>, n: nat, number: nat) returns (t: nat, l: nat)
    requires n <= |tables| && number < EpBase(tables, n)
    ensures t < |tables| && l < |tables[t]| && GlobalEpisode(tables, t, l) == number
  {
    hide Unique, Starts, Rank;
    t := n - 1;
    if number < EpBase(tables, t) {
      t, l := NumberUsed(tables, t, number);
    } else {
      var uniq := Unique(Starts(tables[t]));
      var k := number - EpBase(tables, t);
      UniqueIs(Starts(tables[t]), uniq[k]);
      l :| 0 <= l < |tables[t]| && Starts(tables[t])[l] == uniq[k];
      RankAt(uniq, k);
    }
  }

  lemma EpisodeInRange<A, I>(tables: seq<seq<Row<A, I>>>, t: nat, l: nat)
    requires t < |tables| && l < |tables[t]|
    ensures var u, start := Unique(Starts(tables[t])), tables[t][l].start;
            Rank(u, start) < |u| && u[Rank(u, start)] == start
  {
    UniqueIs(Starts(tables[t]), tables[t][l].start);
    assert Starts(tables[t])[l] == tables[t][l].start;
    RankIn(Unique(Starts(tables[t])), tables[t][l].start);
  }

  // Samples

  datatype Sample<A, I> = Sample(action: seq<A>, isPad: seq<bool>, images: I)

  function Min(a: nat, b: nat): nat { if a <= b then a else b }

  /** Entry `k` is the action `k` rows on, clipped to the last row of the episode run of
      row `l`, and is marked exactly when it is clipped. */
  ghost predicate IsChunk<A(!new), I(!new)>(action: seq<A>, isPad: seq<bool>, table: seq<Row<A, I>>, l: nat,
      chunkSize: nat)
    requires l < |table|
  {
    var end := RunEnd(Starts(table), l);
    |action| == |isPad| == chunkSize &&
    forall k | 0 <= k < chunkSize :: isPad[k] == (l + k >= end) && action[k] == table[Min(l + k, end - 1)].action
  }

  /** A sample is the chunk of its row, with the images that the lookup finds. */
  ghost predicate IsSample<A(!new), I(!new)>(sample: Option<Sample<A, I>>, tables: seq<seq<Row<A, I>>>, t: nat, l: nat,
                                             chunkSize: nat)
    requires t < |tables| && l < |tables[t]|
  {
    var images := Nonempty(tables, |tables|);
    (sample.Some? <==> t < |images| && l < |images[t]|) &&
    (sample.Some? ==> IsChunk(sample.value.action, sample.value.isPad, tables[t], l, chunkSize) &&
                      sample.value.images == images[t][l].images)
  }

  lemma RowAt<A(!new), I(!new)>(x: Index<A, I>, tables: seq<seq<Row<A, I>>>, t: nat, l: nat, r: nat)
    requires Built(x, tables, |tables|) && At(tables, t, l, r)
    ensures r < |x.actionAll| == |x.rowTable| == |x.rowLocal| == |x.rowEpEnd|
    ensures x.actionAll[r] == tables[t][l].action && x.rowTable[r] == t && x.rowLocal[r] == l
    ensures x.rowEpEnd[r] == RunEnd(Starts(tables[t]), l)
  {
    assert RowIs(x, tables, t, l);
  }

  function Actions<A, I>(table: seq<Row<A, I>>, from: nat, to: nat): (s: seq<A>)
    requires from <= to <= |table|
    ensures |s| == to - from && forall k | 0 <= k < |s| :: s[k] == table[from + k].action
  {
    seq(to - from, k requires 0 <= k < to - from => table[from + k].action)
  }

  /** From a row to the end of its run, the flat view follows the file. */
  lemma RowsAfter<A(!new), I(!new)>(x: Index<A, I>, tables: seq<seq<Row<A, I>>>, t: nat, l: nat, r: nat)
    requires Built(x, tables, |tables|) && At(tables, t, l, r)
    ensures var end := RunEnd(Starts(tables[t]), l);
            r + (end - l) <= |x.actionAll| && x.actionAll[r..r + (end - l)] == Actions(tables[t], l, end)
  {
    var end := RunEnd(Starts(tables[t]), l);
    hide RunEnd, Starts, Built, Offset;
    RowAt(x, tables, t, end - 1, r + (end - 1 - l));
    var run := x.actionAll[r..r + (end - l)];
    forall k | 0 <= k < |run|
      ensures run[k] == tables[t][l + k].action
    {
      RowAt(x, tables, t, l + k, r + k);
    }
  }

  lemma ChunkDone<A(!new), I(!new)>(all: seq<A>, row: nat, action: seq<A>, isPad: seq<bool>, table: seq<Row<A, I>>,
                                    l: nat, chunkSize: nat, valid: nat)
    requires l < |table| && valid == Min(l + chunkSize, RunEnd(Starts(table), l)) - l &&
             |action| == |isPad| == chunkSize
    requires var end := RunEnd(Starts(table), l);
             row + (end - l) <= |all| && all[row..row + (end - l)] == Actions(table, l, end)
    requires forall j | 0 <= j < valid :: action[j] == all[row + j] && !isPad[j]
    requires forall j | valid <= j < chunkSize :: action[j] == all[row + (valid - 1)] && isPad[j]
    ensures IsChunk(action, isPad, table, l, chunkSize)
  {
    var end := RunEnd(Starts(table), l);
    var run := all[row..row + (end - l)];
    forall k | 0 <= k < chunkSize
      ensures isPad[k] == (l + k >= end) && action[k] == table[Min(l + k, end - 1)].action
    {
      hide Starts, RunEnd, Actions;
      if k < valid {
        assert run[k] == all[row + k];
      } else {
        assert valid == |run| && run[valid - 1] == all[row + (valid - 1)];
      }
    }
  }

  /** The slices of __getitem__ for row `row` of the flat view, row `localRow` of its file. */
  method FillChunk<A(!new), I(!new)>(all: seq<A>, row: nat, localRow: nat, epEnd: nat, chunkSize: nat,
                                     ghost table: seq<Row<A, I>>) returns (action: seq<A>, isPad: seq<bool>)
    requires localRow < |table| && epEnd == RunEnd(Starts(table), localRow) && row + (epEnd - localRow) <= |all|
    requires all[row..row + (epEnd - localRow)] == Actions(table, localRow, epEnd)
    ensures IsChunk(action, isPad, table, localRow, chunkSize)
  {
    var valid := Min(localRow + chunkSize, epEnd) - localRow;
    hide Actions, RunEnd, Starts, IsChunk;
    var filled := new A[chunkSize](i => all[row]);
    var pads := new bool[chunkSize](i => false);
    for k := 0 to valid
      modifies filled
      invariant forall j | 0 <= j < k :: filled[j] == all[row + j]
    {
      filled[k] := all[row + k];
    }
    if valid < chunkSize {
      var last := all[row + (valid - 1)];
      for k := valid to chunkSize
        invariant forall j | 0 <= j < valid :: filled[j] == all[row + j] && !pads[j]
        invariant forall j | valid <= j < k :: filled[j] == last && pads[j]
      {
        filled[k], pads[k] := last, true;
      }
    }
    action, isPad := filled[..], pads[..];
    ChunkDone(all, row, action, isPad, table, localRow, chunkSize, valid);
  }

  lemma RowFields<A(!new), I(!new)>(x: Index<A, I>, tables: seq<seq<Row<A, I>>>, r: nat) returns (t: nat, l: nat)
    requires Built(x, tables, |tables|) && r < |x.actionAll|
    ensures At(tables, t, l, r) && x.imagesCols == Nonempty(tables, |tables|)
    ensures r < |x.rowTable| == |x.rowLocal| == |x.rowEpEnd|
    ensures x.rowTable[r] == t && x.rowLocal[r] == l && x.rowEpEnd[r] == RunEnd(Starts(tables[t]), l)
    ensures forall u: nat, m: nat | At(tables, u, m, r) :: u == t && m == l
  {
    t, l := RowOf(tables, |tables|, r);
    RowAt(x, tables, t, l, r);
    forall u: nat, m: nat | At(tables, u, m, r)
      ensures u == t && m == l
    {
      RowUnique(tables, t, l, u, m);
    }
  }

  /** Row `r` of the flat view is row `l` of table `t`. */
  ghost predicate At<A, I>(tables: seq<seq<Row<A, I>>>, t: nat, l: nat, r: nat) {
    t < |tables| && l < |tables[t]| && Offset(tables, t) + l == r
  }

  class Dataset<A(!new), I(!new)> {
    const chunkSize: nat
    const index: Index<A, I>
    const visible: seq<nat>
    ghost const tables: seq<seq<Row<A, I>>>

    constructor (tables: seq<seq<Row<A, I>>>, index: Index<A, I>, visible: seq<nat>, chunkSize: nat)
      ensures this.tables == tables && this.index == index && this.visible == visible && this.chunkSize == chunkSize
    {
      this.tables, this.index, this.visible, this.chunkSize := tables, index, visible, chunkSize;
    }

    ghost predicate Valid() {
      Built(index, tables, |tables|) && forall i | 0 <= i < |visible| :: visible[i] < |index.actionAll|
    }

    /** __init__: None when there are no rows at all. With a filter, the visible rows are
        those of the given global episodes, in order. */
    static method Open(tables: seq<seq<Row<A, I>>>, chunkSize: nat, episodes: Option<set<nat>>)
      returns (d: Option<Dataset<A, I>>)
      ensures d.None? <==> Offset(tables, |tables|) == 0
      ensures d.Some? ==> d.value.Valid() && d.value.tables == tables && d.value.chunkSize == chunkSize
      ensures d.Some? ==> Ascending(d.value.visible) && forall r: nat :: r in d.value.visible <==>
                r < Offset(tables, |tables|) && (episodes.None? || d.value.index.rowEpGlobal[r] in episodes.value)
    {
      var x := BuildIndex(tables);
      var n := |x.actionAll|;
      if n == 0 { return None; }
      var visible: seq<nat> := [];
      for r := 0 to n
        invariant Ascending(visible) && forall i | 0 <= i < |visible| :: visible[i] < r
        invariant forall q: nat :: q in visible <==> q < r && (episodes.None? || x.rowEpGlobal[q] in episodes.value)
      {
        if episodes.None? || x.rowEpGlobal[r] in episodes.value { visible := visible + [r]; }
      }
      var made := new Dataset(tables, x, visible, chunkSize);
      return Some(made);
    }

    /** __getitem__: None when the images cannot be looked up. */
    method GetItem(idx: nat) returns (sample: Option<Sample<A, I>>)
      requires Valid() && idx < |visible|
      ensures forall t: nat, l: nat | At(tables, t, l, visible[idx]) :: IsSample(sample, tables, t, l, chunkSize)
    {
      var row := visible[idx];
      ghost var t, l := RowFields(index, tables, row);
      var table, localRow, epEnd := index.rowTable[row], index.rowLocal[row], index.rowEpEnd[row];
      RowsAfter(index, tables, t, localRow, row);
      var action, isPad := FillChunk(index.actionAll, row, localRow, epEnd, chunkSize, tables[t]);
      if table >= |index.imagesCols| || localRow >= |index.imagesCols[table]| {
        sample := None;
      } else {
        sample := Some(Sample(action, isPad, index.imagesCols[table][localRow].images));
      }
      assert IsSample(sample, tables, t, l, chunkSize);
      hide IsChunk, At, Offset, RowIs, IsSample;
    }
  }

  // Images

  /** The file whose images the lookup for file `t` finds: file `t` itself exactly when no
      file up to it is empty, a later one otherwise. */
  lemma {:induction false} ImagesOf<A, I>(tables: seq<seq<Row<A, I>>>, t: nat, n: nat) returns (u: nat)
    requires n <= |tables| && t < |Nonempty(tables, n)|
    ensures t <= u < n && tables[u] != [] && Nonempty(tables, n)[t] == tables[u] && |Nonempty(tables, u)| == t
    ensures u == t <==> forall s | 0 <= s <= t :: tables[s] != []
  {
    NonemptyCount(tables, n - 1);
    if t < |Nonempty(tables, n - 1)| {
      u := ImagesOf(tables, t, n - 1);
    } else {
      u := n - 1;
      if t < u && forall s | 0 <= s <= t :: tables[s] != [] { NonemptyKeeps(tables, t, u); }
    }
  }

  lemma {:induction false} NonemptyCount<A, I>(tables: seq<seq<Row<A, I>>>, n: nat)
    requires n <= |tables|
    ensures |Nonempty(tables, n)| <= n
    ensures |Nonempty(tables, n)| == n <==> forall s | 0 <= s < n :: tables[s] != []
  {
    if n == 0 {
    } else {
      NonemptyCount(tables, n - 1);
    }
  }

  /** Without empty files before it, the images of a row are its own. */
  lemma OwnImages<A, I>(tables: seq<seq<Row<A, I>>>, t: nat)
    requires t < |tables| && forall s | 0 <= s <= t :: tables[s] != []
    ensures t < |Nonempty(tables, |tables|)| && Nonempty(tables, |tables|)[t] == tables[t]
  {
    NonemptyKeeps(tables, t, |tables|);
  }

  lemma {:induction false} NonemptyKeeps<A, I>(tables: seq<seq<Row<A, I>>>, t: nat, n: nat)
    requires t < n <= |tables| && forall s | 0 <= s <= t :: tables[s] != []
    ensures t < |Nonempty(tables, n)| && Nonempty(tables, n)[t] == tables[t]
  {
    if t + 1 < n {
      NonemptyKeeps(tables, t, n - 1);
    } else {
      NonemptyCount(tables, t);
    }
  }
}
