/** Episodes of a recorded dataset and their rendering jobs (dataset-mp4.go). */
module Episodes {
  import opened Options

  datatype Frame = Frame(id: nat, images: seq<nat>)

  datatype Row = Row(start: nat, frame: Frame)

  datatype Episode = Episode(frames: seq<Frame>, start: nat, number: nat)

  function Flatten<T>(parts: seq<seq<T>>): seq<T> {
    if parts == [] then [] else Flatten(parts[..|parts| - 1]) + parts[|parts| - 1]
  }

  // Runs

  ghost predicate SameStart(run: seq<Row>) {
    run != [] && forall i | 0 <= i < |run| :: run[i].start == run[0].start
  }

  /** The rows cut into maximal runs of equal start stamps. */
  ghost predicate IsRuns(runs: seq<seq<Row>>, rows: seq<Row>) {
    Flatten(runs) == rows &&
    (forall i | 0 <= i < |runs| :: SameStart(runs[i])) &&
    forall i, j | 0 <= i < j < |runs| && j == i + 1 :: runs[i][0].start != runs[j][0].start
  }

  /** A row joins the last run or starts one. */
  function Extend(runs: seq<seq<Row>>, row: Row): seq<seq<Row>> {
    if runs == [] then [[row]]
    else
      var n := |runs| - 1;
      if runs[n] == [] || runs[n][0].start != row.start then runs + [[row]] else runs[..n] + [runs[n] + [row]]
  }

  function Runs(rows: seq<Row>): seq<seq<Row>> {
    if rows == [] then [] else Extend(Runs(rows[..|rows| - 1]), rows[|rows| - 1])
  }

  lemma FlattenSnoc<T>(parts: seq<seq<T>>, last: seq<T>)
    ensures Flatten(parts + [last]) == Flatten(parts) + last
  {
    assert (parts + [last])[..|parts|] == parts;
  }

  lemma ExtendIs(runs: seq<seq<Row>>, rows: seq<Row>, row: Row)
    requires IsRuns(runs, rows)
    ensures IsRuns(Extend(runs, row), rows + [row])
  {
    hide Flatten;
    if runs == [] || (SameStart(runs[|runs| - 1]) && runs[|runs| - 1][0].start != row.start) {
      FlattenSnoc(runs, [row]);
      if runs == [] { assert runs + [[row]] == [[row]]; }
    } else {
      var n := |runs| - 1;
      var last := runs[n];
      assert SameStart(last);
      FlattenSnoc(runs[..n], last);
      FlattenSnoc(runs[..n], last + [row]);
      assert runs == runs[..n] + [last];
      assert Flatten(runs[..n]) + (last + [row]) == (Flatten(runs[..n]) + last) + [row];
      assert SameStart(last + [row]);
    }
  }

  lemma {:induction false} RunsAre(rows: seq<Row>)
    ensures IsRuns(Runs(rows), rows)
  {
    if rows == [] {
    } else {
      var g, row := rows[..|rows| - 1], rows[|rows| - 1];
      RunsAre(g);
      ExtendIs(Runs(g), g, row);
      assert rows == g + [row];
    }
  }

  /** The cut before the last row. */
  function Peeled(runs: seq<seq<Row>>): seq<seq<Row>>
    requires runs != [] && runs[|runs| - 1] != []
  {
    var n := |runs| - 1;
    var k := |runs[n]| - 1;
    if k == 0 then runs[..n] else runs[..n] + [runs[n][..k]]
  }

  lemma PeelRows(runs: seq<seq<Row>>, rows: seq<Row>)
    requires Flatten(runs) == rows && runs != [] && runs[|runs| - 1] != []
    ensures rows != [] && Flatten(Peeled(runs)) == rows[..|rows| - 1]
    ensures var last := runs[|runs| - 1]; last[|last| - 1] == rows[|rows| - 1]
  {
    var n := |runs| - 1;
    var init, last := runs[..n], runs[n];
    var k := |last| - 1;
    FlattenSnoc(init, last);
    assert runs == init + [last];
    hide Flatten;
    DropLast(Flatten(init), last);
    if k > 0 { FlattenSnoc(init, last[..k]); }
  }

  lemma DropLast<T>(a: seq<T>, b: seq<T>)
    requires b != []
    ensures (a + b)[..|a + b| - 1] == a + b[..|b| - 1]
    ensures |b| == 1 ==> a + b[..|b| - 1] == a
  {
  }

  lemma PeelStarts(runs: seq<seq<Row>>, rows: seq<Row>)
    requires IsRuns(runs, rows) && runs != [] && runs[|runs| - 1] != []
    ensures forall i | 0 <= i < |Peeled(runs)| :: SameStart(Peeled(runs)[i]) && Peeled(runs)[i][0] == runs[i][0]
    ensures forall i, j | 0 <= i < j < |Peeled(runs)| && j == i + 1 ::
              Peeled(runs)[i][0].start != Peeled(runs)[j][0].start
  {
    hide Flatten;
    assert SameStart(runs[|runs| - 1]);
    var peeled := Peeled(runs);
    forall i | 0 <= i < |peeled|
      ensures SameStart(peeled[i]) && peeled[i][0] == runs[i][0]
    {
      assert SameStart(runs[i]);
    }
  }

  lemma PeelExtend(runs: seq<seq<Row>>, row: Row)
    requires runs != [] && SameStart(runs[|runs| - 1]) && row == runs[|runs| - 1][|runs[|runs| - 1]| - 1]
    requires |runs| > 1 ==> runs[|runs| - 2] != [] && runs[|runs| - 2][0].start != runs[|runs| - 1][0].start
    ensures runs == Extend(Peeled(runs), row)
  {
    var n := |runs| - 1;
    var last := runs[n];
    var k := |last| - 1;
    if k == 0 {
      assert [row] == last && runs[..n] + [last] == runs;
    } else {
      assert last[..k] + [row] == last;
      assert (runs[..n] + [last[..k]])[..n] == runs[..n] && runs[..n] + [last] == runs;
    }
  }

  lemma Peel(runs: seq<seq<Row>>, rows: seq<Row>)
    requires IsRuns(runs, rows) && runs != []
    ensures rows != [] && runs[|runs| - 1] != []
    ensures IsRuns(Peeled(runs), rows[..|rows| - 1]) && runs == Extend(Peeled(runs), rows[|rows| - 1])
  {
    assert SameStart(runs[|runs| - 1]);
    if |runs| > 1 { assert SameStart(runs[|runs| - 2]); }
    PeelRows(runs, rows);
    PeelStarts(runs, rows);
    PeelExtend(runs, rows[|rows| - 1]);
    hide Flatten, Peeled, Extend, SameStart;
  }

  /** There is one such cut. */
  lemma {:induction false} RunsUnique(runs: seq<seq<Row>>, rows: seq<Row>)
    requires IsRuns(runs, rows)
    ensures runs == Runs(rows)
    decreases |rows|
  {
    if runs == [] {
    } else {
      Peel(runs, rows);
      hide Extend, Peeled, IsRuns;
      RunsUnique(Peeled(runs), rows[..|rows| - 1]);
    }
  }

  // Episodes

  /** Every frame has exactly two images. */
  predicate Complete(run: seq<Row>) { forall i | 0 <= i < |run| :: |run[i].frame.images| == 2 }

  function FramesOf(run: seq<Row>): (frames: seq<Frame>)
    ensures |frames| == |run| && forall i | 0 <= i < |run| :: frames[i] == run[i].frame
  {
    seq(|run|, i requires 0 <= i < |run| => run[i].frame)
  }

  /** The complete runs, in order, numbered from 1. */
  function EpisodesOf(runs: seq<seq<Row>>): (episodes: seq<Episode>)
    ensures forall i | 0 <= i < |episodes| :: episodes[i].number == i + 1 && episodes[i].frames != []
  {
    if runs == [] then []
    else
      var before, run := EpisodesOf(runs[..|runs| - 1]), runs[|runs| - 1];
      if run != [] && Complete(run) then before + [Episode(FramesOf(run), run[0].start, |before| + 1)] else before
  }

  // Episodes over the rows

  /** Rows `a` to `b` are a maximal run of equal start stamps. */
  ghost predicate MaximalRun(rows: seq<Row>, a: nat, b: nat) {
    a < b <= |rows| && (forall i | a <= i < b :: rows[i].start == rows[a].start) &&
    (a > 0 ==> rows[a - 1].start != rows[a].start) && (b < |rows| ==> rows[b].start != rows[a].start)
  }

  ghost predicate CompleteRun(rows: seq<Row>, a: nat, b: nat) {
    MaximalRun(rows, a, b) && forall i | a <= i < b :: |rows[i].frame.images| == 2
  }

  ghost predicate Shows(e: Episode, rows: seq<Row>, a: nat, b: nat)
    requires a < b <= |rows|
  {
    e.start == rows[a].start && |e.frames| == b - a && forall i | 0 <= i < b - a :: e.frames[i] == rows[a + i].frame
  }

  /** The episodes are those of the complete maximal runs of the rows, each of them once, in
      order and numbered from 1. */
  ghost predicate AreOf(episodes: seq<Episode>, rows: seq<Row>, spans: seq<(nat, nat)>) {
    |spans| == |episodes| &&
    (forall k | 0 <= k < |spans| ::
       CompleteRun(rows, spans[k].0, spans[k].1) && episodes[k].number == k + 1 &&
       Shows(episodes[k], rows, spans[k].0, spans[k].1)) &&
    (forall j, k | 0 <= j < k < |spans| :: spans[j].1 <= spans[k].0) &&
    forall a: nat, b: nat | CompleteRun(rows, a, b) :: (a, b) in spans
  }

  lemma MoreRows(before: seq<Row>, run: seq<Row>, a: nat, b: nat)
    requires SameStart(run) && (before != [] ==> before[|before| - 1].start != run[0].start)
    ensures MaximalRun(before + run, a, b) <==>
            (b <= |before| && MaximalRun(before, a, b)) || (a == |before| && b == |before| + |run|)
  {
    var rows := before + run;
    assert forall i | 0 <= i < |before| :: rows[i] == before[i];
    assert forall i | 0 <= i < |run| :: rows[|before| + i] == run[i];
  }

  lemma MoreComplete(before: seq<Row>, run: seq<Row>, a: nat, b: nat)
    requires SameStart(run) && (before != [] ==> before[|before| - 1].start != run[0].start)
    ensures CompleteRun(before + run, a, b) <==>
            (b <= |before| && CompleteRun(before, a, b)) ||
            (a == |before| && b == |before| + |run| && Complete(run))
  {
    MoreRows(before, run, a, b);
    hide MaximalRun, SameStart;
    var rows := before + run;
    assert forall i | 0 <= i < |before| :: rows[i] == before[i];
    assert forall i | 0 <= i < |run| :: run[i] == rows[|before| + i];
    if a == |before| && b == |before| + |run| {
      assert Complete(run) <==> forall i | a <= i < b :: |rows[i].frame.images| == 2;
    }
  }

  lemma StillShows(e: Episode, before: seq<Row>, run: seq<Row>, a: nat, b: nat)
    requires a < b <= |before| && Shows(e, before, a, b)
    ensures Shows(e, before + run, a, b)
  {
  }

  lemma LastShows(before: seq<Row>, run: seq<Row>, number: nat)
    requires run != []
    ensures Shows(Episode(FramesOf(run), run[0].start, number), before + run, |before|, |before| + |run|)
  {
    assert forall i | 0 <= i < |run| :: (before + run)[|before| + i] == run[i];
  }

  /** One more run gives one more episode when it is complete. */
  lemma AreOfMore(episodes: seq<Episode>, before: seq<Row>, spans: seq<(nat, nat)>, run: seq<Row>)
    requires AreOf(episodes, before, spans)
    requires SameStart(run) && (before != [] ==> before[|before| - 1].start != run[0].start)
    ensures Complete(run) ==>
              AreOf(episodes + [Episode(FramesOf(run), run[0].start, |episodes| + 1)], before + run,
                    spans + [(|before|, |before| + |run|)])
    ensures !Complete(run) ==> AreOf(episodes, before + run, spans)
  {
    hide MaximalRun, Complete, FramesOf;
    forall a: nat, b: nat
      ensures CompleteRun(before + run, a, b) <==>
              (b <= |before| && CompleteRun(before, a, b)) ||
              (a == |before| && b == |before| + |run| && Complete(run))
    {
      MoreComplete(before, run, a, b);
    }
    forall k | 0 <= k < |spans|
      ensures spans[k].0 < spans[k].1 <= |before| && Shows(episodes[k], before + run, spans[k].0, spans[k].1)
    {
      Inside(before, spans[k].0, spans[k].1);
      StillShows(episodes[k], before, run, spans[k].0, spans[k].1);
    }
    LastShows(before, run, |episodes| + 1);
    hide Shows, CompleteRun, SameStart;
  }

  lemma Inside(rows: seq<Row>, a: nat, b: nat)
    requires CompleteRun(rows, a, b)
    ensures a < b <= |rows|
  {
  }

  lemma {:induction false} EpisodesAre(runs: seq<seq<Row>>, rows: seq<Row>) returns (spans: seq<(nat, nat)>)
    requires IsRuns(runs, rows)
    ensures AreOf(EpisodesOf(runs), rows, spans)
    decreases |runs|
  {
    hide *;
    if runs == [] {
      NoEpisodes(rows);
      spans := [];
    } else {
      var init, last := runs[..|runs| - 1], runs[|runs| - 1];
      DropRun(runs, rows);
      spans := EpisodesAre(init, Flatten(init));
      AreOfMore(EpisodesOf(init), Flatten(init), spans, last);
      LastEpisode(runs);
      if Complete(last) { spans := spans + [(|Flatten(init)|, |Flatten(init)| + |last|)]; }
    }
  }

  lemma NoEpisodes(rows: seq<Row>)
    requires IsRuns([], rows)
    ensures AreOf(EpisodesOf([]), rows, [])
  {
  }

  lemma LastEpisode(runs: seq<seq<Row>>)
    requires runs != [] && SameStart(runs[|runs| - 1])
    ensures var before, run := EpisodesOf(runs[..|runs| - 1]), runs[|runs| - 1];
            run != [] &&
            EpisodesOf(runs) ==
            if Complete(run) then before + [Episode(FramesOf(run), run[0].start, |before| + 1)] else before
  {
    hide Complete, FramesOf;
  }

  lemma DropRun(runs: seq<seq<Row>>, rows: seq<Row>)
    requires IsRuns(runs, rows) && runs != []
    ensures var init, last := runs[..|runs| - 1], runs[|runs| - 1];
            rows == Flatten(init) + last && IsRuns(init, Flatten(init)) && SameStart(last) &&
            (Flatten(init) != [] ==> Flatten(init)[|Flatten(init)| - 1].start != last[0].start)
  {
    var init, last := runs[..|runs| - 1], runs[|runs| - 1];
    if init != [] {
      var prior := init[|init| - 1];
      assert SameStart(runs[|runs| - 2]) && Flatten(init) == Flatten(init[..|init| - 1]) + prior;
      assert Flatten(init)[|Flatten(init)| - 1] == prior[|prior| - 1];
    }
  }

  /** The episode being collected; `None` for its frames marks it as invalid. */
  datatype Current = Current(frames: Option<seq<Frame>>, start: nat, number: nat)

  /** What the loop has saved and holds after the rows of `runs`. */
  ghost predicate Collected(runs: seq<seq<Row>>, episodes: seq<Episode>, current: Option<Current>) {
    if runs == [] then episodes == [] && current == None
    else
      var run := runs[|runs| - 1];
      run != [] && episodes == EpisodesOf(runs[..|runs| - 1]) &&
      current == Some(Current(if Complete(run) then Some(FramesOf(run)) else None, run[0].start, |episodes| + 1))
  }

  function Save(episodes: seq<Episode>, current: Option<Current>): seq<Episode> {
    if current.Some? && current.value.frames.Some? && current.value.frames.value != [] then
      episodes + [Episode(current.value.frames.value, current.value.start, current.value.number)]
    else episodes
  }

  /** One row of the loop. */
  function Take(episodes: seq<Episode>, current: Option<Current>, row: Row): (seq<Episode>, Option<Current>) {
    var change := current.None? || row.start != current.value.start;
    var episodes := if change then Save(episodes, current) else episodes;
    var c := if change then Current(Some([]), row.start, |episodes| + 1) else current.value;
    (episodes,
     Some(if |row.frame.images| != 2 then c.(frames := None)
          else if c.frames.None? then c
          else c.(frames := Some(c.frames.value + [row.frame]))))
  }

  lemma SaveIs(runs: seq<seq<Row>>, episodes: seq<Episode>, current: Option<Current>)
    requires Collected(runs, episodes, current)
    ensures Save(episodes, current) == EpisodesOf(runs)
  {
    if runs != [] {
      var run := runs[|runs| - 1];
      hide Complete;
      if Complete(run) {
        assert current.value.frames == Some(FramesOf(run)) && FramesOf(run) != [];
      } else {
        assert current.value.frames == None;
      }
    }
  }

  lemma TakeExtends(runs: seq<seq<Row>>, row: Row, episodes: seq<Episode>, current: Option<Current>)
    requires Collected(runs, episodes, current)
    ensures var r := Take(episodes, current, row); Collected(Extend(runs, row), r.0, r.1)
  {
    hide EpisodesOf, Complete, FramesOf;
    SaveIs(runs, episodes, current);
    var after, n := Extend(runs, row), |runs| - 1;
    if runs != [] && runs[n][0].start == row.start {
      var run := runs[n];
      assert after[..|after| - 1] == runs[..n] && after[|after| - 1] == run + [row];
      GrowRun(run, row);
      hide Extend;
    } else {
      assert after[..|after| - 1] == runs && after[|after| - 1] == [row];
      GrowRun([], row);
      NoRows();
      assert [] + [row] == [row];
      hide Extend;
    }
  }

  lemma NoRows()
    ensures Complete([]) && FramesOf([]) == []
  {
  }

  lemma GrowRun(run: seq<Row>, row: Row)
    ensures Complete(run + [row]) <==> Complete(run) && |row.frame.images| == 2
    ensures FramesOf(run + [row]) == FramesOf(run) + [row.frame]
  {
    assert (run + [row])[|run|] == row;
    assert forall i | 0 <= i < |run| :: run[i] == (run + [row])[i];
  }

  /** The body of the inner loop of collectEpisodes. */
  method TakeRow(episodes: seq<Episode>, current: Option<Current>, row: Row)
    returns (saved: seq<Episode>, now: Option<Current>)
    ensures (saved, now) == Take(episodes, current, row)
  {
    saved, now := episodes, current;
    if now.None? || row.start != now.value.start {
      if now.Some? && now.value.frames.Some? && |now.value.frames.value| > 0 {
        saved := saved + [Episode(now.value.frames.value, now.value.start, now.value.number)];
      }
      now := Some(Current(Some([]), row.start, |saved| + 1));
    }
    if |row.frame.images| != 2 {
      now := Some(now.value.(frames := None));
      return;
    }
    if now.value.frames.None? { return; }
    now := Some(now.value.(frames := Some(now.value.frames.value + [row.frame])));
  }

  lemma OneMoreRow(before: seq<Row>, batch: seq<Row>, i: nat)
    requires i < |batch|
    ensures Runs(before + batch[..i + 1]) == Extend(Runs(before + batch[..i]), batch[i])
  {
    var rows := before + batch[..i + 1];
    assert rows[..|rows| - 1] == before + batch[..i];
  }

  lemma OneMoreBatch(batches: seq<seq<Row>>, b: nat)
    requires b < |batches|
    ensures Flatten(batches[..b + 1]) == Flatten(batches[..b]) + batches[b][..|batches[b]|]
    ensures Flatten(batches[..b]) == Flatten(batches[..b]) + batches[b][..0]
  {
    assert batches[..b + 1] == batches[..b] + [batches[b]];
    FlattenSnoc(batches[..b], batches[b]);
  }

  /** collectEpisodes, on the batches of the file: whatever the split, the episodes are
      the complete maximal runs of the rows. */
  method CollectEpisodes(batches: seq<seq<Row>>) returns (episodes: seq<Episode>)
    ensures forall runs | IsRuns(runs, Flatten(batches)) :: episodes == EpisodesOf(runs)
    ensures exists spans :: AreOf(episodes, Flatten(batches), spans)
  {
    episodes := [];
    var current: Option<Current> := None;
    assert batches[..|batches|] == batches;
    assert Collected(Runs(Flatten(batches[..0])), episodes, current);
    hide Collected, Runs, Flatten, Take, Extend, EpisodesOf, IsRuns;
    for b := 0 to |batches|
      invariant Collected(Runs(Flatten(batches[..b])), episodes, current)
    {
      var batch := batches[b];
      OneMoreBatch(batches, b);
      for i := 0 to |batch|
        invariant Collected(Runs(Flatten(batches[..b]) + batch[..i]), episodes, current)
      {
        OneMoreRow(Flatten(batches[..b]), batch, i);
        TakeExtends(Runs(Flatten(batches[..b]) + batch[..i]), batch[i], episodes, current);
        episodes, current := TakeRow(episodes, current, batch[i]);
      }
    }
    SaveIs(Runs(Flatten(batches)), episodes, current);
    if current.Some? && current.value.frames.Some? && |current.value.frames.value| > 0 {
      episodes := episodes + [Episode(current.value.frames.value, current.value.start, current.value.number)];
    }
    forall runs | IsRuns(runs, Flatten(batches))
      ensures episodes == EpisodesOf(runs)
    {
      RunsUnique(runs, Flatten(batches));
    }
    RunsAre(Flatten(batches));
    ghost var spans := EpisodesAre(Runs(Flatten(batches)), Flatten(batches));
    hide AreOf;
  }
}
