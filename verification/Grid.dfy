/** The grid and job loop of the renderer (dataset-mp4.go): episodes side by side in
    grids, one job per frame index of a grid. */
module Grid {
  import opened Bits
  import opened Options
  import opened Episodes

  const BLANK := Frame(0, [])

  /** A job renders the slots of one image; slot number 0 is blank. */
  datatype Job = Job(frames: seq<Frame>, numbers: seq<nat>, index: nat)

  type Collected = s: seq<Episode> | forall i | 0 <= i < |s| :: s[i].number == i + 1 witness []

  /** The most frames of the episodes from `first` to `last`. */
  function MostFrames(episodes: seq<Episode>, first: nat, last: nat): (n: nat)
    requires first <= last <= |episodes|
    ensures forall e | first <= e < last :: |episodes[e].frames| <= n
    ensures n > 0 ==> exists e :: first <= e < last && |episodes[e].frames| == n
    decreases last - first
  {
    if first == last then 0
    else
      var n := MostFrames(episodes, first, last - 1);
      if |episodes[last - 1].frames| > n then |episodes[last - 1].frames| else n
  }

  function GridEnd(episodes: seq<Episode>, size: nat, g: nat): nat {
    if g * size + size <= |episodes| then g * size + size else |episodes|
  }

  /** The jobs of grid `g`. */
  function GridFrames(episodes: seq<Episode>, size: nat, g: nat): nat {
    if g * size <= GridEnd(episodes, size, g) then MostFrames(episodes, g * size, GridEnd(episodes, size, g)) else 0
  }

  /** The jobs of the grids before `g`. */
  function Before(episodes: seq<Episode>, size: nat, g: nat): nat {
    if g == 0 then 0 else Before(episodes, size, g - 1) + GridFrames(episodes, size, g - 1)
  }

  function NumGrids(n: nat, size: nat): nat
    requires size > 0
  {
    (n + size - 1) / size
  }

  /** Slot `i` of frame `f` of grid `g`. */
  predicate Filled(episodes: seq<Episode>, size: nat, g: nat, f: nat, i: nat) {
    i < size && g * size + i < |episodes| && f < |episodes[g * size + i].frames|
  }

  ghost predicate IsJob(job: Job, episodes: seq<Episode>, size: nat, g: nat, f: nat) {
    |job.frames| == |job.numbers| == size && job.index == Before(episodes, size, g) + f &&
    forall i | 0 <= i < size ::
      if Filled(episodes, size, g, f, i) then
        job.frames[i] == episodes[g * size + i].frames[f] && job.numbers[i] == episodes[g * size + i].number
      else job.frames[i] == BLANK && job.numbers[i] == 0
  }

  ghost predicate HasJob(jobs: seq<Job>, episodes: seq<Episode>, size: nat, g: nat, f: nat) {
    var j := Before(episodes, size, g) + f;
    j < |jobs| && IsJob(jobs[j], episodes, size, g, f)
  }

  /** The jobs of the first `g` grids, and the first `f` of the next. */
  ghost predicate AreJobs(jobs: seq<Job>, episodes: seq<Episode>, size: nat, g: nat, f: nat) {
    |jobs| == Before(episodes, size, g) + f &&
    (forall h: nat, k: nat | h < g && k < GridFrames(episodes, size, h) :: HasJob(jobs, episodes, size, h, k)) &&
    forall k: nat | k < f :: HasJob(jobs, episodes, size, g, k)
  }

  /** One image: the job of frame `f` of the grid whose first episode is `start`. */
  method MakeJob(episodes: seq<Episode>, size: nat, ghost g: nat, start: nat, end: nat, f: nat, index: nat)
    returns (job: Job)
    requires start == g * size <= end == GridEnd(episodes, size, g) && index == Before(episodes, size, g) + f
    ensures IsJob(job, episodes, size, g, f)
  {
    var frames := new Frame[size](i => BLANK);
    var numbers := new nat[size](i => 0);
    for i := 0 to size
      invariant forall k | 0 <= k < i ::
                  if Filled(episodes, size, g, f, k) then
                    frames[k] == episodes[start + k].frames[f] && numbers[k] == episodes[start + k].number
                  else frames[k] == BLANK && numbers[k] == 0
    {
      hide Before, GridEnd;
      if i < end - start && f < |episodes[start + i].frames| {
        frames[i], numbers[i] := episodes[start + i].frames[f], episodes[start + i].number;
      } else {
        frames[i], numbers[i] := BLANK, 0;
      }
    }
    hide Before, GridEnd;
    job := Job(frames[..], numbers[..], index);
  }

  /** The loop of main over grids and frame indices. A grid without slots is a division
      by zero. */
  method RenderJobs(episodes: seq<Episode>, cols: nat, rows: nat) returns (jobs: Option<seq<Job>>)
    ensures jobs.None? <==> cols * rows == 0
    ensures jobs.Some? ==> AreJobs(jobs.value, episodes, cols * rows, NumGrids(|episodes|, cols * rows), 0)
  {
    var size := cols * rows;
    if size == 0 { return None; }
    var sent: seq<Job> := [];
    var frameIndex := 0;
    var numGrids := NumGrids(|episodes|, size);
    for g := 0 to numGrids
      invariant AreJobs(sent, episodes, size, g, 0) && frameIndex == |sent|
    {
      GridStarts(|episodes|, size, g);
      hide AreJobs, Before;
      var start := g * size;
      var end := if start + size <= |episodes| then start + size else |episodes|;
      var maxFrames := 0;
      for e := start to end
        invariant maxFrames == MostFrames(episodes, start, e)
      {
        if |episodes[e].frames| > maxFrames { maxFrames := |episodes[e].frames|; }
      }
      for f := 0 to maxFrames
        invariant AreJobs(sent, episodes, size, g, f) && frameIndex == |sent|
      {
        var job := MakeJob(episodes, size, g, start, end, f, frameIndex);
        OneMoreJob(sent, job, episodes, size, g, f);
        sent := sent + [job];
        frameIndex := frameIndex + 1;
      }
      NextGrid(sent, episodes, size, g);
    }
    return Some(sent);
  }

  lemma GridStarts(n: nat, size: nat, g: nat)
    requires size > 0 && g < NumGrids(n, size)
    ensures g * size < n
  {
    assert (n + size - 1) / size * size + (n + size - 1) % size == n + size - 1;
    Below(g, (n + size - 1) / size, size, n);
  }

  lemma Below(g: int, q: int, m: int, n: int)
    requires g < q && m > 0 && q * m <= n + m - 1
    ensures g * m < n
  {
    Distribute(q - g - 1, g + 1, m);
    Distribute(g, 1, m);
    assert (q - g - 1) * m >= 0;
  }

  lemma OneMoreJob(jobs: seq<Job>, job: Job, episodes: seq<Episode>, size: nat, g: nat, f: nat)
    requires AreJobs(jobs, episodes, size, g, f) && IsJob(job, episodes, size, g, f)
    ensures AreJobs(jobs + [job], episodes, size, g, f + 1)
  {
    forall h: nat, k: nat | HasJob(jobs, episodes, size, h, k)
      ensures HasJob(jobs + [job], episodes, size, h, k)
    {
      hide IsJob, Before;
    }
    assert HasJob(jobs + [job], episodes, size, g, f);
    hide HasJob;
  }

  lemma NextGrid(jobs: seq<Job>, episodes: seq<Episode>, size: nat, g: nat)
    requires AreJobs(jobs, episodes, size, g, GridFrames(episodes, size, g))
    ensures AreJobs(jobs, episodes, size, g + 1, 0)
  {
    assert Before(episodes, size, g + 1) == Before(episodes, size, g) + GridFrames(episodes, size, g);
    hide HasJob, Before, GridFrames;
  }

  // Every frame once

  /** The grid and the frame index that a job belongs to. */
  lemma {:induction false} Locate(episodes: seq<Episode>, size: nat, grids: nat, j: nat) returns (g: nat, f: nat)
    requires j < Before(episodes, size, grids)
    ensures g < grids && f < GridFrames(episodes, size, g) && j == Before(episodes, size, g) + f
  {
    g := grids - 1;
    if j < Before(episodes, size, g) {
      g, f := Locate(episodes, size, g, j);
    } else {
      f := j - Before(episodes, size, g);
    }
  }

  function GridIndex(e: nat, size: nat): nat
    requires size > 0
  {
    e / size
  }

  function Slot(e: nat, size: nat): nat
    requires size > 0
  {
    e % size
  }

  lemma Place(size: nat, g: nat, i: nat, e: nat)
    requires i < size && e == g * size + i
    ensures GridIndex(e, size) == g && Slot(e, size) == i
  {
    ModUnique(e, size, g, i);
  }

  lemma GridOf(episodes: seq<Episode>, size: nat, e: nat)
    requires size > 0 && e < |episodes|
    ensures var g := GridIndex(e, size);
            g < NumGrids(|episodes|, size) && g * size + Slot(e, size) == e && Slot(e, size) < size &&
            |episodes[e].frames| <= GridFrames(episodes, size, g)
  {
    var n := |episodes|;
    assert e / size * size + e % size == e;
    assert (n + size - 1) / size * size + (n + size - 1) % size == n + size - 1;
    Larger(e / size, (n + size - 1) / size, size);
  }

  lemma Larger(g: int, q: int, m: int)
    requires q * m > g * m && m > 0
    ensures q > g
  {
  }

  /** The job that shows frame `f` of episode `e`, in slot `Slot(e, size)`. */
  function JobOf(episodes: seq<Episode>, size: nat, e: nat, f: nat): nat
    requires size > 0
  {
    Before(episodes, size, GridIndex(e, size)) + f
  }

  /** Each frame of each episode is shown, in the job and slot that belong to it. */
  lemma FrameIsShown(jobs: seq<Job>, episodes: Collected, size: nat, e: nat, f: nat)
    requires size > 0 && AreJobs(jobs, episodes, size, NumGrids(|episodes|, size), 0)
    requires e < |episodes| && f < |episodes[e].frames|
    ensures var j := JobOf(episodes, size, e, f);
            j < |jobs| && jobs[j].index == j && |jobs[j].frames| == |jobs[j].numbers| == size &&
            Slot(e, size) < size &&
            jobs[j].frames[Slot(e, size)] == episodes[e].frames[f] && jobs[j].numbers[Slot(e, size)] == e + 1
  {
    GridOf(episodes, size, e);
    hide Before, GridFrames, GridEnd, NumGrids, AreJobs, GridIndex, Slot;
    ShownAt(jobs, episodes, size, e, f, GridIndex(e, size), Slot(e, size));
  }

  lemma ShownAt(jobs: seq<Job>, episodes: Collected, size: nat, e: nat, f: nat, g: nat, i: nat)
    requires size > 0 && AreJobs(jobs, episodes, size, NumGrids(|episodes|, size), 0)
    requires e < |episodes| && f < |episodes[e].frames| && e == g * size + i && i < size
    requires g < NumGrids(|episodes|, size) && f < GridFrames(episodes, size, g)
    ensures var j := Before(episodes, size, g) + f;
            j < |jobs| && jobs[j].index == j && |jobs[j].frames| == |jobs[j].numbers| == size &&
            jobs[j].frames[i] == episodes[e].frames[f] && jobs[j].numbers[i] == e + 1
  {
    hide Before, GridFrames, NumGrids;
    assert HasJob(jobs, episodes, size, g, f);
    assert Filled(episodes, size, g, f, i);
  }

  /** And nowhere else: jobs are numbered consecutively, and a slot that is not blank
      shows the frame of an episode whose job and slot it is. */
  lemma SlotShows(jobs: seq<Job>, episodes: Collected, size: nat, j: nat, i: nat)
    requires size > 0 && AreJobs(jobs, episodes, size, NumGrids(|episodes|, size), 0)
    requires j < |jobs| && i < size
    ensures jobs[j].index == j && |jobs[j].frames| == |jobs[j].numbers| == size
    ensures if jobs[j].numbers[i] == 0 then jobs[j].frames[i] == BLANK
            else
              var e := jobs[j].numbers[i] - 1;
              e < |episodes| && i == Slot(e, size) &&
              exists f: nat :: f < |episodes[e].frames| && j == JobOf(episodes, size, e, f) &&
                               jobs[j].frames[i] == episodes[e].frames[f]
  {
    var grids := NumGrids(|episodes|, size);
    var g, f := Locate(episodes, size, grids, j);
    hide Before, GridFrames, GridEnd, NumGrids;
    assert HasJob(jobs, episodes, size, g, f);
    assert IsJob(jobs[j], episodes, size, g, f);
    if Filled(episodes, size, g, f, i) {
      Place(size, g, i, g * size + i);
      assert jobs[j].numbers[i] == g * size + i + 1;
    }
  }
}
