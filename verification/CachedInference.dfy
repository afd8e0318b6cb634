/** The key-value cache of SmolVLA (smolvlm_with_expert.py, flow_matching.py): a prefix
    pass that fills a cache, then denoising steps that run the suffix alone, against
    the one-shot forward over prefix and suffix together. */
module CachedInference {
  import opened Options
  import opened Attention

  /** One stream's part of a layer: the rotated query at a position, the rotated key
      with its value, and what follows attention (projection, residuals, MLP). */
  datatype Block<!H, !Q, !K, !A> = Block(query: (H, int) -> Q, key: (H, int) -> K, finish: (A, H) -> H)

  /** `cross` marks a layer whose expert attends to the prefix keys only, through its
      own projection of them. A layer may have no expert block. */
  datatype Layer<!H, !Q, !K, !A> = Layer(
    cross: bool, prefix: Block<H, Q, K, A>, expert: Option<Block<H, Q, K, A>>, project: K -> K)

  /** Softmax attention: masked keys weigh exactly nothing next to a visible one, and
      when none is visible all keys weigh the same. */
  datatype Softmax<!Q, !K, !A> = Softmax(attend: (Q, seq<K>) -> A, average: seq<K> -> A)

  function Visible<K>(keys: seq<K>, row: seq<bool>): seq<K>
    requires |keys| == |row|
  {
    if keys == [] then []
    else
      var n := |keys| - 1;
      Visible(keys[..n], row[..n]) + (if row[n] then [keys[n]] else [])
  }

  function Attend<Q, K, A>(softmax: Softmax<Q, K, A>, q: Q, keys: seq<K>, row: seq<bool>): A
    requires |keys| == |row|
  {
    var visible := Visible(keys, row);
    if visible == [] then softmax.average(keys) else softmax.attend(q, visible)
  }

  function Keys<H, Q, K, A>(block: Block<H, Q, K, A>, rows: seq<H>, positions: seq<int>): (keys: seq<K>)
    requires |rows| == |positions|
    ensures |keys| == |rows| && forall i | 0 <= i < |rows| :: keys[i] == block.key(rows[i], positions[i])
  {
    seq(|rows|, i requires 0 <= i < |rows| => block.key(rows[i], positions[i]))
  }

  function Project<K>(f: K -> K, keys: seq<K>): (r: seq<K>)
    ensures |r| == |keys| && forall i | 0 <= i < |keys| :: r[i] == f(keys[i])
  {
    seq(|keys|, i requires 0 <= i < |keys| => f(keys[i]))
  }

  /** The rows of one stream after attention to `keys` through `mask`. */
  function Mix<H, Q, K, A>(softmax: Softmax<Q, K, A>, block: Block<H, Q, K, A>, rows: seq<H>, positions: seq<int>,
                           keys: seq<K>, mask: seq<seq<bool>>): (r: seq<H>)
    requires |rows| == |positions| == |mask| && forall i | 0 <= i < |mask| :: |mask[i]| == |keys|
    ensures |r| == |rows|
    ensures forall i | 0 <= i < |rows| ::
              r[i] == block.finish(Attend(softmax, block.query(rows[i], positions[i]), keys, mask[i]), rows[i])
  {
    seq(|rows|, i requires 0 <= i < |rows| =>
      block.finish(Attend(softmax, block.query(rows[i], positions[i]), keys, mask[i]), rows[i]))
  }

  /** Positions counted from the smallest: the expert's in a cross layer. */
  function FromZero(positions: seq<int>): (r: seq<int>)
    ensures |r| == |positions|
  {
    if positions == [] then []
    else seq(|positions|, i requires 0 <= i < |positions| => positions[i] - Least(positions))
  }

  function Least(s: seq<int>): int
    requires s != []
  {
    if |s| == 1 then s[0]
    else
      var least := Least(s[..|s| - 1]);
      if s[|s| - 1] < least then s[|s| - 1] else least
  }

  lemma {:induction false} LeastIs(s: seq<int>)
    requires s != []
    ensures Least(s) in s && forall i | 0 <= i < |s| :: Least(s) <= s[i]
  {
    if |s| > 1 { LeastIs(s[..|s| - 1]); }
  }

  /** The smallest position becomes 0, and the distances stay. */
  lemma CountedFromZero(positions: seq<int>)
    requires positions != []
    ensures 0 in FromZero(positions) && forall i | 0 <= i < |positions| :: FromZero(positions)[i] >= 0
    ensures forall i, j | 0 <= i < |positions| && 0 <= j < |positions| ::
              FromZero(positions)[i] - FromZero(positions)[j] == positions[i] - positions[j]
  {
    LeastIs(positions);
    hide Least;
    var k :| 0 <= k < |positions| && positions[k] == Least(positions);
    assert FromZero(positions)[k] == 0;
  }

  // Masks and positions

  function Mask(pad: seq<bool>, att: seq<bool>): (m: seq<seq<bool>>)
    requires |pad| == |att|
    ensures |m| == |pad| && forall i | 0 <= i < |m| :: m[i] == Row(pad, att, i)
  {
    seq(|pad|, i requires 0 <= i < |pad| => Row(pad, att, i))
  }

  function Positions(pad: seq<bool>): (r: seq<int>)
    ensures |r| == |pad| && forall i | 0 <= i < |r| :: r[i] == Position(pad, i)
  {
    seq(|pad|, i requires 0 <= i < |pad| => Position(pad, i))
  }

  function DenoiseMask(prefixPad: seq<bool>, n: nat): (m: seq<seq<bool>>)
    ensures |m| == n && forall i | 0 <= i < n :: m[i] == DenoiseRow(prefixPad, n, i)
  {
    seq(n, i requires 0 <= i < n => DenoiseRow(prefixPad, n, i))
  }

  function DenoisePositions(prefixPad: seq<bool>, n: nat): (r: seq<int>)
    ensures |r| == n && forall i | 0 <= i < n :: r[i] == DenoisePosition(prefixPad, n, i)
  {
    seq(n, i requires 0 <= i < n => DenoisePosition(prefixPad, n, i))
  }

  /** In a cross layer the rows of the suffix stand at 0, 1, 2 and so on, whatever the prefix. */
  lemma ExpertPositions(prefixPad: seq<bool>, n: nat, i: nat)
    requires i < n
    ensures FromZero(DenoisePositions(prefixPad, n))[i] == i
  {
    var positions := DenoisePositions(prefixPad, n);
    forall k | 0 <= k < n
      ensures positions[k] == Count(prefixPad, |prefixPad|) + k
    {
      SuffixPosition(prefixPad, n, k);
    }
    hide Count;
    CountedFromZero(positions);
    hide FromZero;
    var r := FromZero(positions);
    var k :| 0 <= k < n && r[k] == 0;
    assert r[0] - r[k] == -k && r[i] - r[0] == i;
  }

  /** `mask[from:to, :width]` */
  function Block2d(mask: seq<seq<bool>>, from: nat, to: nat, width: nat): (m: seq<seq<bool>>)
    requires from <= to <= |mask| && forall i | 0 <= i < |mask| :: width <= |mask[i]|
    ensures |m| == to - from && forall i | 0 <= i < |m| :: m[i] == mask[from + i][..width]
  {
    seq(to - from, i requires 0 <= i < to - from => mask[from + i][..width])
  }

  // The three passes

  /** A layer of the one-shot forward, on prefix rows and suffix rows. */
  function FullLayer<H, Q, K, A>(softmax: Softmax<Q, K, A>, layer: Layer<H, Q, K, A>, prefix: seq<H>, suffix: seq<H>,
                                 positions: seq<int>, mask: seq<seq<bool>>): (r: (seq<H>, seq<H>))
    requires |mask| == |positions| == |prefix| + |suffix| && forall i | 0 <= i < |mask| :: |mask[i]| == |mask|
    ensures |r.0| == |prefix| && |r.1| == |suffix|
  {
    var p, all := |prefix|, |mask|;
    var keys := Keys(layer.prefix, prefix, positions[..p]);
    if layer.cross || layer.expert.None? then
      (Mix(softmax, layer.prefix, prefix, positions[..p], keys, Block2d(mask, 0, p, p)),
       if layer.expert.None? then suffix
       else Mix(softmax, layer.expert.value, suffix, FromZero(positions[p..]), Project(layer.project, keys),
                Block2d(mask, p, all, p)))
    else
      var keys := keys + Keys(layer.expert.value, suffix, positions[p..]);
      (Mix(softmax, layer.prefix, prefix, positions[..p], keys, mask[..p]),
       Mix(softmax, layer.expert.value, suffix, positions[p..], keys, mask[p..]))
  }

  function Full<H, Q, K, A>(softmax: Softmax<Q, K, A>, layers: seq<Layer<H, Q, K, A>>, prefix: seq<H>, suffix: seq<H>,
                            positions: seq<int>, mask: seq<seq<bool>>): (r: (seq<H>, seq<H>))
    requires |mask| == |positions| == |prefix| + |suffix| && forall i | 0 <= i < |mask| :: |mask[i]| == |mask|
    ensures |r.0| == |prefix| && |r.1| == |suffix|
    decreases |layers|
  {
    if layers == [] then (prefix, suffix)
    else
      var r := FullLayer(softmax, layers[0], prefix, suffix, positions, mask);
      Full(softmax, layers[1..], r.0, r.1, positions, mask)
  }

  /** The pass that fills the cache: every layer attends within the prefix. */
  function FillCache<H, Q, K, A>(softmax: Softmax<Q, K, A>, layers: seq<Layer<H, Q, K, A>>, prefix: seq<H>,
                                 positions: seq<int>, mask: seq<seq<bool>>): (caches: seq<seq<K>>)
    requires |mask| == |positions| == |prefix| && forall i | 0 <= i < |mask| :: |mask[i]| == |mask|
    ensures |caches| == |layers| && forall l | 0 <= l < |caches| :: |caches[l]| == |prefix|
    decreases |layers|
  {
    if layers == [] then []
    else
      var keys := Keys(layers[0].prefix, prefix, positions);
      [keys] + FillCache(softmax, layers[1..],
                         Mix(softmax, layers[0].prefix, prefix, positions, keys, mask), positions, mask)
  }

  /** A layer of a denoising step on the suffix alone. A self-attention layer without
      an expert has no tensor to concatenate: the step fails. */
  function CachedLayer<H, Q, K, A>(softmax: Softmax<Q, K, A>, layer: Layer<H, Q, K, A>, cache: seq<K>, suffix: seq<H>,
                                   positions: seq<int>, mask: seq<seq<bool>>): (r: Option<seq<H>>)
    requires |mask| == |positions| == |suffix| && forall i | 0 <= i < |mask| :: |mask[i]| == |cache| + |suffix|
    ensures r.Some? ==> |r.value| == |suffix|
    ensures r.None? <==> !layer.cross && layer.expert.None?
  {
    if layer.expert.None? then if layer.cross then Some(suffix) else None
    else if layer.cross then
      Some(Mix(softmax, layer.expert.value, suffix, FromZero(positions), Project(layer.project, cache),
               Block2d(mask, 0, |mask|, |cache|)))
    else
      Some(Mix(softmax, layer.expert.value, suffix, positions,
               cache + Keys(layer.expert.value, suffix, positions), mask))
  }

  function Cached<H, Q, K, A>(softmax: Softmax<Q, K, A>, layers: seq<Layer<H, Q, K, A>>, caches: seq<seq<K>>,
                              suffix: seq<H>, positions: seq<int>, mask: seq<seq<bool>>, p: nat): (r: Option<seq<H>>)
    requires |caches| == |layers| && forall l | 0 <= l < |caches| :: |caches[l]| == p
    requires |mask| == |positions| == |suffix| && forall i | 0 <= i < |mask| :: |mask[i]| == p + |suffix|
    ensures r.Some? ==> |r.value| == |suffix|
    decreases |layers|
  {
    if layers == [] then Some(suffix)
    else
      var r := CachedLayer(softmax, layers[0], caches[0], suffix, positions, mask);
      if r.None? then None else Cached(softmax, layers[1..], caches[1..], r.value, positions, mask, p)
  }

  /** Every self-attention layer has an expert block. */
  predicate Runs<H, Q, K, A>(layers: seq<Layer<H, Q, K, A>>) {
    forall l | 0 <= l < |layers| :: layers[l].cross || layers[l].expert.Some?
  }

  // Attention depends on the visible keys alone

  lemma {:induction false} VisibleSame<K>(a: seq<K>, b: seq<K>, row: seq<bool>)
    requires |a| == |b| == |row| && forall i | 0 <= i < |row| && row[i] :: a[i] == b[i]
    ensures Visible(a, row) == Visible(b, row)
  {
    if a == [] {
    } else {
      var n := |a| - 1;
      VisibleSame(a[..n], b[..n], row[..n]);
    }
  }

  lemma {:induction false} VisibleBefore<K>(a: seq<K>, more: seq<K>, row: seq<bool>)
    requires |a| == |row|
    ensures Visible(a + more, row + Same(|more|, false)) == Visible(a, row)
    decreases |more|
  {
    if more == [] {
      assert a + more == a && row + Same(0, false) == row;
    } else {
      var n := |more| - 1;
      VisibleBefore(a, more[..n], row);
      var keys, r := a + more, row + Same(|more|, false);
      assert keys[..|keys| - 1] == a + more[..n] && r[..|r| - 1] == row + Same(n, false);
    }
  }

  lemma {:induction false} VisibleSome<K>(keys: seq<K>, row: seq<bool>, i: nat)
    requires |keys| == |row| && i < |row| && row[i]
    ensures Visible(keys, row) != []
  {
    var n := |keys| - 1;
    if i == n {
    } else {
      VisibleSome(keys[..n], row[..n], i);
    }
  }

  /** Two passes whose keys agree wherever the row looks attend alike, as long as the
      row looks somewhere. */
  lemma AttendSame<Q, K, A>(softmax: Softmax<Q, K, A>, q: Q, a: seq<K>, b: seq<K>, row: seq<bool>, i: nat)
    requires |a| == |b| == |row| && (forall j | 0 <= j < |row| && row[j] :: a[j] == b[j])
    requires i < |row| && row[i]
    ensures Attend(softmax, q, a, row) == Attend(softmax, q, b, row)
  {
    VisibleSame(a, b, row);
    VisibleSome(a, row, i);
    VisibleSome(b, row, i);
  }

  lemma AttendBefore<Q, K, A>(softmax: Softmax<Q, K, A>, q: Q, a: seq<K>, more: seq<K>, row: seq<bool>, i: nat)
    requires |a| == |row| && i < |row| && row[i]
    ensures Attend(softmax, q, a + more, row + Same(|more|, false)) == Attend(softmax, q, a, row)
  {
    VisibleBefore(a, more, row);
    VisibleSome(a, row, i);
  }

  // The masks of the passes

  function FullMask(pp: seq<bool>, pa: seq<bool>, n: nat): (m: seq<seq<bool>>)
    requires |pp| == |pa|
    ensures |m| == |pp| + n && forall i | 0 <= i < |m| :: |m[i]| == |m|
  {
    Mask(pp + Ones(n), pa + Ones(n))
  }

  function FullPositions(pp: seq<bool>, n: nat): (r: seq<int>)
    ensures |r| == |pp| + n
  {
    Positions(pp + Ones(n))
  }

  lemma PositionsMatch(pp: seq<bool>, n: nat)
    ensures FullPositions(pp, n)[..|pp|] == Positions(pp)
    ensures FullPositions(pp, n)[|pp|..] == DenoisePositions(pp, n)
  {
    forall i | 0 <= i < |pp|
      ensures FullPositions(pp, n)[i] == Position(pp, i)
    {
      PrefixRow(pp, pp, n, i);
    }
    forall i | 0 <= i < n
      ensures FullPositions(pp, n)[|pp| + i] == DenoisePosition(pp, n, i)
    {
      SuffixPosition(pp, n, i);
    }
  }

  function Repeat(row: seq<bool>, n: nat): (m: seq<seq<bool>>)
    ensures |m| == n && forall i | 0 <= i < n :: m[i] == row
  {
    seq(n, i => row)
  }

  lemma MasksMatch(pp: seq<bool>, pa: seq<bool>, n: nat)
    requires |pp| == |pa|
    ensures var m, p := FullMask(pp, pa, n), |pp|;
            (forall i | 0 <= i < p :: m[i] == Row(pp, pa, i) + Same(n, false)) &&
            Block2d(m, 0, p, p) == Mask(pp, pa) &&
            m[p..] == DenoiseMask(pp, n) &&
            Block2d(m, p, p + n, p) == Block2d(DenoiseMask(pp, n), 0, n, p) == Repeat(pp, n)
  {
    var m, p := FullMask(pp, pa, n), |pp|;
    forall i | 0 <= i < p
      ensures m[i] == Row(pp, pa, i) + Same(n, false)
    {
      PrefixRow(pp, pa, n, i);
    }
    forall i | 0 <= i < n
      ensures m[p + i] == DenoiseRow(pp, n, i) && m[p + i][..p] == pp
    {
      SuffixRow(pp, pa, n, i);
    }
    hide Row, DenoiseRow, Same, Mask;
  }

  // One layer

  /** Two runs of the prefix agree on its valid rows. */
  ghost predicate Agree<H>(a: seq<H>, b: seq<H>, pad: seq<bool>) {
    |a| == |b| == |pad| && forall i | 0 <= i < |pad| && pad[i] :: a[i] == b[i]
  }

  lemma KeysAgree<H, Q, K, A>(block: Block<H, Q, K, A>, a: seq<H>, b: seq<H>, pad: seq<bool>, positions: seq<int>)
    requires Agree(a, b, pad) && |positions| == |pad|
    ensures Agree(Keys(block, a, positions), Keys(block, b, positions), pad)
  {
  }

  /** A prefix row attends, among the keys of the other run, as it did among its own,
      and nothing behind the prefix matters to it. */
  lemma RowAgrees<Q, K, A>(softmax: Softmax<Q, K, A>, q: Q, a: seq<K>, b: seq<K>, more: seq<K>,
                           pp: seq<bool>, pa: seq<bool>, i: nat)
    requires |pp| == |pa| && Agree(a, b, pp) && i < |pp| && pp[i]
    ensures Attend(softmax, q, a, Row(pp, pa, i)) == Attend(softmax, q, b, Row(pp, pa, i))
    ensures Attend(softmax, q, a + more, Row(pp, pa, i) + Same(|more|, false)) == Attend(softmax, q, b, Row(pp, pa, i))
  {
    assert Row(pp, pa, i)[i];
    AttendSame(softmax, q, a, b, Row(pp, pa, i), i);
    AttendBefore(softmax, q, a, more, Row(pp, pa, i), i);
  }

  /** The prefix rows after a layer of the one-shot forward and of the cache pass. */
  lemma PrefixLayer<H, Q, K, A>(softmax: Softmax<Q, K, A>, layer: Layer<H, Q, K, A>, a: seq<H>, b: seq<H>,
                                suffix: seq<H>, pp: seq<bool>, pa: seq<bool>)
    requires |pp| == |pa| && Agree(a, b, pp)
    ensures var n := |suffix|;
            Agree(FullLayer(softmax, layer, a, suffix, FullPositions(pp, n), FullMask(pp, pa, n)).0,
                  Mix(softmax, layer.prefix, b, Positions(pp), Keys(layer.prefix, b, Positions(pp)), Mask(pp, pa)), pp)
  {
    var p, n := |pp|, |suffix|;
    var pos, mask := FullPositions(pp, n), FullMask(pp, pa, n);
    hide Row, Attend, Same, FullMask, FullPositions, Position;
    PositionsMatch(pp, n);
    MasksMatch(pp, pa, n);
    var ka, kb := Keys(layer.prefix, a, Positions(pp)), Keys(layer.prefix, b, Positions(pp));
    KeysAgree(layer.prefix, a, b, pp, Positions(pp));
    var more := if layer.cross || layer.expert.None? then [] else Keys(layer.expert.value, suffix, pos[p..]);
    forall i | 0 <= i < p && pp[i]
      ensures FullLayer(softmax, layer, a, suffix, pos, mask).0[i] ==
              Mix(softmax, layer.prefix, b, Positions(pp), kb, Mask(pp, pa))[i]
    {
      var q := layer.prefix.query(a[i], Positions(pp)[i]);
      RowAgrees(softmax, q, ka, kb, more, pp, pa, i);
    }
  }

  /** A suffix row that attends to the prefix keys only. */
  lemma CrossMix<H, Q, K, A>(softmax: Softmax<Q, K, A>, expert: Block<H, Q, K, A>, project: K -> K, ka: seq<K>,
                             kb: seq<K>, suffix: seq<H>, at: seq<int>, pp: seq<bool>)
    requires Agree(ka, kb, pp) && LooksSomewhere(pp) && |at| == |suffix|
    ensures Mix(softmax, expert, suffix, at, Project(project, ka), Repeat(pp, |suffix|)) ==
            Mix(softmax, expert, suffix, at, Project(project, kb), Repeat(pp, |suffix|))
  {
    hide LooksSomewhere;
    MixSame(softmax, expert, suffix, at, Project(project, ka), Project(project, kb), Repeat(pp, |suffix|));
  }

  /** A suffix row that attends to the prefix keys and the suffix's own. */
  lemma SelfMix<H, Q, K, A>(softmax: Softmax<Q, K, A>, expert: Block<H, Q, K, A>, ka: seq<K>, kb: seq<K>, own: seq<K>,
                            suffix: seq<H>, at: seq<int>, pp: seq<bool>)
    requires Agree(ka, kb, pp) && |own| == |at| == |suffix|
    ensures Mix(softmax, expert, suffix, at, ka + own, DenoiseMask(pp, |suffix|)) ==
            Mix(softmax, expert, suffix, at, kb + own, DenoiseMask(pp, |suffix|))
  {
    var n, mask := |suffix|, DenoiseMask(pp, |suffix|);
    hide DenoiseRow, LooksSomewhere;
    forall i, j | 0 <= i < n && 0 <= j < |pp| + n && mask[i][j]
      ensures (ka + own)[j] == (kb + own)[j]
    {
      DenoiseSees(pp, n, i, j);
    }
    forall i | 0 <= i < n
      ensures LooksSomewhere(mask[i])
    {
      DenoiseSees(pp, n, i, |pp| + i);
    }
    MixSame(softmax, expert, suffix, at, ka + own, kb + own, mask);
  }

  /** The suffix rows after a layer of the one-shot forward and of a denoising step
      against the cache. */
  lemma SuffixLayer<H, Q, K, A>(softmax: Softmax<Q, K, A>, layer: Layer<H, Q, K, A>, a: seq<H>, b: seq<H>,
                                suffix: seq<H>, pp: seq<bool>, pa: seq<bool>)
    requires |pp| == |pa| && Agree(a, b, pp) && (layer.cross || layer.expert.Some?)
    requires LooksSomewhere(pp)
    ensures var n := |suffix|;
            CachedLayer(softmax, layer, Keys(layer.prefix, b, Positions(pp)), suffix,
                        DenoisePositions(pp, n), DenoiseMask(pp, n)) ==
            Some(FullLayer(softmax, layer, a, suffix, FullPositions(pp, n), FullMask(pp, pa, n)).1)
  {
    var ka, kb := Keys(layer.prefix, a, Positions(pp)), Keys(layer.prefix, b, Positions(pp));
    KeysAgree(layer.prefix, a, b, pp, Positions(pp));
    PositionsMatch(pp, |suffix|);
    MasksMatch(pp, pa, |suffix|);
    hide Row, Attend, Same, FullMask, FullPositions, Position, DenoiseRow, FromZero, LooksSomewhere, Agree, Mix, Keys,
      Project, Mask, DenoiseMask, DenoisePositions, Positions, Repeat;
    if layer.expert.None? {
    } else if layer.cross {
      CrossMix(softmax, layer.expert.value, layer.project, ka, kb, suffix,
               FromZero(DenoisePositions(pp, |suffix|)), pp);
    } else {
      SelfMix(softmax, layer.expert.value, ka, kb, Keys(layer.expert.value, suffix, DenoisePositions(pp, |suffix|)),
              suffix, DenoisePositions(pp, |suffix|), pp);
    }
  }

  lemma DenoiseSees(pp: seq<bool>, n: nat, i: nat, j: nat)
    requires i < n && j < |pp| + n
    ensures j < |pp| ==> DenoiseRow(pp, n, i)[j] == pp[j]
    ensures DenoiseRow(pp, n, i)[|pp| + i]
  {
    assert Row(Ones(n), Ones(n), i)[i];
  }

  ghost predicate LooksSomewhere(row: seq<bool>) {
    exists j :: 0 <= j < |row| && row[j]
  }

  /** Mixing against keys that agree wherever the mask looks, when every row looks
      somewhere. */
  lemma MixSame<H, Q, K, A>(softmax: Softmax<Q, K, A>, block: Block<H, Q, K, A>, rows: seq<H>, positions: seq<int>,
                            a: seq<K>, b: seq<K>, mask: seq<seq<bool>>)
    requires |rows| == |positions| == |mask| && |a| == |b| && forall i | 0 <= i < |mask| :: |mask[i]| == |a|
    requires forall i, j | 0 <= i < |mask| && 0 <= j < |a| && mask[i][j] :: a[j] == b[j]
    requires forall i | 0 <= i < |mask| :: LooksSomewhere(mask[i])
    ensures Mix(softmax, block, rows, positions, a, mask) == Mix(softmax, block, rows, positions, b, mask)
  {
    forall i | 0 <= i < |rows|
      ensures Mix(softmax, block, rows, positions, a, mask)[i] == Mix(softmax, block, rows, positions, b, mask)[i]
    {
      assert LooksSomewhere(mask[i]);
      var j :| 0 <= j < |mask[i]| && mask[i][j];
      AttendSame(softmax, block.query(rows[i], positions[i]), a, b, mask[i], j);
      hide Attend;
    }
  }

  // The whole stack

  /** Cached inference sees what training sees: with at least one valid prefix row, the
      suffix rows that a denoising step computes against the cache are those of the
      one-shot forward, layer by layer, even though the invalid prefix rows of the two
      passes may differ. It needs an expert in every self-attention layer. */
  lemma {:induction false} CacheIsSound<H, Q, K, A>(
    softmax: Softmax<Q, K, A>, layers: seq<Layer<H, Q, K, A>>, a: seq<H>, b: seq<H>, suffix: seq<H>,
    pp: seq<bool>, pa: seq<bool>)
    requires |pp| == |pa| && Agree(a, b, pp) && LooksSomewhere(pp)
    ensures var n := |suffix|;
            var caches := FillCache(softmax, layers, b, Positions(pp), Mask(pp, pa));
            Cached(softmax, layers, caches, suffix, DenoisePositions(pp, n), DenoiseMask(pp, n), |pp|) ==
            if Runs(layers) then
              Some(Full(softmax, layers, a, suffix, FullPositions(pp, n), FullMask(pp, pa, n)).1)
            else None
    decreases |layers|
  {
    if layers == [] { return; }
    var n, layer, rest := |suffix|, layers[0], layers[1..];
    var keys := Keys(layer.prefix, b, Positions(pp));
    var b' := Mix(softmax, layer.prefix, b, Positions(pp), keys, Mask(pp, pa));
    var full := FullLayer(softmax, layer, a, suffix, FullPositions(pp, n), FullMask(pp, pa, n));
    hide Keys, Mix, FullLayer, FullMask, FullPositions, Positions, Mask, DenoisePositions, DenoiseMask, Row, Same,
      Agree;
    assert FillCache(softmax, layers, b, Positions(pp), Mask(pp, pa)) ==
           [keys] + FillCache(softmax, rest, b', Positions(pp), Mask(pp, pa));
    RunsStep(layers);
    if layer.cross || layer.expert.Some? {
      PrefixLayer(softmax, layer, a, b, suffix, pp, pa);
      SuffixLayer(softmax, layer, a, b, suffix, pp, pa);
      CacheIsSound(softmax, rest, full.0, b', full.1, pp, pa);
    }
  }

  lemma RunsStep<H, Q, K, A>(layers: seq<Layer<H, Q, K, A>>)
    requires layers != []
    ensures Runs(layers) <==> (layers[0].cross || layers[0].expert.Some?) && Runs(layers[1..])
  {
    if (layers[0].cross || layers[0].expert.Some?) && Runs(layers[1..]) {
      forall l | 0 <= l < |layers|
        ensures layers[l].cross || layers[l].expert.Some?
      {
        assert l > 0 ==> layers[l] == layers[1..][l - 1];
      }
    }
    if Runs(layers) {
      forall l | 0 <= l < |layers[1..]|
        ensures layers[1..][l].cross || layers[1..][l].expert.Some?
      {
        assert layers[1..][l] == layers[l + 1];
      }
    }
  }

  /** The state rows of embed_prefix are valid, so its masks qualify. */
  lemma StateIsValid(content: seq<bool>, states: nat, length: nat)
    requires states > 0
    ensures LooksSomewhere(PrefixPads(content, states, length))
  {
    assert PrefixPads(content, states, length)[|content|];
  }

  // Sampling

  /** The policy around the stack: the suffix embedding of a noisy action chunk at a
      time, the projection of the suffix rows to a velocity, and `x + dt * v`. */
  datatype Policy<!H, !X, !V> = Policy(embed: (X, real) -> seq<H>, readout: seq<H> -> V, advance: (X, real, V) -> X)

  /** The velocity that the one-shot forward computes for a chunk at a time. */
  function Velocity<H, Q, K, A, X, V>(softmax: Softmax<Q, K, A>, layers: seq<Layer<H, Q, K, A>>,
      policy: Policy<H, X, V>, prefix: seq<H>, pp: seq<bool>, pa: seq<bool>, x: X, time: real): V
    requires |prefix| == |pp| == |pa|
  {
    var suffix := policy.embed(x, time);
    var n := |suffix|;
    policy.readout(Full(softmax, layers, prefix, suffix, FullPositions(pp, n), FullMask(pp, pa, n)).1)
  }

  function VelocityField<H, Q, K, A, X, V>(softmax: Softmax<Q, K, A>, layers: seq<Layer<H, Q, K, A>>,
      policy: Policy<H, X, V>, prefix: seq<H>, pp: seq<bool>, pa: seq<bool>): (X, real) -> V
    requires |prefix| == |pp| == |pa|
  {
    (x, time) => Velocity(softmax, layers, policy, prefix, pp, pa, x, time)
  }

  function StepSize(steps: nat): real
    requires steps > 0
  {
    -1.0 / steps as real
  }

  function TimeAt(dt: real, step: nat): real { 1.0 + step as real * dt }

  /** Euler steps from time 1 towards 0. */
  function Integrate<X, V>(velocity: (X, real) -> V, advance: (X, real, V) -> X, x: X, steps: nat, done: nat): X
    requires steps > 0 && done <= steps
  {
    if done == 0 then x
    else
      var dt := StepSize(steps);
      var x' := Integrate(velocity, advance, x, steps, done - 1);
      advance(x', dt, velocity(x', TimeAt(dt, done - 1)))
  }

  /** denoise_step, on a cache filled from a prefix. */
  method DenoiseStep<H, Q, K, A, X, V>(softmax: Softmax<Q, K, A>, layers: seq<Layer<H, Q, K, A>>,
      policy: Policy<H, X, V>, caches: seq<seq<K>>, ghost prefix: seq<H>, pp: seq<bool>, ghost pa: seq<bool>,
      x: X, time: real) returns (v: Option<V>)
    requires |prefix| == |pp| == |pa| && LooksSomewhere(pp)
    requires caches == FillCache(softmax, layers, prefix, Positions(pp), Mask(pp, pa))
    ensures v == if Runs(layers) then Some(VelocityField(softmax, layers, policy, prefix, pp, pa)(x, time)) else None
  {
    var suffix := policy.embed(x, time);
    var n := |suffix|;
    var out := Cached(softmax, layers, caches, suffix, DenoisePositions(pp, n), DenoiseMask(pp, n), |pp|);
    v := if out.None? then None else Some(policy.readout(out.value));
    CacheIsSound(softmax, layers, prefix, prefix, suffix, pp, pa);
  }

  /** sample_actions: the chunk it returns is the one obtained by integrating the
      velocity of the one-shot forward. A step count of 0 is a division by zero. */
  method SampleActions<H, Q, K, A, X, V>(softmax: Softmax<Q, K, A>, layers: seq<Layer<H, Q, K, A>>,
      policy: Policy<H, X, V>, prefix: seq<H>, pp: seq<bool>, pa: seq<bool>, noise: X,
        steps: nat) returns (r: Option<X>)
    requires |prefix| == |pp| == |pa| && LooksSomewhere(pp)
    ensures r == if steps == 0 || !Runs(layers) then None
                 else Some(Integrate(VelocityField(softmax, layers, policy, prefix, pp, pa),
                                     policy.advance, noise, steps, steps))
  {
    var caches := FillCache(softmax, layers, prefix, Positions(pp), Mask(pp, pa));
    if steps == 0 { return None; }
    ghost var velocity := VelocityField(softmax, layers, policy, prefix, pp, pa);
    hide Velocity, FillCache, Positions, Mask, Runs, LooksSomewhere, StepSize, TimeAt;
    var dt := StepSize(steps);
    var x := noise;
    for step := 0 to steps
      invariant x == Integrate(velocity, policy.advance, noise, steps, step)
      invariant step > 0 ==> Runs(layers)
    {
      var time := TimeAt(dt, step);
      var v := DenoiseStep(softmax, layers, policy, caches, prefix, pp, pa, x, time);
      if v.None? { return None; }
      x := policy.advance(x, dt, v.value);
    }
    return Some(x);
  }
}
