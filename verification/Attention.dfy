/** Attention masks of the SmolVLA policy and the layer stack they steer
    (flow_matching.py, utils.py, smolvlm_with_expert.py), for one element of the
    batch. The arithmetic inside a layer is left abstract; what is modelled is which
    rows are combined, at which positions and through which mask. */
module Attention {
  import opened Options

  /** How many of the first `n` flags are set: entry n - 1 of `cumsum`. */
  function Count(b: seq<bool>, n: nat): (c: nat)
    requires n <= |b|
    ensures c <= n
  {
    if n == 0 then 0 else Count(b, n - 1) + (if b[n - 1] then 1 else 0)
  }

  /** make_att_2d_masks: row `i` may attend to column `j`. */
  predicate Sees(pad: seq<bool>, att: seq<bool>, i: nat, j: nat)
    requires |pad| == |att| && i < |pad| && j < |pad|
  {
    Count(att, j + 1) <= Count(att, i + 1) && pad[j] && pad[i]
  }

  function Row(pad: seq<bool>, att: seq<bool>, i: nat): (row: seq<bool>)
    requires |pad| == |att| && i < |pad|
    ensures |row| == |pad| && forall j | 0 <= j < |row| :: row[j] == Sees(pad, att, i, j)
  {
    seq(|pad|, j requires 0 <= j < |pad| => Sees(pad, att, i, j))
  }

  /** `cumsum(pad) - 1` */
  function Position(pad: seq<bool>, i: nat): int
    requires i < |pad|
  {
    Count(pad, i + 1) - 1
  }

  function Same(n: nat, b: bool): (s: seq<bool>)
    ensures |s| == n && forall i | 0 <= i < n :: s[i] == b
  {
    seq(n, i => b)
  }

  function Ones(n: nat): seq<bool> { Same(n, true) }

  // What denoise_step builds

  /** A row of denoise_step: the prefix pad flags, then the suffix's own mask. */
  function DenoiseRow(prefixPad: seq<bool>, n: nat, i: nat): (row: seq<bool>)
    requires i < n
    ensures |row| == |prefixPad| + n
  {
    prefixPad + Row(Ones(n), Ones(n), i)
  }

  function DenoisePosition(prefixPad: seq<bool>, n: nat, i: nat): int
    requires i < n
  {
    Count(prefixPad, |prefixPad|) + Count(Ones(n), i + 1) - 1
  }

  // Rows and positions against the one-shot forward

  lemma {:induction false} CountSplit(a: seq<bool>, b: seq<bool>, n: nat)
    requires n <= |a| + |b|
    ensures Count(a + b, n) == if n <= |a| then Count(a, n) else Count(a, |a|) + Count(b, n - |a|)
  {
    if n == 0 {
    } else {
      CountSplit(a, b, n - 1);
    }
  }

  lemma {:induction false} CountSame(n: nat, b: bool, k: nat)
    requires k <= n
    ensures Count(Same(n, b), k) == if b then k else 0
  {
    if k == 0 {
    } else {
      CountSame(n, b, k - 1);
    }
  }

  lemma {:induction false} CountGrows(b: seq<bool>, i: nat, j: nat)
    requires i <= j <= |b|
    ensures Count(b, i) <= Count(b, j)
  {
    if i == j {
    } else {
      CountGrows(b, i, j - 1);
    }
  }

  /** What a suffix row sees in the one-shot forward. */
  lemma SuffixSees(pp: seq<bool>, pa: seq<bool>, n: nat, i: nat, j: nat)
    requires |pp| == |pa| && i < n && j < |pp| + n
    ensures Sees(pp + Ones(n), pa + Ones(n), |pp| + i, j) <==>
            if j < |pp| then pp[j] else Sees(Ones(n), Ones(n), i, j - |pp|)
  {
    var p := |pp|;
    hide Count;
    CountSplit(pa, Ones(n), p + i + 1);
    CountSplit(pa, Ones(n), j + 1);
    CountSame(n, true, i + 1);
    if j < p {
      CountGrows(pa, j + 1, p);
    } else {
      CountSame(n, true, j + 1 - p);
    }
  }

  /** A suffix row of denoise_step is that row of the one-shot forward. */
  lemma SuffixRow(pp: seq<bool>, pa: seq<bool>, n: nat, i: nat)
    requires |pp| == |pa| && i < n
    ensures Row(pp + Ones(n), pa + Ones(n), |pp| + i) == DenoiseRow(pp, n, i)
  {
    hide Sees, Same;
    forall j | 0 <= j < |pp| + n
      ensures Row(pp + Ones(n), pa + Ones(n), |pp| + i)[j] == DenoiseRow(pp, n, i)[j]
    {
      SuffixSees(pp, pa, n, i, j);
    }
  }

  lemma SuffixPosition(pp: seq<bool>, n: nat, i: nat)
    requires i < n
    ensures Position(pp + Ones(n), |pp| + i) == DenoisePosition(pp, n, i) == Count(pp, |pp|) + i
  {
    CountSplit(pp, Ones(n), |pp| + i + 1);
    CountSame(n, true, i + 1);
  }

  /** A prefix row of the one-shot forward is the row of the prefix-only mask, with no
      suffix column visible. */
  lemma PrefixRow(pp: seq<bool>, pa: seq<bool>, n: nat, i: nat)
    requires |pp| == |pa| && i < |pp|
    ensures Row(pp + Ones(n), pa + Ones(n), i) == Row(pp, pa, i) + Same(n, false)
    ensures Position(pp + Ones(n), i) == Position(pp, i)
  {
    var p := |pp|;
    var full, alone := Row(pp + Ones(n), pa + Ones(n), i), Row(pp, pa, i) + Same(n, false);
    CountSplit(pp, Ones(n), i + 1);
    forall j | 0 <= j < p + n
      ensures full[j] == alone[j]
    {
      CountSplit(pa, Ones(n), i + 1);
      CountSplit(pa, Ones(n), j + 1);
      if j >= p {
        CountSame(n, true, j + 1 - p);
        CountGrows(pa, i + 1, p);
      }
      hide Count;
    }
  }

  /** A valid prefix row with no block boundary behind it. */
  ghost predicate InLastBlock(pp: seq<bool>, pa: seq<bool>, i: nat)
    requires |pp| == |pa| && i < |pp|
  {
    pp[i] && Count(pa, i + 1) == Count(pa, |pa|)
  }

  /** For any prefix, padded at its end or not, and suffix masks of any kind: the prefix
      sees nothing of a valid suffix exactly when the suffix starts a new autoregressive
      block or no valid prefix row lies in the last one. */
  lemma PrefixBlind(pp: seq<bool>, pa: seq<bool>, sa: seq<bool>)
    requires |pp| == |pa|
    ensures var pad, att := pp + Ones(|sa|), pa + sa;
            (forall i, j | 0 <= i < |pp| && |pp| <= j < |pad| :: !Sees(pad, att, i, j)) <==>
            sa == [] || sa[0] || (forall i | 0 <= i < |pp| :: !InLastBlock(pp, pa, i))
  {
    var p, pad, att := |pp|, pp + Ones(|sa|), pa + sa;
    if sa == [] {
    } else {
      FirstSuffixCount(pa, sa);
      hide Count;
      forall i, j | 0 <= i < p && p <= j < |pad|
        ensures Sees(pad, att, i, j) ==> !sa[0] && InLastBlock(pp, pa, i)
      {
        CountSplit(pa, sa, i + 1);
        CountGrows(pa, i + 1, p);
        CountGrows(att, p + 1, j + 1);
      }
      forall i | 0 <= i < p && !sa[0] && InLastBlock(pp, pa, i)
        ensures Sees(pad, att, i, p)
      {
        CountSplit(pa, sa, i + 1);
      }
    }
  }

  lemma FirstSuffixCount(pa: seq<bool>, sa: seq<bool>)
    requires sa != []
    ensures Count(pa + sa, |pa| + 1) == Count(pa, |pa|) + (if sa[0] then 1 else 0)
  {
    CountSplit(pa, sa, |pa| + 1);
    assert Count(sa, 1) == Count(sa, 0) + (if sa[0] then 1 else 0);
  }

  // The prefix masks of embed_prefix

  datatype Image = Image(tokens: nat, present: bool)

  /** Special tokens around an image are always valid. */
  function ImagePads(images: seq<Image>, start: nat, end: nat): seq<bool> {
    if images == [] then []
    else
      var image := images[|images| - 1];
      ImagePads(images[..|images| - 1], start, end) + Ones(start) + Same(image.tokens, image.present) + Ones(end)
  }

  /** Images and language, then the state, then padding up to `length`. */
  function PrefixPads(content: seq<bool>, states: nat, length: nat): (pads: seq<bool>)
    ensures |pads| == |content| + states + Extra(content, states, length)
  {
    content + Ones(states) + Same(Extra(content, states, length), false)
  }

  function PrefixAtts(content: seq<bool>, states: nat, length: nat): (atts: seq<bool>)
    ensures |atts| == |content| + states + Extra(content, states, length)
  {
    Same(|content|, false) + Ones(states) + Same(Extra(content, states, length), false)
  }

  function Extra(content: seq<bool>, states: nat, length: nat): nat {
    if |content| + states < length then length - |content| - states else 0
  }

  /** The columns of the images, special tokens included. */
  function Width(images: seq<Image>, start: nat, end: nat): nat {
    if images == [] then 0 else Width(images[..|images| - 1], start, end) + start + images[|images| - 1].tokens + end
  }

  /** The columns of image `k` begin at `at`: its special tokens are valid, its own tokens when
      the image is there. */
  ghost predicate ImageAt(pads: seq<bool>, image: Image, start: nat, end: nat, at: nat) {
    at + start + image.tokens + end <= |pads| &&
    forall j | at <= j < at + start + image.tokens + end ::
      pads[j] == (image.present || j < at + start || j >= at + start + image.tokens)
  }

  lemma ImageStays(pads: seq<bool>, more: seq<bool>, image: Image, start: nat, end: nat, at: nat)
    requires ImageAt(pads, image, start, end, at)
    ensures ImageAt(pads + more, image, start, end, at)
  {
  }

  lemma ImageAdded(pads: seq<bool>, image: Image, start: nat, end: nat)
    ensures ImageAt(pads + Ones(start) + Same(image.tokens, image.present) + Ones(end), image, start, end, |pads|)
  {
  }

  lemma {:induction false} ImageColumns(images: seq<Image>, start: nat, end: nat, k: nat)
    requires k < |images|
    ensures |ImagePads(images, start, end)| == Width(images, start, end)
    ensures ImageAt(ImagePads(images, start, end), images[k], start, end, Width(images[..k], start, end))
  {
    hide ImageAt;
    var n := |images| - 1;
    var init, last := images[..n], images[n];
    var before := ImagePads(init, start, end);
    var more := Ones(start) + Same(last.tokens, last.present) + Ones(end);
    assert before + more == ImagePads(images, start, end);
    NoImages(start, end);
    if n > 0 { ImageColumns(init, start, end, if k < n then k else 0); }
    if k < n {
      assert init[..k] == images[..k];
      ImageStays(before, more, images[k], start, end, Width(images[..k], start, end));
    } else {
      ImageAdded(before, last, start, end);
    }
  }

  lemma ImagesWide(images: seq<Image>, start: nat, end: nat)
    ensures |ImagePads(images, start, end)| == Width(images, start, end)
  {
    hide ImagePads, Width;
    if images == [] { NoImages(start, end); } else { ImageColumns(images, start, end, 0); }
  }

  /** The prefix column by column, for all images, words and states: each image after the ones
      before it, then the words with their own flags, the state, which alone starts blocks,
      and padding up to the prefix length. */
  lemma PrefixColumns(images: seq<Image>, start: nat, end: nat, lang: seq<bool>, states: nat, length: nat)
    ensures var content := ImagePads(images, start, end) + lang;
            var pads, atts := PrefixPads(content, states, length), PrefixAtts(content, states, length);
            var words := Width(images, start, end);
            var state := words + |lang|;
            |pads| == |atts| == (if length > state + states then length else state + states) &&
            (forall k | 0 <= k < |images| :: ImageAt(pads, images[k], start, end, Width(images[..k], start, end))) &&
            (forall j | words <= j < state :: pads[j] == lang[j - words]) &&
            (forall j | state <= j < |pads| :: pads[j] == (j < state + states)) &&
            (forall j | 0 <= j < |atts| :: atts[j] == (state <= j < state + states))
  {
    var all := ImagePads(images, start, end);
    ImagesWide(images, start, end);
    var more := lang + Ones(states) + Same(Extra(all + lang, states, length), false);
    assert PrefixPads(all + lang, states, length) == all + more;
    hide ImageAt, ImagePads, Width;
    forall k | 0 <= k < |images|
      ensures ImageAt(all + more, images[k], start, end, Width(images[..k], start, end))
    {
      ImageColumns(images, start, end, k);
      ImageStays(all, more, images[k], start, end, Width(images[..k], start, end));
    }
  }

  lemma NoImages(start: nat, end: nat)
    ensures ImagePads([], start, end) == [] && Width([], start, end) == 0
  {
  }

  /** embed_prefix. Without special tokens `start` and `end` are 0; a prefix length that
      is not positive stands for no padding. */
  method EmbedPrefix(images: seq<Image>, start: nat, end: nat, lang: seq<bool>, states: nat, prefixLength: int)
    returns (pads: seq<bool>, atts: seq<bool>)
    ensures var content := ImagePads(images, start, end) + lang;
            var length := if prefixLength > 0 then prefixLength else 0;
            pads == PrefixPads(content, states, length) && atts == PrefixAtts(content, states, length)
  {
    pads, atts := [], [];
    for i := 0 to |images|
      invariant pads == ImagePads(images[..i], start, end)
      invariant atts == Same(|pads|, false)
    {
      assert images[..i + 1][..i] == images[..i];
      pads := pads + Ones(start);
      atts := atts + Same(start, false);
      pads := pads + Same(images[i].tokens, images[i].present);
      atts := atts + Same(images[i].tokens, false);
      pads := pads + Ones(end);
      atts := atts + Same(end, false);
    }
    assert images[..|images|] == images;
    pads := pads + lang;
    atts := atts + Same(|lang|, false);
    ghost var content := pads;
    pads := pads + Ones(states);
    atts := atts + Ones(states);
    if |pads| < prefixLength {
      atts := PadTensor(atts, prefixLength);
      pads := PadTensor(pads, prefixLength);
    }
    assert atts == PrefixAtts(content, states, if prefixLength > 0 then prefixLength else 0);
  }

  /** pad_tensor: a tensor full of zeros, then the slice assignment. */
  method PadTensor(s: seq<bool>, length: nat) returns (padded: seq<bool>)
    requires |s| <= length
    ensures padded == s + Same(length - |s|, false)
  {
    var t := new bool[length](_ => false);
    for i := 0 to |s|
      invariant forall k | 0 <= k < length :: t[k] == if k < i then s[k] else false
    {
      t[i] := s[i];
    }
    padded := t[..];
  }

  /** Images and language see each other and no state; a state row sees all valid
      images and language and the state up to itself; padding sees and shows nothing. */
  lemma PrefixSees(content: seq<bool>, states: nat, length: nat, i: nat, j: nat)
    requires i < |PrefixPads(content, states, length)| && j < |PrefixPads(content, states, length)|
    ensures var c, end := |content|, |content| + states;
            Sees(PrefixPads(content, states, length), PrefixAtts(content, states, length), i, j) <==>
            i < end && j < end && (i < c ==> content[i]) && (j < c ==> content[j]) && (j < c || j <= i)
  {
    PrefixCount(content, states, length, i);
    PrefixCount(content, states, length, j);
  }

  lemma PrefixCount(content: seq<bool>, states: nat, length: nat, i: nat)
    requires i < |PrefixPads(content, states, length)|
    ensures var c, end := |content|, |content| + states;
            Count(PrefixAtts(content, states, length), i + 1) ==
            if i < c then 0 else if i < end then i + 1 - c else states
  {
    var c, end, extra := |content|, |content| + states, Extra(content, states, length);
    var head := Same(c, false) + Ones(states);
    CountSplit(head, Same(extra, false), i + 1);
    CountSplit(Same(c, false), Ones(states), if i < end then i + 1 else end);
    CountSame(c, false, if i < c then i + 1 else c);
    if c <= i { CountSame(states, true, if i < end then i + 1 - c else states); }
    if end <= i { CountSame(extra, false, i + 1 - end); }
  }

  /** The prefix of embed_prefix, however it is padded: its state row is always valid and
      no block starts behind it, so with a state only the suffix's own first flag
      counts. */
  lemma EmbeddedPrefixBlind(content: seq<bool>, states: nat, length: nat, sa: seq<bool>)
    ensures var pp, pa := PrefixPads(content, states, length), PrefixAtts(content, states, length);
            var pad, att := pp + Ones(|sa|), pa + sa;
            (forall i, j | 0 <= i < |pp| && |pp| <= j < |pad| :: !Sees(pad, att, i, j)) <==>
            sa == [] || sa[0] || (states == 0 && true !in content)
  {
    var pp, pa := PrefixPads(content, states, length), PrefixAtts(content, states, length);
    var c, end := |content|, |content| + states;
    PrefixBlind(pp, pa, sa);
    if pp != [] { PrefixCount(content, states, length, |pp| - 1); }
    forall i | 0 <= i < |pp|
      ensures InLastBlock(pp, pa, i) <==> (i < c && content[i] && states == 0) || (states > 0 && i == end - 1)
    {
      PrefixCount(content, states, length, i);
    }
    if states > 0 { assert InLastBlock(pp, pa, end - 1); }
    if states == 0 && true in content {
      var i :| 0 <= i < c && content[i];
      assert InLastBlock(pp, pa, i);
    }
  }
}
