/** Where the loops of the Go reader go: the offsets at which the rounds of `SkipData`'s
    group loop and of `Unmarshal` start (reading.go, unittest_import.pb2.go). Lengths of
    2^63 and more turn negative, so an offset can also stand still or move back. */
module GoWalk {
  import opened Bits
  import opened Options
  import opened Varint
  import opened Wire
  import opened LazyMessage

  /** The round starts of a group loop, those of the groups inside it among them. */
  function GroupTrace(buf: seq<Byte>, off: int64, fuel: nat): (trace: seq<int64>)
    ensures trace != [] && trace[0] == off
    decreases fuel, 0
  {
    if fuel == 0 || off < 0 || GoTag(buf, off).None? then [off]
    else
      var t := GoTag(buf, off).value;
      var cur := ToInt64(off + t.size);
      if t.wire == END_GROUP then [off]
      else
        var next := GoSkip(buf, cur, t.wire, fuel - 1);
        [off] + InnerTrace(buf, cur, t.wire, fuel - 1) +
        if next.Done? then GroupTrace(buf, next.value, fuel - 1) else []
  }

  function InnerTrace(buf: seq<Byte>, off: int64, wire: nat, fuel: nat): (trace: seq<int64>)
    ensures wire == START_GROUP ==> trace != [] && trace[0] == off
    decreases fuel, 1
  {
    if wire == START_GROUP then GroupTrace(buf, off, fuel) else []
  }

  /** The round starts of Unmarshal and of every group loop in it, and at the end the
      offset at which it stops. */
  function Trace(buf: seq<Byte>, off: int64, fuel: nat): (trace: seq<int64>)
    ensures trace != [] && trace[0] == off
    decreases fuel
  {
    if fuel == 0 || off >= |buf| || off < 0 || GoTag(buf, off).None? then [off]
    else
      var t := GoTag(buf, off).value;
      var cur := ToInt64(off + t.size);
      var next := GoSkip(buf, cur, t.wire, fuel - 1);
      [off] + InnerTrace(buf, cur, t.wire, fuel - 1) +
      if next.Done? then Trace(buf, next.value, fuel - 1) else []
  }

  /** The length of the field at an offset, when it is a length-delimited one, takes the
      loop forward: the new offset is a 64-bit one, or the length is a negative int that
      does not outweigh the bytes of the tag and of itself. */
  predicate LengthForward(buf: seq<Byte>, off: nat) {
    var t := GoTag(buf, off);
    t.Some? && t.value.wire == BYTES ==>
      var data := off + t.value.size;
      var s := GoRead(Tail(buf, data));
      s.Some? ==> data + s.value.size + s.value.value < TWO63 || s.value.value > TWO64 - s.value.size - t.value.size
  }

  /** Every round of the trace starts behind the one before it. */
  predicate Rising(trace: seq<int64>) {
    forall i | 0 <= i < |trace| - 1 :: trace[i] < trace[i + 1]
  }

  predicate LengthsForward(buf: seq<Byte>, trace: seq<int64>) {
    forall i | 0 <= i < |trace| - 1 :: trace[i] >= 0 && LengthForward(buf, trace[i])
  }

  // One round

  /** The offset of the round that follows the one at `off`, at whatever depth: a group's
      tag is followed by its first field. */
  function Next(buf: seq<Byte>, off: int64): Option<int64> {
    if off < 0 || GoTag(buf, off).None? then None
    else
      var t := GoTag(buf, off).value;
      var cur := ToInt64(off + t.size);
      if t.wire == START_GROUP || t.wire == END_GROUP then Some(cur)
      else
        var next := GoSkip(buf, cur, t.wire, 0);
        if next.Done? then Some(next.value) else None
  }

  lemma TagEnds(buf: seq<Byte>, off: nat)
    requires GoTag(buf, off).Some?
    ensures var end := off + GoTag(buf, off).value.size;
            off < end <= |buf| && (|buf| < TWO63 ==> ToInt64(end) == end)
  {
  }

  lemma NextForward(buf: seq<Byte>, off: int64)
    requires |buf| + 8 < TWO63 && Next(buf, off).Some?
    ensures off >= 0 && (Next(buf, off).value > off <==> LengthForward(buf, off))
  {
    hide GoRead, GoTag, ScanSize, ToInt64;
    TagEnds(buf, off);
    var t := GoTag(buf, off).value;
    var cur := off + t.size;
    if t.wire == BYTES {
      LengthEnds(buf, cur);
      var s := GoRead(Tail(buf, cur)).value;
      Int64Length(cur + s.size, s.value);
    } else {
      if t.wire == VARINT { ScanEnds(buf, cur); }
      if t.wire != START_GROUP && t.wire != END_GROUP { OtherForward(buf, cur, t.wire); }
    }
  }

  lemma OtherForward(buf: seq<Byte>, off: nat, wire: nat)
    requires |buf| + 8 < TWO63 && off <= |buf| && wire != BYTES && wire != START_GROUP
    requires wire == VARINT && ScanSize(Tail(buf, off)).Some? ==> off + ScanSize(Tail(buf, off)).value <= |buf|
    ensures GoSkip(buf, off, wire, 0).Done? ==> GoSkip(buf, off, wire, 0).value > off
  {
    hide GoRead, ScanSize;
  }

  lemma LengthEnds(buf: seq<Byte>, off: nat)
    requires off <= |buf| && GoRead(Tail(buf, off)).Some?
    ensures var s := GoRead(Tail(buf, off)).value; 1 <= s.size && off + s.size <= |buf| && s.value < TWO64
  {
    hide GoRead, PyRead, ScanSize;
    ReadersDiffer(Tail(buf, off));
  }

  lemma ScanEnds(buf: seq<Byte>, off: nat)
    requires off <= |buf| && ScanSize(Tail(buf, off)).Some?
    ensures ScanSize(Tail(buf, off)).value >= 1 && off + ScanSize(Tail(buf, off)).value <= |buf|
  {
  }

  // The trace is the orbit of one round

  predicate Follows(buf: seq<Byte>, trace: seq<int64>) {
    forall i | 0 <= i < |trace| - 1 :: Next(buf, trace[i]) == Some(trace[i + 1])
  }

  lemma FollowsJoin(buf: seq<Byte>, a: seq<int64>, b: seq<int64>)
    requires b != [] && Follows(buf, a + [b[0]]) && Follows(buf, b)
    ensures Follows(buf, a + b)
  {
    hide Next;
    var ab, ab0 := a + b, a + [b[0]];
    forall i | 0 <= i < |ab| - 1
      ensures Next(buf, ab[i]) == Some(ab[i + 1])
    {
      if i < |a| {
        assert ab0[i] == ab[i] && ab0[i + 1] == ab[i + 1];
      } else {
        assert b[i - |a|] == ab[i] && b[i - |a| + 1] == ab[i + 1];
      }
    }
  }

  lemma FollowsFirst(buf: seq<Byte>, off: int64, b: seq<int64>)
    requires b != [] ==> Follows(buf, b) && Next(buf, off) == Some(b[0])
    ensures Follows(buf, [off] + b)
  {
    hide Next;
    if b != [] { FollowsJoin(buf, [off], b); }
  }

  /** What the rounds inside one skip are, and where the round goes. */
  ghost predicate SkipFollows(buf: seq<Byte>, off: int64, wire: nat, fuel: nat) {
    var inner, r := InnerTrace(buf, off, wire, fuel), GoSkip(buf, off, wire, fuel);
    Follows(buf, inner) && (r.Done? && inner != [] ==> Follows(buf, inner + [r.value]))
  }

  lemma {:induction false} GroupFollows(buf: seq<Byte>, off: int64, fuel: nat)
    requires |buf| < TWO63
    ensures Follows(buf, GroupTrace(buf, off, fuel))
    ensures var r := GoSkipGroup(buf, off, fuel);
            r.Done? ==> Follows(buf, GroupTrace(buf, off, fuel) + [r.value])
    decreases fuel
  {
    hide GoTag, GoSkip, Follows, Next, InnerTrace;
    FollowsFirst(buf, off, []);
    assert [off] + [] == [off];
    if fuel == 0 || off < 0 || GoTag(buf, off).None? {
    } else {
      TagEnds(buf, off);
      var t := GoTag(buf, off).value;
      var cur := ToInt64(off + t.size);
      if t.wire == END_GROUP {
        NextInGroup(buf, off);
        FollowsFirst(buf, cur, []);
        assert [cur] + [] == [cur];
        FollowsFirst(buf, off, [cur]);
      } else {
        if t.wire == START_GROUP { GroupFollows(buf, cur, fuel - 1); }
        InnerFollows(buf, cur, t.wire, fuel - 1);
        RoundFollows(buf, off, fuel - 1);
        var next := GoSkip(buf, cur, t.wire, fuel - 1);
        var head := [off] + InnerTrace(buf, cur, t.wire, fuel - 1);
        if next.Done? {
          GroupFollows(buf, next.value, fuel - 1);
          var rest := GroupTrace(buf, next.value, fuel - 1);
          FollowsJoin(buf, head, rest);
          var r := GoSkipGroup(buf, off, fuel);
          if r.Done? {
            FollowsJoin(buf, head, rest + [r.value]);
            assert head + rest + [r.value] == head + (rest + [r.value]);
          }
        } else {
          assert head + [] == head;
        }
      }
    }
  }

  lemma NextInGroup(buf: seq<Byte>, off: int64)
    requires off >= 0 && GoTag(buf, off).Some?
    ensures var t := GoTag(buf, off).value;
            t.wire == START_GROUP || t.wire == END_GROUP ==> Next(buf, off) == Some(ToInt64(off + t.size))
  {
    hide GoTag, GoSkip, ToInt64;
  }

  lemma InnerFollows(buf: seq<Byte>, off: int64, wire: nat, fuel: nat)
    requires wire == START_GROUP ==>
               Follows(buf, GroupTrace(buf, off, fuel)) &&
               var r := GoSkipGroup(buf, off, fuel);
               r.Done? ==> Follows(buf, GroupTrace(buf, off, fuel) + [r.value])
    ensures SkipFollows(buf, off, wire, fuel)
  {
    hide GroupTrace, GoSkipGroup, Next;
  }

  /** One round with what is inside it, up to the start of the round after it. */
  lemma RoundFollows(buf: seq<Byte>, off: int64, fuel: nat)
    requires off >= 0 && GoTag(buf, off).Some? && GoTag(buf, off).value.wire != END_GROUP
    requires var t := GoTag(buf, off).value; SkipFollows(buf, ToInt64(off + t.size), t.wire, fuel)
    ensures var t := GoTag(buf, off).value;
            var cur := ToInt64(off + t.size);
            var head, r := [off] + InnerTrace(buf, cur, t.wire, fuel), GoSkip(buf, cur, t.wire, fuel);
            Follows(buf, head) && (r.Done? ==> Follows(buf, head + [r.value]))
  {
    hide GoTag, ToInt64, Follows, GroupTrace, GoSkip, Next;
    var t := GoTag(buf, off).value;
    var cur := ToInt64(off + t.size);
    var inner, r := InnerTrace(buf, cur, t.wire, fuel), GoSkip(buf, cur, t.wire, fuel);
    if t.wire == START_GROUP {
      NextInGroup(buf, off);
      hide InnerTrace;
      FollowsFirst(buf, off, inner);
      if r.Done? {
        FollowsFirst(buf, off, inner + [r.value]);
        assert [off] + inner + [r.value] == [off] + (inner + [r.value]);
      }
    } else {
      NextOutside(buf, off, fuel);
      assert inner == [];
      hide *;
      assert [off] + inner == [off] + [];
      FollowsFirst(buf, off, []);
      if r.Done? { FollowsPair(buf, off, r.value); }
    }
  }

  lemma FollowsPair(buf: seq<Byte>, off: int64, next: int64)
    requires Next(buf, off) == Some(next)
    ensures Follows(buf, [off] + [] + [next])
  {
    hide Next;
    assert [off] + [] + [next] == [off, next];
  }

  lemma NextOutside(buf: seq<Byte>, off: int64, fuel: nat)
    requires off >= 0 && GoTag(buf, off).Some?
    requires GoTag(buf, off).value.wire != END_GROUP && GoTag(buf, off).value.wire != START_GROUP
    ensures var t := GoTag(buf, off).value;
            var r := GoSkip(buf, ToInt64(off + t.size), t.wire, fuel);
            r.Done? ==> Next(buf, off) == Some(r.value)
  {
    hide GoTag, ToInt64, GoRead, ScanSize;
  }

  lemma {:induction false} TraceFollows(buf: seq<Byte>, off: int64, fuel: nat)
    requires |buf| < TWO63
    ensures Follows(buf, Trace(buf, off, fuel))
    decreases fuel
  {
    hide GoTag, GoSkip, Follows, Next, InnerTrace, GroupTrace;
    FollowsFirst(buf, off, []);
    assert [off] + [] == [off];
    if fuel == 0 || off >= |buf| || off < 0 || GoTag(buf, off).None? {
    } else {
      var t := GoTag(buf, off).value;
      var cur := ToInt64(off + t.size);
      if t.wire == END_GROUP {
        EndFails(buf, cur, fuel - 1);
      } else {
        if t.wire == START_GROUP { GroupFollows(buf, cur, fuel - 1); }
        InnerFollows(buf, cur, t.wire, fuel - 1);
        RoundFollows(buf, off, fuel - 1);
        var next := GoSkip(buf, cur, t.wire, fuel - 1);
        var head := [off] + InnerTrace(buf, cur, t.wire, fuel - 1);
        if next.Done? {
          TraceFollows(buf, next.value, fuel - 1);
          FollowsJoin(buf, head, Trace(buf, next.value, fuel - 1));
        } else {
          assert head + [] == head;
        }
      }
    }
  }

  lemma EndFails(buf: seq<Byte>, off: int64, fuel: nat)
    ensures GoSkip(buf, off, END_GROUP, fuel) == Failed && InnerTrace(buf, off, END_GROUP, fuel) == []
  {
  }

  // When every round moves forward

  lemma OrbitForward(buf: seq<Byte>, trace: seq<int64>)
    requires |buf| + 8 < TWO63 && Follows(buf, trace)
    ensures Rising(trace) <==> LengthsForward(buf, trace)
    ensures forall i | 0 <= i < |trace| - 1 ::
              trace[i] >= 0 && (trace[i] < trace[i + 1] <==> LengthForward(buf, trace[i]))
  {
    hide Next, LengthForward;
    forall i | 0 <= i < |trace| - 1
      ensures trace[i] >= 0 && (trace[i] < trace[i + 1] <==> LengthForward(buf, trace[i]))
    {
      assert Next(buf, trace[i]) == Some(trace[i + 1]);
      NextForward(buf, trace[i]);
    }
    if Rising(trace) {
      forall i | 0 <= i < |trace| - 1
        ensures LengthForward(buf, trace[i])
      {
        assert trace[i] < trace[i + 1];
      }
    }
    if LengthsForward(buf, trace) {
      forall i | 0 <= i < |trace| - 1
        ensures trace[i] < trace[i + 1]
      {
        assert LengthForward(buf, trace[i]);
      }
    }
  }

  /** Every round of Unmarshal, group loops included, starts behind the one before it
      exactly when every length met on the way takes the loop forward. */
  lemma ForwardExactly(buf: seq<Byte>, off: int64, fuel: nat)
    requires |buf| + 8 < TWO63
    ensures Rising(Trace(buf, off, fuel)) <==> LengthsForward(buf, Trace(buf, off, fuel))
  {
    hide Trace, Follows, Rising, LengthsForward;
    TraceFollows(buf, off, fuel);
    OrbitForward(buf, Trace(buf, off, fuel));
  }

  /** The same of one group loop, up to the offset behind its end tag. */
  lemma GroupForwardExactly(buf: seq<Byte>, off: int64, fuel: nat)
    requires |buf| + 8 < TWO63
    ensures var r := GoSkipGroup(buf, off, fuel);
            var trace := GroupTrace(buf, off, fuel) + if r.Done? then [r.value] else [];
            Rising(trace) <==> LengthsForward(buf, trace)
  {
    hide GroupTrace, GoSkipGroup, Follows, Rising, LengthsForward;
    GroupFollows(buf, off, fuel);
    var r := GoSkipGroup(buf, off, fuel);
    if r.Done? {
      OrbitForward(buf, GroupTrace(buf, off, fuel) + [r.value]);
    } else {
      assert GroupTrace(buf, off, fuel) + [] == GroupTrace(buf, off, fuel);
      OrbitForward(buf, GroupTrace(buf, off, fuel));
    }
  }

  // What the trace says about the outcome

  function Last(trace: seq<int64>): int64
    requires trace != []
  {
    trace[|trace| - 1]
  }

  ghost predicate Tells(panicked: bool, unfinished: bool, trace: seq<int64>, fuel: nat) {
    (panicked ==> trace != [] && Last(trace) < 0) && (unfinished ==> |trace| > fuel)
  }

  lemma TellsInside(panicked: bool, unfinished: bool, off: int64, inner: seq<int64>, fuel: nat)
    requires Tells(panicked, unfinished, inner, fuel)
    ensures Tells(panicked, unfinished, [off] + inner + [], fuel + 1)
  {
  }

  lemma TellsAfter(panicked: bool, unfinished: bool, off: int64, inner: seq<int64>, rest: seq<int64>, fuel: nat)
    requires rest != [] && Tells(panicked, unfinished, rest, fuel)
    ensures Tells(panicked, unfinished, [off] + inner + rest, fuel + 1)
    ensures Last([off] + inner + rest) == Last(rest)
  {
  }

  lemma {:induction false} GroupTraceTells(buf: seq<Byte>, off: int64, fuel: nat)
    requires |buf| < TWO63
    ensures var r := GoSkipGroup(buf, off, fuel); Tells(r.Panicked?, r.Unfinished?, GroupTrace(buf, off, fuel), fuel)
    decreases fuel
  {
    hide GoTag, InnerTrace, GoSkip, ToInt64;
    if fuel == 0 || off < 0 || GoTag(buf, off).None? {
    } else {
      hide Tells;
      TagEnds(buf, off);
      var t := GoTag(buf, off).value;
      var cur := ToInt64(off + t.size);
      if t.wire == END_GROUP {
        TellsNothing([off], fuel);
      } else {
        if t.wire == START_GROUP { GroupTraceTells(buf, cur, fuel - 1); }
        InnerTells(buf, cur, t.wire, fuel - 1);
        var next, inner := GoSkip(buf, cur, t.wire, fuel - 1), InnerTrace(buf, cur, t.wire, fuel - 1);
        if next.Done? {
          GroupTraceTells(buf, next.value, fuel - 1);
          var r := GoSkipGroup(buf, next.value, fuel - 1);
          TellsAfter(r.Panicked?, r.Unfinished?, off, inner, GroupTrace(buf, next.value, fuel - 1), fuel - 1);
        } else {
          TellsInside(next.Panicked?, next.Unfinished?, off, inner, fuel - 1);
        }
      }
    }
  }

  lemma TellsNothing(trace: seq<int64>, fuel: nat)
    ensures Tells(false, false, trace, fuel)
  {
  }

  lemma InnerTells(buf: seq<Byte>, off: nat, wire: nat, fuel: nat)
    requires off < TWO63
    requires wire == START_GROUP ==>
               var r := GoSkipGroup(buf, off, fuel); Tells(r.Panicked?, r.Unfinished?, GroupTrace(buf, off, fuel), fuel)
    ensures var r := GoSkip(buf, off, wire, fuel);
            Tells(r.Panicked?, r.Unfinished?, InnerTrace(buf, off, wire, fuel), fuel)
  {
    hide GroupTrace, GoSkipGroup;
  }

  /** One round of Unmarshal and of its trace. */
  lemma RoundUnfolds(buf: seq<Byte>, off: int64, offsetD: int64, fuel: nat)
    requires fuel > 0 && 0 <= off < |buf| && GoTag(buf, off).Some?
    ensures var t := GoTag(buf, off).value;
            var cur := ToInt64(off + t.size);
            var next, offsetD' := GoSkip(buf, cur, t.wire, fuel - 1), if t.number == WIRE_D then cur else offsetD;
            var r, head := GoUnmarshal(buf, off, offsetD, fuel), [off] + InnerTrace(buf, cur, t.wire, fuel - 1);
            if next.Done? then
              r == GoUnmarshal(buf, next.value, offsetD', fuel - 1) &&
              Trace(buf, off, fuel) == head + Trace(buf, next.value, fuel - 1)
            else
              !r.0.Done? && r.0.Panicked? == next.Panicked? && r.0.Unfinished? == next.Unfinished? &&
              Trace(buf, off, fuel) == head + []
  {
    hide GoTag, InnerTrace, GoSkip, ToInt64;
  }

  lemma TraceStops(buf: seq<Byte>, off: int64, offsetD: int64, fuel: nat)
    requires fuel == 0 || off >= |buf| || off < 0 || GoTag(buf, off).None?
    ensures var r, trace := GoUnmarshal(buf, off, offsetD, fuel).0, Trace(buf, off, fuel);
            Tells(r.Panicked?, r.Unfinished?, trace, fuel) && (r.Done? ==> Last(trace) >= |buf|)
  {
    hide GoTag;
  }

  /** How Unmarshal ends can be read off the trace. */
  lemma {:induction false} TraceTells(buf: seq<Byte>, off: int64, offsetD: int64, fuel: nat)
    requires |buf| < TWO63
    ensures var r, trace := GoUnmarshal(buf, off, offsetD, fuel).0, Trace(buf, off, fuel);
            Tells(r.Panicked?, r.Unfinished?, trace, fuel) && (r.Done? ==> Last(trace) >= |buf|)
    decreases fuel
  {
    hide *;
    if fuel == 0 || off >= |buf| || off < 0 || GoTag(buf, off).None? {
      TraceStops(buf, off, offsetD, fuel);
    } else {
      RoundUnfolds(buf, off, offsetD, fuel);
      TagEnds(buf, off);
      var t := GoTag(buf, off).value;
      var cur := ToInt64(off + t.size);
      if t.wire == START_GROUP { GroupTraceTells(buf, cur, fuel - 1); }
      InnerTells(buf, cur, t.wire, fuel - 1);
      var next, inner := GoSkip(buf, cur, t.wire, fuel - 1), InnerTrace(buf, cur, t.wire, fuel - 1);
      if next.Done? {
        var offsetD' := if t.number == WIRE_D then cur else offsetD;
        TraceTells(buf, next.value, offsetD', fuel - 1);
        var r := GoUnmarshal(buf, next.value, offsetD', fuel - 1).0;
        TellsAfter(r.Panicked?, r.Unfinished?, off, inner, Trace(buf, next.value, fuel - 1), fuel - 1);
      } else {
        TellsInside(next.Panicked?, next.Unfinished?, off, inner, fuel - 1);
      }
    }
  }

  lemma {:induction false} RisingRoom(buf: seq<Byte>, trace: seq<int64>)
    requires trace != [] && trace[0] >= 0 && Rising(trace) && Follows(buf, trace)
    ensures Last(trace) >= 0 && |trace| <= Left(buf, trace[0]) + 1
    decreases |trace|
  {
    hide Next;
    if |trace| == 1 {
    } else {
      assert Next(buf, trace[0]) == Some(trace[1]);
      NextInside(buf, trace[0]);
      RisingRoom(buf, trace[1..]);
    }
  }

  lemma NextInside(buf: seq<Byte>, off: int64)
    requires Next(buf, off).Some?
    ensures 0 <= off < |buf|
  {
    TagEnds(buf, off);
  }

  /** When every length met takes it forward, Unmarshal comes to an end within as many
      rounds as there are bytes, and without a panic. */
  lemma ForwardEnds(buf: seq<Byte>, off: int64, offsetD: int64, fuel: nat)
    requires |buf| + 8 < TWO63 && off >= 0 && fuel > Left(buf, off)
    requires LengthsForward(buf, Trace(buf, off, fuel))
    ensures var r := GoUnmarshal(buf, off, offsetD, fuel).0; r.Done? || r.Failed?
  {
    hide Trace, Follows, Rising, LengthsForward, GoUnmarshal;
    ForwardExactly(buf, off, fuel);
    TraceFollows(buf, off, fuel);
    TraceTells(buf, off, offsetD, fuel);
    RisingRoom(buf, Trace(buf, off, fuel));
  }
}
