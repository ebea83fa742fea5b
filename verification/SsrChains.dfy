// Whole chains through the decoder: block by block into cleared structures, and all of them into one structure, where
// the flags that say what is supplied are shared between the two satellite systems.
module SsrChains {
  import opened Bits
  import opened BitStreams
  import opened SsrBlocks
  import opened SsrMessages
  import opened SsrDecoder
  import opened SsrRoundTrip
  import opened SsrTheorems
  import opened SsrCombined
  import opened SsrLimits

  // ---------- each block into a cleared structure ----------

  /** The kind of message i of a plan. */
  ghost function PlannedKind(c: ClockOrbitData, number: int, i: nat): (k: Kind)
    requires IsClockOrbit(c) && i < |Plan(c, number)|
    ensures Plan(c, number)[i] == DraftOf(c, k) && k.Count(c) != 0
  {
    hide DraftOf, Plan, IsClockOrbit;
    PlannedKindKnown(c, number, i);
    KindOf(Plan(c, number)[i].number).value
  }

  lemma PlannedKindKnown(c: ClockOrbitData, number: int, i: nat)
    requires IsClockOrbit(c) && i < |Plan(c, number)|
    ensures var k := KindOf(Plan(c, number)[i].number);
      k.Some? && Plan(c, number)[i] == DraftOf(c, k.value) && k.value.Count(c) != 0
  {
    hide DraftOf, Plan, IsClockOrbit;
    var k := PlanKind(c, number, i);
    DraftNumber(c, k);
  }

  lemma DraftNumber(c: ClockOrbitData, k: Kind)
    requires IsClockOrbit(c)
    ensures DraftOf(c, k).number == k.Number()
  {
  }

  /**
   * Block i of the encoder's output, found at its offset and decoded into a cleared structure, for every correction:
   * unless it is too long for its header it is accepted, with MessageFollows on every block but the last and there
   * exactly when more messages were announced; it gives its own message if and only if the correction is intact.
   */
  lemma ChainRoundTrip(c: ClockOrbitData, number: int, more: bool, out: seq<Byte>, i: nat, b: Option<BiasData>)
    requires IsClockOrbit(c) && i < |Plan(c, number)| && Shapes(None, b)
    requires IsChain(out, Bodies(Plan(c, number), |Plan(c, number)|, more))
    ensures var plan, k := Plan(c, number), PlannedKind(c, number, i);
      var bodies := Bodies(plan, |plan|, more);
      && Offset(bodies, i) <= |out|
      && var o := Decode(Some(Fresh()), b, out[Offset(bodies, i)..]);
         var ret := if i + 1 < |plan| || more then MessageFollows else Ok;
      && (if TooLong(c, k) then o.ret == UnknownData else o.ret == ret && o.b == b && o.used == BlockLen(bodies[i]))
      && (o == Outcome(ret, Some(Expected(c, k)), b, BlockLen(bodies[i])) <==> Intact(c, k))
  {
    hide DraftOf, DraftBits, IsChain, IsBlock, IsClockOrbit, Decode, Expected, BlockLen, Plan, Intact, PlannedKind,
      Offset;
    var plan, k := Plan(c, number), PlannedKind(c, number, i);
    var bodies := Bodies(plan, |plan|, more);
    ChainBlock(out, bodies, i);
    var o, l := Offset(bodies, i), BlockLen(bodies[i]);
    var blk := out[o..o + l];
    BlockExact(c, k, MoreBit(i, |plan|, more), blk, out[o + l..], b);
    assert blk + out[o + l..] == out[o..];
  }

  // ---------- all blocks into one structure ----------

  /** What a GPS message leaves in a cleared structure, as far as a GLONASS message cares. */
  ghost predicate Flags(d: ClockOrbitData, k: Kind) {
    && Shape(d) && d.NumberOfGLONASSSat == 0
    && d.OrbitDataSupplied == k.HasOrbit() && d.ClockDataSupplied == k.HasClock()
  }

  lemma GpsBlockRead(c: ClockOrbitData, k: Kind, mmi: int, blk: seq<Byte>, tail: seq<Byte>, b: Option<BiasData>)
    requires IsClockOrbit(c) && k.IsGps() && 0 <= mmi < 2 && (k.GpsCombined? ==> k.Count(c) <= 31)
    requires IsBlock(blk, DraftBits(DraftOf(c, k), mmi)) && Shapes(None, b)
    ensures var o := Decode(Some(Fresh()), b, blk + tail);
      o.ret == Accept(mmi) && o.b == b && o.used == |blk| && o.co.Some? && Flags(o.co.value, k)
  {
    hide Decode, IsClockOrbit, IsBlock, DraftBits, DraftOf, Wrapped, Shape, Fresh;
    CountLimit(c, k);
    if k.GpsCombined? {
      CombinedWrapped(c, mmi, blk, tail, b);
      CombinedFlags(Wrapped(c, k));
    } else if k.Count(c) <= 31 {
      WrappedRoundTrip(c, k, mmi, blk, tail, b);
      ExpectedFlags(Wrapped(c, k), k);
    } else {
      ThirtyTwoSatellitesLost(c, k, mmi, blk, tail, b);
      EmptiedFlags(c, k);
    }
  }

  lemma ExpectedFlags(c: ClockOrbitData, k: Kind)
    requires IsClockOrbit(c) && k.IsGps()
    ensures Flags(Expected(c, k), k)
  {
  }

  lemma EmptiedFlags(c: ClockOrbitData, k: Kind)
    requires IsClockOrbit(c) && k.IsGps()
    ensures Flags(Emptied(c, k), k)
  {
  }

  lemma CombinedFlags(c: ClockOrbitData)
    requires IsClockOrbit(c)
    ensures Flags(CombinedResult(c), GpsCombined)
  {
    hide AllGroups, AfterWindows;
    GroupsSize(c);
    AfterWindowsSats(CombinedStart(c), AllGroups(c), c.NumberOfGPSSat, 0);
  }

  // ---------- the second system ----------

  /** Why data of a sort that is there already are refused. */
  ghost function Refusal(co: ClockOrbitData, k: Kind, epoch: int): Return {
    if k.Count(co) != 0 && k.Epoch(co) != epoch % Pow2(k.EpochBits()) then TimeMismatch else DataMismatch
  }

  lemma SuppliedRefused(co: ClockOrbitData, k: Kind, epoch: int, mmi: int, count: int, rest: BitString)
    requires Shape(co) && AlreadySupplied(co, k) && 0 <= mmi < 2
    ensures DecodeMessage(co, k, ToBits(epoch, k.EpochBits())
      + (FieldBits([Field(1, mmi), Field(6, 0), Field(5, count)]) + rest))
         == Fail(Refusal(co, k, epoch))
  {
    hide ToBits, FieldBits, ReadSlots, ReadSlot, Pow2, HeadSlots;
    var tail := FieldBits([Field(1, mmi), Field(6, 0), Field(5, count)]) + rest;
    LowBits(epoch, k.EpochBits());
    ReadField(Field(k.EpochBits(), epoch % Pow2(k.EpochBits())), Slot(k.EpochBits(), false), tail);
    HeadReads(mmi, count, rest);
  }

  lemma SuppliedBody(co: ClockOrbitData, c: ClockOrbitData, k: Kind, mmi: int, after: BitString, b: Option<BiasData>,
                     used: int)
    requires Shape(co) && AlreadySupplied(co, k) && 0 <= mmi < 2 && IsClockOrbit(c) && Shapes(None, b)
    ensures match ReadSlot(Slot(12, false), DraftBits(DraftOf(c, k), mmi) + after)
      case Fail(_) => false
      case Next(number, r) => DecodeBody(Some(co), b, number, r, used).ret == Refusal(co, k, k.Epoch(c))
  {
    hide ReadSlot, FieldBits, GroupBits, DraftBits, DecodeMessage, SatGroups, IsClockOrbit, Shape, AlreadySupplied,
      Refusal;
    NumberDecodes(DraftOf(c, k), mmi, after);
    CountBound(c, k);
    SuppliedRefused(co, k, k.Epoch(c), mmi, k.Count(c), GroupBits(SatGroups(c, k)) + after);
    assert KindOf(k.Number()) == Some(k);
  }

  /**
   * Data of a sort that is there already, from whichever system, are refused whatever they hold: as a time mismatch if
   * there are satellites of the same system with another epoch, else as a data mismatch.
   */
  lemma SuppliedBlock(co: ClockOrbitData, c: ClockOrbitData, k: Kind, mmi: int, blk: seq<Byte>, tail: seq<Byte>,
                      b: Option<BiasData>)
    requires Shape(co) && AlreadySupplied(co, k) && 0 <= mmi < 2 && IsClockOrbit(c) && Shapes(None, b)
    requires IsBlock(blk, DraftBits(DraftOf(c, k), mmi))
    ensures Decode(Some(co), b, blk + tail).ret == if TooLong(c, k) then UnknownData else Refusal(co, k, k.Epoch(c))
  {
    hide DecodeFrame, DecodeBody, IsClockOrbit, IsBlock, BitsOf, DraftBits, DraftOf, Shape, AlreadySupplied, Refusal;
    var body := DraftBits(DraftOf(c, k), mmi);
    CountLimit(c, k);
    BodySize(c, k, mmi);
    BodyLong(DraftOf(c, k), mmi);
    if TooLong(c, k) {
      LongBodyUnknown(blk, body, tail);
    } else {
      ShortBody(c, k, mmi);
      FrameDecodes(blk, body, tail);
      BodyPrefix(blk, body, tail);
      BlockSize(blk, body);
      var bits := BitsOf(blk[3..] + tail);
      var after := bits[|body|..];
      assert bits == body + after;
      SuppliedBody(co, c, k, mmi, after, b, BodyLen(body) + 6);
    }
  }

  /** Every body but that of 32 combined satellites fits the length field. */
  lemma ShortBody(c: ClockOrbitData, k: Kind, mmi: int)
    requires IsClockOrbit(c) && !TooLong(c, k)
    ensures BodyLen(DraftBits(DraftOf(c, k), mmi)) < 1024
  {
    hide DraftBits, DraftOf, IsClockOrbit;
    CountLimit(c, k);
    BodySize(c, k, mmi);
    if k.Count(c) <= 31 {
      BodyFits(c, k, mmi);
    }
  }

  // ---------- the chain ----------

  /** Both systems have satellites, and both are asked for. */
  predicate Mixed(c: ClockOrbitData, number: int) {
    && number == AUTO && c.NumberOfGPSSat != 0 && c.NumberOfGLONASSSat != 0
    && (c.OrbitDataSupplied || c.ClockDataSupplied)
  }

  /** A combined message of 32 satellites is asked for. */
  predicate Overfull(c: ClockOrbitData, number: int) {
    && (number == AUTO || number == 4056) && c.NumberOfGPSSat == 32
    && c.OrbitDataSupplied && c.ClockDataSupplied
  }

  /** A plan holds two messages for a mixed correction, GPS first, and else at most one. */
  lemma PlanShape(c: ClockOrbitData, number: int)
    requires IsClockOrbit(c)
    ensures |Plan(c, number)| == 2 <==> Mixed(c, number)
    ensures |Plan(c, number)| <= 2
    ensures Overfull(c, number) <==> |Plan(c, number)| > 0 && TooLong(c, PlannedKind(c, number, 0))
  {
    hide DraftOf, IsClockOrbit, PlannedKind;
    TakenSix(Branches(c, number));
    if |Plan(c, number)| > 0 {
      DraftNumber(c, PlannedKind(c, number, 0));
      PlannedNumbers(c);
    }
  }

  lemma PlannedNumbers(c: ClockOrbitData)
    requires IsClockOrbit(c)
    ensures forall k: Kind :: DraftOf(c, k).number == k.Number()
  {
  }

  /** The layout AUTO chooses when both systems have satellites. */
  lemma AutoPlan(c: ClockOrbitData) returns (g: Kind, l: Kind)
    requires IsClockOrbit(c) && Mixed(c, AUTO)
    ensures g.IsGps() && !l.IsGps() && g.HasOrbit() == l.HasOrbit() && g.HasClock() == l.HasClock()
    ensures g.GpsCombined? <==> c.OrbitDataSupplied && c.ClockDataSupplied
    ensures Plan(c, AUTO) == [DraftOf(c, g), DraftOf(c, l)]
  {
    hide DraftOf, IsClockOrbit;
    if c.OrbitDataSupplied && c.ClockDataSupplied {
      g, l := GpsCombined, GlonassCombined;
    } else if c.OrbitDataSupplied {
      g, l := GpsOrbit, GlonassOrbit;
    } else {
      g, l := GpsClock, GlonassClock;
    }
    TakenSix(Branches(c, AUTO));
  }

  lemma TakenSix(s: seq<(bool, Draft)>)
    requires |s| == 6
    ensures Taken(s) == Opt(s[0].0, s[0].1) + Opt(s[1].0, s[1].1) + Opt(s[2].0, s[2].1)
                      + Opt(s[3].0, s[3].1) + Opt(s[4].0, s[4].1) + Opt(s[5].0, s[5].1)
  {
    hide Taken, Opt;
    assert s[..6] == s;
    TakenNone(s);
    TakenNext(s, 0);
    TakenNext(s, 1);
    TakenNext(s, 2);
    TakenNext(s, 3);
    TakenNext(s, 4);
    TakenNext(s, 5);
  }

  lemma TakenNone(s: seq<(bool, Draft)>)
    ensures Taken(s[..0]) == []
  {
  }

  lemma TakenNext(s: seq<(bool, Draft)>, i: nat)
    requires i < |s|
    ensures Taken(s[..i + 1]) == Taken(s[..i]) + Opt(s[i].0, s[i].1)
  {
    hide Opt;
    assert s[..i + 1][..i] == s[..i];
  }

  lemma MixedBlocksRefused(c: ClockOrbitData, g: Kind, l: Kind, mmi: int, first: seq<Byte>, second: seq<Byte>,
                           tail: seq<Byte>, b: Option<BiasData>)
    requires IsClockOrbit(c) && g.IsGps() && !l.IsGps() && !TooLong(c, g) && 0 <= mmi < 2
    requires (g.HasOrbit() && l.HasOrbit()) || (g.HasClock() && l.HasClock())
    requires IsBlock(first, DraftBits(DraftOf(c, g), 1)) && IsBlock(second, DraftBits(DraftOf(c, l), mmi))
    requires Shapes(None, b)
    ensures var o := Decode(Some(Fresh()), b, first + (second + tail));
      && o.ret == MessageFollows && o.used == |first| && Decode(o.co, o.b, second + tail).ret == DataMismatch
  {
    hide Decode, IsClockOrbit, IsBlock, DraftBits, DraftOf, Shape, Fresh;
    CountLimit(c, g);
    GpsBlockRead(c, g, 1, first, second + tail, b);
    var o := Decode(Some(Fresh()), b, first + (second + tail));
    SuppliedBlock(o.co.value, c, l, mmi, second, tail, b);
  }

  /**
   * Whatever a correction for both systems holds, the AUTO chain made of it stops a reader that keeps one structure:
   * the GPS message is accepted (unless it is too long for its header) and announces another, and that one, the
   * GLONASS message, is a data mismatch.
   */
  lemma MixedChainRefused(c: ClockOrbitData, more: bool, out: seq<Byte>, b: Option<BiasData>)
    requires IsClockOrbit(c) && Mixed(c, AUTO) && Shapes(None, b)
    requires IsChain(out, Bodies(Plan(c, AUTO), |Plan(c, AUTO)|, more))
    ensures var o := Decode(Some(Fresh()), b, out);
      if Overfull(c, AUTO) then o.ret == UnknownData
      else o.ret == MessageFollows && 0 <= o.used <= |out| && Decode(o.co, o.b, out[o.used..]).ret == DataMismatch
  {
    hide Decode, IsClockOrbit, IsBlock, DraftBits, DraftOf, Shapes, Fresh, IsChain, Plan, BlockLen;
    var g, l := AutoPlan(c);
    var bodies := Bodies(Plan(c, AUTO), 2, more);
    TwoPieces(out, bodies);
    var n, m := BlockLen(bodies[0]), BlockLen(bodies[1]);
    var first, second, tail := out[..n], out[n..n + m], out[n + m..];
    if TooLong(c, g) {
      BlockExact(c, g, 1, first, second + tail, b);
    } else {
      MixedBlocksRefused(c, g, l, if more then 1 else 0, first, second, tail, b);
    }
  }

  lemma TwoPieces(out: seq<Byte>, bodies: seq<BitString>)
    requires |bodies| == 2 && IsChain(out, bodies)
    ensures var n, m := BlockLen(bodies[0]), BlockLen(bodies[1]);
      && n + m <= |out| && IsBlock(out[..n], bodies[0]) && IsBlock(out[n..n + m], bodies[1])
      && out[..n] + (out[n..n + m] + out[n + m..]) == out && out[n..n + m] + out[n + m..] == out[n..]
      && |out[..n]| == n
  {
    hide IsBlock, IsChain, BlockLen;
    ChainBlock(out, bodies, 0);
    ChainBlock(out, bodies, 1);
    TwoOffsets(bodies);
  }

  lemma TwoOffsets(bodies: seq<BitString>)
    requires |bodies| == 2
    ensures Offset(bodies, 0) == 0 && Offset(bodies, 1) == BlockLen(bodies[0])
  {
    assert Offset(bodies, 0) == 0;
  }

  /** Block after block is accepted into the same structures, until nothing is left. */
  ghost predicate ReadsThrough(co: Option<ClockOrbitData>, b: Option<BiasData>, buf: seq<Byte>)
    requires Shapes(co, b)
    decreases |buf|
  {
    buf == [] ||
      var o := Decode(co, b, buf);
      o.ret.Accepted() && 0 < o.used <= |buf| && ReadsThrough(o.co, o.b, buf[o.used..])
  }

  lemma SingleBlock(c: ClockOrbitData, number: int, more: bool, out: seq<Byte>, b: Option<BiasData>)
    requires IsClockOrbit(c) && |Plan(c, number)| == 1 && Shapes(None, b)
    requires IsChain(out, Bodies(Plan(c, number), 1, more))
    ensures ReadsThrough(Some(Fresh()), b, out) <==> !TooLong(c, PlannedKind(c, number, 0))
  {
    hide Decode, IsClockOrbit, Expected, Intact, Plan, PlannedKind, Shapes, Fresh, IsChain, BlockLen, TooLong;
    var bodies := Bodies(Plan(c, number), 1, more);
    ChainRoundTrip(c, number, more, out, 0, b);
    OneOffset(out, bodies);
    assert out[0..] == out && out[|out|..] == [];
  }

  lemma OneOffset(out: seq<Byte>, bodies: seq<BitString>)
    requires |bodies| == 1 && IsChain(out, bodies)
    ensures Offset(bodies, 0) == 0 && |out| == BlockLen(bodies[0]) >= 6
  {
    hide IsChain;
    ChainLenIsLength(out, bodies);
    assert Offset(bodies, 0) == 0 && bodies[..1] == bodies && bodies[..0] == [];
    assert ChainLen(bodies) == ChainLen([]) + BlockLen(bodies[0]);
  }

  lemma NothingDecoded(co: Option<ClockOrbitData>, b: Option<BiasData>)
    requires Shapes(co, b)
    ensures Decode(co, b, []).ret == ShortBuffer
  {
  }

  /**
   * The chain made for a correction can be read into one structure, block after block, if and only if it is not for
   * both systems at once and holds no combined message of 32 satellites.
   */
  lemma ReadableIff(c: ClockOrbitData, number: int, more: bool, out: seq<Byte>, b: Option<BiasData>)
    requires IsClockOrbit(c) && Shapes(None, b)
    requires IsChain(out, Bodies(Plan(c, number), |Plan(c, number)|, more))
    ensures ReadsThrough(Some(Fresh()), b, out) <==> !Mixed(c, number) && !Overfull(c, number)
  {
    hide Decode, IsClockOrbit, Plan, PlannedKind, Fresh, TooLong, Mixed, Overfull, Bodies, ReadsThrough;
    PlanShape(c, number);
    if |Plan(c, number)| == 0 {
      NoBlocks(out, Bodies(Plan(c, number), 0, more), b);
    } else if |Plan(c, number)| == 1 {
      SingleBlock(c, number, more, out, b);
    } else {
      MixedIsAuto(c, number);
      TwoBlocks(c, more, out, b);
    }
  }

  lemma NoBlocks(out: seq<Byte>, bodies: seq<BitString>, b: Option<BiasData>)
    requires bodies == [] && IsChain(out, bodies) && Shapes(None, b)
    ensures ReadsThrough(Some(Fresh()), b, out)
  {
    hide Decode, Fresh;
  }

  lemma TwoBlocks(c: ClockOrbitData, more: bool, out: seq<Byte>, b: Option<BiasData>)
    requires IsClockOrbit(c) && Mixed(c, AUTO) && Shapes(None, b)
    requires IsChain(out, Bodies(Plan(c, AUTO), |Plan(c, AUTO)|, more))
    ensures !ReadsThrough(Some(Fresh()), b, out)
  {
    hide IsClockOrbit, Plan, Fresh, Mixed, Overfull, Bodies, IsChain, Decode;
    MixedChainRefused(c, more, out, b);
    NothingDecoded(Some(Fresh()), b);
    var o := Decode(Some(Fresh()), b, out);
    NothingDecoded(o.co, o.b);
  }

  lemma MixedIsAuto(c: ClockOrbitData, number: int)
    requires Mixed(c, number)
    ensures number == AUTO
  {
  }
}
