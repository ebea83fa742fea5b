// The exact limits of the orbit and clock messages: what becomes of values and counts that do not fit their fields.
module SsrLimits {
  import opened Bits
  import opened BitStreams
  import opened Crc24
  import opened SsrBlocks
  import opened CastMath
  import opened SsrMessages
  import opened SsrDecoder
  import opened SsrRoundTrip
  import opened SsrTheorems
  import opened SsrCombined

  // ---------- values that wrap around ----------

  /** The number the low 20 bits of v stand for in two's complement. */
  ghost function Wrap(v: int): (w: int)
    ensures InField(w) && (w == v <==> InField(v))
  {
    (v + 524288) % 1048576 - 524288
  }

  lemma WrapBits(v: int)
    ensures ToBits(Wrap(v), 20) == ToBits(v, 20)
  {
    hide ToBits, Pow2;
    Pow2Values();
    WrapRemainder(v);
    ToBitsMod(v, 20, 20);
    ToBitsMod(Wrap(v), 20, 20);
  }

  lemma WrapRemainder(v: int)
    ensures Wrap(v) % 1048576 == v % 1048576
  {
    var q := (v + 524288) / 1048576;
    DivMod(v, 1048576, q + Wrap(v) / 1048576, Wrap(v) % 1048576);
  }

  lemma OrbitStepsOfUnits(k: nat, v: int)
    ensures OrbitSteps(k, OrbitUnits(k, v)) == v
  {
    var scale := OrbitScale(k);
    UnitsBack(scale, v);
    TruncWhole(v);
  }

  lemma ClockStepsOfUnits(k: nat, v: int)
    ensures ClockSteps(k, ClockUnits(k, v)) == v
  {
    var scale := ClockScale(k);
    UnitsBack(scale, v);
    TruncWhole(v);
  }

  lemma UnitsBack(scale: real, v: int)
    requires scale > 0.0
    ensures scale * (v as real / scale) == v as real
  {
  }

  /** A satellite whose every value is what its field can carry of the given one. */
  ghost function WrappedSat(s: SatData): (w: SatData)
    requires IsSat(s)
    ensures IsSat(w) && w.ID == s.ID % 64 && w.IOD == s.IOD % 256
    ensures forall k :: 0 <= k < 9 ==> w.Orbit[k] == OrbitUnits(k, Wrap(OrbitSteps(k, s.Orbit[k])))
    ensures forall k :: 0 <= k < 3 ==> w.Clock[k] == ClockUnits(k, Wrap(ClockSteps(k, s.Clock[k])))
  {
    SatData(s.ID % 64, s.IOD % 256,
            seq(9, k requires 0 <= k < 9 => OrbitUnits(k, Wrap(OrbitSteps(k, s.Orbit[k])))),
            seq(3, k requires 0 <= k < 3 => ClockUnits(k, Wrap(ClockSteps(k, s.Clock[k])))))
  }

  lemma WrappedSteps(s: SatData)
    requires IsSat(s)
    ensures forall k :: 0 <= k < 9 ==> OrbitSteps(k, WrappedSat(s).Orbit[k]) == Wrap(OrbitSteps(k, s.Orbit[k]))
    ensures forall k :: 0 <= k < 3 ==> ClockSteps(k, WrappedSat(s).Clock[k]) == Wrap(ClockSteps(k, s.Clock[k]))
  {
    hide OrbitSteps, ClockSteps, OrbitUnits, ClockUnits, Wrap;
    forall k | 0 <= k < 9
      ensures OrbitSteps(k, WrappedSat(s).Orbit[k]) == Wrap(OrbitSteps(k, s.Orbit[k]))
    {
      OrbitStepsOfUnits(k, Wrap(OrbitSteps(k, s.Orbit[k])));
    }
    forall k | 0 <= k < 3
      ensures ClockSteps(k, WrappedSat(s).Clock[k]) == Wrap(ClockSteps(k, s.Clock[k]))
    {
      ClockStepsOfUnits(k, Wrap(ClockSteps(k, s.Clock[k])));
    }
  }

  lemma WrappedSatInRange(s: SatData, orbit: bool, clock: bool)
    requires IsSat(s)
    ensures SatInRange(WrappedSat(s), orbit, clock)
  {
    hide OrbitSteps, ClockSteps, OrbitUnits, ClockUnits, Wrap, WrappedSat;
    WrappedSteps(s);
    assert WrappedSat(s).ID == s.ID % 64;
  }

  /** Wrapping changes nothing of what is carried exactly when that is in range. */
  lemma WrappedSatIff(s: SatData, orbit: bool, clock: bool)
    requires IsSat(s)
    ensures Quantised(WrappedSat(s), orbit, clock) == Quantised(s, orbit, clock) <==> SatInRange(s, orbit, clock)
  {
    hide OrbitSteps, ClockSteps, OrbitUnits, ClockUnits, Wrap, WrappedSat, Quantised;
    WrappedSteps(s);
    var w := WrappedSat(s);
    var x, y := Quantised(w, orbit, clock), Quantised(s, orbit, clock);
    SmallId(s.ID, 64);
    SmallId(s.IOD, 256);
    forall k | 0 <= k < 9
      ensures orbit ==> (x.Orbit[k] == y.Orbit[k] <==> InField(OrbitSteps(k, s.Orbit[k])))
    {
      OrbitUnitsEqual(k, Wrap(OrbitSteps(k, s.Orbit[k])), OrbitSteps(k, s.Orbit[k]));
    }
    forall k | 0 <= k < 3
      ensures clock ==> (x.Clock[k] == y.Clock[k] <==> InField(ClockSteps(k, s.Clock[k])))
    {
      ClockUnitsEqual(k, Wrap(ClockSteps(k, s.Clock[k])), ClockSteps(k, s.Clock[k]));
    }
    SatsDiffer(x, y);
  }

  lemma SmallId(v: int, p: int)
    requires p > 0
    ensures v % p == v <==> 0 <= v < p
  {
    if 0 <= v < p {
      SmallValue(v, p);
    }
  }

  lemma SatsDiffer(x: SatData, y: SatData)
    requires IsSat(x) && IsSat(y)
    ensures x == y <==>
      && x.ID == y.ID && x.IOD == y.IOD
      && (forall k :: 0 <= k < 9 ==> x.Orbit[k] == y.Orbit[k])
      && (forall k :: 0 <= k < 3 ==> x.Clock[k] == y.Clock[k])
  {
    if forall k :: 0 <= k < 9 ==> x.Orbit[k] == y.Orbit[k] {
      assert x.Orbit == y.Orbit;
    }
    if forall k :: 0 <= k < 3 ==> x.Clock[k] == y.Clock[k] {
      assert x.Clock == y.Clock;
    }
  }

  /** The correction the message of kind k really carries. */
  ghost function Wrapped(c: ClockOrbitData, k: Kind): (w: ClockOrbitData)
    requires IsClockOrbit(c)
    ensures IsClockOrbit(w) && k.Count(w) == k.Count(c)
    ensures k.Epoch(w) == k.Epoch(c) % Pow2(k.EpochBits())
    ensures w.SatRefPoint == c.SatRefPoint % 2 && w.SatRefDatum == c.SatRefDatum % 2
    ensures forall i :: 0 <= i < |c.Sat| ==> w.Sat[i] == WrappedSat(c.Sat[i])
  {
    c.(GPSEpochTime := c.GPSEpochTime % Pow2(k.EpochBits()),
       GLONASSEpochTime := c.GLONASSEpochTime % Pow2(k.EpochBits()),
       SatRefPoint := c.SatRefPoint % 2, SatRefDatum := c.SatRefDatum % 2,
       Sat := seq(|c.Sat|, i requires 0 <= i < |c.Sat| => WrappedSat(c.Sat[i])))
  }

  lemma WrappedInRange(c: ClockOrbitData, k: Kind)
    requires IsClockOrbit(c) && k.Count(c) <= 31
    ensures InRange(Wrapped(c, k), k)
  {
    hide SatInRange, WrappedSat, Pow2;
    CountBound(c, k);
    forall i | k.Base() <= i < k.Base() + k.Count(c)
      ensures SatInRange(Wrapped(c, k).Sat[i], k.HasOrbit(), k.HasClock())
    {
      WrappedSatInRange(c.Sat[i], k.HasOrbit(), k.HasClock());
    }
  }

  // ---------- the same bits ----------

  lemma {:induction false} SameFieldBits(fs: seq<Field>, gs: seq<Field>)
    requires |fs| == |gs|
    requires forall i :: 0 <= i < |fs| ==>
      fs[i].width == gs[i].width && ToBits(fs[i].value, fs[i].width) == ToBits(gs[i].value, gs[i].width)
    ensures FieldBits(fs) == FieldBits(gs)
  {
    hide ToBits;
    if |fs| > 0 {
      SameFieldBits(fs[..|fs| - 1], gs[..|gs| - 1]);
    }
  }

  lemma {:induction false} SameGroupBits(gs: seq<seq<Field>>, hs: seq<seq<Field>>)
    requires |gs| == |hs| && forall i :: 0 <= i < |gs| ==> FieldBits(gs[i]) == FieldBits(hs[i])
    ensures GroupBits(gs) == GroupBits(hs)
  {
    hide FieldBits;
    if |gs| > 0 {
      SameGroupBits(gs[..|gs| - 1], hs[..|hs| - 1]);
    }
  }

  lemma LowBits(v: int, n: nat)
    ensures ToBits(v % Pow2(n), n) == ToBits(v, n)
  {
    ToBitsMod(v, n, n);
  }

  lemma SameSatBits(s: SatData, p: int, d: int, orbit: bool, clock: bool)
    requires IsSat(s)
    ensures FieldBits(SatFields(WrappedSat(s), p % 2, d % 2, orbit, clock))
      == FieldBits(SatFields(s, p, d, orbit, clock))
  {
    hide ToBits, Pow2, FieldBits, WrappedSat, OrbitSteps, ClockSteps, Wrap;
    var w := WrappedSat(s);
    var fs, gs := SatFields(w, p % 2, d % 2, orbit, clock), SatFields(s, p, d, orbit, clock);
    WrappedSteps(s);
    Pow2Values();
    LowBits(s.ID, 6);
    LowBits(s.IOD, 8);
    LowBits(p, 1);
    LowBits(d, 1);
    var m := if orbit then 13 else 2;
    forall i | 0 <= i < |gs|
      ensures |fs| == |gs| && fs[i].width == gs[i].width
      ensures ToBits(fs[i].value, fs[i].width) == ToBits(gs[i].value, gs[i].width)
    {
      if 2 <= i < m && i < 11 {
        WrapBits(OrbitSteps(i - 2, s.Orbit[i - 2]));
      } else if m <= i {
        WrapBits(ClockSteps(i - m, s.Clock[i - m]));
      }
    }
    SameFieldBits(fs, gs);
  }

  /** The wrapped correction has the same message. */
  lemma SameBody(c: ClockOrbitData, k: Kind, mmi: int)
    requires IsClockOrbit(c)
    ensures DraftBits(DraftOf(Wrapped(c, k), k), mmi) == DraftBits(DraftOf(c, k), mmi)
  {
    hide ToBits, Pow2, FieldBits, WrappedSat, SatFields, IsClockOrbit;
    var w := Wrapped(c, k);
    CountBound(c, k);
    var gs, hs := SatGroups(w, k), SatGroups(c, k);
    forall i | 0 <= i < |gs|
      ensures FieldBits(gs[i]) == FieldBits(hs[i])
    {
      SatShape(c, k.Base() + i);
      SameSatBits(c.Sat[k.Base() + i], c.SatRefPoint, c.SatRefDatum, k.HasOrbit(), k.HasClock());
    }
    SameGroupBits(gs, hs);
    LowBits(k.Epoch(c), k.EpochBits());
    SameFieldBits(HeaderFields(k.Number(), k.EpochBits(), k.Epoch(w), mmi, |gs|),
                  HeaderFields(k.Number(), k.EpochBits(), k.Epoch(c), mmi, |gs|));
  }

  // ---------- exactly the corrections in range ----------

  lemma ExpectedEqual(a: ClockOrbitData, c: ClockOrbitData, k: Kind)
    requires IsClockOrbit(a) && IsClockOrbit(c) && k.Count(a) == k.Count(c)
    ensures Expected(a, k) == Expected(c, k) <==>
      && k.Epoch(a) == k.Epoch(c)
      && (k.HasOrbit() && k.Count(c) > 0 ==> a.SatRefPoint == c.SatRefPoint && a.SatRefDatum == c.SatRefDatum)
      && forall i :: k.Base() <= i < k.Base() + k.Count(c) ==>
           Quantised(a.Sat[i], k.HasOrbit(), k.HasClock()) == Quantised(c.Sat[i], k.HasOrbit(), k.HasClock())
  {
    hide Quantised;
    var n, base := k.Count(c), k.Base();
    CountBound(c, k);
    var x, y := Expected(a, k), Expected(c, k);
    assert forall i :: base <= i < base + n ==>
      && x.Sat[i] == Quantised(a.Sat[i], k.HasOrbit(), k.HasClock())
      && y.Sat[i] == Quantised(c.Sat[i], k.HasOrbit(), k.HasClock());
    if forall i :: base <= i < base + n ==> x.Sat[i] == y.Sat[i] {
      assert x.Sat == y.Sat;
    }
  }

  /** What is expected of the wrapped correction is what is expected of the original exactly if that is in range. */
  lemma WrappedIff(c: ClockOrbitData, k: Kind)
    requires IsClockOrbit(c) && k.Count(c) <= 31
    ensures Expected(Wrapped(c, k), k) == Expected(c, k) <==> InRange(c, k)
  {
    hide Expected, SatInRange, WrappedSat, Pow2, Quantised, Wrapped;
    CountBound(c, k);
    SmallId(k.Epoch(c), Pow2(k.EpochBits()));
    SmallId(c.SatRefPoint, 2);
    SmallId(c.SatRefDatum, 2);
    ExpectedEqual(Wrapped(c, k), c, k);
    forall i | k.Base() <= i < k.Base() + k.Count(c)
      ensures Quantised(Wrapped(c, k).Sat[i], k.HasOrbit(), k.HasClock())
        == Quantised(c.Sat[i], k.HasOrbit(), k.HasClock())
        <==> SatInRange(c.Sat[i], k.HasOrbit(), k.HasClock())
    {
      WrappedSatIff(c.Sat[i], k.HasOrbit(), k.HasClock());
    }
  }

  lemma WrappedRoundTrip(c: ClockOrbitData, k: Kind, mmi: int, blk: seq<Byte>, tail: seq<Byte>, b: Option<BiasData>)
    requires IsClockOrbit(c) && k.Count(c) <= 31 && !k.GpsCombined? && 0 <= mmi < 2
    requires IsBlock(blk, DraftBits(DraftOf(c, k), mmi)) && Shapes(None, b)
    ensures Decode(Some(Fresh()), b, blk + tail) == Outcome(Accept(mmi), Some(Expected(Wrapped(c, k), k)), b, |blk|)
  {
    hide Decode, Expected, InRange, IsClockOrbit, IsBlock, DraftBits, DraftOf, Wrapped;
    SameBody(c, k, mmi);
    WrappedInRange(c, k);
    RoundTrip(Wrapped(c, k), k, mmi, blk, tail, b);
  }

  /**
   * For the five symmetric types and every correction: the encoder's block is accepted, and it decodes to the
   * (quantised) correction it was made from if and only if there are at most 31 satellites and every value fits
   * its field.
   */
  lemma RoundTripIff(c: ClockOrbitData, k: Kind, mmi: int, blk: seq<Byte>, tail: seq<Byte>, b: Option<BiasData>)
    requires IsClockOrbit(c) && !k.GpsCombined? && 0 <= mmi < 2
    requires IsBlock(blk, DraftBits(DraftOf(c, k), mmi)) && Shapes(None, b)
    ensures var o := Decode(Some(Fresh()), b, blk + tail);
      o.ret == Accept(mmi) && o.b == b && o.used == |blk|
    ensures Decode(Some(Fresh()), b, blk + tail) == Outcome(Accept(mmi), Some(Expected(c, k)), b, |blk|)
      <==> InRange(c, k)
  {
    hide Decode, Expected, InRange, IsClockOrbit, IsBlock, DraftBits, DraftOf, Wrapped;
    if k.Count(c) <= 31 {
      WrappedRoundTrip(c, k, mmi, blk, tail, b);
      WrappedIff(c, k);
    } else {
      CountLimit(c, k);
      ThirtyTwoSatellitesLost(c, k, mmi, blk, tail, b);
      CountsDiffer(c, k);
    }
  }

  lemma CountsDiffer(c: ClockOrbitData, k: Kind)
    requires IsClockOrbit(c) && k.Count(c) == 32
    ensures Expected(c, k) != Emptied(c, k) && !InRange(c, k)
  {
    assert Expected(c, k).NumberOfGPSSat == 32;
  }

  // ---------- 32 satellites ----------

  /** The structure after a message of no satellites. */
  ghost function Emptied(c: ClockOrbitData, k: Kind): ClockOrbitData
    requires IsClockOrbit(c)
  {
    Supply(StoreCount(StoreEpoch(Fresh(), k, k.Epoch(c) % Pow2(k.EpochBits())), k, 0), k)
  }

  lemma FreshCounts(k: Kind)
    ensures k.Count(Fresh()) == 0 && !AlreadySupplied(Fresh(), k)
  {
  }

  /** The count field has five bits. */
  lemma WrappedCount(mmi: int)
    ensures FieldBits([Field(1, mmi), Field(6, 0), Field(5, 32)])
      == FieldBits([Field(1, mmi), Field(6, 0), Field(5, 0)])
  {
    hide ToBits, FieldBits, Pow2;
    Pow2Values();
    LowBits(32, 5);
    SameFieldBits([Field(1, mmi), Field(6, 0), Field(5, 32)], [Field(1, mmi), Field(6, 0), Field(5, 0)]);
  }

  lemma HeadReads(mmi: int, count: int, rest: BitString)
    requires 0 <= mmi < 2
    ensures ReadSlots(HeadSlots(), FieldBits([Field(1, mmi), Field(6, 0), Field(5, count)]) + rest)
         == Next([mmi, 0, count % 32], rest)
  {
    hide ToBits, FieldBits, ReadSlots, Pow2;
    Pow2Values();
    LowBits(count, 5);
    var head, low := [Field(1, mmi), Field(6, 0), Field(5, count)], [Field(1, mmi), Field(6, 0), Field(5, count % 32)];
    SameFieldBits(head, low);
    HeadFits(mmi, count % 32);
    ReadFields(low, HeadSlots(), rest);
    assert Values(low) == [mmi, 0, count % 32];
  }

  lemma FullMessageDecodes(c: ClockOrbitData, k: Kind, mmi: int, rest: BitString)
    requires IsClockOrbit(c) && k.Count(c) == 32 && 0 <= mmi < 2
    ensures DecodeMessage(Fresh(), k,
              ToBits(k.Epoch(c), k.EpochBits()) + (FieldBits([Field(1, mmi), Field(6, 0), Field(5, 32)]) + rest))
         == Next((Emptied(c, k), mmi), rest)
  {
    hide ReadSlot, ReadSlots, FieldBits, Fresh, Pow2, ToBits;
    FreshCounts(k);
    WrappedCount(mmi);
    LowBits(k.Epoch(c), k.EpochBits());
    var head := [Field(1, mmi), Field(6, 0), Field(5, 0)];
    var epoch := Field(k.EpochBits(), k.Epoch(c) % Pow2(k.EpochBits()));
    ReadField(epoch, Slot(k.EpochBits(), false), FieldBits(head) + rest);
    HeadFits(mmi, 0);
    ReadFields(head, HeadSlots(), rest);
    assert Values(head) == [mmi, 0, 0];
  }

  lemma FullBodyDecodes(c: ClockOrbitData, k: Kind, mmi: int, after: BitString, b: Option<BiasData>, used: int)
    requires IsClockOrbit(c) && k.Count(c) == 32 && 0 <= mmi < 2 && Shapes(None, b)
    ensures match ReadSlot(Slot(12, false), DraftBits(DraftOf(c, k), mmi) + after)
      case Fail(_) => false
      case Next(number, r) =>
        DecodeBody(Some(Fresh()), b, number, r, used) == Outcome(Accept(mmi), Some(Emptied(c, k)), b, used)
  {
    hide ReadSlot, FieldBits, GroupBits, DraftBits, DecodeMessage, Emptied, SatGroups, IsClockOrbit;
    NumberDecodes(DraftOf(c, k), mmi, after);
    FullMessageDecodes(c, k, mmi, GroupBits(SatGroups(c, k)) + after);
    assert KindOf(k.Number()) == Some(k);
  }

  /** A body of 1024 bytes or more sets reserved bits of the header. */
  lemma LongBodyUnknown(blk: seq<Byte>, body: BitString, tail: seq<Byte>)
    requires IsBlock(blk, body) && 1024 <= BodyLen(body) < 65536
    ensures DecodeFrame(blk + tail) == Fail(UnknownData)
  {
    hide ReadSlots, ByteBits, BitsOf, Crc, Join3, Pad, FromBits, Pow2;
    var head, rest := blk[..3], blk[3..] + tail;
    assert blk + tail == head + rest;
    BitsOfAppend(head, rest);
    HeaderValues(BitsOf(head), BitsOf(rest));
    ReservedBits(head);
  }

  lemma ReservedBits(head: seq<Byte>)
    requires |head| == 3 && head[1] as int >= 4
    ensures FromBits(BitsOf(head)[8..14]) != 0
  {
    hide BitsOf, ToBits, Pow2, FromBits;
    ThreeBytes(head);
    var v := head[1] as int;
    var b := BitsOf(head)[8..14];
    assert BitsOf(head)[8..16] == ByteBits(head[1]);
    assert b == ByteBits(head[1])[..6];
    Pow2Values();
    Quarter(v);
    ToBitsSplit(v, 6, 2);
    assert b == ToBits(v / 4, 6);
    FromToBits(v / 4, 6);
    ByteRange(head[1]);
    SmallValue(v / 4, 64);
  }

  lemma Quarter(v: int)
    ensures Pow2(2) == 4
  {
    assert Pow2(1) == 2;
  }

  /**
   * A correction of 32 GPS satellites, the most the structure holds: its orbit or clock block decodes to a message
   * of no satellites that marks the data as supplied, its combined block is too long for the header and is refused.
   */
  lemma ThirtyTwoSatellitesLost(c: ClockOrbitData, k: Kind, mmi: int, blk: seq<Byte>, tail: seq<Byte>,
                                b: Option<BiasData>)
    requires IsClockOrbit(c) && k.Count(c) == 32 && 0 <= mmi < 2
    requires IsBlock(blk, DraftBits(DraftOf(c, k), mmi)) && Shapes(None, b)
    ensures k.GpsCombined? ==> Decode(Some(Fresh()), b, blk + tail).ret == UnknownData
    ensures !k.GpsCombined? ==>
      Decode(Some(Fresh()), b, blk + tail) == Outcome(Accept(mmi), Some(Emptied(c, k)), b, |blk|)
  {
    hide FieldBits, DecodeFrame, DecodeBody, Emptied, IsClockOrbit, IsBlock, BitsOf, DraftBits, DraftOf;
    var body := DraftBits(DraftOf(c, k), mmi);
    CountLimit(c, k);
    BodySize(c, k, mmi);
    if k.GpsCombined? {
      LongBodyUnknown(blk, body, tail);
    } else {
      FrameDecodes(blk, body, tail);
      BodyPrefix(blk, body, tail);
      BlockSize(blk, body);
      var bits := BitsOf(blk[3..] + tail);
      var after := bits[|body|..];
      assert bits == body + after;
      FullBodyDecodes(c, k, mmi, after, b, |blk|);
    }
  }

  // ---------- type 4056 ----------

  lemma SignedBound(b: BitString)
    requires |b| == 20
    ensures InField(SignedFromBits(b))
  {
    hide ToBits, FromBits, Pow2;
    Pow2Values();
    FromBitsBound(b);
    ToFromBits(b);
    LeadingBit(FromBits(b), 20);
    SmallValue(FromBits(b), Pow2(20));
  }

  /** Only satellites in range come out of the decoder. */
  lemma StoredInRange(w: BitString, s: SatData)
    requires |w| == 96 && IsSat(s) && StoredSat(w) == Quantised(s, true, true)
    ensures SatInRange(s, true, true)
  {
    hide FromBits, SignedFromBits, StoredSat, Quantised, OrbitPiece, Pow2, OrbitSteps, ClockSteps;
    StoredIff(w, s);
    Pow2Values();
    FromBitsBound(w[..6]);
    FromBitsBound(w[6..14]);
    SignedBound(w[76..96]);
    forall k | 0 <= k < 9
      ensures InField(OrbitSteps(k, s.Orbit[k]))
    {
      if k < 3 {
        SignedBound(OrbitPiece(w, k));
      }
      assert OrbitValue(s, k) == OrbitSteps(k, s.Orbit[k]);
    }
    forall k | 0 <= k < 3
      ensures InField(ClockSteps(k, s.Clock[k]))
    {
      assert ClockValue(s, k) == ClockSteps(k, s.Clock[k]);
    }
  }

  lemma ResultEpoch(a: ClockOrbitData)
    requires IsClockOrbit(a)
    ensures CombinedResult(a).GPSEpochTime == a.GPSEpochTime
  {
    hide AllGroups, AfterWindows;
    GroupsSize(a);
    AfterWindowsSats(CombinedStart(a), AllGroups(a), a.NumberOfGPSSat, 0);
  }

  lemma ExpectedStart(c: ClockOrbitData)
    requires IsClockOrbit(c)
    ensures Expected(c, GpsCombined).GPSEpochTime == c.GPSEpochTime
    ensures Expected(c, GpsCombined) == WithSats(CombinedStart(c), c, GpsCombined, c.NumberOfGPSSat)
  {
  }

  lemma SameStart(a: ClockOrbitData, c: ClockOrbitData)
    requires a.GPSEpochTime == c.GPSEpochTime && a.NumberOfGPSSat == c.NumberOfGPSSat
    ensures CombinedStart(a) == CombinedStart(c)
  {
  }

  lemma ResultInRange(c: ClockOrbitData)
    requires IsClockOrbit(c) && c.NumberOfGPSSat <= 31
    requires CombinedResult(Wrapped(c, GpsCombined)) == Expected(c, GpsCombined)
    ensures InRange(c, GpsCombined)
  {
    hide AllGroups, AfterWindows, Expected, WithSats, WrappedSat, StoredSat, Quantised, SatInRange, FromBits, Pow2,
      CombinedStart;
    var a, n, s := Wrapped(c, GpsCombined), c.NumberOfGPSSat, AllGroups(Wrapped(c, GpsCombined));
    GroupsSize(a);
    ResultEpoch(a);
    ExpectedStart(c);
    SameStart(a, c);
    SmallId(c.GPSEpochTime, Pow2(20));
    if n > 0 {
      SameStructure(c, CombinedStart(c), s);
      OneBitRange(s[96 * n - 22..96 * n - 21]);
      OneBitRange(s[96 * n - 21..96 * n - 20]);
      forall j | 0 <= j < n
        ensures SatInRange(c.Sat[j], true, true)
      {
        assert StoredSat(s[96 * j..96 * j + 96]) == Wanted(c, j);
        StoredInRange(s[96 * j..96 * j + 96], c.Sat[j]);
      }
    }
  }

  lemma OneBitRange(b: BitString)
    requires |b| == 1
    ensures FromBits(b) < 2
  {
    assert b[..0] == [];
  }

  lemma CombinedWrapped(c: ClockOrbitData, mmi: int, blk: seq<Byte>, tail: seq<Byte>, b: Option<BiasData>)
    requires IsClockOrbit(c) && c.NumberOfGPSSat <= 31 && 0 <= mmi < 2
    requires IsBlock(blk, DraftBits(DraftOf(c, GpsCombined), mmi)) && Shapes(None, b)
    ensures Decode(Some(Fresh()), b, blk + tail)
         == Outcome(Accept(mmi), Some(CombinedResult(Wrapped(c, GpsCombined))), b, |blk|)
  {
    hide Decode, InRange, IsClockOrbit, IsBlock, DraftBits, DraftOf, Wrapped, CombinedResult;
    SameBody(c, GpsCombined, mmi);
    WrappedInRange(c, GpsCombined);
    CombinedBlock(Wrapped(c, GpsCombined), mmi, blk, tail, b);
  }

  /**
   * Type 4056 and every correction: the block is accepted exactly for up to 31 satellites, and it decodes to the
   * (quantised) correction it was made from if and only if every value fits its field and the correction is quiet.
   */
  lemma CombinedExact(c: ClockOrbitData, mmi: int, blk: seq<Byte>, tail: seq<Byte>, b: Option<BiasData>)
    requires IsClockOrbit(c) && 0 <= mmi < 2
    requires IsBlock(blk, DraftBits(DraftOf(c, GpsCombined), mmi)) && Shapes(None, b)
    ensures var o := Decode(Some(Fresh()), b, blk + tail);
      if c.NumberOfGPSSat <= 31 then o.ret == Accept(mmi) && o.b == b && o.used == |blk| else o.ret == UnknownData
    ensures Decode(Some(Fresh()), b, blk + tail) == Outcome(Accept(mmi), Some(Expected(c, GpsCombined)), b, |blk|)
      <==> InRange(c, GpsCombined) && Quiet(c)
  {
    hide Decode, Expected, InRange, IsClockOrbit, IsBlock, DraftBits, DraftOf, Quiet, CombinedResult, Wrapped;
    CountLimit(c, GpsCombined);
    if c.NumberOfGPSSat == 32 {
      ThirtyTwoSatellitesLost(c, GpsCombined, mmi, blk, tail, b);
      CountsDiffer(c, GpsCombined);
    } else {
      CombinedWrapped(c, mmi, blk, tail, b);
      if InRange(c, GpsCombined) {
        CombinedRoundTripIff(c, mmi, blk, tail, b);
      } else if CombinedResult(Wrapped(c, GpsCombined)) == Expected(c, GpsCombined) {
        ResultInRange(c);
      }
    }
  }

  // ---------- every type ----------

  /** Every value fits its field, and for type 4056, whose two layouts differ, the correction is quiet. */
  ghost predicate Intact(c: ClockOrbitData, k: Kind)
    requires IsClockOrbit(c)
  {
    InRange(c, k) && (k.GpsCombined? ==> Quiet(c))
  }

  /** A combined body of 32 satellites does not fit its header. */
  predicate TooLong(c: ClockOrbitData, k: Kind) {
    k.GpsCombined? && c.NumberOfGPSSat == 32
  }

  /** One block of any of the six types, for every correction. */
  lemma BlockExact(c: ClockOrbitData, k: Kind, mmi: int, blk: seq<Byte>, tail: seq<Byte>, b: Option<BiasData>)
    requires IsClockOrbit(c) && 0 <= mmi < 2
    requires IsBlock(blk, DraftBits(DraftOf(c, k), mmi)) && Shapes(None, b)
    ensures var o := Decode(Some(Fresh()), b, blk + tail);
      if TooLong(c, k) then o.ret == UnknownData else o.ret == Accept(mmi) && o.b == b && o.used == |blk|
    ensures Decode(Some(Fresh()), b, blk + tail) == Outcome(Accept(mmi), Some(Expected(c, k)), b, |blk|)
      <==> Intact(c, k)
  {
    hide Decode, Expected, InRange, IsClockOrbit, IsBlock, DraftBits, DraftOf, Quiet;
    CountLimit(c, k);
    if k.GpsCombined? {
      CombinedExact(c, mmi, blk, tail, b);
    } else {
      RoundTripIff(c, k, mmi, blk, tail, b);
    }
  }
}
