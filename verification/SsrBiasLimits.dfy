// The exact limits of the bias messages, as SsrLimits gives them for the orbit and clock messages.
module SsrBiasLimits {
  import opened Bits
  import opened BitStreams
  import opened CastMath
  import opened SsrBlocks
  import opened SsrMessages
  import opened SsrDecoder
  import opened SsrRoundTrip
  import opened SsrTheorems
  import opened SsrLimits

  // ---------- values that wrap around ----------

  ghost function WrappedCode(b: CodeBias): CodeBias {
    CodeBias(b.Type % 32, BiasUnits(Wrap(BiasSteps(b.Value))))
  }

  ghost function WrappedCodes(bs: seq<CodeBias>): (ws: seq<CodeBias>)
    ensures |ws| == |bs| && forall j :: 0 <= j < |bs| ==> ws[j] == WrappedCode(bs[j])
  {
    seq(|bs|, j requires 0 <= j < |bs| => WrappedCode(bs[j]))
  }

  ghost function WrappedBiasSat(s: BiasSat): (w: BiasSat)
    requires IsBiasSat(s)
    ensures IsBiasSat(w)
  {
    BiasSat(s.ID % 64, s.NumberOfCodeBiases, WrappedCodes(s.Biases))
  }

  /** The biases the message really carries. */
  ghost function WrappedBias(d: BiasData): (w: BiasData)
    requires IsBias(d)
    ensures IsBias(w) && |w.Sat| == |d.Sat|
    ensures w.NumberOfGPSSat == d.NumberOfGPSSat && w.NumberOfGLONASSSat == d.NumberOfGLONASSSat
    ensures w.GPSEpochTime == d.GPSEpochTime % Pow2(20) && w.GLONASSEpochTime == d.GLONASSEpochTime % Pow2(20)
    ensures forall i :: 0 <= i < |d.Sat| ==> w.Sat[i] == WrappedBiasSat(d.Sat[i])
  {
    d.(GPSEpochTime := d.GPSEpochTime % Pow2(20), GLONASSEpochTime := d.GLONASSEpochTime % Pow2(20),
       Sat := seq(|d.Sat|, i requires 0 <= i < |d.Sat| => WrappedBiasSat(d.Sat[i])))
  }

  lemma BiasStepsOfUnits(v: int)
    ensures BiasSteps(BiasUnits(v)) == v
  {
    UnitsBack(BIAS_SCALE, v);
    TruncWhole(v);
  }

  lemma BiasUnitsEqual(a: int, b: int)
    ensures BiasUnits(a) == BiasUnits(b) <==> a == b
  {
    UnitsBack(BIAS_SCALE, a);
    UnitsBack(BIAS_SCALE, b);
  }

  /** Wrapping keeps a code bias, as far as the message carries it, exactly when it is in range. */
  lemma WrappedCodeIff(b: CodeBias)
    ensures var w := WrappedCode(b);
      && 0 <= w.Type < 32 && InField(BiasSteps(w.Value))
      && (CodeBias(w.Type, BiasUnits(BiasSteps(w.Value))) == CodeBias(b.Type, BiasUnits(BiasSteps(b.Value)))
          <==> 0 <= b.Type < 32 && InField(BiasSteps(b.Value)))
  {
    hide BiasSteps, BiasUnits, Wrap;
    BiasStepsOfUnits(Wrap(BiasSteps(b.Value)));
    BiasUnitsEqual(Wrap(BiasSteps(b.Value)), BiasSteps(b.Value));
    SmallId(b.Type, 32);
  }

  lemma WrappedBiasSatIff(s: BiasSat)
    requires IsBiasSat(s)
    ensures BiasSatInRange(WrappedBiasSat(s))
    ensures QuantisedBiasSat(WrappedBiasSat(s)) == QuantisedBiasSat(s) <==> BiasSatInRange(s)
  {
    hide BiasSteps, BiasUnits, WrappedCode;
    var w, n := WrappedBiasSat(s), s.NumberOfCodeBiases;
    SmallId(s.ID, 64);
    var x, y := QuantisedBiases(w.Biases, n), QuantisedBiases(s.Biases, n);
    forall j | 0 <= j < n
      ensures 0 <= w.Biases[j].Type < 32 && InField(BiasSteps(w.Biases[j].Value))
      ensures x[j] == y[j] <==> 0 <= s.Biases[j].Type < 32 && InField(BiasSteps(s.Biases[j].Value))
    {
      WrappedCodeIff(s.Biases[j]);
    }
    if forall j :: 0 <= j < n ==> x[j] == y[j] {
      assert x == y;
    }
  }

  lemma WrappedBiasInRange(d: BiasData, gps: bool)
    requires IsBias(d) && BiasCount(d, gps) <= 31
    ensures BiasInRange(WrappedBias(d), gps)
  {
    hide BiasSatInRange, WrappedBiasSat, Pow2;
    forall i | Base(gps) <= i < Base(gps) + BiasCount(d, gps)
      ensures BiasSatInRange(WrappedBias(d).Sat[i])
    {
      WrappedBiasSatIff(d.Sat[i]);
    }
  }

  // ---------- the same bits ----------

  lemma {:induction false} SameBiasListBits(bs: seq<CodeBias>)
    ensures FieldBits(BiasListFields(WrappedCodes(bs))) == FieldBits(BiasListFields(bs))
  {
    hide FieldBits, WrappedCode, ToBits;
    if |bs| > 0 {
      var n := |bs| - 1;
      var ws := WrappedCodes(bs);
      SameBiasListBits(bs[..n]);
      assert ws[..n] == WrappedCodes(bs[..n]);
      PairBits(bs[n]);
      FieldBitsAppend(BiasListFields(bs[..n]), PairFields(bs[n]));
      FieldBitsAppend(BiasListFields(ws[..n]), PairFields(ws[n]));
    }
  }

  ghost function PairFields(b: CodeBias): seq<Field> {
    [Field(5, b.Type), Field(20, BiasSteps(b.Value))]
  }

  lemma PairBits(b: CodeBias)
    ensures FieldBits(PairFields(WrappedCode(b))) == FieldBits(PairFields(b))
  {
    hide FieldBits, ToBits, Wrap, BiasSteps, BiasUnits, Pow2;
    Pow2Values();
    LowBits(b.Type, 5);
    BiasStepsOfUnits(Wrap(BiasSteps(b.Value)));
    WrapBits(BiasSteps(b.Value));
    SameFieldBits(PairFields(WrappedCode(b)), PairFields(b));
  }

  lemma SameBiasSatBits(s: BiasSat)
    requires IsBiasSat(s)
    ensures FieldBits(BiasSatFields(WrappedBiasSat(s))) == FieldBits(BiasSatFields(s))
  {
    hide FieldBits, ToBits, WrappedCode, BiasListFields, Pow2;
    var w, n := WrappedBiasSat(s), s.NumberOfCodeBiases;
    assert w.Biases[..n] == WrappedCodes(s.Biases[..n]);
    SameBiasListBits(s.Biases[..n]);
    Pow2Values();
    LowBits(s.ID, 6);
    SameFieldBits([Field(6, w.ID), Field(5, n)], [Field(6, s.ID), Field(5, n)]);
    var list, wlist := BiasListFields(s.Biases[..n]), BiasListFields(w.Biases[..n]);
    assert BiasSatFields(s) == [Field(6, s.ID), Field(5, n)] + list;
    assert BiasSatFields(w) == [Field(6, w.ID), Field(5, n)] + wlist;
    FieldBitsAppend([Field(6, s.ID), Field(5, n)], list);
    FieldBitsAppend([Field(6, w.ID), Field(5, n)], wlist);
  }

  lemma SameBiasGroups(d: BiasData, base: nat, n: nat)
    requires IsBias(d) && base + n <= |d.Sat|
    ensures GroupBits(BiasGroups(WrappedBias(d), base, n)) == GroupBits(BiasGroups(d, base, n))
  {
    hide FieldBits, BiasSatFields, WrappedBiasSat, Pow2, GroupBits, IsBiasSat;
    var gs, hs := BiasGroups(WrappedBias(d), base, n), BiasGroups(d, base, n);
    forall i | 0 <= i < n
      ensures FieldBits(gs[i]) == FieldBits(hs[i])
    {
      SameBiasSatBits(d.Sat[base + i]);
    }
    SameGroupBits(gs, hs);
  }

  lemma SameHeaderBits(number: int, epoch: int, mmi: int, count: int)
    ensures FieldBits(HeaderFields(number, 20, epoch % Pow2(20), mmi, count))
         == FieldBits(HeaderFields(number, 20, epoch, mmi, count))
  {
    hide FieldBits, ToBits, Pow2;
    LowBits(epoch, 20);
    SameFieldBits(HeaderFields(number, 20, epoch % Pow2(20), mmi, count), HeaderFields(number, 20, epoch, mmi, count));
  }

  lemma SameBiasBody(d: BiasData, gps: bool, mmi: int)
    requires IsBias(d)
    ensures DraftBits(BiasDraft(WrappedBias(d), gps), mmi) == DraftBits(BiasDraft(d, gps), mmi)
  {
    hide FieldBits, HeaderFields, BiasGroups, GroupBits, WrappedBias, Pow2;
    SameBiasGroups(d, Base(gps), BiasCount(d, gps));
    SameHeaderBits(if gps then 4052 else 4055, BiasEpoch(d, gps), mmi, BiasCount(d, gps));
  }

  // ---------- exactly the biases in range ----------

  lemma WrappedBiasIff(d: BiasData, gps: bool)
    requires IsBias(d) && BiasCount(d, gps) <= 31
    ensures ExpectedBias(WrappedBias(d), gps) == ExpectedBias(d, gps) <==> BiasInRange(d, gps)
  {
    hide BiasSatInRange, WrappedBiasSat, QuantisedBiasSat, Pow2;
    var w, n, base := WrappedBias(d), BiasCount(d, gps), Base(gps);
    SmallId(BiasEpoch(d, gps), Pow2(20));
    var x, y := ExpectedBias(w, gps), ExpectedBias(d, gps);
    forall i | base <= i < base + n
      ensures x.Sat[i] == y.Sat[i] <==> BiasSatInRange(d.Sat[i])
    {
      WrappedBiasSatIff(d.Sat[i]);
    }
    if forall i :: base <= i < base + n ==> x.Sat[i] == y.Sat[i] {
      assert x.Sat == y.Sat;
    }
  }

  /** The structure after a bias message of no satellites. */
  ghost function EmptiedBias(d: BiasData, gps: bool): BiasData {
    StoreBiasCount(StoreBiasEpoch(FreshBias(), gps, BiasEpoch(d, gps) % Pow2(20)), gps, 0)
  }

  lemma FullBiasDecodes(d: BiasData, gps: bool, mmi: int, rest: BitString)
    requires 0 <= mmi < 2
    ensures DecodeBiasMessage(FreshBias(), 0, gps,
              ToBits(BiasEpoch(d, gps), 20) + (FieldBits([Field(1, mmi), Field(6, 0), Field(5, 32)]) + rest))
         == Next((EmptiedBias(d, gps), mmi), rest)
  {
    hide ReadSlot, ReadSlots, FieldBits, Pow2, ToBits, HeadSlots;
    LowBits(BiasEpoch(d, gps), 20);
    var tail := FieldBits([Field(1, mmi), Field(6, 0), Field(5, 32)]) + rest;
    ReadField(Field(20, BiasEpoch(d, gps) % Pow2(20)), Slot(20, false), tail);
    HeadReads(mmi, 32, rest);
  }

  /** 32 GPS satellites: too long for the header, or read as none. */
  lemma ThirtyTwoBiases(d: BiasData, gps: bool, mmi: int, blk: seq<Byte>, tail: seq<Byte>)
    requires IsBias(d) && BiasCount(d, gps) == 32 && 0 <= mmi < 2
    requires IsBlock(blk, DraftBits(BiasDraft(d, gps), mmi))
    ensures Decode(Some(Fresh()), Some(FreshBias()), blk + tail).ret
         == if BodyLen(DraftBits(BiasDraft(d, gps), mmi)) >= 1024 then UnknownData else Accept(mmi)
    ensures BodyLen(DraftBits(BiasDraft(d, gps), mmi)) < 1024 ==>
      Decode(Some(Fresh()), Some(FreshBias()), blk + tail)
      == Outcome(Accept(mmi), Some(Fresh()), Some(EmptiedBias(d, gps)), |blk|)
  {
    hide ReadSlot, FieldBits, DecodeFrame, DecodeBiasMessage, EmptiedBias, IsBlock, BitsOf, DraftBits, BiasGroups,
      Fresh, FreshBias;
    var draft := BiasDraft(d, gps);
    var body := DraftBits(draft, mmi);
    BiasBodyFits(d, gps, mmi);
    if BodyLen(body) >= 1024 {
      LongBodyUnknown(blk, body, tail);
    } else {
      BodyLong(draft, mmi);
      FrameDecodes(blk, body, tail);
      BodyPrefix(blk, body, tail);
      BlockSize(blk, body);
      var bits := BitsOf(blk[3..] + tail);
      var after := bits[|body|..];
      assert bits == body + after;
      NumberDecodes(draft, mmi, after);
      FullBiasDecodes(d, gps, mmi, GroupBits(draft.groups) + after);
      FreshGlonass();
    }
  }

  lemma BiasCountLimit(d: BiasData, gps: bool)
    requires IsBias(d)
    ensures 0 <= BiasCount(d, gps) <= 32
    ensures BiasCount(d, gps) == 32 ==> !BiasInRange(d, gps) && EmptiedBias(d, gps) != ExpectedBias(d, gps)
  {
    hide BiasSatInRange, QuantisedBiasSat;
    if BiasCount(d, gps) == 32 {
      assert BiasCount(ExpectedBias(d, gps), gps) == 32 && BiasCount(EmptiedBias(d, gps), gps) == 0;
    }
  }

  /**
   * The two bias messages, for all biases: a body the length field can hold is accepted, any other is unknown data, and
   * the block decodes to the (quantised) biases it was made from if and only if there are at most 31 satellites and
   * every value fits its field.
   */
  lemma BiasRoundTripIff(d: BiasData, gps: bool, mmi: int, blk: seq<Byte>, tail: seq<Byte>)
    requires IsBias(d) && 0 <= mmi < 2 && IsBlock(blk, DraftBits(BiasDraft(d, gps), mmi))
    ensures Decode(Some(Fresh()), Some(FreshBias()), blk + tail).ret
         == if BodyLen(DraftBits(BiasDraft(d, gps), mmi)) >= 1024 then UnknownData else Accept(mmi)
    ensures var o := Decode(Some(Fresh()), Some(FreshBias()), blk + tail);
      o == Outcome(Accept(mmi), Some(Fresh()), Some(ExpectedBias(d, gps)), |blk|) <==> BiasInRange(d, gps)
  {
    hide Decode, ExpectedBias, EmptiedBias, BiasInRange, IsBias, IsBlock, DraftBits, BiasDraft, WrappedBias, Fresh,
      FreshBias;
    BiasCountLimit(d, gps);
    if BiasCount(d, gps) <= 31 {
      SameBiasBody(d, gps, mmi);
      BiasBodyFits(d, gps, mmi);
      WrappedBiasInRange(d, gps);
      BiasRoundTrip(WrappedBias(d), gps, mmi, blk, tail);
      WrappedBiasIff(d, gps);
    } else {
      ThirtyTwoBiases(d, gps, mmi, blk, tail);
    }
  }
}
