// The messages of a plan, damaged blocks, and the bias messages.
module SsrTheorems {
  import opened Bits
  import opened BitStreams
  import opened Crc24
  import opened SsrBlocks
  import opened SsrMessages
  import opened SsrDecoder
  import opened SsrRoundTrip

  // ---------- plans ----------

  /** Every message of a plan is the draft of some kind. */
  lemma {:induction false} TakenFrom(s: seq<(bool, Draft)>, i: nat)
    requires i < |Taken(s)|
    ensures exists j :: 0 <= j < |s| && s[j].0 && s[j].1 == Taken(s)[i]
    decreases |s|
  {
    var n := |s| - 1;
    if i < |Taken(s[..n])| {
      TakenFrom(s[..n], i);
      var j :| 0 <= j < n && s[..n][j].0 && s[..n][j].1 == Taken(s[..n])[i];
      assert s[j].0 && s[j].1 == Taken(s)[i];
    } else {
      assert s[n].0 && s[n].1 == Taken(s)[i];
    }
  }

  lemma PlanKind(c: ClockOrbitData, number: int, i: nat) returns (k: Kind)
    requires IsClockOrbit(c) && i < |Plan(c, number)|
    ensures Plan(c, number)[i] == DraftOf(c, k) && k.Count(c) != 0
    ensures number != AUTO ==> k.Number() == number
    ensures k.GpsCombined? ==> c.ClockDataSupplied && c.OrbitDataSupplied
  {
    hide DraftOf, IsClockOrbit;
    var s := Branches(c, number);
    TakenFrom(s, i);
    var j :| 0 <= j < |s| && s[j].0 && s[j].1 == Taken(s)[i];
    k := [GpsOrbit, GpsClock, GpsCombined, GlonassOrbit, GlonassClock, GlonassCombined][j];
  }

  // ---------- damaged blocks ----------

  /** What a buffer that passes the header and CRC checks looks like. */
  lemma AcceptedFrame(buf: seq<Byte>)
    requires DecodeFrame(buf).Next?
    ensures var len := DecodeFrame(buf).state;
      len + 6 <= |buf| && Crc(buf[..len + 3]) == Join3(buf[len + 3], buf[len + 4], buf[len + 5])
      && Crc(buf[..len + 6]) == 0
  {
    hide ReadSlots, Crc, Join3, BitsOf;
    var len := DecodeFrame(buf).state;
    CodewordIffZero(buf[..len + 3], buf[len + 3], buf[len + 4], buf[len + 5]);
    assert buf[..len + 6] == buf[..len + 3] + [buf[len + 3], buf[len + 4], buf[len + 5]];
  }

  /** The header fields depend on the first three bytes only. */
  lemma HeaderFromBytes(s: seq<Byte>, t: seq<Byte>)
    requires |s| >= 3 && |t| >= 3 && s[..3] == t[..3]
    ensures ReadSlots(HeaderSlots(), BitsOf(s)).Next? && ReadSlots(HeaderSlots(), BitsOf(t)).Next?
    ensures ReadSlots(HeaderSlots(), BitsOf(s)).state == ReadSlots(HeaderSlots(), BitsOf(t)).state
  {
    hide ByteBits, BitsOf, FromBits, SignedFromBits;
    BitsOfAppend(s[..3], s[3..]);
    BitsOfAppend(t[..3], t[3..]);
    assert s == s[..3] + s[3..] && t == t[..3] + t[3..];
    HeaderValues(BitsOf(s[..3]), BitsOf(s[3..]));
    HeaderValues(BitsOf(t[..3]), BitsOf(t[3..]));
  }

  lemma HeaderValues(h: BitString, rest: BitString)
    requires |h| == 24
    ensures ReadSlots(HeaderSlots(), h + rest) == Next([FromBits(h[..8]), FromBits(h[8..14]), FromBits(h[14..])], rest)
  {
    hide ReadSlots, FieldBits, FromBits, ToBits, Pow2;
    var x, y, z := h[..8], h[8..14], h[14..];
    var f, g, e := Field(8, FromBits(x)), Field(6, FromBits(y)), Field(10, FromBits(z));
    ThreeFields(f, g, e);
    ToFromBits(x);
    ToFromBits(y);
    ToFromBits(z);
    assert h == x + y + z;
    FromBitsBound(x);
    FromBitsBound(y);
    FromBitsBound(z);
    ReadFields([f, g, e], HeaderSlots(), rest);
    assert Values([f, g, e]) == [FromBits(x), FromBits(y), FromBits(z)];
  }

  lemma ThreeFields(f: Field, g: Field, e: Field)
    ensures FieldBits([f, g, e]) == ToBits(f.value, f.width) + ToBits(g.value, g.width) + ToBits(e.value, e.width)
  {
    hide FieldBits, ToBits;
    assert [f, g, e] == ([f] + [g]) + [e];
    FieldBitsAppend([f] + [g], [e]);
    FieldBitsAppend([f], [g]);
    OneField(f);
    OneField(g);
    OneField(e);
  }

  /**
   * Take any buffer the decoder accepts and damage the block by an error burst of at most 24 bits, at any bit
   * offset, leaving the three header bytes alone: the decoder answers CrcMismatch, into whatever structure.
   */
  lemma BurstRejected(co: Option<ClockOrbitData>, b: Option<BiasData>, buf: seq<Byte>,
                      co': Option<ClockOrbitData>, b': Option<BiasData>, bad: seq<Byte>, k: nat)
    requires Shapes(co, b) && Shapes(co', b') && Decode(co, b, buf).ret.Accepted()
    requires var used := Decode(co, b, buf).used;
      && 0 <= used <= |buf| == |bad| && |buf| >= 3 && bad[..3] == buf[..3]
      && BurstAt(buf[..used], bad[..used], k)
    ensures Decode(co', b', bad).ret == CrcMismatch
  {
    hide ReadSlots, ReadSlot, Crc, Join3, BitsOf, BurstAt, DecodeBody;
    var len := DecodeFrame(buf).state;
    AcceptedFrame(buf);
    HeaderFromBytes(buf, bad);
    BurstDetected(buf[..len + 6], bad[..len + 6], k);
    CodewordIffZero(bad[..len + 3], bad[len + 3], bad[len + 4], bad[len + 5]);
    assert bad[..len + 6] == bad[..len + 3] + [bad[len + 3], bad[len + 4], bad[len + 5]];
  }

  /** In particular, changing up to three consecutive bytes behind the header of an accepted block is noticed. */
  lemma EditRejected(co: Option<ClockOrbitData>, b: Option<BiasData>, buf: seq<Byte>,
                     co': Option<ClockOrbitData>, b': Option<BiasData>, bad: seq<Byte>, j: nat)
    requires Shapes(co, b) && Shapes(co', b') && Decode(co, b, buf).ret.Accepted()
    requires 3 <= j && j + 3 <= Decode(co, b, buf).used <= |buf| == |bad| && bad != buf
    requires forall i :: 0 <= i < |buf| && !(j <= i < j + 3) ==> buf[i] == bad[i]
    ensures Decode(co', b', bad).ret == CrcMismatch
  {
    hide Decode, BurstAt;
    var used := Decode(co, b, buf).used;
    assert buf[..used] != bad[..used] by {
      var i :| 0 <= i < |buf| && buf[i] != bad[i];
      assert buf[..used][i] != bad[..used][i];
    }
    var k := EditIsBurst(buf[..used], bad[..used], j);
    assert bad[..3] == buf[..3];
    BurstRejected(co, b, buf, co', b', bad, k);
  }

  // ---------- bias messages ----------

  ghost predicate BiasSatInRange(s: BiasSat)
    requires IsBiasSat(s)
  {
    && 0 <= s.ID < 64
    && forall j :: 0 <= j < s.NumberOfCodeBiases ==>
         0 <= s.Biases[j].Type < 32 && InField(BiasSteps(s.Biases[j].Value))
  }

  ghost predicate BiasInRange(d: BiasData, gps: bool)
    requires IsBias(d)
  {
    && 0 <= BiasEpoch(d, gps) < Pow2(20) && BiasCount(d, gps) <= 31
    && forall i :: Base(gps) <= i < Base(gps) + BiasCount(d, gps) ==> BiasSatInRange(d.Sat[i])
  }

  ghost function Base(gps: bool): nat {
    if gps then 0 else NUMGPS
  }

  const NO_BIAS := CodeBias(0, 0.0)

  ghost function FreshBiases(): (s: seq<CodeBias>)
    ensures |s| == NUMBIAS
  {
    seq(NUMBIAS, _ => NO_BIAS)
  }

  ghost function FreshBias(): (d: BiasData)
    ensures BiasShape(d)
  {
    BiasData(0, 0, 0, 0, seq(NUMGPS + NUMGLONASS, _ => BiasSat(0, 0, FreshBiases())))
  }

  /** The first n biases truncated to their quantum, zeros behind them. */
  ghost function QuantisedBiases(bs: seq<CodeBias>, n: nat): (q: seq<CodeBias>)
    requires |bs| == NUMBIAS && n <= NUMBIAS
    ensures |q| == NUMBIAS
    ensures forall j :: 0 <= j < NUMBIAS ==>
      q[j] == if j < n then CodeBias(bs[j].Type, BiasUnits(BiasSteps(bs[j].Value))) else NO_BIAS
  {
    seq(NUMBIAS, j requires 0 <= j < NUMBIAS =>
      if j < n then CodeBias(bs[j].Type, BiasUnits(BiasSteps(bs[j].Value))) else NO_BIAS)
  }

  ghost function QuantisedBiasSat(s: BiasSat): BiasSat
    requires IsBiasSat(s)
  {
    BiasSat(s.ID, s.NumberOfCodeBiases, QuantisedBiases(s.Biases, s.NumberOfCodeBiases))
  }

  ghost function WithBiasSats(start: BiasData, d: BiasData, base: nat, n: nat): (r: BiasData)
    requires BiasShape(start) && IsBias(d) && base + n <= |d.Sat|
    ensures BiasShape(r)
  {
    start.(Sat := seq(|start.Sat|, j requires 0 <= j < |start.Sat| =>
      if base <= j < base + n then QuantisedBiasSat(d.Sat[j]) else start.Sat[j]))
  }

  ghost function ExpectedBias(d: BiasData, gps: bool): BiasData
    requires IsBias(d)
  {
    WithBiasSats(StoreBiasCount(StoreBiasEpoch(FreshBias(), gps, BiasEpoch(d, gps)), gps, BiasCount(d, gps)),
                 d, Base(gps), BiasCount(d, gps))
  }

  lemma {:induction false} BiasListDecodes(bs: seq<CodeBias>, n: nat, tail: BitString)
    requires |bs| == NUMBIAS && n <= NUMBIAS
    requires forall j :: 0 <= j < n ==> 0 <= bs[j].Type < 32 && InField(BiasSteps(bs[j].Value))
    ensures DecodeBiases(FreshBiases(), n, FieldBits(BiasListFields(bs[..n])) + tail)
         == Next(QuantisedBiases(bs, n), tail)
  {
    hide ReadSlots, FieldBits, BiasSteps;
    if n == 0 {
      assert FieldBits([]) + tail == tail by { NoFields(); }
      assert QuantisedBiases(bs, 0) == FreshBiases();
    } else {
      var pair := [Field(5, bs[n - 1].Type), Field(20, BiasSteps(bs[n - 1].Value))];
      assert bs[..n][..n - 1] == bs[..n - 1];
      FieldBitsAppend(BiasListFields(bs[..n - 1]), pair);
      StreamMoves(FieldBits(BiasListFields(bs[..n - 1])), FieldBits(pair), tail, FieldBits(pair) + tail);
      BiasListDecodes(bs, n - 1, FieldBits(pair) + tail);
      PairFits(bs[n - 1]);
      ReadFields(pair, PairSlots(), tail);
      assert QuantisedBiases(bs, n) == QuantisedBiases(bs, n - 1)[n - 1 :=
        CodeBias(bs[n - 1].Type, BiasUnits(BiasSteps(bs[n - 1].Value)))];
    }
  }

  lemma NoFields()
    ensures FieldBits([]) == []
  {
  }

  lemma PairFits(b: CodeBias)
    requires 0 <= b.Type < 32 && InField(BiasSteps(b.Value))
    ensures AllFit([Field(5, b.Type), Field(20, BiasSteps(b.Value))], PairSlots())
  {
    hide Pow2;
    Pow2Values();
  }

  lemma BiasSatDecodes(d: BiasData, i: nat, s: BiasSat, tail: BitString)
    requires BiasShape(d) && i < |d.Sat| && d.Sat[i] == BiasSat(0, 0, FreshBiases())
    requires IsBiasSat(s) && BiasSatInRange(s)
    ensures DecodeBiasSat(d, i, FieldBits(BiasSatFields(s)) + tail)
      == Next(d.(Sat := d.Sat[i := QuantisedBiasSat(s)]), tail)
  {
    hide ReadSlot, FieldBits, DecodeBiases, BiasListFields, QuantisedBiases, Pow2, ToBits;
    var id, count, list := Field(6, s.ID), Field(5, s.NumberOfCodeBiases),
      BiasListFields(s.Biases[..s.NumberOfCodeBiases]);
    FieldBitsAppend([id], [count] + list);
    FieldBitsAppend([count], list);
    OneField(id);
    OneField(count);
    var x, y, z := FieldBits([id]), FieldBits([count]), FieldBits(list);
    StreamMoves(x, y + z, tail, (y + z) + tail);
    StreamMoves(y, z, tail, z + tail);
    Pow2Values();
    ReadField(id, Slot(6, false), y + (z + tail));
    ReadField(count, Slot(5, false), z + tail);
    BiasListDecodes(s.Biases, s.NumberOfCodeBiases, tail);
  }

  lemma {:induction false} BiasSatsDecode(start: BiasData, d: BiasData, gps: bool, n: nat, tail: BitString)
    requires BiasShape(start) && start.Sat == FreshBias().Sat && IsBias(d) && BiasInRange(d, gps)
    requires n <= BiasCount(d, gps)
    ensures DecodeBiasSats(start, Base(gps), n, GroupBits(BiasGroups(d, Base(gps), BiasCount(d, gps))[..n]) + tail)
         == Next(WithBiasSats(start, d, Base(gps), n), tail)
  {
    hide DecodeBiasSat, FieldBits, WithBiasSats, BiasGroups, BiasInRange, BiasShape, IsBias;
    BiasCounts(d, gps);
    var all := BiasGroups(d, Base(gps), BiasCount(d, gps));
    var gs := all[..n];
    if n == 0 {
      assert GroupBits(gs) + tail == tail;
      NoBiasSats(start, d, gps);
    } else {
      var g := FieldBits(gs[n - 1]);
      assert gs[..n - 1] == all[..n - 1];
      StreamMoves(GroupBits(gs[..n - 1]), g, tail, g + tail);
      BiasSatsDecode(start, d, gps, n - 1, g + tail);
      NextBiasSat(start, d, gps, n, tail);
    }
  }

  lemma NoBiasSats(start: BiasData, d: BiasData, gps: bool)
    requires BiasShape(start) && IsBias(d)
    ensures WithBiasSats(start, d, Base(gps), 0) == start
  {
    assert WithBiasSats(start, d, Base(gps), 0).Sat == start.Sat;
  }

  lemma NextBiasSat(start: BiasData, d: BiasData, gps: bool, n: nat, tail: BitString)
    requires BiasShape(start) && start.Sat == FreshBias().Sat && IsBias(d) && BiasInRange(d, gps)
    requires 0 < n <= BiasCount(d, gps)
    ensures DecodeBiasSat(WithBiasSats(start, d, Base(gps), n - 1), Base(gps) + n - 1,
                          FieldBits(BiasGroups(d, Base(gps), BiasCount(d, gps))[n - 1]) + tail)
         == Next(WithBiasSats(start, d, Base(gps), n), tail)
  {
    hide DecodeBiasSat, FieldBits, BiasSatFields, QuantisedBiasSat, BiasSatInRange;
    var d', i := WithBiasSats(start, d, Base(gps), n - 1), Base(gps) + n - 1;
    BiasSatDecodes(d', i, d.Sat[i], tail);
    assert WithBiasSats(start, d, Base(gps), n).Sat == d'.Sat[i := QuantisedBiasSat(d.Sat[i])];
  }

  lemma {:induction false} BiasListWidth(b: seq<CodeBias>)
    ensures |FieldBits(BiasListFields(b))| == 25 * |b|
  {
    hide FieldBits;
    if |b| == 0 {
      NoFields();
    } else {
      var last := b[|b| - 1];
      BiasListWidth(b[..|b| - 1]);
      FieldBitsAppend(BiasListFields(b[..|b| - 1]), [Field(5, last.Type), Field(20, BiasSteps(last.Value))]);
      var f, g := Field(5, last.Type), Field(20, BiasSteps(last.Value));
      assert [f, g] == [f] + [g];
      FieldBitsAppend([f], [g]);
      OneField(f);
      OneField(g);
    }
  }

  /** With at most 31 satellites and 10 biases each a bias body has at most 1017 bytes, with 32 at most 1050. */
  lemma BiasBodyFits(d: BiasData, gps: bool, mmi: int)
    requires IsBias(d)
    ensures BodyLen(DraftBits(BiasDraft(d, gps), mmi)) <= if BiasCount(d, gps) <= 31 then 1017 else 1050
  {
    hide FieldBits, HeaderFields, BiasSatFields, BiasListFields, GroupBits;
    var gs := BiasDraft(d, gps).groups;
    HeaderWidth(if gps then 4052 else 4055, 20, BiasEpoch(d, gps), mmi, |gs|);
    forall i | 0 <= i < |gs|
      ensures |FieldBits(gs[i])| <= 261
    {
      BiasSatWidth(d.Sat[Base(gps) + i]);
    }
    GroupsWidth(gs, 261);
  }

  lemma BiasSatWidth(s: BiasSat)
    requires IsBiasSat(s)
    ensures |FieldBits(BiasSatFields(s))| <= 261
  {
    hide FieldBits, BiasListFields;
    var list := BiasListFields(s.Biases[..s.NumberOfCodeBiases]);
    FieldBitsAppend([Field(6, s.ID)], [Field(5, s.NumberOfCodeBiases)] + list);
    FieldBitsAppend([Field(5, s.NumberOfCodeBiases)], list);
    OneField(Field(6, s.ID));
    OneField(Field(5, s.NumberOfCodeBiases));
    BiasListWidth(s.Biases[..s.NumberOfCodeBiases]);
  }

  lemma BiasMessageDecodes(d: BiasData, gps: bool, mmi: int, tail: BitString)
    requires IsBias(d) && BiasInRange(d, gps) && 0 <= mmi < 2
    ensures DecodeBiasMessage(FreshBias(), 0, gps,
              ToBits(BiasEpoch(d, gps), 20)
              + (FieldBits([Field(1, mmi), Field(6, 0), Field(5, BiasCount(d, gps))])
                 + (GroupBits(BiasGroups(d, Base(gps), BiasCount(d, gps))) + tail)))
         == Next((ExpectedBias(d, gps), mmi), tail)
  {
    hide ReadSlot, ReadSlots, FieldBits, GroupBits, DecodeBiasSats, WithBiasSats, BiasGroups;
    var n := BiasCount(d, gps);
    var head := [Field(1, mmi), Field(6, 0), Field(5, n)];
    var groups := BiasGroups(d, Base(gps), n);
    var sats := GroupBits(groups) + tail;
    ReadField(Field(20, BiasEpoch(d, gps)), Slot(20, false), FieldBits(head) + sats);
    HeadFits(mmi, n);
    ReadFields(head, HeadSlots(), sats);
    var start := StoreBiasCount(StoreBiasEpoch(FreshBias(), gps, BiasEpoch(d, gps)), gps, n);
    assert groups[..n] == groups;
    BiasSatsDecode(start, d, gps, n, tail);
  }

  /** Round trip for the two bias message types. */
  lemma BiasRoundTrip(d: BiasData, gps: bool, mmi: int, blk: seq<Byte>, tail: seq<Byte>)
    requires IsBias(d) && BiasInRange(d, gps) && 0 <= mmi < 2
    requires IsBlock(blk, DraftBits(BiasDraft(d, gps), mmi))
    ensures Decode(Some(Fresh()), Some(FreshBias()), blk + tail)
         == Outcome(Accept(mmi), Some(Fresh()), Some(ExpectedBias(d, gps)), |blk|)
  {
    hide ReadSlot, FieldBits, DecodeFrame, DecodeBiasMessage, ExpectedBias, BiasInRange, IsBias, IsBlock, BitsOf,
      DraftBits, BiasGroups, Fresh, FreshBias;
    var draft := BiasDraft(d, gps);
    var body := DraftBits(draft, mmi);
    BiasCounts(d, gps);
    BiasBodyFits(d, gps, mmi);
    BodyLong(draft, mmi);
    FrameDecodes(blk, body, tail);
    BodyPrefix(blk, body, tail);
    BlockSize(blk, body);
    var bits := BitsOf(blk[3..] + tail);
    var after := bits[|body|..];
    assert bits == body + after;
    NumberDecodes(draft, mmi, after);
    BiasMessageDecodes(d, gps, mmi, after);
    FreshGlonass();
  }

  lemma FreshGlonass()
    ensures Fresh().NumberOfGPSSat == 0 && Fresh().NumberOfGLONASSSat == 0
  {
  }

  lemma BiasCounts(d: BiasData, gps: bool)
    requires IsBias(d) && BiasInRange(d, gps)
    ensures 0 <= BiasCount(d, gps) <= 31 && Base(gps) + BiasCount(d, gps) <= |d.Sat|
    ensures |BiasDraft(d, gps).groups| == BiasCount(d, gps)
  {
  }
}
