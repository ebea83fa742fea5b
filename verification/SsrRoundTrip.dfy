// What the encoder writes, the decoder reads back; and what happens when a block is damaged on the way.
module SsrRoundTrip {
  import opened Bits
  import opened BitStreams
  import opened Crc24
  import opened SsrBlocks
  import opened SsrMessages
  import opened SsrDecoder

  // ---------- fields ----------

  /** The value of a field survives its width and its slot's signedness. */
  ghost predicate Fits(f: Field, s: Slot) {
    && f.width == s.width && s.width > 0
    && (if s.signed then -Pow2(s.width - 1) <= f.value < Pow2(s.width - 1) else 0 <= f.value < Pow2(s.width))
  }

  ghost predicate AllFit(fs: seq<Field>, ss: seq<Slot>) {
    |fs| == |ss| && forall k :: 0 <= k < |fs| ==> Fits(fs[k], ss[k])
  }

  ghost function Values(fs: seq<Field>): (vs: seq<int>)
    ensures |vs| == |fs| && forall k :: 0 <= k < |fs| ==> vs[k] == fs[k].value
  {
    seq(|fs|, k requires 0 <= k < |fs| => fs[k].value)
  }

  lemma ReadField(f: Field, s: Slot, tail: BitString)
    requires Fits(f, s)
    ensures ReadSlot(s, ToBits(f.value, f.width) + tail) == Next(f.value, tail)
  {
    hide ToBits, Pow2, FromBits, SignedFromBits;
    var b := ToBits(f.value, f.width);
    Prefix(b, tail, f.width);
    assert b[..f.width] == b && b[f.width..] + tail == tail;
    if s.signed {
      SignedRoundTrip(f.value, f.width);
    } else {
      FromToBits(f.value, f.width);
      SmallValue(f.value, Pow2(f.width));
    }
  }

  lemma {:induction false} ReadFields(fs: seq<Field>, ss: seq<Slot>, tail: BitString)
    requires AllFit(fs, ss)
    ensures ReadSlots(ss, FieldBits(fs) + tail) == Next(Values(fs), tail)
  {
    hide ReadSlot, ToBits, Fits;
    var n := |fs|;
    if n == 0 {
      assert FieldBits(fs) + tail == tail;
    } else {
      var last := ToBits(fs[n - 1].value, fs[n - 1].width);
      StreamMoves(FieldBits(fs[..n - 1]), last, tail, last + tail);
      ReadFields(fs[..n - 1], ss[..n - 1], last + tail);
      ReadField(fs[n - 1], ss[n - 1], tail);
      assert Values(fs) == Values(fs[..n - 1]) + [fs[n - 1].value];
    }
  }

  // ---------- ranges ----------

  ghost predicate InField(v: int) {
    -524288 <= v < 524288
  }

  /** Satellite values the wire format can carry. */
  ghost predicate SatInRange(s: SatData, orbit: bool, clock: bool)
    requires IsSat(s)
  {
    && 0 <= s.ID < 64 && 0 <= s.IOD < 256
    && (orbit ==> forall k :: 0 <= k < 9 ==> InField(OrbitSteps(k, s.Orbit[k])))
    && (clock ==> forall k :: 0 <= k < 3 ==> InField(ClockSteps(k, s.Clock[k])))
  }

  /** Everything a message of kind k carries is in range. */
  ghost predicate InRange(c: ClockOrbitData, k: Kind)
    requires IsClockOrbit(c)
  {
    && 0 <= k.Epoch(c) < Pow2(k.EpochBits())
    && k.Count(c) <= 31
    && (k.HasOrbit() && k.Count(c) > 0 ==> 0 <= c.SatRefPoint < 2 && 0 <= c.SatRefDatum < 2)
    && forall i :: k.Base() <= i < k.Base() + k.Count(c) ==> SatInRange(c.Sat[i], k.HasOrbit(), k.HasClock())
  }

  // ---------- what the decoder should return ----------

  /** A structure as memset leaves it. */
  ghost function Fresh(): (c: ClockOrbitData)
    ensures Shape(c)
  {
    ClockOrbitData(0, 0, 0, 0, false, false, seq(101, _ => 0), 0, 0, 0, seq(NUMGPS + NUMGLONASS, _ => NO_SAT))
  }

  /** A satellite as it comes back: every scaled value truncated to its quantum. */
  ghost function Quantised(s: SatData, orbit: bool, clock: bool): (q: SatData)
    requires IsSat(s)
    ensures IsSat(q) && q.ID == s.ID && q.IOD == s.IOD
    ensures forall k :: 0 <= k < 9 ==>
      q.Orbit[k] == if orbit then OrbitUnits(k, OrbitSteps(k, s.Orbit[k])) else 0.0
    ensures forall k :: 0 <= k < 3 ==>
      q.Clock[k] == if clock then ClockUnits(k, ClockSteps(k, s.Clock[k])) else 0.0
  {
    SatData(s.ID, s.IOD,
            seq(9, k requires 0 <= k < 9 => if orbit then OrbitUnits(k, OrbitSteps(k, s.Orbit[k])) else 0.0),
            seq(3, k requires 0 <= k < 3 => if clock then ClockUnits(k, ClockSteps(k, s.Clock[k])) else 0.0))
  }

  /** start with the first n satellites of kind k filled in from c. */
  ghost function WithSats(start: ClockOrbitData, c: ClockOrbitData, k: Kind, n: nat): (r: ClockOrbitData)
    requires Shape(start) && IsClockOrbit(c) && k.Base() + n <= |c.Sat|
    ensures Shape(r)
  {
    start.(Sat := seq(|start.Sat|, j requires 0 <= j < |start.Sat| =>
                    if k.Base() <= j < k.Base() + n then Quantised(c.Sat[j], k.HasOrbit(), k.HasClock())
                      else start.Sat[j]),
           SatRefPoint := if n > 0 && k.HasOrbit() then c.SatRefPoint else start.SatRefPoint,
           SatRefDatum := if n > 0 && k.HasOrbit() then c.SatRefDatum else start.SatRefDatum)
  }

  /** The whole structure after decoding a message of kind k into a fresh one. */
  ghost function Expected(c: ClockOrbitData, k: Kind): ClockOrbitData
    requires IsClockOrbit(c)
  {
    WithSats(Supply(StoreCount(StoreEpoch(Fresh(), k, k.Epoch(c)), k, k.Count(c)), k), c, k, k.Count(c))
  }

  // ---------- one satellite ----------

  lemma PayloadFits(s: SatData, refPoint: int, refDatum: int, orbit: bool, clock: bool)
    requires IsSat(s) && SatInRange(s, orbit, clock)
    requires orbit ==> 0 <= refPoint < 2 && 0 <= refDatum < 2
    ensures AllFit(SatPayload(s, refPoint, refDatum, orbit, clock),
      PayloadSlots(if orbit then 9 else 0, if clock then 3 else 0))
  {
    hide Pow2;
    Pow2Values();
    var fs := SatPayload(s, refPoint, refDatum, orbit, clock);
    var ss := PayloadSlots(if orbit then 9 else 0, if clock then 3 else 0);
    var m := if orbit then 12 else 1;
    assert |fs| == |ss| == m + if clock then 3 else 0;
    forall k | 0 <= k < |fs|
      ensures Fits(fs[k], ss[k])
    {
      if k == 0 {
      } else if k < m {
        if k < 10 {
          assert InField(OrbitSteps(k - 1, s.Orbit[k - 1]));
        }
      } else {
        assert InField(ClockSteps(k - m, s.Clock[k - m]));
      }
    }
  }

  /** Where the payload values sit. */
  lemma PayloadValues(s: SatData, refPoint: int, refDatum: int, orbit: bool, clock: bool)
    requires IsSat(s)
    ensures var vs := Values(SatPayload(s, refPoint, refDatum, orbit, clock));
      var m := if orbit then 12 else 1;
      && |vs| == m + (if clock then 3 else 0) == |PayloadSlots(if orbit then 9 else 0, if clock then 3 else 0)|
      && vs[0] == s.IOD
      && (orbit ==> vs[10] == refPoint && vs[11] == refDatum)
      && (orbit ==> forall k :: 0 <= k < 9 ==> vs[1 + k] == OrbitSteps(k, s.Orbit[k]))
      && (clock ==> forall k :: 0 <= k < 3 ==> vs[m + k] == ClockSteps(k, s.Clock[k]))
  {
  }

  lemma UnscaleOrbit(vs: seq<int>, s: SatData, orbit: bool, clock: bool)
    requires IsSat(s) && |vs| == (if orbit then 9 else 0)
    requires forall k :: 0 <= k < |vs| ==> vs[k] == OrbitSteps(k, s.Orbit[k])
    ensures Unscale(NO_SAT.Orbit, vs, true) == Quantised(s, orbit, clock).Orbit
  {
  }

  lemma UnscaleClock(vs: seq<int>, s: SatData, orbit: bool, clock: bool)
    requires IsSat(s) && |vs| == (if clock then 3 else 0)
    requires forall k :: 0 <= k < |vs| ==> vs[k] == ClockSteps(k, s.Clock[k])
    ensures Unscale(NO_SAT.Clock, vs, false) == Quantised(s, orbit, clock).Clock
  {
  }

  /** Storing what was read gives the quantised satellite. */
  lemma StoreIsQuantised(c: ClockOrbitData, i: nat, s: SatData, refPoint: int, refDatum: int, orbit: bool, clock: bool)
    requires Shape(c) && i < |c.Sat| && IsSat(s) && c.Sat[i] == NO_SAT
    ensures var no, nc := if orbit then 9 else 0, if clock then 3 else 0;
      var vs := Values(SatPayload(s, refPoint, refDatum, orbit, clock));
      |vs| == |PayloadSlots(no, nc)| &&
      StoreSat(c, i, s.ID, vs, no, nc)
        == c.(Sat := c.Sat[i := Quantised(s, orbit, clock)],
              SatRefPoint := if orbit then refPoint else c.SatRefPoint,
              SatRefDatum := if orbit then refDatum else c.SatRefDatum)
  {
    hide SatPayload, Quantised, Unscale, OrbitSteps, ClockSteps;
    var no, nc := if orbit then 9 else 0, if clock then 3 else 0;
    PayloadValues(s, refPoint, refDatum, orbit, clock);
    var vs := Values(SatPayload(s, refPoint, refDatum, orbit, clock));
    var o, l := vs[1..1 + no], vs[|vs| - nc..];
    assert forall k :: 0 <= k < |o| ==> o[k] == vs[1 + k];
    assert forall k :: 0 <= k < |l| ==> l[k] == vs[(if orbit then 12 else 1) + k];
    UnscaleOrbit(o, s, orbit, clock);
    UnscaleClock(l, s, orbit, clock);
  }

  lemma SatDecodes(c: ClockOrbitData, i: nat, s: SatData, refPoint: int, refDatum: int, orbit: bool, clock: bool,
                   tail: BitString)
    requires Shape(c) && i < |c.Sat| && IsSat(s) && c.Sat[i] == NO_SAT && SatInRange(s, orbit, clock)
    requires orbit ==> 0 <= refPoint < 2 && 0 <= refDatum < 2
    ensures DecodeSat(c, i, if orbit then 9 else 0, if clock then 3 else 0,
                      FieldBits(SatFields(s, refPoint, refDatum, orbit, clock)) + tail)
         == Next(c.(Sat := c.Sat[i := Quantised(s, orbit, clock)],
                    SatRefPoint := if orbit then refPoint else c.SatRefPoint,
                    SatRefDatum := if orbit then refDatum else c.SatRefDatum), tail)
  {
    hide ReadSlot, ReadSlots, FieldBits, SatPayload, PayloadSlots, StoreSat, Pow2;
    var no, nc := if orbit then 9 else 0, if clock then 3 else 0;
    var id, payload := Field(6, s.ID), SatPayload(s, refPoint, refDatum, orbit, clock);
    FieldBitsAppend([id], payload);
    OneField(id);
    var b, p := ToBits(s.ID, 6), FieldBits(payload);
    StreamMoves(b, p, tail, p + tail);
    Pow2Values();
    ReadField(id, Slot(6, false), p + tail);
    PayloadFits(s, refPoint, refDatum, orbit, clock);
    ReadFields(payload, PayloadSlots(no, nc), tail);
    StoreIsQuantised(c, i, s, refPoint, refDatum, orbit, clock);
  }

  lemma OneField(f: Field)
    ensures FieldBits([f]) == ToBits(f.value, f.width)
  {
    assert [f][..0] == [];
  }

  // ---------- all satellites ----------

  lemma {:induction false} SatsDecode(start: ClockOrbitData, c: ClockOrbitData, k: Kind, n: nat, tail: BitString)
    requires Shape(start) && start.Sat == Fresh().Sat && IsClockOrbit(c) && InRange(c, k) && !k.GpsCombined?
    requires n <= k.Count(c)
    ensures DecodeSats(start, k.Base(), n, OrbitCount(k), ClockCount(k), GroupBits(SatGroups(c, k)[..n]) + tail)
         == Next(WithSats(start, c, k, n), tail)
  {
    hide DecodeSat, FieldBits, WithSats, InRange, SatGroups, IsClockOrbit, Shape;
    CountBound(c, k);
    var gs := SatGroups(c, k)[..n];
    if n == 0 {
      assert GroupBits(gs) + tail == tail;
      NoSats(start, c, k);
    } else {
      var g := FieldBits(gs[n - 1]);
      assert gs[..n - 1] == SatGroups(c, k)[..n - 1];
      StreamMoves(GroupBits(gs[..n - 1]), g, tail, g + tail);
      SatsDecode(start, c, k, n - 1, g + tail);
      NextSat(start, c, k, n, tail);
    }
  }

  lemma NoSats(start: ClockOrbitData, c: ClockOrbitData, k: Kind)
    requires Shape(start) && IsClockOrbit(c)
    ensures WithSats(start, c, k, 0) == start
  {
    assert WithSats(start, c, k, 0).Sat == start.Sat;
  }

  lemma NextSat(start: ClockOrbitData, c: ClockOrbitData, k: Kind, n: nat, tail: BitString)
    requires Shape(start) && start.Sat == Fresh().Sat && IsClockOrbit(c) && InRange(c, k) && !k.GpsCombined?
    requires 0 < n <= k.Count(c)
    ensures DecodeSat(WithSats(start, c, k, n - 1), k.Base() + n - 1, OrbitCount(k), ClockCount(k),
                      FieldBits(SatGroups(c, k)[n - 1]) + tail)
         == Next(WithSats(start, c, k, n), tail)
  {
    hide DecodeSat, FieldBits, SatFields, Quantised, SatInRange;
    var c', i := WithSats(start, c, k, n - 1), k.Base() + n - 1;
    assert c'.Sat[i] == NO_SAT;
    SatDecodes(c', i, c.Sat[i], c.SatRefPoint, c.SatRefDatum, k.HasOrbit(), k.HasClock(), tail);
    WithSatsStep(start, c, k, n);
  }

  lemma WithSatsStep(start: ClockOrbitData, c: ClockOrbitData, k: Kind, n: nat)
    requires Shape(start) && IsClockOrbit(c) && 0 < n && k.Base() + n <= |c.Sat|
    ensures var c', i := WithSats(start, c, k, n - 1), k.Base() + n - 1;
      WithSats(start, c, k, n)
        == c'.(Sat := c'.Sat[i := Quantised(c.Sat[i], k.HasOrbit(), k.HasClock())],
               SatRefPoint := if k.HasOrbit() then c.SatRefPoint else c'.SatRefPoint,
               SatRefDatum := if k.HasOrbit() then c.SatRefDatum else c'.SatRefDatum)
  {
    hide Quantised;
    var c', i := WithSats(start, c, k, n - 1), k.Base() + n - 1;
    assert WithSats(start, c, k, n).Sat == c'.Sat[i := Quantised(c.Sat[i], k.HasOrbit(), k.HasClock())];
  }

  // ---------- a message ----------

  lemma HeadFits(mmi: int, count: int)
    requires 0 <= mmi < 2 && 0 <= count <= 31
    ensures AllFit([Field(1, mmi), Field(6, 0), Field(5, count)], HeadSlots())
  {
    hide Pow2;
    Pow2Values();
  }

  lemma SplitHeader(number: int, epochBits: nat, epoch: int, mmi: int, count: int, rest: BitString)
    ensures FieldBits(HeaderFields(number, epochBits, epoch, mmi, count)) + rest
         == ToBits(number, 12) + (ToBits(epoch, epochBits)
           + (FieldBits([Field(1, mmi), Field(6, 0), Field(5, count)]) + rest))
  {
    hide ToBits, FieldBits;
    var a, b, h := Field(12, number), Field(epochBits, epoch), [Field(1, mmi), Field(6, 0), Field(5, count)];
    assert HeaderFields(number, epochBits, epoch, mmi, count) == ([a] + [b]) + h;
    FieldBitsAppend([a] + [b], h);
    FieldBitsAppend([a], [b]);
    OneField(a);
    OneField(b);
    var x, y, z := FieldBits([a]), FieldBits([b]), FieldBits(h);
    StreamMoves(x + y, z, rest, z + rest);
    StreamMoves(x, y, z + rest, y + (z + rest));
  }

  lemma MessageDecodes(c: ClockOrbitData, k: Kind, mmi: int, tail: BitString)
    requires IsClockOrbit(c) && InRange(c, k) && !k.GpsCombined? && 0 <= mmi < 2
    ensures DecodeMessage(Fresh(), k,
              ToBits(k.Epoch(c), k.EpochBits())
              + (FieldBits([Field(1, mmi), Field(6, 0), Field(5, k.Count(c))]) + (GroupBits(SatGroups(c, k)) + tail)))
         == Next((Expected(c, k), mmi), tail)
  {
    hide ReadSlot, ReadSlots, FieldBits, GroupBits, DecodeSats, WithSats, IsClockOrbit, SatGroups;
    var head := [Field(1, mmi), Field(6, 0), Field(5, k.Count(c))];
    var sats := GroupBits(SatGroups(c, k)) + tail;
    var epoch := Field(k.EpochBits(), k.Epoch(c));
    ReadField(epoch, Slot(k.EpochBits(), false), FieldBits(head) + sats);
    CountBound(c, k);
    HeadFits(mmi, k.Count(c));
    ReadFields(head, HeadSlots(), sats);
    var start := Supply(StoreCount(StoreEpoch(Fresh(), k, k.Epoch(c)), k, k.Count(c)), k);
    assert SatGroups(c, k)[..k.Count(c)] == SatGroups(c, k);
    SatsDecode(start, c, k, k.Count(c), tail);
  }

  lemma CountBound(c: ClockOrbitData, k: Kind)
    requires IsClockOrbit(c)
    ensures 0 <= k.Count(c) && k.Base() + k.Count(c) <= |c.Sat|
  {
  }

  lemma CountLimit(c: ClockOrbitData, k: Kind)
    requires IsClockOrbit(c)
    ensures 0 <= k.Count(c) <= 32 && (k.Count(c) > 24 ==> k.IsGps())
  {
  }

  // ---------- lengths ----------

  ghost function Width(fs: seq<Field>): nat {
    if |fs| == 0 then 0 else Width(fs[..|fs| - 1]) + fs[|fs| - 1].width
  }

  lemma {:induction false} FieldBitsWidth(fs: seq<Field>)
    ensures |FieldBits(fs)| == Width(fs)
  {
    hide ToBits;
    if |fs| > 0 {
      FieldBitsWidth(fs[..|fs| - 1]);
    }
  }

  lemma {:induction false} UniformWidth(fs: seq<Field>, w: nat)
    requires forall k :: 0 <= k < |fs| ==> fs[k].width == w
    ensures |FieldBits(fs)| == w * |fs|
  {
    hide ToBits;
    if |fs| > 0 {
      UniformWidth(fs[..|fs| - 1], w);
      assert w * |fs| == w * (|fs| - 1) + w;
    }
  }

  /** A combined satellite takes 256 bits, the others less. */
  lemma SatWidth(s: SatData, refPoint: int, refDatum: int, orbit: bool, clock: bool)
    requires IsSat(s)
    ensures |FieldBits(SatFields(s, refPoint, refDatum, orbit, clock))|
         == 14 + (if orbit then 182 else 0) + (if clock then 60 else 0)
  {
    hide FieldBits;
    var a, b := [Field(6, s.ID)], [Field(8, s.IOD)];
    var o := if orbit then OrbitFields(s.Orbit) + [Field(1, refPoint), Field(1, refDatum)] else [];
    var l := if clock then ClockFields(s.Clock) else [];
    assert SatFields(s, refPoint, refDatum, orbit, clock) == a + ((b + o) + l);
    FieldBitsAppend(a, (b + o) + l);
    FieldBitsAppend(b + o, l);
    FieldBitsAppend(b, o);
    UniformWidth(a, 6);
    UniformWidth(b, 8);
    UniformWidth(l, 20);
    if orbit {
      FieldBitsAppend(OrbitFields(s.Orbit), [Field(1, refPoint), Field(1, refDatum)]);
      UniformWidth(OrbitFields(s.Orbit), 20);
      UniformWidth([Field(1, refPoint), Field(1, refDatum)], 1);
    } else {
      UniformWidth(o, 0);
    }
  }

  lemma HeaderWidth(number: int, epochBits: nat, epoch: int, mmi: int, count: int)
    ensures |FieldBits(HeaderFields(number, epochBits, epoch, mmi, count))| == 24 + epochBits
  {
    var fs := HeaderFields(number, epochBits, epoch, mmi, count);
    FieldBitsWidth(fs);
    assert Width(fs[..0]) == 0;
    assert fs[..1][..0] == fs[..0] && fs[..2][..1] == fs[..1] && fs[..3][..2] == fs[..2] && fs[..4][..3] == fs[..3];
    assert Width(fs[..1]) == 12;
    assert Width(fs[..2]) == 12 + epochBits;
    assert Width(fs[..3]) == 13 + epochBits;
    assert Width(fs[..4]) == 19 + epochBits;
    assert fs[..5] == fs && fs[..5][..4] == fs[..4];
  }

  lemma {:induction false} GroupsWidth(gs: seq<seq<Field>>, w: nat)
    requires forall i :: 0 <= i < |gs| ==> |FieldBits(gs[i])| <= w
    ensures |GroupBits(gs)| <= w * |gs|
  {
    hide FieldBits;
    if |gs| > 0 {
      GroupsWidth(gs[..|gs| - 1], w);
      assert w * |gs| == w * (|gs| - 1) + w;
    }
  }

  function SatBits(k: Kind): nat {
    14 + (if k.HasOrbit() then 182 else 0) + (if k.HasClock() then 60 else 0)
  }

  lemma {:induction false} GroupsExactWidth(gs: seq<seq<Field>>, w: nat)
    requires forall i :: 0 <= i < |gs| ==> |FieldBits(gs[i])| == w
    ensures |GroupBits(gs)| == w * |gs|
  {
    hide FieldBits;
    if |gs| > 0 {
      GroupsExactWidth(gs[..|gs| - 1], w);
      assert w * |gs| == w * (|gs| - 1) + w;
    }
  }

  /** The exact size of a message body. */
  lemma BodySize(c: ClockOrbitData, k: Kind, mmi: int)
    requires IsClockOrbit(c)
    ensures |DraftBits(DraftOf(c, k), mmi)| == 24 + k.EpochBits() + SatBits(k) * k.Count(c)
  {
    hide FieldBits, HeaderFields, SatFields, IsClockOrbit;
    var gs := SatGroups(c, k);
    HeaderWidth(k.Number(), k.EpochBits(), k.Epoch(c), mmi, |gs|);
    CountBound(c, k);
    forall i | 0 <= i < |gs|
      ensures |FieldBits(gs[i])| == SatBits(k)
    {
      SatShape(c, k.Base() + i);
      SatWidth(c.Sat[k.Base() + i], c.SatRefPoint, c.SatRefDatum, k.HasOrbit(), k.HasClock());
    }
    GroupsExactWidth(gs, SatBits(k));
  }

  /** Up to 31 satellites the body length fits its 10-bit field with room to spare. */
  lemma BodyFits(c: ClockOrbitData, k: Kind, mmi: int)
    requires IsClockOrbit(c) && k.Count(c) <= 31
    ensures BodyLen(DraftBits(DraftOf(c, k), mmi)) <= 998
  {
    hide DraftBits, DraftOf, IsClockOrbit;
    BodySize(c, k, mmi);
    CountBound(c, k);
    Product256(SatBits(k), k.Count(c), 31);
  }

  lemma Product256(w: nat, n: nat, m: nat)
    requires w <= 256 && n <= m
    ensures w * n <= 256 * m
  {
    assert 0 <= (256 - w) * n && (256 - w) * n == 256 * n - w * n;
  }

  lemma SatShape(c: ClockOrbitData, i: nat)
    requires IsClockOrbit(c) && i < |c.Sat|
    ensures IsSat(c.Sat[i])
  {
  }

  // ---------- a block ----------

  /** The header of a block as the decoder reads it. */
  lemma HeaderDecodes(s: seq<Byte>, len: nat)
    requires |s| == 3 && len < 1024
    requires s[0] == 0xD3 && s[1] as nat == (len / 256) % 256 && s[2] as nat == len % 256
    ensures BitsOf(s) == FieldBits([Field(8, 0xD3), Field(6, 0), Field(10, len)])
  {
    hide ToBits, Pow2, ByteBits;
    ThreeBytes(s);
    var fs := [Field(8, 0xD3), Field(6, 0), Field(10, len)];
    assert fs == ([fs[0]] + [fs[1]]) + [fs[2]];
    FieldBitsAppend([fs[0]] + [fs[1]], [fs[2]]);
    FieldBitsAppend([fs[0]], [fs[1]]);
    OneField(fs[0]);
    OneField(fs[1]);
    OneField(fs[2]);
    HeaderLength(s[1], s[2], len);
    ByteValues();
    StreamMoves(ToBits(0xD3, 8), ToBits(0, 6), ToBits(len, 10), ToBits(0, 6) + ToBits(len, 10));
    StreamMoves(ByteBits(s[0]), ByteBits(s[1]), ByteBits(s[2]), ByteBits(s[1]) + ByteBits(s[2]));
  }

  lemma HeaderLength(b: Byte, c: Byte, len: nat)
    requires len < 1024 && b as nat == (len / 256) % 256 && c as nat == len % 256
    ensures ByteBits(b) + ByteBits(c) == ToBits(0, 6) + ToBits(len, 10)
  {
    hide ToBits, Pow2;
    Pow2Values();
    SmallLength(len);
    ToBitsSplit(len, 8, 8);
    ToBitsSplit(len, 6, 10);
    ToBitsMod(len, 8, 8);
  }

  lemma SmallLength(len: nat)
    requires len < 1024
    ensures len / 1024 == 0 && (len / 256) % 256 == len / 256
  {
  }

  /** The body is the beginning of what follows the header. */
  lemma BodyPrefix(blk: seq<Byte>, body: BitString, tail: seq<Byte>)
    requires IsBlock(blk, body)
    ensures body <= BitsOf(blk[3..] + tail)
  {
    hide ByteBits, Crc, Join3, Pad, BitsOf;
    var len := BodyLen(body);
    var x, y := blk[3..len + 3], blk[len + 3..] + tail;
    assert blk[3..] + tail == x + y;
    BitsOfAppend(x, y);
    assert body <= Pad(body);
  }

  lemma HeaderRead(blk: seq<Byte>, len: nat, tail: seq<Byte>)
    requires |blk| >= 3 && len < 1024
    requires blk[0] == 0xD3 && blk[1] as nat == (len / 256) % 256 && blk[2] as nat == len % 256
    ensures ReadSlots(HeaderSlots(), BitsOf(blk + tail)) == Next([0xD3, 0, len], BitsOf(blk[3..] + tail))
  {
    hide ReadSlots, ByteBits, BitsOf, FieldBits;
    var head, rest := blk[..3], blk[3..] + tail;
    assert blk + tail == head + rest;
    BitsOfAppend(head, rest);
    HeaderDecodes(head, len);
    HeaderSlotsFit(len);
    var fs := [Field(8, 0xD3), Field(6, 0), Field(10, len)];
    ReadFields(fs, HeaderSlots(), BitsOf(rest));
    assert Values(fs) == [0xD3, 0, len];
  }

  /** A block passes the header and CRC checks, whatever follows it. */
  lemma FrameDecodes(blk: seq<Byte>, body: BitString, tail: seq<Byte>)
    requires IsBlock(blk, body) && BodyLen(body) < 1024 && |body| > 0
    ensures DecodeFrame(blk + tail) == Next(BodyLen(body), BitsOf(blk[3..] + tail))
  {
    hide ReadSlots, ByteBits, Crc, Join3, Pad, BitsOf;
    var len := BodyLen(body);
    HeaderRead(blk, len, tail);
    var buf := blk + tail;
    assert buf[..len + 3] == blk[..len + 3];
  }

  lemma HeaderSlotsFit(len: nat)
    requires len < 1024
    ensures AllFit([Field(8, 0xD3), Field(6, 0), Field(10, len)], HeaderSlots())
  {
    hide Pow2;
    Pow2Values();
  }

  /**
   * Round trip for the five symmetric clock and orbit types: decoding the encoder's block into a fresh structure
   * gives back every value (scaled ones truncated to their quantum), whatever bytes follow the block.
   */
  lemma RoundTrip(c: ClockOrbitData, k: Kind, mmi: int, blk: seq<Byte>, tail: seq<Byte>, b: Option<BiasData>)
    requires IsClockOrbit(c) && InRange(c, k) && !k.GpsCombined? && 0 <= mmi < 2
    requires IsBlock(blk, DraftBits(DraftOf(c, k), mmi)) && Shapes(None, b)
    ensures Decode(Some(Fresh()), b, blk + tail) == Outcome(Accept(mmi), Some(Expected(c, k)), b, |blk|)
  {
    hide FieldBits, DecodeFrame, DecodeBody, Expected, InRange, IsClockOrbit, IsBlock, BitsOf, DraftBits, DraftOf;
    var body := DraftBits(DraftOf(c, k), mmi);
    RangeCount(c, k);
    BodyFits(c, k, mmi);
    BodyLong(DraftOf(c, k), mmi);
    FrameDecodes(blk, body, tail);
    BodyPrefix(blk, body, tail);
    BlockSize(blk, body);
    var bits := BitsOf(blk[3..] + tail);
    var after := bits[|body|..];
    assert bits == body + after;
    DraftBodyDecodes(c, k, mmi, after, b, |blk|);
  }

  lemma BodyLong(d: Draft, mmi: int)
    ensures |DraftBits(d, mmi)| >= 24
  {
    hide FieldBits, HeaderFields, GroupBits;
    HeaderWidth(d.number, d.epochBits, d.epoch, mmi, |d.groups|);
  }

  /** The message number leads the body. */
  lemma NumberDecodes(d: Draft, mmi: int, after: BitString)
    requires 0 <= d.number < 4096
    ensures ReadSlot(Slot(12, false), DraftBits(d, mmi) + after)
         == Next(d.number, ToBits(d.epoch, d.epochBits)
                           + (FieldBits([Field(1, mmi), Field(6, 0), Field(5, |d.groups|)])
                             + (GroupBits(d.groups) + after)))
  {
    hide ReadSlot, FieldBits, GroupBits, HeaderFields, ToBits, Pow2;
    var head, sats := FieldBits(HeaderFields(d.number, d.epochBits, d.epoch, mmi, |d.groups|)), GroupBits(d.groups);
    StreamMoves(head, sats, after, sats + after);
    SplitHeader(d.number, d.epochBits, d.epoch, mmi, |d.groups|, sats + after);
    Pow2Values();
    var r := ToBits(d.epoch, d.epochBits) + (FieldBits([Field(1, mmi), Field(6, 0), Field(5, |d.groups|)])
      + (sats + after));
    ReadField(Field(12, d.number), Slot(12, false), r);
  }

  lemma DraftBodyDecodes(c: ClockOrbitData, k: Kind, mmi: int, after: BitString, b: Option<BiasData>, used: int)
    requires IsClockOrbit(c) && InRange(c, k) && !k.GpsCombined? && 0 <= mmi < 2 && Shapes(None, b)
    ensures match ReadSlot(Slot(12, false), DraftBits(DraftOf(c, k), mmi) + after)
      case Fail(_) => false
      case Next(number, r) =>
        DecodeBody(Some(Fresh()), b, number, r, used) == Outcome(Accept(mmi), Some(Expected(c, k)), b, used)
  {
    hide ReadSlot, FieldBits, GroupBits, DraftBits, DecodeMessage, Expected, InRange, SatGroups, IsClockOrbit;
    NumberDecodes(DraftOf(c, k), mmi, after);
    CountBound(c, k);
    MessageDecodes(c, k, mmi, after);
    assert KindOf(k.Number()) == Some(k);
  }

  lemma RangeCount(c: ClockOrbitData, k: Kind)
    requires IsClockOrbit(c) && InRange(c, k)
    ensures k.Count(c) <= 31
  {
  }
}
