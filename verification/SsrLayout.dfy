// The clock and orbit messages bit by bit and unit by unit, against the literal layout of the format.
module SsrLayout {
  import opened Bits
  import opened BitStreams
  import opened CastMath
  import opened Crc24
  import opened SsrBlocks
  import opened SsrMessages
  import opened SsrDecoder
  import opened SsrRoundTrip
  import opened SsrTheorems
  import opened SsrCombined

  // ---------- units ----------

  /** Metres, metres per second and per square second for one step of the nine orbit fields. */
  const ORBIT_QUANTUM: seq<real> := [0.001, 0.001, 0.001, 0.00001, 0.00001, 0.00001, 0.0000002, 0.0000002, 0.0000002]

  /** The same for the three clock fields. */
  const CLOCK_QUANTUM: seq<real> := [0.001, 0.00001, 0.0000002]

  /** What a decoded integer means. */
  lemma UnitsAre(v: int)
    ensures forall k :: 0 <= k < 9 ==> OrbitUnits(k, v) == v as real * ORBIT_QUANTUM[k]
    ensures forall k :: 0 <= k < 3 ==> ClockUnits(k, v) == v as real * CLOCK_QUANTUM[k]
    ensures BiasUnits(v) == v as real * 0.01
  {
  }

  /** Which physical values fit the 20 bits of their field. */
  lemma ValuesThatFit(x: real)
    ensures forall k :: 0 <= k < 3 ==> (InField(OrbitSteps(k, x)) <==> -524.289 < x < 524.288)
    ensures forall k :: 3 <= k < 6 ==> (InField(OrbitSteps(k, x)) <==> -5.24289 < x < 5.24288)
    ensures forall k :: 6 <= k < 9 ==> (InField(OrbitSteps(k, x)) <==> -0.1048578 < x < 0.1048576)
    ensures InField(ClockSteps(0, x)) <==> -524.289 < x < 524.288
    ensures InField(ClockSteps(1, x)) <==> -5.24289 < x < 5.24288
    ensures InField(ClockSteps(2, x)) <==> -0.1048578 < x < 0.1048576
    ensures InField(BiasSteps(x)) <==> -5242.89 < x < 5242.88
  {
    hide InField;
    hide Trunc;
    TruncFits(1000.0 * x);
    TruncFits(100000.0 * x);
    TruncFits(5000000.0 * x);
    TruncFits(100.0 * x);
  }

  lemma TruncFits(y: real)
    ensures InField(Trunc(y)) <==> -524289.0 < y < 524288.0
  {
  }

  // ---------- a satellite, as it is written ----------

  /** The fields of a satellite, in order. */
  lemma SatWritten(s: SatData, p: int, d: int, orbit: bool, clock: bool)
    requires IsSat(s)
    ensures SatFields(s, p, d, orbit, clock) ==
      [Field(6, s.ID), Field(8, s.IOD)]
      + (if orbit then
           [Field(20, Trunc(1000.0 * s.Orbit[0])), Field(20, Trunc(1000.0 * s.Orbit[1])),
            Field(20, Trunc(1000.0 * s.Orbit[2])), Field(20, Trunc(100000.0 * s.Orbit[3])),
            Field(20, Trunc(100000.0 * s.Orbit[4])), Field(20, Trunc(100000.0 * s.Orbit[5])),
            Field(20, Trunc(5000000.0 * s.Orbit[6])), Field(20, Trunc(5000000.0 * s.Orbit[7])),
            Field(20, Trunc(5000000.0 * s.Orbit[8])), Field(1, p), Field(1, d)]
         else [])
      + (if clock then
           [Field(20, Trunc(1000.0 * s.Clock[0])), Field(20, Trunc(100000.0 * s.Clock[1])),
            Field(20, Trunc(5000000.0 * s.Clock[2]))]
         else [])
  {
    hide Trunc;
  }

  // ---------- a satellite, as it is read ----------

  /** The bits of a satellite with no orbit and nc clock fields. */
  function SatWidthOf(no: nat, nc: nat): nat {
    14 + 20 * no + (if no > 0 then 2 else 0) + 20 * nc
  }

  /** Where payload slot i begins: IOD, orbit values, two flags if there are any, clock values. */
  function SlotStart(no: nat, i: nat): nat {
    if i == 0 then 0
    else if i <= 1 + no then 8 + 20 * (i - 1)
    else if no > 0 && i == 2 + no then 9 + 20 * no
    else if no > 0 then 10 + 20 * no + 20 * (i - no - 3)
    else 8 + 20 * (i - 1)
  }

  lemma {:induction false} PayloadStart(no: nat, nc: nat, i: nat)
    requires i <= |PayloadSlots(no, nc)|
    ensures SlotsWidth(PayloadSlots(no, nc), i) == SlotStart(no, i)
  {
    if i > 0 {
      PayloadStart(no, nc, i - 1);
    }
  }

  /** Orbit value k of a satellite's bits, in physical units. */
  ghost function OrbitValueOf(b: BitString, no: nat, nc: nat, k: nat): real
    requires k < no <= 9 && |b| == SatWidthOf(no, nc)
  {
    SignedFromBits(b[14 + 20 * k..34 + 20 * k]) as real * ORBIT_QUANTUM[k]
  }

  /** Clock value k. */
  ghost function ClockValueOf(b: BitString, no: nat, nc: nat, k: nat): real
    requires k < nc <= 3 && |b| == SatWidthOf(no, nc)
  {
    SignedFromBits(b[SatWidthOf(no, k)..SatWidthOf(no, k + 1)]) as real * CLOCK_QUANTUM[k]
  }

  /** s holds what the bits b say: number, IOD, orbit and clock values. */
  ghost predicate SatMeans(s: SatData, b: BitString, no: nat, nc: nat)
    requires IsSat(s) && no <= 9 && nc <= 3 && |b| == SatWidthOf(no, nc)
  {
    && s.ID == FromBits(b[0..6]) && s.IOD == FromBits(b[6..14])
    && (forall k :: 0 <= k < no ==> s.Orbit[k] == OrbitValueOf(b, no, nc, k))
    && (forall k :: 0 <= k < nc ==> s.Clock[k] == ClockValueOf(b, no, nc, k))
  }

  /** Slot i of the payload reads its bits of the satellite. */
  lemma PayloadSlotRead(b: BitString, no: nat, nc: nat, i: nat)
    requires |b| == SatWidthOf(no, nc) && i < |PayloadSlots(no, nc)|
    ensures var ss := PayloadSlots(no, nc);
      && |b[6..]| == SlotsWidth(ss, |ss|) && 6 + SlotStart(no, i) <= 6 + SlotStart(no, i + 1) <= |b|
      && PieceValues(ss, b[6..])[i] == SlotValue(ss[i], b[6 + SlotStart(no, i)..6 + SlotStart(no, i + 1)])
  {
    hide SlotsWidth, SlotValue;
    var ss := PayloadSlots(no, nc);
    PayloadStart(no, nc, |ss|);
    PayloadStart(no, nc, i);
    PayloadStart(no, nc, i + 1);
    SlotsWidthGrows(ss, i, i + 1);
    SlotsWidthGrows(ss, i + 1, |ss|);
    assert b[6..] == b[6..|b|];
    SliceSlice(b, 6, |b|, SlotStart(no, i), SlotStart(no, i + 1));
  }

  ghost function Payload(b: BitString, no: nat, nc: nat): (vs: seq<int>)
    requires |b| == SatWidthOf(no, nc)
    ensures |vs| == |PayloadSlots(no, nc)| == 1 + no + (if no > 0 then 2 else 0) + nc
  {
    PayloadStart(no, nc, |PayloadSlots(no, nc)|);
    PieceValues(PayloadSlots(no, nc), b[6..])
  }

  lemma IodRead(b: BitString, no: nat, nc: nat)
    requires |b| == SatWidthOf(no, nc)
    ensures Payload(b, no, nc)[0] == FromBits(b[6..14])
  {
    hide FromBits, SignedFromBits, SlotsWidth, PieceValues;
    PayloadSlotRead(b, no, nc, 0);
  }

  lemma OrbitRead(b: BitString, no: nat, nc: nat, k: nat)
    requires |b| == SatWidthOf(no, nc) && k < no
    ensures Payload(b, no, nc)[1 + k] == SignedFromBits(b[14 + 20 * k..34 + 20 * k])
  {
    hide FromBits, SignedFromBits, SlotsWidth, PieceValues;
    PayloadSlotRead(b, no, nc, 1 + k);
  }

  lemma FlagsRead(b: BitString, no: nat, nc: nat)
    requires |b| == SatWidthOf(no, nc) && no > 0
    ensures Payload(b, no, nc)[1 + no] == FromBits(b[14 + 20 * no..15 + 20 * no])
    ensures Payload(b, no, nc)[2 + no] == FromBits(b[15 + 20 * no..16 + 20 * no])
  {
    hide FromBits, SignedFromBits, SlotsWidth, PieceValues;
    PayloadSlotRead(b, no, nc, 1 + no);
    PayloadSlotRead(b, no, nc, 2 + no);
  }

  lemma ClockRead(b: BitString, no: nat, nc: nat, k: nat)
    requires |b| == SatWidthOf(no, nc) && k < nc
    ensures Payload(b, no, nc)[|Payload(b, no, nc)| - nc + k]
         == SignedFromBits(b[SatWidthOf(no, k)..SatWidthOf(no, k + 1)])
  {
    hide FromBits, SignedFromBits, SlotsWidth, PieceValues;
    PayloadSlotRead(b, no, nc, |PayloadSlots(no, nc)| - nc + k);
  }

  /** One satellite: whatever the bits are, they are stored with their physical values, and nothing else changes. */
  lemma SatRead(c: ClockOrbitData, i: nat, no: nat, nc: nat, b: BitString, tail: BitString)
    requires Shape(c) && i < |c.Sat| && no <= 9 && nc <= 3 && |b| == SatWidthOf(no, nc)
    requires DecodeSat(c, i, no, nc, b + tail).Next?
    ensures var r := DecodeSat(c, i, no, nc, b + tail);
      var s := r.state.Sat[i];
      && r.rest == tail && SatMeans(s, b, no, nc)
      && s.Orbit[no..] == c.Sat[i].Orbit[no..] && s.Clock[nc..] == c.Sat[i].Clock[nc..]
      && r.state == c.(Sat := c.Sat[i := s],
                       SatRefPoint := if no > 0 then FromBits(b[14 + 20 * no..15 + 20 * no]) else c.SatRefPoint,
                       SatRefDatum := if no > 0 then FromBits(b[15 + 20 * no..16 + 20 * no]) else c.SatRefDatum)
  {
    hide DecodeSat, StoreSat, FromBits, SatMeans, Payload, Shape;
    SatSteps(c, i, no, nc, b, tail);
    StoredMeans(c, i, b, no, nc);
  }

  lemma SatSteps(c: ClockOrbitData, i: nat, no: nat, nc: nat, b: BitString, tail: BitString)
    requires Shape(c) && i < |c.Sat| && no <= 9 && nc <= 3 && |b| == SatWidthOf(no, nc)
    requires DecodeSat(c, i, no, nc, b + tail).Next?
    ensures DecodeSat(c, i, no, nc, b + tail)
         == Next(StoreSat(c, i, FromBits(b[0..6]), Payload(b, no, nc), no, nc), tail)
  {
    hide ReadSlots, FromBits, PieceValues, PayloadSlots, StoreSat, Shape;
    var v := b[6..];
    assert b + tail == b[..6] + (v + tail) && b[..6] == b[0..6];
    ReadLast(Slot(6, false), b[..6], v + tail);
    PayloadWidth(b, no, nc);
    ReadPieces(PayloadSlots(no, nc), v, tail);
  }

  lemma PayloadWidth(b: BitString, no: nat, nc: nat)
    requires |b| == SatWidthOf(no, nc)
    ensures |b[6..]| == SlotsWidth(PayloadSlots(no, nc), |PayloadSlots(no, nc)|)
  {
    PayloadStart(no, nc, |PayloadSlots(no, nc)|);
  }

  lemma StoredMeans(c: ClockOrbitData, i: nat, b: BitString, no: nat, nc: nat)
    requires Shape(c) && i < |c.Sat| && no <= 9 && nc <= 3 && |b| == SatWidthOf(no, nc)
    ensures var d := StoreSat(c, i, FromBits(b[0..6]), Payload(b, no, nc), no, nc);
      var s := d.Sat[i];
      && SatMeans(s, b, no, nc)
      && s.Orbit[no..] == c.Sat[i].Orbit[no..] && s.Clock[nc..] == c.Sat[i].Clock[nc..]
      && d == c.(Sat := c.Sat[i := s],
                 SatRefPoint := if no > 0 then FromBits(b[14 + 20 * no..15 + 20 * no]) else c.SatRefPoint,
                 SatRefDatum := if no > 0 then FromBits(b[15 + 20 * no..16 + 20 * no]) else c.SatRefDatum)
  {
    hide FromBits, SignedFromBits, Payload, PayloadSlots, Unscale, OrbitUnits, ClockUnits, SatWidthOf;
    var vs := Payload(b, no, nc);
    var o, l := Unscale(c.Sat[i].Orbit, vs[1..1 + no], true), Unscale(c.Sat[i].Clock, vs[|vs| - nc..], false);
    IodRead(b, no, nc);
    if no > 0 {
      FlagsRead(b, no, nc);
    }
    forall k | 0 <= k < no
      ensures o[k] == OrbitValueOf(b, no, nc, k)
    {
      OrbitStored(c.Sat[i].Orbit, b, no, nc, k);
    }
    forall k | 0 <= k < nc
      ensures l[k] == ClockValueOf(b, no, nc, k)
    {
      ClockStored(c.Sat[i].Clock, b, no, nc, k);
    }
  }

  lemma OrbitStored(old_: seq<real>, b: BitString, no: nat, nc: nat, k: nat)
    requires |old_| == 9 && |b| == SatWidthOf(no, nc) && k < no <= 9
    ensures Unscale(old_, Payload(b, no, nc)[1..1 + no], true)[k] == OrbitValueOf(b, no, nc, k)
  {
    hide FromBits, SignedFromBits, Payload, PayloadSlots, OrbitUnits, ClockUnits;
    OrbitRead(b, no, nc, k);
    UnitsAre(Payload(b, no, nc)[1 + k]);
  }

  lemma ClockStored(old_: seq<real>, b: BitString, no: nat, nc: nat, k: nat)
    requires |old_| == 3 && |b| == SatWidthOf(no, nc) && k < nc <= 3
    ensures Unscale(old_, Payload(b, no, nc)[|Payload(b, no, nc)| - nc..], false)[k] == ClockValueOf(b, no, nc, k)
  {
    hide FromBits, SignedFromBits, Payload, PayloadSlots, OrbitUnits, ClockUnits;
    ClockRead(b, no, nc, k);
    UnitsAre(Payload(b, no, nc)[|Payload(b, no, nc)| - nc + k]);
  }

  // ---------- a message, as it is read ----------

  /** The bits of satellite j in a row of them. */
  function SatBitsAt(b: BitString, no: nat, nc: nat, j: nat): (w: BitString)
    requires (j + 1) * SatWidthOf(no, nc) <= |b|
    ensures |w| == SatWidthOf(no, nc)
  {
    RowOffset(SatWidthOf(no, nc), j);
    b[j * SatWidthOf(no, nc)..(j + 1) * SatWidthOf(no, nc)]
  }

  lemma RowOffset(w: nat, j: nat)
    ensures 0 <= j * w && j * w + w == (j + 1) * w
  {
  }

  lemma RowFits(w: nat, j: nat, n: nat)
    requires j < n
    ensures (j + 1) * w <= n * w
  {
    assert (n - (j + 1)) * w >= 0;
    assert (n - (j + 1)) * w == n * w - (j + 1) * w;
  }

  lemma RowPositive(w: nat, n: nat)
    requires n > 0
    ensures n * w >= w
  {
    assert (n - 1) * w >= 0;
  }

  /** The reference point (0) or datum (1) bit of the last satellite. */
  ghost function LastFlag(b: BitString, n: nat, no: nat, nc: nat, k: nat): int
    requires n > 0 && no > 0 && k < 2 && |b| == n * SatWidthOf(no, nc)
  {
    RowPositive(SatWidthOf(no, nc), n);
    FromBits(b[|b| - 20 * nc - 2 + k..|b| - 20 * nc - 1 + k])
  }

  /** The satellites base to base + n - 1 hold what the bits say; the others are as they were. */
  ghost predicate SatsMean(c: ClockOrbitData, d: ClockOrbitData, base: nat, n: nat, b: BitString, no: nat, nc: nat)
    requires Shape(c) && Shape(d) && base + n <= 56 && no <= 9 && nc <= 3 && |b| == n * SatWidthOf(no, nc)
  {
    && d == c.(Sat := d.Sat,
               SatRefPoint := if n > 0 && no > 0 then LastFlag(b, n, no, nc, 0) else c.SatRefPoint,
               SatRefDatum := if n > 0 && no > 0 then LastFlag(b, n, no, nc, 1) else c.SatRefDatum)
    && (forall i :: 0 <= i < 56 && !(base <= i < base + n) ==> d.Sat[i] == c.Sat[i])
    && (forall j: nat :: j < n ==> SatMeansAt(d, base, j, n, b, no, nc))
  }

  ghost predicate SatMeansAt(d: ClockOrbitData, base: nat, j: nat, n: nat, b: BitString, no: nat, nc: nat)
    requires Shape(d) && j < n && base + n <= 56 && no <= 9 && nc <= 3 && |b| == n * SatWidthOf(no, nc)
  {
    RowFits(SatWidthOf(no, nc), j, n);
    SatMeans(d.Sat[base + j], SatBitsAt(b, no, nc, j), no, nc)
  }

  lemma {:induction false} SatsRead(c: ClockOrbitData, base: nat, n: nat, no: nat, nc: nat, b: BitString,
                                    tail: BitString)
    requires Shape(c) && base + n <= 56 && no <= 9 && nc <= 3 && |b| == n * SatWidthOf(no, nc)
    requires DecodeSats(c, base, n, no, nc, b + tail).Next?
    ensures var r := DecodeSats(c, base, n, no, nc, b + tail);
      r.rest == tail && SatsMean(c, r.state, base, n, b, no, nc)
    decreases n
  {
    hide DecodeSat, SatsMean, SatWidthOf, Shape;
    var x, w := (n - 1) * SatWidthOf(no, nc), SatWidthOf(no, nc);
    if n == 0 {
      assert b + tail == tail;
      NoSatsMean(c, base, no, nc, b);
    } else {
      RowOffset(w, n - 1);
      assert b + tail == b[..x] + (b[x..] + tail);
      SatsRead(c, base, n - 1, no, nc, b[..x], b[x..] + tail);
      SatsStep(c, DecodeSats(c, base, n - 1, no, nc, b + tail).state, base, n, no, nc, b, x, tail);
    }
  }

  lemma NoSatsMean(c: ClockOrbitData, base: nat, no: nat, nc: nat, b: BitString)
    requires Shape(c) && base <= 56 && no <= 9 && nc <= 3 && b == []
    ensures SatsMean(c, c, base, 0, b, no, nc)
  {
  }

  lemma SatsStep(c: ClockOrbitData, c': ClockOrbitData, base: nat, n: nat, no: nat, nc: nat, b: BitString, x: nat,
                 tail: BitString)
    requires Shape(c) && Shape(c') && 0 < n && base + n <= 56 && no <= 9 && nc <= 3
    requires |b| == n * SatWidthOf(no, nc) && x == (n - 1) * SatWidthOf(no, nc) && x + SatWidthOf(no, nc) == |b|
    requires SatsMean(c, c', base, n - 1, b[..x], no, nc)
    requires DecodeSat(c', base + n - 1, no, nc, b[x..] + tail).Next?
    ensures var r := DecodeSat(c', base + n - 1, no, nc, b[x..] + tail);
      r.rest == tail && SatsMean(c, r.state, base, n, b, no, nc)
  {
    hide DecodeSat, SatsMean, SatMeans, SatWidthOf, Shape;
    ShapeSats(c');
    SatRead(c', base + n - 1, no, nc, b[x..], tail);
    if no > 0 {
      LastFlags(b, n, no, nc, x);
    }
    LastSatMeans(c, c', DecodeSat(c', base + n - 1, no, nc, b[x..] + tail).state, base, n, b, no, nc);
  }

  lemma LastFlags(b: BitString, n: nat, no: nat, nc: nat, x: nat)
    requires n > 0 && no > 0 && |b| == n * SatWidthOf(no, nc) && x + SatWidthOf(no, nc) == |b|
    ensures FromBits(b[x..][14 + 20 * no..15 + 20 * no]) == LastFlag(b, n, no, nc, 0)
    ensures FromBits(b[x..][15 + 20 * no..16 + 20 * no]) == LastFlag(b, n, no, nc, 1)
  {
    hide FromBits;
    assert b[x..] == b[x..|b|];
    SliceSlice(b, x, |b|, 14 + 20 * no, 15 + 20 * no);
    SliceSlice(b, x, |b|, 15 + 20 * no, 16 + 20 * no);
  }

  lemma LastSatMeans(c: ClockOrbitData, c': ClockOrbitData, d: ClockOrbitData, base: nat, n: nat, b: BitString,
                     no: nat, nc: nat)
    requires Shape(c) && Shape(c') && Shape(d) && 0 < n && base + n <= 56 && no <= 9 && nc <= 3
    requires |b| == n * SatWidthOf(no, nc) && 0 <= (n - 1) * SatWidthOf(no, nc) <= |b|
    requires SatsMean(c, c', base, n - 1, b[..(n - 1) * SatWidthOf(no, nc)], no, nc)
    requires |b[(n - 1) * SatWidthOf(no, nc)..]| == SatWidthOf(no, nc)
    requires SatMeans(d.Sat[base + n - 1], b[(n - 1) * SatWidthOf(no, nc)..], no, nc)
    requires d == c'.(Sat := c'.Sat[base + n - 1 := d.Sat[base + n - 1]],
                      SatRefPoint := if no > 0 then LastFlag(b, n, no, nc, 0) else c'.SatRefPoint,
                      SatRefDatum := if no > 0 then LastFlag(b, n, no, nc, 1) else c'.SatRefDatum)
    ensures SatsMean(c, d, base, n, b, no, nc)
  {
    hide SatMeans, SatWidthOf, LastFlag;
    var w := SatWidthOf(no, nc);
    var front := b[..(n - 1) * w];
    forall j: nat | j < n
      ensures SatMeansAt(d, base, j, n, b, no, nc)
    {
      RowOffset(w, j);
      RowFits(w, j, n);
      if j < n - 1 {
        RowFits(w, j, n - 1);
        assert SatMeansAt(c', base, j, n - 1, front, no, nc);
        assert front[j * w..(j + 1) * w] == b[j * w..(j + 1) * w];
      } else {
        assert b[(n - 1) * w..] == b[j * w..(j + 1) * w];
      }
    }
  }

  // ---------- what an accepted buffer means ----------

  /** How many bits were there, when slots were read. */
  lemma {:induction false} ReadsLong(ss: seq<Slot>, rest: BitString)
    requires ReadSlots(ss, rest).Next?
    ensures |rest| == SlotsWidth(ss, |ss|) + |ReadSlots(ss, rest).rest|
  {
    if ss != [] {
      ReadsLong(ss[..|ss| - 1], rest);
      SlotsWidthPrefix(ss, |ss| - 1, |ss| - 1);
    }
  }

  lemma {:induction false} SatsLong(c: ClockOrbitData, base: nat, n: nat, no: nat, nc: nat, rest: BitString)
    requires Shape(c) && no <= 9 && nc <= 3 && DecodeSats(c, base, n, no, nc, rest).Next?
    ensures |rest| == n * SatWidthOf(no, nc) + |DecodeSats(c, base, n, no, nc, rest).rest| && (n > 0 ==> base + n <= 56)
    decreases n
  {
    hide DecodeSat, SatWidthOf, Shape;
    if n > 0 {
      SatsLong(c, base, n - 1, no, nc, rest);
      var st := DecodeSats(c, base, n - 1, no, nc, rest);
      SatLong(st.state, base + n - 1, no, nc, st.rest);
      RowOffset(SatWidthOf(no, nc), n - 1);
    }
  }

  lemma SatLong(c: ClockOrbitData, i: nat, no: nat, nc: nat, rest: BitString)
    requires Shape(c) && no <= 9 && nc <= 3 && DecodeSat(c, i, no, nc, rest).Next?
    ensures |rest| == SatWidthOf(no, nc) + |DecodeSat(c, i, no, nc, rest).rest| && i < 56
  {
    hide ReadSlots, PayloadSlots, SlotsWidth, StoreSat;
    ReadsLong(PayloadSlots(no, nc), rest[6..]);
    PayloadStart(no, nc, |PayloadSlots(no, nc)|);
    PayloadSize(no, nc);
  }

  lemma PayloadSize(no: nat, nc: nat)
    ensures |PayloadSlots(no, nc)| == 1 + no + (if no > 0 then 2 else 0) + nc
  {
  }

  /** System, orbit fields and clock fields of a message type, as the decoder reads it. */
  datatype Layout = Layout(gps: bool, no: nat, nc: nat) {
    function EpochBits(): nat {
      if gps then 20 else 17
    }

    function Base(): nat {
      if gps then 0 else 32
    }
  }

  function LayoutOf(number: int): Option<Layout> {
    match number
    case 4050 => Some(Layout(true, 9, 0))
    case 4051 => Some(Layout(true, 0, 3))
    case 4053 => Some(Layout(false, 9, 0))
    case 4054 => Some(Layout(false, 0, 3))
    case 4056 => Some(Layout(true, 3, 1))
    case 4057 => Some(Layout(false, 9, 3))
    case _ => None
  }

  /** A cleared structure with the head of a message put in. */
  ghost function Headed(l: Layout, epoch: int, count: int): (c: ClockOrbitData)
    ensures Shape(c)
  {
    var zeros := seq(101, _ => 0);
    ClockOrbitData(
      if l.gps then epoch else 0, if l.gps then 0 else epoch, if l.gps then count else 0, if l.gps then 0 else count,
      l.nc > 0, l.no > 0, if l.gps then zeros[0 := epoch] else zeros, if l.gps then 1 else 0,
      0, 0, seq(56, _ => NO_SAT))
  }

  /**
   * d is what a message says, by its bits: type number, epoch, one bit for more messages, six reserved bits, satellite
   * count, satellites.
   */
  ghost predicate MessageMeans(d: ClockOrbitData, more: bool, bits: BitString, l: Layout)
    requires l.no <= 9 && l.nc <= 3
  {
    var e, w := l.EpochBits(), SatWidthOf(l.no, l.nc);
    && |bits| >= 24 + e
    && more == bits[12 + e]
    && var n := FromBits(bits[19 + e..24 + e]);
       var c := Headed(l, FromBits(bits[12..12 + e]), n);
    && (n > 0 ==> l.Base() + n <= 56) && 0 <= n * w && |bits| >= 24 + e + n * w
    && (if n > 0 then Shape(d) && SatsMean(c, d, l.Base(), n, bits[24 + e..24 + e + n * w], l.no, l.nc) else d == c)
  }

  lemma HeadedIs(k: Kind, l: Layout, epoch: int, count: int)
    requires LayoutOf(k.Number()) == Some(l)
    ensures Supply(StoreCount(StoreEpoch(Fresh(), k, epoch), k, count), k) == Headed(l, epoch, count)
    ensures OrbitCount(k) == l.no && ClockCount(k) == l.nc && k.Base() == l.Base() && k.EpochBits() == l.EpochBits()
    ensures k.Count(Fresh()) == 0 && !AlreadySupplied(Fresh(), k)
  {
  }

  lemma HeadBits(bits: BitString, e: nat)
    requires |bits| >= 24 + e
    ensures var rest := bits[12..][e..];
      && rest[..1] == [bits[12 + e]] && rest[1..][6..][..5] == bits[19 + e..24 + e]
      && rest[1..][6..][5..] == bits[24 + e..]
  {
    var rest := bits[12..][e..];
    assert rest == bits[12 + e..] && rest[1..][6..] == bits[19 + e..];
  }

  lemma OneBitValue(x: bool)
    ensures FromBits([x]) == if x then 1 else 0
  {
    assert [x][..0] == [];
  }

  /** The decoder's steps on a message of layout l, without the kind. */
  lemma MessageSteps(k: Kind, l: Layout, bits: BitString)
    requires LayoutOf(k.Number()) == Some(l) && |bits| >= 12
    requires DecodeMessage(Fresh(), k, bits[12..]).Next?
    ensures l.no <= 9 && l.nc <= 3 && |bits| >= 24 + l.EpochBits()
    ensures var e := l.EpochBits();
      var n := FromBits(bits[19 + e..24 + e]);
      var r := DecodeSats(Headed(l, FromBits(bits[12..12 + e]), n), l.Base(), n, l.no, l.nc, bits[24 + e..]);
      r.Next? && DecodeMessage(Fresh(), k, bits[12..]).state == (r.state, if bits[12 + e] then 1 else 0)
  {
    hide ReadSlots, FromBits, DecodeSats, Fresh, Headed, Supply, StoreCount, StoreEpoch, HeadSlots, AlreadySupplied;
    var e, rest := l.EpochBits(), bits[12..][l.EpochBits()..];
    HeadedIs(k, l, FromBits(bits[12..][..e]), 0);
    HeadParts(rest);
    HeadBits(bits, e);
    OneBitValue(bits[12 + e]);
    var n := FromBits(bits[19 + e..24 + e]);
    HeadedIs(k, l, FromBits(bits[12..][..e]), n);
    assert bits[12..][..e] == bits[12..12 + e];
    SuppliedLater(k, FromBits(bits[12..12 + e]));
  }

  lemma SuppliedLater(k: Kind, epoch: int)
    ensures !AlreadySupplied(StoreEpoch(Fresh(), k, epoch), k) && k.Count(StoreEpoch(Fresh(), k, epoch)) == 0
  {
  }

  /** The message behind its type number. */
  lemma MessageRead(k: Kind, l: Layout, bits: BitString)
    requires LayoutOf(k.Number()) == Some(l) && |bits| >= 12
    requires DecodeMessage(Fresh(), k, bits[12..]).Next?
    ensures l.no <= 9 && l.nc <= 3
    ensures var r := DecodeMessage(Fresh(), k, bits[12..]).state;
      exists more :: MessageMeans(r.0, more, bits, l) && r.1 == (if more then 1 else 0)
  {
    hide FromBits, DecodeSats, DecodeMessage, Fresh, Headed, SatsMean, SatWidthOf, LayoutOf, Shape;
    MessageSteps(k, l, bits);
    var e := l.EpochBits();
    var n := FromBits(bits[19 + e..24 + e]);
    var c := Headed(l, FromBits(bits[12..12 + e]), n);
    var b := bits[24 + e..];
    SatsLong(c, l.Base(), n, l.no, l.nc, b);
    var w := SatWidthOf(l.no, l.nc);
    var r := DecodeMessage(Fresh(), k, bits[12..]).state;
    RowOffset(w, n);
    if n > 0 {
      var sats := b[..n * w];
      assert b == sats + b[n * w..] && sats == bits[24 + e..24 + e + n * w];
      SatsRead(c, l.Base(), n, l.no, l.nc, sats, b[n * w..]);
    } else {
      SatsNone(c, l.Base(), l.no, l.nc, b);
    }
    assert MessageMeans(r.0, bits[12 + e], bits, l);
  }

  /**
   * Any buffer with a clock or orbit message that the decoder accepts into a cleared structure: the type number is one
   * of the six, and the structure is what the bits say, in physical units.
   */
  lemma AcceptedMeans(buf: seq<Byte>, b: Option<BiasData>)
    requires Shapes(None, b) && Decode(Some(Fresh()), b, buf).ret.Accepted() && |buf| >= 3
    ensures var bits, o := BitsOf(buf[3..]), Decode(Some(Fresh()), b, buf);
      && |bits| >= 12
      && var l := LayoutOf(FromBits(bits[..12]));
      && (l.Some? ==>
            && o.co.Some? && l.value.no <= 9 && l.value.nc <= 3 && o.b == b
            && MessageMeans(o.co.value, o.ret == MessageFollows, bits, l.value))
      && (l.None? ==> FromBits(bits[..12]) == 4052 || FromBits(bits[..12]) == 4055)
  {
    hide ReadSlots, FromBits, DecodeMessage, DecodeBiasMessage, Fresh, MessageMeans, BitsOf, Crc, Join3;
    assert buf == buf[..3] + buf[3..];
    BitsOfAppend(buf[..3], buf[3..]);
    HeaderValues(BitsOf(buf[..3]), BitsOf(buf[3..]));
    var bits := BitsOf(buf[3..]);
    var number := FromBits(bits[..12]);
    if KindOf(number).Some? {
      var k := KindOf(number).value;
      assert LayoutOf(k.Number()).Some?;
      MessageRead(k, LayoutOf(k.Number()).value, bits);
    }
  }

  // ---------- the header, by its bytes ----------

  lemma HeaderNumbers(s: seq<Byte>)
    requires |s| == 3
    ensures FromBits(BitsOf(s)[..8]) == s[0] as int
    ensures FromBits(BitsOf(s)[8..14]) == s[1] as int / 4
    ensures FromBits(BitsOf(s)[14..]) == s[1] as int % 4 * 256 + s[2] as int
  {
    hide ToBits, FromBits, Pow2, BitsOf, ByteBits;
    ThreeBytes(s);
    var x, y, z := ByteBits(s[0]), ByteBits(s[1]), ByteBits(s[2]);
    assert BitsOf(s)[..8] == x && BitsOf(s)[8..14] == y[..6] && BitsOf(s)[14..] == y[6..] + z;
    ByteNumber(s[0]);
    SplitByte(s[1]);
    ByteNumber(s[2]);
    assert y[6..] + z == ToBits(s[1] as int, 2) + ToBits(s[2] as int, 8);
    LowTen(s[1] as int, s[2] as int);
  }

  lemma ByteNumber(b: Byte)
    ensures FromBits(ByteBits(b)) == b as int && ByteBits(b) == ToBits(b as int, 8) && 0 <= b as int < 256
  {
    hide ToBits, FromBits, Pow2;
    ByteRange(b);
    Pow2Values();
    FromToBits(b as int, 8);
    SmallValue(b as int, 256);
  }

  lemma SplitByte(b: Byte)
    ensures FromBits(ByteBits(b)[..6]) == b as int / 4 && ByteBits(b)[6..] == ToBits(b as int, 2) && 0 <= b as int < 256
  {
    hide ToBits, FromBits, Pow2;
    ByteRange(b);
    Pow2Values();
    TwoBits();
    ToBitsSplit(b as int, 6, 2);
    FromToBits(b as int / 4, 6);
    SmallValue(b as int / 4, 64);
  }

  lemma TwoBits()
    ensures Pow2(2) == 4
  {
    assert Pow2(1) == 2;
  }

  lemma LowTen(y: int, z: int)
    requires 0 <= y < 256 && 0 <= z < 256
    ensures FromBits(ToBits(y, 2) + ToBits(z, 8)) == y % 4 * 256 + z
  {
    hide ToBits, FromBits, Pow2;
    Pow2Values();
    TwoBits();
    var v := y % 4 * 256 + z;
    ToBitsSplit(v, 2, 8);
    DivMod(v, 256, y % 4, z);
    ToBitsMod(v, 8, 8);
    ToBitsMod(y, 2, 2);
    FromToBits(v, 10);
    SmallValue(v, 1024);
  }

  /** What is left to check once the header says that the message has len bytes. */
  ghost function BodyVerdict(buf: seq<Byte>, len: nat): Step<nat> {
    if |buf| < len + 6 then Fail(MessageExceedsBuffer)
    else if Crc(buf[..len + 3]) != Join3(buf[len + 3], buf[len + 4], buf[len + 5]) then Fail(CrcMismatch)
    else Next(len, BitsOf(buf[3..]))
  }

  /** The checks on a buffer, in the order they are made, by its bytes. */
  lemma FrameVerdict(buf: seq<Byte>)
    ensures |buf| < 7 ==> DecodeFrame(buf) == Fail(ShortBuffer)
    ensures |buf| >= 7 && (buf[0] != 0xD3 || buf[1] as int >= 4) ==> DecodeFrame(buf) == Fail(UnknownData)
    ensures |buf| >= 7 && buf[0] == 0xD3 && buf[1] as int < 4 ==>
      DecodeFrame(buf) == BodyVerdict(buf, buf[1] as int * 256 + buf[2] as int)
  {
    hide DecodeFrame, BodyVerdict, ReadSlots, HeaderSlots, BitsOf;
    if |buf| < 7 {
      ShortVerdict(buf);
    } else {
      HeaderRead(buf);
      FirstByte(buf[0]);
      var y, z := buf[1] as int, buf[2] as int;
      TopBits(y, z);
      VerdictBy(buf, buf[0] as int, y / 4, y % 4 * 256 + z);
    }
  }

  lemma ShortVerdict(buf: seq<Byte>)
    requires |buf| < 7
    ensures DecodeFrame(buf) == Fail(ShortBuffer)
  {
  }

  lemma VerdictBy(buf: seq<Byte>, x: int, y: int, len: nat)
    requires |buf| >= 7 && ReadSlots(HeaderSlots(), BitsOf(buf)) == Next([x, y, len], BitsOf(buf[3..]))
    ensures DecodeFrame(buf) == if x != 0xD3 || y != 0 then Fail(UnknownData) else BodyVerdict(buf, len)
  {
    hide DecodeFrame, ReadSlots, HeaderSlots, BitsOf, BodyVerdict;
    if x == 0xD3 && y == 0 {
      GoodHeader(buf, len);
    } else {
      BadHeader(buf, x, y, len);
    }
  }

  lemma BadHeader(buf: seq<Byte>, x: int, y: int, len: nat)
    requires |buf| >= 7 && ReadSlots(HeaderSlots(), BitsOf(buf)) == Next([x, y, len], BitsOf(buf[3..]))
    requires x != 0xD3 || y != 0
    ensures DecodeFrame(buf) == Fail(UnknownData)
  {
    hide ReadSlots, HeaderSlots, BitsOf, Crc, Join3;
  }

  lemma GoodHeader(buf: seq<Byte>, len: nat)
    requires |buf| >= 7 && ReadSlots(HeaderSlots(), BitsOf(buf)) == Next([0xD3, 0, len], BitsOf(buf[3..]))
    ensures DecodeFrame(buf) == BodyVerdict(buf, len)
  {
    hide ReadSlots, BitsOf, Crc, Join3;
  }

  lemma HeaderRead(buf: seq<Byte>)
    requires |buf| >= 3
    ensures ReadSlots(HeaderSlots(), BitsOf(buf))
         == Next([buf[0] as int, buf[1] as int / 4, buf[1] as int % 4 * 256 + buf[2] as int], BitsOf(buf[3..]))
  {
    hide ReadSlots, FromBits, BitsOf, HeaderSlots;
    var s, t := buf[..3], buf[3..];
    assert buf == s + t;
    BitsOfAppend(s, t);
    var h := BitsOf(s);
    HeaderValues(h, BitsOf(t));
    HeaderNumbers(s);
    NumbersAgree(s, h, buf);
  }

  lemma NumbersAgree(s: seq<Byte>, h: BitString, buf: seq<Byte>)
    requires |s| == 3 && |h| == 24 && |buf| >= 3 && s[0] == buf[0] && s[1] == buf[1] && s[2] == buf[2]
    requires FromBits(h[..8]) == s[0] as int && FromBits(h[8..14]) == s[1] as int / 4
    requires FromBits(h[14..]) == s[1] as int % 4 * 256 + s[2] as int
    ensures [FromBits(h[..8]), FromBits(h[8..14]), FromBits(h[14..])]
         == [buf[0] as int, buf[1] as int / 4, buf[1] as int % 4 * 256 + buf[2] as int]
  {
    hide FromBits;
  }

  lemma TopBits(y: int, z: int)
    ensures y / 4 == 0 <==> 0 <= y < 4
    ensures 0 <= y < 4 ==> y % 4 * 256 + z == y * 256 + z
  {
  }

  lemma FirstByte(b: Byte)
    ensures b as int == 0xD3 <==> b == 0xD3
  {
  }

  // ---------- what is written and what is expected ----------

  /** Type number, epoch width, epoch, and the satellites a message is made of. */
  lemma MessageWritten(c: ClockOrbitData, k: Kind)
    requires IsClockOrbit(c)
    ensures var d := DraftOf(c, k);
      && d.number == (match k case GpsOrbit => 4050 case GpsClock => 4051 case GpsCombined => 4056
                              case GlonassOrbit => 4053 case GlonassClock => 4054 case GlonassCombined => 4057)
      && d.epochBits == (if d.number in {4050, 4051, 4056} then 20 else 17)
      && d.epoch == (if d.number in {4050, 4051, 4056} then c.GPSEpochTime else c.GLONASSEpochTime)
      && |d.groups| == (if d.number in {4050, 4051, 4056} then c.NumberOfGPSSat else c.NumberOfGLONASSSat)
      && forall i :: 0 <= i < |d.groups| ==>
           d.groups[i] == SatFields(c.Sat[if d.number in {4050, 4051, 4056} then i else 32 + i], c.SatRefPoint,
                                    c.SatRefDatum, d.number !in {4051, 4054}, d.number !in {4050, 4053})
  {
    hide SatFields;
  }

  /** The messages MakeClockOrbit chooses: combined ones take the place of separate ones only if all are asked for. */
  lemma PlanHolds(c: ClockOrbitData, number: int, k: Kind)
    requires IsClockOrbit(c)
    ensures DraftOf(c, k) in Plan(c, number) <==>
      && k.Count(c) != 0 && (number == 0 || number == k.Number())
      && (k.HasOrbit() ==> c.OrbitDataSupplied) && (k.HasClock() ==> c.ClockDataSupplied)
      && (number == 0 && c.OrbitDataSupplied && c.ClockDataSupplied ==> k.HasOrbit() && k.HasClock())
  {
    hide SatGroups, IsClockOrbit, Taken;
    var s := Branches(c, number);
    forall j | 0 <= j < 6
      ensures s[j].1 == DraftOf(c, k) <==> j == KindIndex(k)
    {
    }
    TakenMembers(s, DraftOf(c, k));
    assert DraftOf(c, k) in Taken(s) <==> s[KindIndex(k)].0;
    var orbit, clock := c.OrbitDataSupplied, c.ClockDataSupplied;
    match k
    case GpsOrbit => assert s[0].0 <==> k.Count(c) != 0 && orbit && ((number == 0 && !clock) || number == 4050);
    case GpsClock => assert s[1].0 <==> k.Count(c) != 0 && clock && ((number == 0 && !orbit) || number == 4051);
    case GpsCombined => assert s[2].0 <==> k.Count(c) != 0 && orbit && clock && (number == 0 || number == 4056);
    case GlonassOrbit => assert s[3].0 <==> k.Count(c) != 0 && orbit && ((number == 0 && !clock) || number == 4053);
    case GlonassClock => assert s[4].0 <==> k.Count(c) != 0 && clock && ((number == 0 && !orbit) || number == 4054);
    case GlonassCombined => assert s[5].0 <==> k.Count(c) != 0 && orbit && clock && (number == 0 || number == 4057);
  }

  /** Where a message type stands in a chain. */
  function Place(number: int): nat {
    match number
    case 4050 => 0
    case 4051 => 1
    case 4056 => 2
    case 4053 => 3
    case 4054 => 4
    case 4057 => 5
    case _ => 6
  }

  /** The messages of a chain follow one another in that order, each at most once. */
  lemma PlanOrdered(c: ClockOrbitData, number: int)
    requires IsClockOrbit(c)
    ensures Ascending(Plan(c, number), 6)
  {
    hide SatGroups, IsClockOrbit, Taken;
    var s := Branches(c, number);
    assert Place(s[0].1.number) == 0 && Place(s[1].1.number) == 1 && Place(s[2].1.number) == 2;
    assert Place(s[3].1.number) == 3 && Place(s[4].1.number) == 4 && Place(s[5].1.number) == 5;
    TakenOrdered(s);
  }

  predicate Ascending(p: seq<Draft>, limit: int) {
    && (forall i :: 0 <= i < |p| ==> Place(p[i].number) < limit)
    && forall i, j :: 0 <= i < j < |p| ==> Place(p[i].number) < Place(p[j].number)
  }

  lemma {:induction false} TakenOrdered(s: seq<(bool, Draft)>)
    requires forall k :: 0 <= k < |s| ==> Place(s[k].1.number) == k
    ensures Ascending(Taken(s), |s|)
  {
    if s != [] {
      var n, p, q := |s| - 1, Taken(s), Taken(s[..|s| - 1]);
      TakenOrdered(s[..n]);
      assert p == q + Opt(s[n].0, s[n].1) && Place(s[n].1.number) == n;
      assert forall i :: 0 <= i < |q| ==> p[i] == q[i];
      assert forall i :: |q| <= i < |p| ==> p[i] == s[n].1;
    }
  }

  function KindIndex(k: Kind): nat {
    match k
    case GpsOrbit => 0
    case GpsClock => 1
    case GpsCombined => 2
    case GlonassOrbit => 3
    case GlonassClock => 4
    case GlonassCombined => 5
  }

  lemma {:induction false} TakenMembers(s: seq<(bool, Draft)>, d: Draft)
    ensures d in Taken(s) <==> exists j :: 0 <= j < |s| && s[j].0 && s[j].1 == d
  {
    if s != [] {
      var n := |s| - 1;
      TakenMembers(s[..n], d);
      assert forall j :: 0 <= j < n ==> s[..n][j] == s[j];
    }
  }

  /** The whole structure that a message in range and quiet decodes to, field by field. */
  lemma ExpectedFields(c: ClockOrbitData, k: Kind)
    requires IsClockOrbit(c)
    ensures var e, gps := Expected(c, k), k.GpsOrbit? || k.GpsClock? || k.GpsCombined?;
      && e.GPSEpochTime == (if gps then c.GPSEpochTime else 0)
      && e.GLONASSEpochTime == (if gps then 0 else c.GLONASSEpochTime)
      && e.NumberOfGPSSat == (if gps then c.NumberOfGPSSat else 0)
      && e.NumberOfGLONASSSat == (if gps then 0 else c.NumberOfGLONASSSat)
      && e.OrbitDataSupplied == !(k.GpsClock? || k.GlonassClock?)
      && e.ClockDataSupplied == !(k.GpsOrbit? || k.GlonassOrbit?)
      && e.epochSize == (if gps then 1 else 0) && (gps ==> e.epochGPS[0] == c.GPSEpochTime)
      && |e.Sat| == 56
      && forall i :: 0 <= i < 56 ==>
           e.Sat[i] == if (if gps then i < c.NumberOfGPSSat else 32 <= i < 32 + c.NumberOfGLONASSSat)
                       then Quantised(c.Sat[i], !(k.GpsClock? || k.GlonassClock?), !(k.GpsOrbit? || k.GlonassOrbit?))
                       else NO_SAT
  {
    hide Quantised;
  }

  /** A value that comes back: what was sent, cut towards zero to a multiple of the field's quantum. */
  lemma QuantisedValues(s: SatData, orbit: bool, clock: bool, k: nat)
    requires IsSat(s)
    ensures var q := Quantised(s, orbit, clock);
      && q.ID == s.ID && q.IOD == s.IOD
      && (orbit && k < 3 ==> q.Orbit[k] == Trunc(1000.0 * s.Orbit[k]) as real * 0.001)
      && (orbit && 3 <= k < 6 ==> q.Orbit[k] == Trunc(100000.0 * s.Orbit[k]) as real * 0.00001)
      && (orbit && 6 <= k < 9 ==> q.Orbit[k] == Trunc(5000000.0 * s.Orbit[k]) as real * 0.0000002)
      && (clock ==> q.Clock[0] == Trunc(1000.0 * s.Clock[0]) as real * 0.001)
      && (clock ==> q.Clock[1] == Trunc(100000.0 * s.Clock[1]) as real * 0.00001)
      && (clock ==> q.Clock[2] == Trunc(5000000.0 * s.Clock[2]) as real * 0.0000002)
  {
    hide Trunc, OrbitUnits, ClockUnits;
    if k < 9 {
      UnitsAre(OrbitSteps(k, s.Orbit[k]));
    }
    UnitsAre(ClockSteps(0, s.Clock[0]));
    UnitsAre(ClockSteps(1, s.Clock[1]));
    UnitsAre(ClockSteps(2, s.Clock[2]));
  }

  // ---------- bias messages ----------

  /** The fields of a bias satellite, in order: number, count, and a type and a value in hundredths for each bias. */
  lemma {:induction false} BiasesWritten(bs: seq<CodeBias>)
    ensures |BiasListFields(bs)| == 2 * |bs|
    ensures forall j :: 0 <= j < |bs| ==>
      BiasListFields(bs)[2 * j] == Field(5, bs[j].Type)
      && BiasListFields(bs)[2 * j + 1] == Field(20, Trunc(100.0 * bs[j].Value))
  {
    hide Trunc;
    if bs != [] {
      BiasesWritten(bs[..|bs| - 1]);
    }
  }

  lemma BiasMessageWritten(d: BiasData, gps: bool)
    requires IsBias(d)
    ensures var m := BiasDraft(d, gps);
      && m.number == (if gps then 4052 else 4055) && m.epochBits == 20
      && m.epoch == (if gps then d.GPSEpochTime else d.GLONASSEpochTime)
      && |m.groups| == (if gps then d.NumberOfGPSSat else d.NumberOfGLONASSSat)
      && forall i :: 0 <= i < |m.groups| ==>
           var s := d.Sat[if gps then i else 32 + i];
           m.groups[i] == [Field(6, s.ID), Field(5, s.NumberOfCodeBiases)]
                        + BiasListFields(s.Biases[..s.NumberOfCodeBiases])
  {
    hide BiasListFields;
  }

  /** The bias structure that a message in range decodes to, field by field. */
  lemma ExpectedBiasFields(d: BiasData, gps: bool)
    requires IsBias(d)
    ensures var e := ExpectedBias(d, gps);
      && e.GPSEpochTime == (if gps then d.GPSEpochTime else 0)
      && e.GLONASSEpochTime == (if gps then 0 else d.GLONASSEpochTime)
      && e.NumberOfGPSSat == (if gps then d.NumberOfGPSSat else 0)
      && e.NumberOfGLONASSSat == (if gps then 0 else d.NumberOfGLONASSSat)
      && |e.Sat| == 56
      && forall i :: 0 <= i < 56 && (if gps then i < d.NumberOfGPSSat else 32 <= i < 32 + d.NumberOfGLONASSSat) ==>
           && e.Sat[i].ID == d.Sat[i].ID && e.Sat[i].NumberOfCodeBiases == d.Sat[i].NumberOfCodeBiases
           && |e.Sat[i].Biases| == 10
           && forall j :: 0 <= j < d.Sat[i].NumberOfCodeBiases ==>
                && e.Sat[i].Biases[j].Type == d.Sat[i].Biases[j].Type
                && e.Sat[i].Biases[j].Value == Trunc(100.0 * d.Sat[i].Biases[j].Value) as real * 0.01
  {
    hide Trunc;
  }

  lemma BiasPlanHolds(d: BiasData, number: int)
    requires IsBias(d)
    ensures BiasDraft(d, true) in BiasPlan(d, number) <==> d.NumberOfGPSSat != 0 && (number == 0 || number == 4052)
    ensures BiasDraft(d, false) in BiasPlan(d, number) <==> d.NumberOfGLONASSSat != 0 && (number == 0 || number == 4055)
    ensures |BiasPlan(d, number)| == 2 ==> BiasPlan(d, number)[0] == BiasDraft(d, true)
  {
    hide BiasGroups, Taken;
    var s := BiasBranches(d, number);
    TakenMembers(s, BiasDraft(d, true));
    TakenMembers(s, BiasDraft(d, false));
    assert s == [s[0]] + [s[1]];
    TakenTwo(s);
  }

  lemma TakenTwo(s: seq<(bool, Draft)>)
    requires |s| == 2
    ensures Taken(s) == Opt(s[0].0, s[0].1) + Opt(s[1].0, s[1].1)
  {
    assert s[..1][..0] == [];
  }
}
