// Type 4056: exactly which corrections survive the decoder's different layout.
module SsrCombined {
  import opened Bits
  import opened BitStreams
  import opened SsrBlocks
  import opened SsrMessages
  import opened SsrDecoder
  import opened SsrRoundTrip
  import opened CombinedBits

  // ---------- reading any bits as fields ----------

  function SlotsWidth(ss: seq<Slot>, k: nat): nat
    requires k <= |ss|
  {
    if k == 0 then 0 else SlotsWidth(ss, k - 1) + ss[k - 1].width
  }

  ghost function SlotValue(s: Slot, b: BitString): int {
    if s.signed then SignedFromBits(b) else FromBits(b)
  }

  /** The bits of slot k when the slots are laid over b. */
  ghost function Piece(ss: seq<Slot>, b: BitString, k: nat): (p: BitString)
    requires k < |ss| && |b| == SlotsWidth(ss, |ss|)
    ensures |p| == ss[k].width
  {
    SlotsWidthGrows(ss, k + 1, |ss|);
    b[SlotsWidth(ss, k)..SlotsWidth(ss, k + 1)]
  }

  ghost function PieceValues(ss: seq<Slot>, b: BitString): (vs: seq<int>)
    requires |b| == SlotsWidth(ss, |ss|)
    ensures |vs| == |ss| && forall k :: 0 <= k < |ss| ==> vs[k] == SlotValue(ss[k], Piece(ss, b, k))
  {
    seq(|ss|, k requires 0 <= k < |ss| => SlotValue(ss[k], Piece(ss, b, k)))
  }

  lemma {:induction false} SlotsWidthGrows(ss: seq<Slot>, k: nat, m: nat)
    requires k <= m <= |ss|
    ensures SlotsWidth(ss, k) <= SlotsWidth(ss, m)
  {
    if k < m {
      SlotsWidthGrows(ss, k, m - 1);
    }
  }

  lemma {:induction false} SlotsWidthPrefix(ss: seq<Slot>, m: nat, k: nat)
    requires k <= m <= |ss|
    ensures SlotsWidth(ss[..m], k) == SlotsWidth(ss, k)
  {
    if k > 0 {
      SlotsWidthPrefix(ss, m, k - 1);
    }
  }

  lemma PieceOfFront(ss: seq<Slot>, b: BitString, k: nat)
    requires k + 1 < |ss| && |b| == SlotsWidth(ss, |ss|)
    ensures var n := |ss|;
      && SlotsWidth(ss[..n - 1], n - 1) == SlotsWidth(ss, n - 1) <= |b|
      && Piece(ss[..n - 1], b[..SlotsWidth(ss, n - 1)], k) == Piece(ss, b, k)
  {
    hide SlotsWidth;
    var n := |ss|;
    SlotsWidthPrefix(ss, n - 1, n - 1);
    SlotsWidthPrefix(ss, n - 1, k);
    SlotsWidthPrefix(ss, n - 1, k + 1);
    SlotsWidthGrows(ss, k, k + 1);
    SlotsWidthGrows(ss, k + 1, n - 1);
    SlotsWidthGrows(ss, n - 1, n);
    PrefixSlice(b, SlotsWidth(ss, n - 1), SlotsWidth(ss, k), SlotsWidth(ss, k + 1));
  }

  lemma PrefixSlice(b: BitString, cut: nat, x: nat, y: nat)
    requires x <= y <= cut <= |b|
    ensures b[..cut][x..y] == b[x..y]
  {
  }

  /** Reading slots from bits of their total width yields the values of the pieces. */
  lemma {:induction false} ReadPieces(ss: seq<Slot>, b: BitString, tail: BitString)
    requires |b| == SlotsWidth(ss, |ss|)
    ensures ReadSlots(ss, b + tail) == Next(PieceValues(ss, b), tail)
  {
    hide SlotValue, Piece, ReadSlot;
    var n := |ss|;
    if n == 0 {
      assert b + tail == tail;
    } else {
      var cut := SlotsWidth(ss, n - 1);
      var front, last := b[..cut], b[cut..];
      SlotsWidthPrefix(ss, n - 1, n - 1);
      ReadPieces(ss[..n - 1], front, last + tail);
      assert front + (last + tail) == b + tail;
      ReadLast(ss[n - 1], last, tail);
      LastPiece(ss, b);
      FrontValues(ss, b);
      assert PieceValues(ss, b) == PieceValues(ss[..n - 1], front) + [SlotValue(ss[n - 1], last)];
    }
  }

  lemma LastPiece(ss: seq<Slot>, b: BitString)
    requires |ss| > 0 && |b| == SlotsWidth(ss, |ss|)
    ensures Piece(ss, b, |ss| - 1) == b[SlotsWidth(ss, |ss| - 1)..]
  {
  }

  lemma FrontValues(ss: seq<Slot>, b: BitString)
    requires |ss| > 0 && |b| == SlotsWidth(ss, |ss|)
    ensures var n := |ss|;
      && SlotsWidth(ss[..n - 1], n - 1) == SlotsWidth(ss, n - 1) <= |b|
      && forall k :: 0 <= k < n - 1 ==> PieceValues(ss[..n - 1], b[..SlotsWidth(ss, n - 1)])[k] == PieceValues(ss, b)[k]
  {
    hide SlotValue, Piece;
    var n := |ss|;
    SlotsWidthPrefix(ss, n - 1, n - 1);
    forall k | 0 <= k < n - 1
      ensures PieceValues(ss[..n - 1], b[..SlotsWidth(ss, n - 1)])[k] == PieceValues(ss, b)[k]
    {
      PieceOfFront(ss, b, k);
    }
  }

  lemma ReadLast(s: Slot, b: BitString, tail: BitString)
    requires |b| == s.width
    ensures ReadSlot(s, b + tail) == Next(SlotValue(s, b), tail)
  {
    Prefix(b, tail, s.width);
    assert b[..s.width] == b && b[s.width..] + tail == tail;
  }

  /** A piece has the value of a fitting field exactly when it has its bits. */
  lemma ValueIffBits(f: Field, s: Slot, b: BitString)
    requires Fits(f, s) && |b| == s.width
    ensures SlotValue(s, b) == f.value <==> b == ToBits(f.value, f.width)
  {
    hide ToBits, Pow2, FromBits;
    ToFromBits(b);
    if s.signed {
      SignedRoundTrip(f.value, f.width);
      SignedModulo(b);
    } else {
      FromToBits(f.value, f.width);
      SmallValue(f.value, Pow2(f.width));
    }
  }

  lemma SignedModulo(b: BitString)
    ensures ToBits(SignedFromBits(b), |b|) == ToBits(FromBits(b), |b|)
  {
    hide ToBits, FromBits;
    var v, p := FromBits(b), Pow2(|b|);
    if |b| > 0 && b[0] {
      FromBitsBound(b);
      ToBitsMod(v - p, |b|, |b|);
      DivMod(v - p, p, -1, v);
    }
  }

  /** A field is zero exactly when all its bits are. */
  lemma ZeroIffFalse(f: Field, s: Slot)
    requires Fits(f, s)
    ensures |ToBits(f.value, f.width)| == f.width
    ensures f.value == 0 <==> AllFalse(ToBits(f.value, f.width))
  {
    hide ToBits, Pow2, FromBits, SignedFromBits;
    ZeroBits(f.width);
    var z := Field(f.width, 0);
    var b := ToBits(f.value, f.width);
    if AllFalse(b) {
      FalseEqual(b, ToBits(0, f.width));
      ValueIffBits(f, s, b);
      ZeroFits(s);
      ValueIffBits(z, s, b);
    }
  }

  lemma ZeroFits(s: Slot)
    requires s.width > 0
    ensures Fits(Field(s.width, 0), s)
  {
  }

  // ---------- fields in a row ----------

  ghost function FieldsWidth(fs: seq<Field>, k: nat): nat
    requires k <= |fs|
  {
    if k == 0 then 0 else FieldsWidth(fs, k - 1) + fs[k - 1].width
  }

  /** Field k sits where the widths before it add up. */
  lemma {:induction false} FieldAt(fs: seq<Field>, k: nat)
    requires k < |fs|
    ensures FieldsWidth(fs, k) <= FieldsWidth(fs, k + 1) <= |FieldBits(fs)|
    ensures FieldBits(fs)[FieldsWidth(fs, k)..FieldsWidth(fs, k + 1)] == ToBits(fs[k].value, fs[k].width)
    decreases |fs|
  {
    hide ToBits;
    var n := |fs|;
    var front := fs[..n - 1];
    TotalWidth(front);
    FieldsWidthPrefix(fs, n - 1, n - 1);
    if k < n - 1 {
      FieldAt(front, k);
      FieldsWidthPrefix(fs, n - 1, k);
      FieldsWidthPrefix(fs, n - 1, k + 1);
    }
  }

  lemma {:induction false} TotalWidth(fs: seq<Field>)
    ensures |FieldBits(fs)| == FieldsWidth(fs, |fs|)
  {
    hide ToBits;
    if |fs| > 0 {
      TotalWidth(fs[..|fs| - 1]);
      FieldsWidthPrefix(fs, |fs| - 1, |fs| - 1);
    }
  }

  lemma {:induction false} FieldsWidthPrefix(fs: seq<Field>, m: nat, k: nat)
    requires k <= m <= |fs|
    ensures FieldsWidth(fs[..m], k) == FieldsWidth(fs, k)
  {
    if k > 0 {
      FieldsWidthPrefix(fs, m, k - 1);
    }
  }

  // ---------- one satellite ----------

  ghost function OrbitValue(s: SatData, k: nat): int
    requires IsSat(s) && k < 9
  {
    OrbitSteps(k, s.Orbit[k])
  }

  ghost function ClockValue(s: SatData, k: nat): int
    requires IsSat(s) && k < 3
  {
    ClockSteps(k, s.Clock[k])
  }

  ghost function GroupOf(s: SatData, p: int, d: int): BitString {
    FieldBits(SatFields(s, p, d, true, true))
  }

  lemma SatFieldsList(s: SatData, p: int, d: int)
    requires IsSat(s)
    ensures var fs := SatFields(s, p, d, true, true);
      && |fs| == 16 && fs[0] == Field(6, s.ID) && fs[1] == Field(8, s.IOD)
      && (forall k :: 0 <= k < 9 ==> fs[2 + k] == Field(20, OrbitValue(s, k)))
      && fs[11] == Field(1, p) && fs[12] == Field(1, d)
      && (forall k :: 0 <= k < 3 ==> fs[13 + k] == Field(20, ClockValue(s, k)))
  {
    var fs := SatFields(s, p, d, true, true);
    var os, cs := OrbitFields(s.Orbit), ClockFields(s.Clock);
    assert fs == [Field(6, s.ID), Field(8, s.IOD)] + os + [Field(1, p), Field(1, d)] + cs;
    forall k | 0 <= k < 9
      ensures fs[2 + k] == Field(20, OrbitValue(s, k))
    {
      assert fs[2 + k] == os[k] == Field(20, OrbitSteps(k, s.Orbit[k]));
    }
    forall k | 0 <= k < 3
      ensures fs[13 + k] == Field(20, ClockValue(s, k))
    {
      assert fs[13 + k] == cs[k] == Field(20, ClockSteps(k, s.Clock[k]));
    }
  }

  /** Where field k of a satellite starts. */
  function SatOffset(k: nat): nat
    requires k <= 16
  {
    if k == 0 then 0 else if k == 1 then 6 else if k <= 11 then 14 + 20 * (k - 2)
    else if k == 12 then 195 else 196 + 20 * (k - 13)
  }

  lemma {:induction false} SatOffsets(s: SatData, p: int, d: int, k: nat)
    requires IsSat(s) && k <= 16
    ensures |SatFields(s, p, d, true, true)| == 16 && FieldsWidth(SatFields(s, p, d, true, true), k) == SatOffset(k)
  {
    hide SatFields, OrbitValue, ClockValue;
    SatFieldsList(s, p, d);
    if k > 0 {
      SatOffsets(s, p, d, k - 1);
      var fs := SatFields(s, p, d, true, true);
      if 3 <= k <= 11 {
        assert fs[2 + (k - 3)] == Field(20, OrbitValue(s, k - 3));
      } else if 14 <= k {
        assert fs[13 + (k - 14)] == Field(20, ClockValue(s, k - 14));
      }
    }
  }

  lemma GroupSlice(s: SatData, p: int, d: int, k: nat)
    requires IsSat(s) && k < 16
    ensures |GroupOf(s, p, d)| == 256 && SatOffset(k) <= SatOffset(k + 1) <= 256
    ensures |SatFields(s, p, d, true, true)| == 16
    ensures GroupOf(s, p, d)[SatOffset(k)..SatOffset(k + 1)]
      == ToBits(SatFields(s, p, d, true, true)[k].value, SatFields(s, p, d, true, true)[k].width)
  {
    hide SatFields, FieldBits, ToBits, FieldsWidth;
    SatOffsets(s, p, d, k);
    SatOffsets(s, p, d, k + 1);
    SatOffsets(s, p, d, 16);
    TotalWidth(SatFields(s, p, d, true, true));
    FieldAt(SatFields(s, p, d, true, true), k);
  }

  // ---------- one step of the decoder ----------

  /** The bits of orbit value k of a satellite. */
  ghost function OrbitPiece(b: BitString, k: nat): (p: BitString)
    requires 34 + 20 * k <= |b|
    ensures |p| == 20
  {
    b[14 + 20 * k..34 + 20 * k]
  }

  /** The satellite the decoder makes of 96 bits. */
  ghost function StoredSat(w: BitString): (s: SatData)
    requires |w| == 96
    ensures IsSat(s)
  {
    SatData(FromBits(w[..6]), FromBits(w[6..14]),
            seq(9, k requires 0 <= k < 9 =>
              if k < 3 then OrbitUnits(k, SignedFromBits(OrbitPiece(w, k))) else 0.0),
            seq(3, k requires 0 <= k < 3 => if k < 1 then ClockUnits(k, SignedFromBits(w[76..96])) else 0.0))
  }

  ghost function StoreWindow(c: ClockOrbitData, i: nat, w: BitString): (r: ClockOrbitData)
    requires Shape(c) && i < |c.Sat| && |w| == 96
    ensures Shape(r)
  {
    c.(Sat := c.Sat[i := StoredSat(w)], SatRefPoint := FromBits(w[74..75]), SatRefDatum := FromBits(w[75..76]))
  }

  lemma ShortSlots()
    ensures var ss := PayloadSlots(3, 1);
      && ss == [Slot(8, false), Slot(20, true), Slot(20, true), Slot(20, true), Slot(1, false), Slot(1, false),
                Slot(20, true)]
      && SlotsWidth(ss, 0) == 0 && SlotsWidth(ss, 1) == 8 && SlotsWidth(ss, 2) == 28 && SlotsWidth(ss, 3) == 48
      && SlotsWidth(ss, 4) == 68 && SlotsWidth(ss, 5) == 69 && SlotsWidth(ss, 6) == 70 && SlotsWidth(ss, 7) == 90
  {
    var ss := PayloadSlots(3, 1);
    assert SlotsWidth(ss, 1) == 8 && SlotsWidth(ss, 3) == 48 && SlotsWidth(ss, 5) == 69;
  }

  lemma ShortValues(v: BitString)
    requires |v| == 90
    ensures |v| == SlotsWidth(PayloadSlots(3, 1), |PayloadSlots(3, 1)|)
    ensures PieceValues(PayloadSlots(3, 1), v) ==
      [FromBits(v[0..8]), SignedFromBits(v[8..28]), SignedFromBits(v[28..48]), SignedFromBits(v[48..68]),
       FromBits(v[68..69]), FromBits(v[69..70]), SignedFromBits(v[70..90])]
  {
    hide SlotsWidth, PayloadSlots, FromBits, SignedFromBits;
    ShortSlots();
  }

  lemma WindowDecodes(c: ClockOrbitData, i: nat, w: BitString, tail: BitString)
    requires Shape(c) && i < |c.Sat| && c.Sat[i] == NO_SAT && |w| == 96
    ensures DecodeSat(c, i, 3, 1, w + tail) == Next(StoreWindow(c, i, w), tail)
  {
    hide ReadSlot, ReadSlots, FromBits, SignedFromBits, SlotsWidth, PieceValues, PayloadSlots, StoredSat, StoreSat;
    var v := w[6..];
    assert w + tail == w[..6] + (v + tail);
    ReadLast(Slot(6, false), w[..6], v + tail);
    ShortSlots();
    ShortValues(v);
    ReadPieces(PayloadSlots(3, 1), v, tail);
    WindowStored(c, i, w);
  }

  lemma WindowStored(c: ClockOrbitData, i: nat, w: BitString)
    requires Shape(c) && i < |c.Sat| && c.Sat[i] == NO_SAT && |w| == 96
    ensures |w[6..]| == 90 == SlotsWidth(PayloadSlots(3, 1), |PayloadSlots(3, 1)|)
    ensures StoreSat(c, i, FromBits(w[..6]), PieceValues(PayloadSlots(3, 1), w[6..]), 3, 1) == StoreWindow(c, i, w)
  {
    hide FromBits, SignedFromBits, SlotsWidth, PieceValues, PayloadSlots, OrbitScale, ClockScale;
    var v := w[6..];
    ShortSlots();
    ShortValues(v);
    var vs := PieceValues(PayloadSlots(3, 1), v);
    assert v[0..8] == w[6..14] && v[8..28] == w[14..34] && v[28..48] == w[34..54] && v[48..68] == w[54..74];
    assert v[68..69] == w[74..75] && v[69..70] == w[75..76] && v[70..90] == w[76..96];
    assert Unscale(NO_SAT.Orbit, vs[1..4], true) == StoredSat(w).Orbit;
    assert Unscale(NO_SAT.Clock, vs[6..], false) == StoredSat(w).Clock;
  }

  // ---------- what must agree ----------

  /** The values a decoded window has in common with the satellite that was sent. */
  ghost predicate SameValues(w: BitString, s: SatData)
    requires |w| == 96 && IsSat(s)
  {
    && FromBits(w[..6]) == s.ID && FromBits(w[6..14]) == s.IOD
    && (forall k :: 0 <= k < 3 ==> SignedFromBits(OrbitPiece(w, k)) == OrbitValue(s, k))
    && (forall k :: 3 <= k < 9 ==> OrbitValue(s, k) == 0)
    && SignedFromBits(w[76..96]) == ClockValue(s, 0) && ClockValue(s, 1) == 0 && ClockValue(s, 2) == 0
  }

  lemma ScaledEqual(a: int, b: int, scale: real)
    requires scale > 0.0
    ensures a as real / scale == b as real / scale <==> a == b
    ensures 0.0 == b as real / scale <==> b == 0
  {
    assert a as real == (a as real / scale) * scale && b as real == (b as real / scale) * scale;
  }

  lemma OrbitUnitsEqual(k: nat, a: int, b: int)
    ensures OrbitUnits(k, a) == OrbitUnits(k, b) <==> a == b
    ensures 0.0 == OrbitUnits(k, b) <==> b == 0
  {
    var scale := OrbitScale(k);
    assert OrbitUnits(k, a) == a as real / scale && OrbitUnits(k, b) == b as real / scale;
    hide OrbitUnits, OrbitScale;
    ScaledEqual(a, b, scale);
  }

  lemma ClockUnitsEqual(k: nat, a: int, b: int)
    ensures ClockUnits(k, a) == ClockUnits(k, b) <==> a == b
    ensures 0.0 == ClockUnits(k, b) <==> b == 0
  {
    var scale := ClockScale(k);
    assert ClockUnits(k, a) == a as real / scale && ClockUnits(k, b) == b as real / scale;
    hide ClockUnits, ClockScale;
    ScaledEqual(a, b, scale);
  }

  /** The decoded satellite is the expected one exactly when those values agree. */
  lemma StoredIff(w: BitString, s: SatData)
    requires |w| == 96 && IsSat(s)
    ensures StoredSat(w) == Quantised(s, true, true) <==> SameValues(w, s)
  {
    hide FromBits, SignedFromBits, OrbitSteps, ClockSteps, OrbitUnits, ClockUnits, OrbitPiece;
    var x, q := StoredSat(w), Quantised(s, true, true);
    forall k | 0 <= k < 9
      ensures x.Orbit[k] == q.Orbit[k] <==>
        (if k < 3 then SignedFromBits(OrbitPiece(w, k)) else 0) == OrbitValue(s, k)
    {
      OrbitUnitsEqual(k, if k < 3 then SignedFromBits(OrbitPiece(w, k)) else 0, OrbitValue(s, k));
    }
    forall k | 0 <= k < 3
      ensures x.Clock[k] == q.Clock[k] <==> (if k < 1 then SignedFromBits(w[76..96]) else 0) == ClockValue(s, k)
    {
      ClockUnitsEqual(k, if k < 1 then SignedFromBits(w[76..96]) else 0, ClockValue(s, k));
    }
    StoredParts(w, s);
  }

  lemma StoredParts(w: BitString, s: SatData)
    requires |w| == 96 && IsSat(s)
    ensures StoredSat(w) == Quantised(s, true, true) <==>
      && FromBits(w[..6]) == s.ID && FromBits(w[6..14]) == s.IOD
      && (forall k :: 0 <= k < 9 ==> StoredSat(w).Orbit[k] == Quantised(s, true, true).Orbit[k])
      && (forall k :: 0 <= k < 3 ==> StoredSat(w).Clock[k] == Quantised(s, true, true).Clock[k])
  {
    hide FromBits, SignedFromBits, OrbitSteps, ClockSteps, OrbitUnits, ClockUnits;
    var x, q := StoredSat(w), Quantised(s, true, true);
    assert (forall k :: 0 <= k < 9 ==> x.Orbit[k] == q.Orbit[k]) ==> x.Orbit == q.Orbit;
    assert (forall k :: 0 <= k < 3 ==> x.Clock[k] == q.Clock[k]) ==> x.Clock == q.Clock;
  }

  /** The same in bits, against the group the encoder wrote. */
  ghost predicate SameBits(w: BitString, g: BitString)
    requires |w| == 96 && |g| == 256
  {
    w[..74] == g[..74] && w[76..] == g[196..216] && AllFalse(g[74..194]) && AllFalse(g[216..])
  }

  lemma FrontPieces(w: BitString, g: BitString)
    requires |w| >= 74 && |g| >= 74
    ensures w[..74] == g[..74] <==>
      && w[0..6] == g[0..6] && w[6..14] == g[6..14]
      && forall k :: 0 <= k < 3 ==> OrbitPiece(w, k) == OrbitPiece(g, k)
  {
    hide OrbitPiece;
    if w[..74] == g[..74] {
      forall a: nat, b: nat | a <= b <= 74
        ensures w[a..b] == g[a..b]
      {
        PrefixSlice(w, 74, a, b);
        PrefixSlice(g, 74, a, b);
      }
    }
    if w[0..6] == g[0..6] && w[6..14] == g[6..14] && w[14..34] == g[14..34] && w[34..54] == g[34..54]
      && w[54..74] == g[54..74]
    {
      assert w[..74] == w[0..6] + w[6..14] + w[14..34] + w[34..54] + w[54..74];
      assert g[..74] == g[0..6] + g[6..14] + g[14..34] + g[34..54] + g[54..74];
    }
    ThreePieces(w);
    ThreePieces(g);
  }

  lemma ThreePieces(b: BitString)
    requires |b| >= 74
    ensures OrbitPiece(b, 0) == b[14..34] && OrbitPiece(b, 1) == b[34..54] && OrbitPiece(b, 2) == b[54..74]
  {
  }

  lemma FalseSlice(b: BitString, x: nat, y: nat)
    requires x <= y <= |b| && AllFalse(b)
    ensures AllFalse(b[x..y])
  {
  }

  lemma SliceSlice(b: BitString, x: nat, y: nat, u: nat, v: nat)
    requires x <= y <= |b| && u <= v <= y - x
    ensures b[x..y][u..v] == b[x + u..x + v]
  {
    var l, r := b[x..y][u..v], b[x + u..x + v];
    assert forall i :: 0 <= i < v - u ==> l[i] == b[x..y][u + i] == b[x + u + i] == r[i];
    assert l == r;
  }

  lemma RatePieces(g: BitString)
    requires |g| == 256
    ensures AllFalse(g[74..194]) <==> forall k :: 3 <= k < 9 ==> AllFalse(OrbitPiece(g, k))
    ensures AllFalse(g[216..]) <==> AllFalse(g[216..236]) && AllFalse(g[236..256])
  {
    if AllFalse(g[74..194]) {
      forall k | 3 <= k < 9
        ensures AllFalse(OrbitPiece(g, k))
      {
        SliceSlice(g, 74, 194, 20 * k - 60, 20 * k - 40);
        FalseSlice(g[74..194], 20 * k - 60, 20 * k - 40);
      }
    }
    if forall k :: 3 <= k < 9 ==> AllFalse(OrbitPiece(g, k)) {
      SixPieces(g);
    }
    assert g[216..] == g[216..236] + g[236..256];
    if AllFalse(g[216..]) {
      SliceSlice(g, 216, 256, 0, 20);
      SliceSlice(g, 216, 256, 20, 40);
      FalseSlice(g[216..], 0, 20);
      FalseSlice(g[216..], 20, 40);
    }
  }

  lemma SixPieces(g: BitString)
    requires |g| == 256 && forall k :: 3 <= k < 9 ==> AllFalse(OrbitPiece(g, k))
    ensures AllFalse(g[74..194])
  {
    hide AllFalse;
    assert OrbitPiece(g, 3) == g[74..94] && OrbitPiece(g, 4) == g[94..114] && OrbitPiece(g, 5) == g[114..134];
    assert OrbitPiece(g, 6) == g[134..154] && OrbitPiece(g, 7) == g[154..174] && OrbitPiece(g, 8) == g[174..194];
    assert g[74..194] == ((((g[74..94] + g[94..114]) + g[114..134]) + g[134..154]) + g[154..174]) + g[174..194];
    FalseAppend(g[74..94], g[94..114]);
    FalseAppend(g[74..94] + g[94..114], g[114..134]);
    FalseAppend((g[74..94] + g[94..114]) + g[114..134], g[134..154]);
    FalseAppend(((g[74..94] + g[94..114]) + g[114..134]) + g[134..154], g[154..174]);
    FalseAppend((((g[74..94] + g[94..114]) + g[114..134]) + g[134..154]) + g[154..174], g[174..194]);
  }

  lemma FalseAppend(a: BitString, b: BitString)
    requires AllFalse(a) && AllFalse(b)
    ensures AllFalse(a + b)
  {
  }

  lemma GroupPieces(s: SatData, p: int, d: int)
    requires IsSat(s)
    ensures var g := GroupOf(s, p, d);
      && |g| == 256 && g[0..6] == ToBits(s.ID, 6) && g[6..14] == ToBits(s.IOD, 8)
      && (forall k :: 0 <= k < 9 ==> OrbitPiece(g, k) == ToBits(OrbitValue(s, k), 20))
      && g[194..195] == ToBits(p, 1) && g[195..196] == ToBits(d, 1)
      && (forall k :: 0 <= k < 3 ==> g[196 + 20 * k..216 + 20 * k] == ToBits(ClockValue(s, k), 20))
  {
    hide SatFields, FieldBits, ToBits, OrbitValue, ClockValue, GroupOf;
    SatFieldsList(s, p, d);
    GroupSlice(s, p, d, 0);
    GroupSlice(s, p, d, 1);
    GroupSlice(s, p, d, 11);
    GroupSlice(s, p, d, 12);
    forall k | 0 <= k < 9
      ensures OrbitPiece(GroupOf(s, p, d), k) == ToBits(OrbitValue(s, k), 20)
    {
      GroupSlice(s, p, d, 2 + k);
    }
    forall k | 0 <= k < 3
      ensures GroupOf(s, p, d)[196 + 20 * k..216 + 20 * k] == ToBits(ClockValue(s, k), 20)
    {
      GroupSlice(s, p, d, 13 + k);
    }
  }

  lemma FieldRanges(s: SatData)
    requires IsSat(s) && SatInRange(s, true, true)
    ensures Fits(Field(6, s.ID), Slot(6, false)) && Fits(Field(8, s.IOD), Slot(8, false))
    ensures forall k :: 0 <= k < 9 ==> Fits(Field(20, OrbitValue(s, k)), Slot(20, true))
    ensures forall k :: 0 <= k < 3 ==> Fits(Field(20, ClockValue(s, k)), Slot(20, true))
  {
    hide Pow2, OrbitSteps, ClockSteps;
    Pow2Values();
    assert forall k :: 0 <= k < 9 ==> InField(OrbitValue(s, k));
    assert forall k :: 0 <= k < 3 ==> InField(ClockValue(s, k));
  }

  /** Values agree exactly when bits do. */
  lemma ValuesIffBits(w: BitString, s: SatData, p: int, d: int)
    requires |w| == 96 && IsSat(s) && SatInRange(s, true, true)
    ensures |GroupOf(s, p, d)| == 256
    ensures SameValues(w, s) <==> SameBits(w, GroupOf(s, p, d))
  {
    hide GroupOf, ToBits, Fits, FromBits, SignedFromBits, OrbitValue, ClockValue, AllFalse, SatInRange, OrbitPiece;
    var g := GroupOf(s, p, d);
    GroupPieces(s, p, d);
    FieldRanges(s);
    FrontPieces(w, g);
    RatePieces(g);
    assert w[..6] == w[0..6] && w[76..] == w[76..96];
    ValueIffBits(Field(6, s.ID), Slot(6, false), w[..6]);
    ValueIffBits(Field(8, s.IOD), Slot(8, false), w[6..14]);
    ValueIffBits(Field(20, ClockValue(s, 0)), Slot(20, true), w[76..96]);
    assert g[196 + 20 * 0..216 + 20 * 0] == g[196..216] == ToBits(ClockValue(s, 0), 20);
    assert g[196 + 20 * 1..216 + 20 * 1] == g[216..236] == ToBits(ClockValue(s, 1), 20);
    assert g[196 + 20 * 2..216 + 20 * 2] == g[236..256] == ToBits(ClockValue(s, 2), 20);
    ZeroIffFalse(Field(20, ClockValue(s, 1)), Slot(20, true));
    ZeroIffFalse(Field(20, ClockValue(s, 2)), Slot(20, true));
    forall k | 0 <= k < 9
      ensures k < 3 ==>
        (SignedFromBits(OrbitPiece(w, k)) == OrbitValue(s, k) <==> OrbitPiece(w, k) == OrbitPiece(g, k))
      ensures OrbitValue(s, k) == 0 <==> AllFalse(OrbitPiece(g, k))
    {
      ZeroIffFalse(Field(20, OrbitValue(s, k)), Slot(20, true));
      if k < 3 {
        ValueIffBits(Field(20, OrbitValue(s, k)), Slot(20, true), OrbitPiece(w, k));
      }
    }
  }

  // ---------- the whole message ----------

  /** The structure after m windows. */
  ghost function AfterWindows(start: ClockOrbitData, s: BitString, m: nat): (r: ClockOrbitData)
    requires Shape(start) && m <= |start.Sat| && 96 * m <= |s|
    ensures Shape(r)
  {
    if m == 0 then start else StoreWindow(AfterWindows(start, s, m - 1), m - 1, s[96 * (m - 1)..96 * m])
  }

  lemma {:induction false} AfterWindowsSats(start: ClockOrbitData, s: BitString, m: nat, j: nat)
    requires Shape(start) && m <= |start.Sat| && 96 * m <= |s| && j < |start.Sat|
    ensures AfterWindows(start, s, m).Sat[j] == if j < m then StoredSat(s[96 * j..96 * j + 96]) else start.Sat[j]
    ensures AfterWindows(start, s, m) == start.(Sat := AfterWindows(start, s, m).Sat,
      SatRefPoint := if m > 0 then FromBits(s[96 * m - 22..96 * m - 21]) else start.SatRefPoint,
      SatRefDatum := if m > 0 then FromBits(s[96 * m - 21..96 * m - 20]) else start.SatRefDatum)
  {
    hide StoredSat, FromBits;
    if m > 0 {
      AfterWindowsSats(start, s, m - 1, j);
      var w := s[96 * (m - 1)..96 * m];
      SliceSlice(s, 96 * (m - 1), 96 * m, 74, 75);
      SliceSlice(s, 96 * (m - 1), 96 * m, 75, 76);
    }
  }

  lemma {:induction false} WindowsDecode(start: ClockOrbitData, s: BitString, m: nat, tail: BitString)
    requires Shape(start) && start.Sat == Fresh().Sat && m <= |start.Sat| && 96 * m <= |s|
    ensures DecodeSats(start, 0, m, 3, 1, s + tail) == Next(AfterWindows(start, s, m), s[96 * m..] + tail)
  {
    hide DecodeSat, StoreWindow, FromBits;
    if m > 0 {
      WindowsDecode(start, s, m - 1, tail);
      var c := AfterWindows(start, s, m - 1);
      AfterWindowsSats(start, s, m - 1, m - 1);
      var w, rest := s[96 * (m - 1)..96 * m], s[96 * m..] + tail;
      assert s[96 * (m - 1)..] + tail == w + rest;
      WindowDecodes(c, m - 1, w, rest);
    }
  }

  // ---------- the encoder's bits ----------

  ghost function AllGroups(c: ClockOrbitData): BitString
    requires IsClockOrbit(c)
  {
    GroupBits(SatGroups(c, GpsCombined))
  }

  ghost function GroupAt(c: ClockOrbitData, j: nat): BitString
    requires IsClockOrbit(c) && j < |c.Sat|
  {
    SatIsSat(c, j);
    GroupOf(c.Sat[j], c.SatRefPoint, c.SatRefDatum)
  }

  lemma SatIsSat(c: ClockOrbitData, j: nat)
    requires IsClockOrbit(c) && j < |c.Sat|
    ensures IsSat(c.Sat[j])
  {
  }

  lemma {:induction false} GroupsPlaced(gs: seq<seq<Field>>, j: nat)
    requires j < |gs| && forall i :: 0 <= i < |gs| ==> |FieldBits(gs[i])| == 256
    ensures |GroupBits(gs)| == 256 * |gs| && GroupBits(gs)[256 * j..256 * j + 256] == FieldBits(gs[j])
    decreases |gs|
  {
    hide FieldBits;
    var n := |gs|;
    if n > 1 {
      GroupsPlaced(gs[..n - 1], if j < n - 1 then j else 0);
    }
    var all, front := GroupBits(gs), GroupBits(gs[..n - 1]);
    assert |front| == 256 * (n - 1) && all == front + FieldBits(gs[n - 1]);
    if j < n - 1 {
      PrefixSlice(all, |front|, 256 * j, 256 * j + 256);
      assert all[..|front|] == front;
    } else {
      assert all[|front|..|front| + 256] == FieldBits(gs[n - 1]);
    }
  }

  lemma GroupPlace(c: ClockOrbitData, j: nat)
    requires IsClockOrbit(c) && j < c.NumberOfGPSSat
    ensures |AllGroups(c)| == 256 * c.NumberOfGPSSat && |GroupAt(c, j)| == 256
    ensures AllGroups(c)[256 * j..256 * j + 256] == GroupAt(c, j)
  {
    hide FieldBits, SatFields;
    var gs := SatGroups(c, GpsCombined);
    forall i | 0 <= i < |gs|
      ensures |FieldBits(gs[i])| == 256
    {
      SatIsSat(c, i);
      GroupSlice(c.Sat[i], c.SatRefPoint, c.SatRefDatum, 0);
    }
    GroupsPlaced(gs, j);
  }

  lemma NoGroups(c: ClockOrbitData)
    requires IsClockOrbit(c) && c.NumberOfGPSSat == 0
    ensures AllGroups(c) == []
  {
  }

  /** Copying, seen through the window and the group of satellite j. */
  lemma CopiedIsSame(s: BitString, j: nat, g: BitString)
    requires 256 * j + 256 <= |s| && g == s[256 * j..256 * j + 256]
    ensures Copied(s, j) <==> SameBits(s[96 * j..96 * j + 96], g)
  {
    hide AllFalse;
    SliceSlice(s, 96 * j, 96 * j + 96, 0, 74);
    SliceSlice(s, 96 * j, 96 * j + 96, 76, 96);
    SliceSlice(s, 256 * j, 256 * j + 256, 0, 74);
    SliceSlice(s, 256 * j, 256 * j + 256, 196, 216);
    SliceSlice(s, 256 * j, 256 * j + 256, 74, 194);
    SliceSlice(s, 256 * j, 256 * j + 256, 216, 256);
    var w := s[96 * j..96 * j + 96];
    assert w[..74] == w[0..74] && w[76..] == w[76..96] && g[..74] == g[0..74] && g[216..] == g[216..256];
  }

  // ---------- when the bits are clear ----------

  lemma FalseParts(a: BitString, b: BitString)
    ensures AllFalse(a + b) <==> AllFalse(a) && AllFalse(b)
  {
    if AllFalse(a + b) {
      FalseSlice(a + b, 0, |a|);
      FalseSlice(a + b, |a|, |a + b|);
      assert (a + b)[0..|a|] == a && (a + b)[|a|..|a + b|] == b;
    }
  }

  lemma AllFit16(s: SatData, p: int, d: int, k: nat) returns (slot: Slot)
    requires IsSat(s) && SatInRange(s, true, true) && 0 <= p < 2 && 0 <= d < 2 && k < 16
    ensures |SatFields(s, p, d, true, true)| == 16 && Fits(SatFields(s, p, d, true, true)[k], slot)
  {
    hide SatFields, Fits, OrbitValue, ClockValue, SatInRange;
    SatFieldsList(s, p, d);
    FieldRanges(s);
    FlagFits(p);
    FlagFits(d);
    var fs := SatFields(s, p, d, true, true);
    if k == 0 {
      slot := Slot(6, false);
    } else if k == 1 {
      slot := Slot(8, false);
    } else if k < 11 {
      slot := Slot(20, true);
      assert fs[2 + (k - 2)] == Field(20, OrbitValue(s, k - 2));
    } else if k < 13 {
      slot := Slot(1, false);
    } else {
      slot := Slot(20, true);
      assert fs[13 + (k - 13)] == Field(20, ClockValue(s, k - 13));
    }
  }

  lemma FlagFits(p: int)
    requires 0 <= p < 2
    ensures Fits(Field(1, p), Slot(1, false))
  {
    Pow2Values();
  }

  /** The bits from field a on are clear exactly when the fields from a on are zero. */
  lemma {:induction false} TailClear(s: SatData, p: int, d: int, a: nat)
    requires IsSat(s) && SatInRange(s, true, true) && 0 <= p < 2 && 0 <= d < 2 && a <= 16
    ensures |GroupOf(s, p, d)| == 256 && |SatFields(s, p, d, true, true)| == 16 && SatOffset(a) <= 256
    ensures AllFalse(GroupOf(s, p, d)[SatOffset(a)..]) <==>
      forall k :: a <= k < 16 ==> SatFields(s, p, d, true, true)[k].value == 0
    decreases 16 - a
  {
    hide SatFields, GroupOf, AllFalse, Fits, ToBits, SatInRange;
    var g, fs := GroupOf(s, p, d), SatFields(s, p, d, true, true);
    GroupSlice(s, p, d, 0);
    if a == 16 {
      assert g[256..] == [];
      NoBits();
    } else {
      TailClear(s, p, d, a + 1);
      GroupSlice(s, p, d, a);
      var slot := AllFit16(s, p, d, a);
      ZeroIffFalse(fs[a], slot);
      assert g[SatOffset(a)..] == g[SatOffset(a)..SatOffset(a + 1)] + g[SatOffset(a + 1)..];
      FalseParts(g[SatOffset(a)..SatOffset(a + 1)], g[SatOffset(a + 1)..]);
    }
  }

  lemma NoBits()
    ensures AllFalse([])
  {
  }

  /** Rates, accelerations, flags and clock values all truncate to zero. */
  ghost predicate Still(s: SatData, p: int, d: int)
    requires IsSat(s)
  {
    && (forall k :: 3 <= k < 9 ==> OrbitValue(s, k) == 0)
    && p == 0 && d == 0
    && (forall k :: 0 <= k < 3 ==> ClockValue(s, k) == 0)
  }

  /** Nothing but zeros. */
  ghost predicate Blank(s: SatData, p: int, d: int)
    requires IsSat(s)
  {
    Still(s, p, d) && s.ID == 0 && s.IOD == 0 && forall k :: 0 <= k < 3 ==> OrbitValue(s, k) == 0
  }

  lemma StillIffClear(s: SatData, p: int, d: int)
    requires IsSat(s) && SatInRange(s, true, true) && 0 <= p < 2 && 0 <= d < 2
    ensures |GroupOf(s, p, d)| == 256
    ensures AllFalse(GroupOf(s, p, d)[74..]) <==> Still(s, p, d)
    ensures AllFalse(GroupOf(s, p, d)) <==> Blank(s, p, d)
  {
    hide SatFields, GroupOf, AllFalse, SatInRange, Still, Blank, FieldValue;
    var g := GroupOf(s, p, d);
    TailClear(s, p, d, 5);
    TailClear(s, p, d, 0);
    assert g[0..] == g;
    FieldValues(s, p, d);
    StillFields(s, p, d);
    BlankFields(s, p, d);
  }

  /** The value of field k of a satellite. */
  ghost function FieldValue(s: SatData, p: int, d: int, k: nat): int
    requires IsSat(s) && k < 16
  {
    if k == 0 then s.ID else if k == 1 then s.IOD else if k < 11 then OrbitValue(s, k - 2)
    else if k == 11 then p else if k == 12 then d else ClockValue(s, k - 13)
  }

  lemma FieldValues(s: SatData, p: int, d: int)
    requires IsSat(s)
    ensures |SatFields(s, p, d, true, true)| == 16
    ensures forall k :: 0 <= k < 16 ==> SatFields(s, p, d, true, true)[k].value == FieldValue(s, p, d, k)
  {
    hide SatFields, OrbitValue, ClockValue;
    SatFieldsList(s, p, d);
    var fs := SatFields(s, p, d, true, true);
    forall k | 0 <= k < 16
      ensures fs[k].value == FieldValue(s, p, d, k)
    {
      if 2 <= k < 11 {
        assert fs[2 + (k - 2)] == Field(20, OrbitValue(s, k - 2));
      } else if 13 <= k {
        assert fs[13 + (k - 13)] == Field(20, ClockValue(s, k - 13));
      }
    }
  }

  lemma StillFields(s: SatData, p: int, d: int)
    requires IsSat(s)
    ensures Still(s, p, d) <==> forall k :: 5 <= k < 16 ==> FieldValue(s, p, d, k) == 0
  {
    hide OrbitValue, ClockValue;
    if forall k :: 5 <= k < 16 ==> FieldValue(s, p, d, k) == 0 {
      assert FieldValue(s, p, d, 11) == p && FieldValue(s, p, d, 12) == d;
      assert forall k :: 3 <= k < 9 ==> OrbitValue(s, k) == FieldValue(s, p, d, k + 2);
      assert forall k :: 0 <= k < 3 ==> ClockValue(s, k) == FieldValue(s, p, d, k + 13);
    }
  }

  lemma BlankFields(s: SatData, p: int, d: int)
    requires IsSat(s)
    ensures Blank(s, p, d) <==> forall k :: 0 <= k < 16 ==> FieldValue(s, p, d, k) == 0
  {
    hide OrbitValue, ClockValue, Still;
    StillFields(s, p, d);
    if forall k :: 0 <= k < 16 ==> FieldValue(s, p, d, k) == 0 {
      assert FieldValue(s, p, d, 0) == s.ID && FieldValue(s, p, d, 1) == s.IOD;
      assert forall k :: 0 <= k < 3 ==> OrbitValue(s, k) == FieldValue(s, p, d, k + 2);
    }
    if Blank(s, p, d) {
      forall k | 0 <= k < 16
        ensures FieldValue(s, p, d, k) == 0
      {
        if 2 <= k < 5 {
          assert OrbitValue(s, k - 2) == 0;
        }
      }
    }
  }

  // ---------- the exact condition ----------

  /**
   * The corrections that type 4056 carries: the flags are clear, the first satellite has neither rates nor
   * accelerations nor clock corrections, and every further satellite is all zeros.
   */
  ghost predicate Quiet(c: ClockOrbitData)
    requires IsClockOrbit(c)
  {
    c.NumberOfGPSSat > 0 ==>
      && QuietSat(c, 0, false)
      && forall j :: 1 <= j < c.NumberOfGPSSat ==> QuietSat(c, j, true)
  }

  ghost predicate QuietSat(c: ClockOrbitData, j: nat, blank: bool)
    requires IsClockOrbit(c) && j < |c.Sat|
  {
    SatIsSat(c, j);
    if blank then Blank(c.Sat[j], c.SatRefPoint, c.SatRefDatum) else Still(c.Sat[j], c.SatRefPoint, c.SatRefDatum)
  }

  lemma SatRanges(c: ClockOrbitData, j: nat)
    requires IsClockOrbit(c) && InRange(c, GpsCombined) && j < c.NumberOfGPSSat
    ensures j < |c.Sat| && IsSat(c.Sat[j]) && SatInRange(c.Sat[j], true, true)
    ensures 0 <= c.SatRefPoint < 2 && 0 <= c.SatRefDatum < 2
  {
    hide SatInRange, Pow2;
    SatIsSat(c, j);
  }

  lemma ClearByGroups(s: BitString, n: nat)
    requires n >= 1 && |s| == 256 * n
    ensures AllFalse(s[74..]) <==>
      AllFalse(s[0..256][74..]) && forall j :: 1 <= j < n ==> AllFalse(GroupBitsAt(s, j))
  {
    if AllFalse(s[74..]) {
      SliceSlice(s, 0, 256, 74, 256);
      assert s[0..256][74..] == s[0..256][74..256];
      SliceFalse(s, 74, 256);
      forall j | 1 <= j < n
        ensures AllFalse(GroupBitsAt(s, j))
      {
        SliceFalse(s, 256 * j, 256 * j + 256);
      }
    }
    if AllFalse(s[0..256][74..]) && forall j :: 1 <= j < n ==> AllFalse(GroupBitsAt(s, j)) {
      forall i | 0 <= i < |s| - 74
        ensures !s[74..][i]
      {
        var j, r := (74 + i) / 256, (74 + i) % 256;
        if j == 0 {
          assert s[0..256][74..][i] == s[74 + i];
        } else {
          assert GroupBitsAt(s, j)[r] == s[74 + i];
        }
      }
    }
  }

  ghost function GroupBitsAt(s: BitString, j: nat): (b: BitString)
    requires 256 * j + 256 <= |s|
    ensures |b| == 256
  {
    s[256 * j..256 * j + 256]
  }

  lemma ClearIffQuiet(c: ClockOrbitData)
    requires IsClockOrbit(c) && InRange(c, GpsCombined) && c.NumberOfGPSSat > 0
    ensures |AllGroups(c)| == 256 * c.NumberOfGPSSat
    ensures AllFalse(AllGroups(c)[74..]) <==> Quiet(c)
  {
    hide AllGroups, AllFalse, IsClockOrbit, InRange, Still, Blank, GroupOf;
    var s, n := AllGroups(c), c.NumberOfGPSSat;
    GroupPlace(c, 0);
    ClearByGroups(s, n);
    CountBound(c, GpsCombined);
    SatRanges(c, 0);
    StillIffClear(c.Sat[0], c.SatRefPoint, c.SatRefDatum);
    forall j | 1 <= j < n
      ensures AllFalse(GroupBitsAt(s, j)) <==> QuietSat(c, j, true)
    {
      GroupPlace(c, j);
      SatRanges(c, j);
      StillIffClear(c.Sat[j], c.SatRefPoint, c.SatRefDatum);
    }
  }

  lemma OneBit(b: BitString, v: int)
    requires |b| == 1 && 0 <= v < 2
    ensures FromBits(b) == v <==> b[0] == (v == 1)
    ensures b == ToBits(v, 1) ==> b[0] == (v == 1)
  {
    assert b[..0] == [];
  }

  lemma GroupFlags(c: ClockOrbitData, j: nat)
    requires IsClockOrbit(c) && InRange(c, GpsCombined) && j < c.NumberOfGPSSat
    ensures |AllGroups(c)| == 256 * c.NumberOfGPSSat
    ensures Flag(AllGroups(c), j, 0) == (c.SatRefPoint == 1) && Flag(AllGroups(c), j, 1) == (c.SatRefDatum == 1)
  {
    hide AllGroups, GroupOf, InRange, IsClockOrbit, ToBits;
    GroupPlace(c, j);
    SatRanges(c, j);
    GroupPieces(c.Sat[j], c.SatRefPoint, c.SatRefDatum);
    var g, s := GroupAt(c, j), AllGroups(c);
    OneBit(g[194..195], c.SatRefPoint);
    OneBit(g[195..196], c.SatRefDatum);
    assert g[194..195][0] == g[194] == s[256 * j..256 * j + 256][194] == s[256 * j + 194];
    assert g[195..196][0] == g[195] == s[256 * j..256 * j + 256][195] == s[256 * j + 195];
  }

  /** Satellite j as it should come back. */
  ghost function Wanted(c: ClockOrbitData, j: nat): (s: SatData)
    requires IsClockOrbit(c) && j < |c.Sat|
  {
    SatIsSat(c, j);
    Quantised(c.Sat[j], true, true)
  }

  /** Satellite j comes back as it should exactly when its bits are copied. */
  lemma SatIffCopied(c: ClockOrbitData, j: nat)
    requires IsClockOrbit(c) && InRange(c, GpsCombined) && j < c.NumberOfGPSSat
    ensures |AllGroups(c)| == 256 * c.NumberOfGPSSat && j < |c.Sat|
    ensures StoredSat(AllGroups(c)[96 * j..96 * j + 96]) == Wanted(c, j) <==> Copied(AllGroups(c), j)
  {
    hide AllGroups, GroupOf, InRange, IsClockOrbit, StoredSat, Quantised, Copied, SameBits, SameValues;
    GroupPlace(c, j);
    SatRanges(c, j);
    var w := AllGroups(c)[96 * j..96 * j + 96];
    StoredIff(w, c.Sat[j]);
    ValuesIffBits(w, c.Sat[j], c.SatRefPoint, c.SatRefDatum);
    CopiedIsSame(AllGroups(c), j, GroupAt(c, j));
  }

  /** The decoder's structure is the expected one exactly when the correction is quiet. */
  lemma ResultIffQuiet(c: ClockOrbitData, start: ClockOrbitData)
    requires IsClockOrbit(c) && InRange(c, GpsCombined)
    requires Shape(start) && start.Sat == Fresh().Sat
    ensures 96 * c.NumberOfGPSSat <= |AllGroups(c)| && c.NumberOfGPSSat <= |start.Sat|
    ensures AfterWindows(start, AllGroups(c), c.NumberOfGPSSat) == WithSats(start, c, GpsCombined, c.NumberOfGPSSat)
      <==> Quiet(c)
  {
    hide AllGroups, InRange, IsClockOrbit, StoredSat, Wanted, AllFalse, FromBits, QuietSat, Shape, WithSats;
    var s, n := AllGroups(c), c.NumberOfGPSSat;
    GpsCount(c);
    ShapeSats(start);
    if n == 0 {
      NoGroups(c);
      NoSats(start, c, GpsCombined);
    } else {
      WantedIffCopied(c);
      SameStructure(c, start, s);
      ClearIffQuiet(c);
    }
  }

  /** Satellites and flags come back as they should exactly when nothing is set behind the first 74 bits. */
  lemma WantedIffCopied(c: ClockOrbitData)
    requires IsClockOrbit(c) && InRange(c, GpsCombined) && 0 < c.NumberOfGPSSat
    ensures var s, n := AllGroups(c), c.NumberOfGPSSat;
      && |s| == 256 * n && n <= |c.Sat|
      && (AllFalse(s[74..]) <==>
        && (forall j :: 0 <= j < n ==> StoredSat(s[96 * j..96 * j + 96]) == Wanted(c, j))
        && FromBits(s[96 * n - 22..96 * n - 21]) == c.SatRefPoint
        && FromBits(s[96 * n - 21..96 * n - 20]) == c.SatRefDatum)
  {
    hide AllGroups, InRange, IsClockOrbit, StoredSat, Wanted, Copied, Flag, AllFalse, FromBits;
    var s, n := AllGroups(c), c.NumberOfGPSSat;
    GpsCount(c);
    forall j | 0 <= j < n
      ensures |s| == 256 * n && Flag(s, j, 0) == (c.SatRefPoint == 1) && Flag(s, j, 1) == (c.SatRefDatum == 1)
      ensures StoredSat(s[96 * j..96 * j + 96]) == Wanted(c, j) <==> Copied(s, j)
    {
      GroupFlags(c, j);
      SatIffCopied(c, j);
    }
    FlagsIffBits(c);
    CopiedIffClear(s, n, c.SatRefPoint == 1, c.SatRefDatum == 1);
  }

  lemma FlagsIffBits(c: ClockOrbitData)
    requires IsClockOrbit(c) && InRange(c, GpsCombined) && 0 < c.NumberOfGPSSat
    ensures var s, n := AllGroups(c), c.NumberOfGPSSat;
      && |s| == 256 * n
      && (FromBits(s[96 * n - 22..96 * n - 21]) == c.SatRefPoint <==> s[96 * n - 22] == (c.SatRefPoint == 1))
      && (FromBits(s[96 * n - 21..96 * n - 20]) == c.SatRefDatum <==> s[96 * n - 21] == (c.SatRefDatum == 1))
  {
    hide AllGroups, InRange, IsClockOrbit, FromBits;
    var s, n := AllGroups(c), c.NumberOfGPSSat;
    GroupPlace(c, 0);
    SatRanges(c, 0);
    OneBit(s[96 * n - 22..96 * n - 21], c.SatRefPoint);
    OneBit(s[96 * n - 21..96 * n - 20], c.SatRefDatum);
  }

  lemma SameStructure(c: ClockOrbitData, start: ClockOrbitData, s: BitString)
    requires IsClockOrbit(c) && Shape(start) && start.Sat == Fresh().Sat
    requires 0 < c.NumberOfGPSSat && |s| == 256 * c.NumberOfGPSSat
    ensures var n := c.NumberOfGPSSat;
      AfterWindows(start, s, n) == WithSats(start, c, GpsCombined, n) <==>
        && (forall j :: 0 <= j < n ==> StoredSat(s[96 * j..96 * j + 96]) == Wanted(c, j))
        && FromBits(s[96 * n - 22..96 * n - 21]) == c.SatRefPoint
        && FromBits(s[96 * n - 21..96 * n - 20]) == c.SatRefDatum
  {
    hide StoredSat, Wanted, FromBits, AfterWindows, WithSats, IsClockOrbit, Shape;
    var n := c.NumberOfGPSSat;
    GpsCount(c);
    ShapeSats(start);
    var x, y := AfterWindows(start, s, n), WithSats(start, c, GpsCombined, n);
    ShapeSats(x);
    AfterWindowsSats(start, s, n, 0);
    WithSatsShape(start, c, n);
    forall j | 0 <= j < |start.Sat|
      ensures x.Sat[j] == if j < n then StoredSat(s[96 * j..96 * j + 96]) else start.Sat[j]
    {
      AfterWindowsSats(start, s, n, j);
    }
    SatsEqual(x.Sat, y.Sat, start.Sat, n);
  }

  lemma ShapeSats(c: ClockOrbitData)
    requires Shape(c)
    ensures |c.Sat| == NUMGPS + NUMGLONASS
  {
  }

  lemma GpsCount(c: ClockOrbitData)
    requires IsClockOrbit(c)
    ensures 0 <= c.NumberOfGPSSat <= NUMGPS && |c.Sat| == NUMGPS + NUMGLONASS
  {
  }

  lemma SatsEqual(a: seq<SatData>, b: seq<SatData>, base: seq<SatData>, n: nat)
    requires n <= |a| == |b| == |base|
    requires forall j :: n <= j < |a| ==> a[j] == base[j]
    requires forall j :: n <= j < |b| ==> b[j] == base[j]
    ensures a == b <==> forall j :: 0 <= j < n ==> a[j] == b[j]
  {
    if forall j :: 0 <= j < n ==> a[j] == b[j] {
      assert forall j :: 0 <= j < |a| ==> a[j] == b[j];
    }
  }

  lemma WithSatsShape(start: ClockOrbitData, c: ClockOrbitData, n: nat)
    requires IsClockOrbit(c) && Shape(start) && 0 < n == c.NumberOfGPSSat
    ensures n <= |c.Sat| == |start.Sat| == |WithSats(start, c, GpsCombined, n).Sat|
    ensures WithSats(start, c, GpsCombined, n) == start.(Sat := WithSats(start, c, GpsCombined, n).Sat,
      SatRefPoint := c.SatRefPoint, SatRefDatum := c.SatRefDatum)
    ensures forall j :: 0 <= j < |start.Sat| ==>
      WithSats(start, c, GpsCombined, n).Sat[j] == if j < n then Wanted(c, j) else start.Sat[j]
  {
    hide Quantised;
  }

  /** The structure as it is when the satellites of the message are to be read. */
  ghost function CombinedStart(c: ClockOrbitData): (start: ClockOrbitData)
    ensures Shape(start) && start.Sat == Fresh().Sat
  {
    Supply(StoreCount(StoreEpoch(Fresh(), GpsCombined, c.GPSEpochTime), GpsCombined, c.NumberOfGPSSat), GpsCombined)
  }

  lemma GroupsSize(c: ClockOrbitData)
    requires IsClockOrbit(c)
    ensures |AllGroups(c)| == 256 * c.NumberOfGPSSat
  {
    hide AllGroups, GroupAt, IsClockOrbit;
    GpsCount(c);
    if c.NumberOfGPSSat > 0 {
      GroupPlace(c, 0);
    } else {
      NoGroups(c);
    }
  }

  /** What the decoder makes of the encoder's message. */
  ghost function CombinedResult(c: ClockOrbitData): ClockOrbitData
    requires IsClockOrbit(c)
  {
    GroupsSize(c);
    AfterWindows(CombinedStart(c), AllGroups(c), c.NumberOfGPSSat)
  }

  /** The message after its number. */
  lemma CombinedDecodes(c: ClockOrbitData, mmi: int, tail: BitString)
    requires IsClockOrbit(c) && InRange(c, GpsCombined) && 0 <= mmi < 2
    ensures var r := DecodeMessage(Fresh(), GpsCombined,
              ToBits(c.GPSEpochTime, 20)
              + (FieldBits([Field(1, mmi), Field(6, 0), Field(5, c.NumberOfGPSSat)]) + (AllGroups(c) + tail)));
      r.Next? && r.state == (CombinedResult(c), mmi)
  {
    hide ReadSlot, ReadSlots, FieldBits, AllGroups, DecodeSats, AfterWindows, IsClockOrbit;
    var head := [Field(1, mmi), Field(6, 0), Field(5, c.NumberOfGPSSat)];
    var sats := AllGroups(c) + tail;
    ReadField(Field(20, c.GPSEpochTime), Slot(20, false), FieldBits(head) + sats);
    GpsCount(c);
    HeadFits(mmi, c.NumberOfGPSSat);
    ReadFields(head, HeadSlots(), sats);
    assert Values(head) == [mmi, 0, c.NumberOfGPSSat];
    GroupsSize(c);
    WindowsDecode(CombinedStart(c), AllGroups(c), c.NumberOfGPSSat, tail);
  }

  lemma CombinedBodyDecodes(c: ClockOrbitData, mmi: int, after: BitString, b: Option<BiasData>, used: int)
    requires IsClockOrbit(c) && InRange(c, GpsCombined) && 0 <= mmi < 2 && Shapes(None, b)
    ensures match ReadSlot(Slot(12, false), DraftBits(DraftOf(c, GpsCombined), mmi) + after)
      case Fail(_) => false
      case Next(number, r) =>
        DecodeBody(Some(Fresh()), b, number, r, used) == Outcome(Accept(mmi), Some(CombinedResult(c)), b, used)
  {
    hide ReadSlot, FieldBits, GroupBits, DraftBits, DecodeMessage, CombinedResult, InRange, SatGroups, IsClockOrbit;
    NumberDecodes(DraftOf(c, GpsCombined), mmi, after);
    CombinedDecodes(c, mmi, after);
    assert KindOf(4056) == Some(GpsCombined);
  }

  /** The encoder's block is always accepted. */
  lemma CombinedBlock(c: ClockOrbitData, mmi: int, blk: seq<Byte>, tail: seq<Byte>, b: Option<BiasData>)
    requires IsClockOrbit(c) && InRange(c, GpsCombined) && 0 <= mmi < 2
    requires IsBlock(blk, DraftBits(DraftOf(c, GpsCombined), mmi)) && Shapes(None, b)
    ensures Decode(Some(Fresh()), b, blk + tail) == Outcome(Accept(mmi), Some(CombinedResult(c)), b, |blk|)
  {
    hide FieldBits, DecodeFrame, DecodeBody, CombinedResult, InRange, IsClockOrbit, IsBlock, BitsOf, DraftBits, DraftOf;
    var body := DraftBits(DraftOf(c, GpsCombined), mmi);
    RangeCount(c, GpsCombined);
    BodyFits(c, GpsCombined, mmi);
    BodyLong(DraftOf(c, GpsCombined), mmi);
    FrameDecodes(blk, body, tail);
    BodyPrefix(blk, body, tail);
    BlockSize(blk, body);
    var bits := BitsOf(blk[3..] + tail);
    var after := bits[|body|..];
    assert bits == body + after;
    CombinedBodyDecodes(c, mmi, after, b, |blk|);
  }

  /**
   * Type 4056, exactly: the encoder's block is always accepted, and it decodes to the correction it was made from
   * if and only if that correction is quiet.
   */
  lemma CombinedRoundTripIff(c: ClockOrbitData, mmi: int, blk: seq<Byte>, tail: seq<Byte>, b: Option<BiasData>)
    requires IsClockOrbit(c) && InRange(c, GpsCombined) && 0 <= mmi < 2
    requires IsBlock(blk, DraftBits(DraftOf(c, GpsCombined), mmi)) && Shapes(None, b)
    ensures var o := Decode(Some(Fresh()), b, blk + tail);
      o.ret == Accept(mmi) && o.b == b && o.used == |blk|
    ensures Decode(Some(Fresh()), b, blk + tail) == Outcome(Accept(mmi), Some(Expected(c, GpsCombined)), b, |blk|)
      <==> Quiet(c)
  {
    hide Decode, InRange, IsClockOrbit, IsBlock, DraftBits, DraftOf, Quiet, AfterWindows, WithSats, AllGroups;
    CombinedBlock(c, mmi, blk, tail, b);
    ResultIffQuiet(c, CombinedStart(c));
  }

  /** One satellite with a radial rate is enough to break the round trip. */
  lemma CombinedRateLost() returns (c: ClockOrbitData)
    ensures IsClockOrbit(c) && InRange(c, GpsCombined) && !Quiet(c)
    ensures c.NumberOfGPSSat == 1 && c.Sat[0].Orbit[3] == 1.0
  {
    hide Pow2;
    Pow2Values();
    var one := SatData(1, 0, [0.0, 0.0, 0.0, 1.0, 0.0, 0.0, 0.0, 0.0, 0.0], [0.0, 0.0, 0.0]);
    c := Fresh().(NumberOfGPSSat := 1, Sat := Fresh().Sat[0 := one]);
    assert OrbitValue(c.Sat[0], 3) == 100000;
    assert forall k :: 0 <= k < 9 ==> InField(OrbitSteps(k, one.Orbit[k]));
    assert forall k :: 0 <= k < 3 ==> InField(ClockSteps(k, one.Clock[k]));
    assert SatInRange(one, true, true);
  }
}
