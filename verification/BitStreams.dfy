// The bit packer and unpacker behind the ADDBITS and GETBITS macros of clock_orbit_rtcm.c: a
// 64-bit shift buffer in front of a byte buffer.
module BitStreams {
  import opened Bits

  /** bitbuffer << a | v on a 64-bit word, for v below 2^a. */
  function ShiftIn(bitbuffer: nat, a: nat, v: nat): (r: int) {
    (bitbuffer * TwoTo(a)) % 0x1_0000_0000_0000_0000 + v
  }

  function TwoTo(n: nat): (p: int)
    ensures p == Pow2(n)
  {
    if n == 0 then 1 else 2 * TwoTo(n - 1)
  }

  lemma TwoTo64()
    ensures Pow2(64) == 0x1_0000_0000_0000_0000
  {
    hide Pow2;
    Pow2Values();
    Pow2Add(8, 8);
    Pow2Add(16, 16);
    Pow2Add(32, 32);
  }

  /** What the shift buffer holds after a bits are shifted in. */
  lemma ShiftInBits(bitbuffer: nat, numbits: nat, a: nat, v: nat)
    requires numbits + a <= 64 && v < Pow2(a)
    ensures 0 <= ShiftIn(bitbuffer, a, v)
    ensures ToBits(ShiftIn(bitbuffer, a, v), numbits + a) == ToBits(bitbuffer, numbits) + ToBits(v, a)
  {
    hide ToBits, Pow2;
    var q, p := Pow2(64 - a), Pow2(a);
    TwoTo64();
    Pow2Add(64 - a, a);
    ModMul(bitbuffer, q, p);
    var r := bitbuffer % q;
    var w := ShiftIn(bitbuffer, a, v);
    assert w == r * p + v;
    DivMod(w, p, r, v);
    ToBitsSplit(w, numbits, a);
    ToBitsMod(bitbuffer, numbits, 64 - a);
    ToBitsMod(w, a, a);
    MulNonnegative(r, p);
  }

  lemma MulNonnegative(x: int, y: int)
    requires x >= 0 && y >= 0
    ensures x * y >= 0
  {
  }

  /** (bitbuffer << (64 - numbits)) >> (64 - a) picks the first a of the pending bits. */
  function TopBits(bitbuffer: nat, numbits: nat, a: nat): (r: int)
    requires a <= numbits <= 64
  {
    ((bitbuffer * TwoTo(64 - numbits)) % 0x1_0000_0000_0000_0000) / TwoTo(64 - a)
  }

  lemma TopBitsValue(bitbuffer: nat, numbits: nat, a: nat)
    requires a <= numbits <= 64
    ensures TopBits(bitbuffer, numbits, a) == FromBits(ToBits(bitbuffer, numbits)[..a])
    ensures 0 <= TopBits(bitbuffer, numbits, a) < Pow2(a)
    ensures ToBits(bitbuffer, numbits)[a..] == ToBits(bitbuffer, numbits - a)
  {
    hide ToBits, Pow2;
    var s, d := 64 - numbits, numbits - a;
    var ps, pd, pa := Pow2(s), Pow2(d), Pow2(a);
    TwoTo64();
    Pow2Add(numbits, s);
    Pow2Add(a, d);
    Pow2Add(d, s);
    ModMul(bitbuffer, Pow2(numbits), ps);
    MulDivCancel(bitbuffer % Pow2(numbits), pd, ps);
    ModDiv(bitbuffer, pa, pd);
    ToBitsSplit(bitbuffer, a, d);
    assert ToBits(bitbuffer, numbits)[..a] == ToBits(bitbuffer / pd, a);
    FromToBits(bitbuffer / pd, a);
  }

  /** ((int64_t)(bitbuffer << (64 - numbits))) >> (64 - a): the same bits, with sign extension. */
  function TopSigned(bitbuffer: nat, numbits: nat, a: nat): (r: int)
    requires a <= numbits <= 64
  {
    var w := (bitbuffer * TwoTo(64 - numbits)) % 0x1_0000_0000_0000_0000;
    var signed := if w >= 0x8000_0000_0000_0000 then w - 0x1_0000_0000_0000_0000 else w;
    signed / TwoTo(64 - a)
  }

  lemma TopSignedValue(bitbuffer: nat, numbits: nat, a: nat)
    requires 1 <= a <= numbits <= 64
    ensures TopSigned(bitbuffer, numbits, a) == SignedFromBits(ToBits(bitbuffer, numbits)[..a])
  {
    hide ToBits, Pow2, FromBits;
    var w := (bitbuffer * TwoTo(64 - numbits)) % 0x1_0000_0000_0000_0000;
    var p, half := Pow2(64 - a), Pow2(a - 1);
    var u := w / p;
    TopBitsValue(bitbuffer, numbits, a);
    assert u == TopBits(bitbuffer, numbits, a);
    SignOf(ToBits(bitbuffer, numbits)[..a]);
    TwoTo64();
    TwoToNext(a);
    TwoToNext(64);
    Pow2Add(a - 1, 64 - a);
    Pow2Add(a, 64 - a);
    DivAtLeast(w, half, p);
    DivShift(w, Pow2(a), p);
  }

  lemma TwoToNext(a: nat)
    requires a > 0
    ensures Pow2(a) == 2 * Pow2(a - 1)
  {
  }

  lemma DivAtLeast(w: int, h: int, p: int)
    requires p > 0
    ensures w >= h * p <==> w / p >= h
  {
    var q, r := w / p, w % p;
    if q >= h {
      MulMonotone(h, q, p);
    } else {
      MulMonotone(q + 1, h, p);
    }
  }

  lemma MulMonotone(x: int, y: int, p: int)
    requires x <= y && p > 0
    ensures x * p <= y * p
  {
  }

  lemma DivShift(w: int, k: int, p: int)
    requires p > 0
    ensures (w - k * p) / p == w / p - k
  {
    var q, r := w / p, w % p;
    assert w == q * p + r;
    assert (q - k) * p == q * p - k * p;
    DivMod(w - k * p, p, q - k, r);
  }

  // ---------- the packer ----------

  datatype Field = Field(width: nat, value: int)

  ghost function FieldBits(fs: seq<Field>): BitString {
    if |fs| == 0 then [] else FieldBits(fs[..|fs| - 1]) + ToBits(fs[|fs| - 1].value, fs[|fs| - 1].width)
  }

  lemma {:induction false} FieldBitsAppend(fs: seq<Field>, gs: seq<Field>)
    ensures FieldBits(fs + gs) == FieldBits(fs) + FieldBits(gs)
  {
    hide ToBits;
    if |gs| == 0 {
      assert fs + gs == fs;
    } else {
      FieldBitsAppend(fs, gs[..|gs| - 1]);
      assert (fs + gs)[..|fs + gs| - 1] == fs + gs[..|gs| - 1];
    }
  }

  class BitWriter {
    const buffer: array<Byte>
    const limit: nat
    var bitbuffer: nat
    var numbits: nat
    var size: nat
    var ressize: nat

    /** Between macros fewer than eight bits are pending. */
    ghost predicate Valid()
      reads this
    {
      Consistent() && numbits < 8
    }

    ghost predicate Consistent()
      reads this
    {
      limit <= buffer.Length && ressize + size == limit
    }

    /** Every bit added so far: the bytes stored, then the pending bits. */
    ghost function Stream(): (s: BitString)
      reads this, buffer
      requires Consistent()
      ensures |s| == 8 * ressize + numbits
    {
      BitsOf(buffer[..ressize]) + ToBits(bitbuffer, numbits)
    }

    constructor (buffer: array<Byte>, size: nat)
      requires size <= buffer.Length
      ensures Valid() && this.buffer == buffer && limit == size && Stream() == [] && ressize == 0
    {
      this.buffer := buffer;
      limit := size;
      bitbuffer := 0;
      numbits := 0;
      this.size := size;
      ressize := 0;
      new;
    }

    /** STOREBITS: move whole bytes from the shift buffer to the byte buffer. */
    method StoreBits() returns (ok: bool)
      requires Consistent() && numbits < 64
      modifies this, buffer
      ensures Consistent()
      ensures ok <==> |old(Stream())| / 8 <= limit
      ensures ok ==> Valid() && Stream() == old(Stream())
      ensures old(ressize) <= ressize && buffer[..old(ressize)] == old(buffer[..ressize])
      ensures buffer[limit..] == old(buffer[limit..])
    {
      hide ToBits, Pow2, BitsOf;
      while numbits >= 8
        invariant Consistent() && numbits < 64
        invariant Stream() == old(Stream())
        invariant old(ressize) <= ressize && buffer[..old(ressize)] == old(buffer[..ressize])
        invariant buffer[limit..] == old(buffer[limit..])
        decreases numbits
      {
        if size == 0 {
          return false;
        }
        ghost var done, pending := buffer[..ressize], ToBits(bitbuffer, numbits);
        var q := bitbuffer / TwoTo(numbits - 8);
        NextByte(bitbuffer, numbits);
        buffer[ressize] := ByteOf(q % 256);
        numbits := numbits - 8;
        ressize := ressize + 1;
        size := size - 1;
        assert buffer[..ressize] == done + [ByteOf(q % 256)];
        BitsOfSnoc(done, ByteOf(q % 256));
        StreamMoves(BitsOf(done), ByteBits(ByteOf(q % 256)), ToBits(bitbuffer, numbits), pending);
      }
      ok := true;
    }

    /** ADDBITS(a, b): append the low a bits of b, or fail for want of room. */
    method AddBits(a: nat, b: int) returns (ok: bool)
      requires Valid() && a <= 24
      modifies this, buffer
      ensures Consistent()
      ensures ok <==> |old(Stream()) + ToBits(b, a)| / 8 <= limit
      ensures ok ==> Valid() && Stream() == old(Stream()) + ToBits(b, a)
      ensures old(ressize) <= ressize && buffer[..old(ressize)] == old(buffer[..ressize])
      ensures buffer[limit..] == old(buffer[limit..])
    {
      hide ToBits, Pow2, BitsOf, TwoTo;
      var v := b % TwoTo(a);
      ShiftInBits(bitbuffer, numbits, a, v);
      ToBitsMod(b, a, a);
      ghost var before := Stream();
      bitbuffer := ShiftIn(bitbuffer, a, v);
      numbits := numbits + a;
      assert Stream() == before + ToBits(b, a);
      ok := StoreBits();
    }

    /** A run of ADDBITS macros. */
    method AddFields(fs: seq<Field>) returns (ok: bool)
      requires Valid() && forall k :: 0 <= k < |fs| ==> fs[k].width <= 24
      modifies this, buffer
      ensures Consistent()
      ensures ok <==> |old(Stream()) + FieldBits(fs)| / 8 <= limit
      ensures ok ==> Valid() && Stream() == old(Stream()) + FieldBits(fs)
      ensures old(ressize) <= ressize && buffer[..old(ressize)] == old(buffer[..ressize])
      ensures buffer[limit..] == old(buffer[limit..])
    {
      hide ToBits;
      FieldBitsGrow(fs, 0);
      for k := 0 to |fs|
        invariant Valid() && Stream() == old(Stream()) + FieldBits(fs[..k])
        invariant old(ressize) <= ressize && buffer[..old(ressize)] == old(buffer[..ressize])
        invariant buffer[limit..] == old(buffer[limit..])
      {
        assert fs[..k + 1][..k] == fs[..k];
        FieldBitsGrow(fs, k + 1);
        ghost var r := ressize;
        var good := AddBits(fs[k].width, fs[k].value);
        assert buffer[..old(ressize)] == buffer[..r][..old(ressize)];
        if !good {
          return false;
        }
      }
      assert fs[..|fs|] == fs;
      ok := true;
    }
  }

  lemma {:induction false} FieldBitsGrow(fs: seq<Field>, k: nat)
    requires k <= |fs|
    ensures |FieldBits(fs[..k])| <= |FieldBits(fs)|
  {
    FieldBitsAppend(fs[..k], fs[k..]);
    assert fs[..k] + fs[k..] == fs;
  }

  lemma NextByte(bitbuffer: nat, numbits: nat)
    requires 8 <= numbits < 64
    ensures 0 <= bitbuffer / TwoTo(numbits - 8)
    ensures ToBits(bitbuffer, numbits)
         == ByteBits(ByteOf((bitbuffer / TwoTo(numbits - 8)) % 256)) + ToBits(bitbuffer, numbits - 8)
  {
    hide ToBits, Pow2, TwoTo;
    var q := bitbuffer / TwoTo(numbits - 8);
    ToBitsSplit(bitbuffer, 8, numbits - 8);
    Pow2Values();
    ToBitsMod(q, 8, 8);
    ByteOfInt(q % 256);
    DivNonnegative(bitbuffer, TwoTo(numbits - 8));
  }

  lemma DivNonnegative(x: int, p: int)
    requires x >= 0 && p > 0
    ensures x / p >= 0
  {
  }

  lemma BitsOfSnoc(s: seq<Byte>, b: Byte)
    ensures BitsOf(s + [b]) == BitsOf(s) + ByteBits(b)
  {
    hide ByteBits;
    assert (s + [b])[..|s|] == s;
  }

  lemma StreamMoves(x: BitString, y: BitString, z: BitString, w: BitString)
    requires w == y + z
    ensures (x + y) + z == x + w
  {
  }

  // ---------- the unpacker ----------

  class BitReader {
    const buffer: array<Byte>
    var pos: nat
    var size: nat
    var bitbuffer: nat
    var numbits: nat

    ghost predicate Valid()
      reads this
    {
      pos + size <= buffer.Length && numbits < 8
    }

    /** Every bit still to be read: the loaded ones, then those of the bytes ahead. */
    ghost function Rest(): (s: BitString)
      reads this, buffer
      requires pos + size <= buffer.Length
      ensures |s| == numbits + 8 * size
    {
      ToBits(bitbuffer, numbits) + BitsOf(buffer[pos..pos + size])
    }

    constructor (buffer: array<Byte>, off: nat, size: nat)
      requires off + size <= buffer.Length
      ensures Valid() && this.buffer == buffer && pos == off && this.size == size && numbits == 0
      ensures Rest() == BitsOf(buffer[off..off + size])
    {
      this.buffer := buffer;
      pos := off;
      this.size := size;
      bitbuffer := 0;
      numbits := 0;
      new;
      assert ToBits(0, 0) == [];
      assert [] + BitsOf(buffer[off..off + size]) == BitsOf(buffer[off..off + size]);
    }

    /** LOADBITS: make at least a bits available, or fail at the end of the buffer. */
    method LoadBits(a: nat) returns (ok: bool)
      requires Valid() && a <= 24
      modifies this
      ensures pos + size <= buffer.Length && numbits < 32
      ensures ok <==> a <= |old(Rest())|
      ensures ok ==> numbits >= a && Rest() == old(Rest())
      ensures ok ==> numbits < a + 8
    {
      hide ToBits, BitsOf, TwoTo;
      while numbits < a
        invariant pos + size <= buffer.Length && numbits < a + 8
        invariant Rest() == old(Rest())
        decreases a - numbits
      {
        if size == 0 {
          return false;
        }
        ghost var loaded, ahead := ToBits(bitbuffer, numbits), buffer[pos..pos + size];
        var b := buffer[pos];
        ByteRange(b);
        Pow2Values();
        ShiftInBits(bitbuffer, numbits, 8, b as nat);
        bitbuffer := ShiftIn(bitbuffer, 8, b as nat);
        numbits := numbits + 8;
        pos := pos + 1;
        size := size - 1;
        assert ahead == [b] + buffer[pos..pos + size];
        BitsOfCons(b, buffer[pos..pos + size]);
        StreamMoves(loaded, ByteBits(b), BitsOf(buffer[pos..pos + size]), BitsOf(ahead));
      }
      ok := true;
    }

    /** GETBITS: the next a bits as an unsigned number. */
    method GetBits(a: nat) returns (ok: bool, v: int)
      requires Valid() && 1 <= a <= 24
      modifies this
      ensures ok <==> a <= |old(Rest())|
      ensures ok ==> Valid() && Rest() == old(Rest()[a..]) && v == old(FromBits(Rest()[..a]))
      ensures ok ==> 0 <= v < Pow2(a)
    {
      hide ToBits, BitsOf, FromBits, Pow2;
      v := 0;
      ghost var before := Rest();
      ok := LoadBits(a);
      if ok {
        TopBitsValue(bitbuffer, numbits, a);
        ghost var pending, ahead := ToBits(bitbuffer, numbits), BitsOf(buffer[pos..pos + size]);
        v := TopBits(bitbuffer, numbits, a);
        numbits := numbits - a;
        Prefix(pending, ahead, a);
      }
    }

    /** The integer behind GETFLOATSIGN: the next a bits in two's complement. */
    method GetSigned(a: nat) returns (ok: bool, v: int)
      requires Valid() && 1 <= a <= 24
      modifies this
      ensures ok <==> a <= |old(Rest())|
      ensures ok ==> Valid() && Rest() == old(Rest()[a..]) && v == old(SignedFromBits(Rest()[..a]))
    {
      hide ToBits, BitsOf, FromBits, Pow2, SignedFromBits;
      v := 0;
      ghost var before := Rest();
      ok := LoadBits(a);
      if ok {
        TopBitsValue(bitbuffer, numbits, a);
        TopSignedValue(bitbuffer, numbits, a);
        ghost var pending, ahead := ToBits(bitbuffer, numbits), BitsOf(buffer[pos..pos + size]);
        v := TopSigned(bitbuffer, numbits, a);
        numbits := numbits - a;
        Prefix(pending, ahead, a);
      }
    }

    /** SKIPBITS. */
    method SkipBits(a: nat) returns (ok: bool)
      requires Valid() && 1 <= a <= 24
      modifies this
      ensures ok <==> a <= |old(Rest())|
      ensures ok ==> Valid() && Rest() == old(Rest()[a..])
    {
      var v;
      ok, v := GetBits(a);
    }
  }

  lemma Prefix(p: BitString, q: BitString, a: nat)
    requires a <= |p|
    ensures (p + q)[..a] == p[..a] && (p + q)[a..] == p[a..] + q
  {
  }

  lemma {:induction false} BitsOfCons(b: Byte, s: seq<Byte>)
    ensures BitsOf([b] + s) == ByteBits(b) + BitsOf(s)
  {
    hide ByteBits;
    BitsOfAppend([b], s);
    BitsOfSnoc([], b);
    assert [] + [b] == [b];
  }

  lemma SignOf(s: BitString)
    requires |s| > 0
    ensures s[0] <==> FromBits(s) >= Pow2(|s| - 1)
  {
    var n := |s|;
    FromBitsBound(s);
    ToFromBits(s);
    LeadingBit(FromBits(s), n);
    SmallValue(FromBits(s), Pow2(n));
  }

  lemma SmallValue(v: int, p: int)
    requires 0 <= v < p
    ensures v % p == v
  {
  }
}
