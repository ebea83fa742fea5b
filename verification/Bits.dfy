// Bit strings, most significant bit first, and the numbers they stand for.
module Bits {

  type BitString = seq<bool>
  type Byte = bv8

  ghost function Pow2(n: nat): (p: int)
    ensures p >= 1
  {
    if n == 0 then 1 else 2 * Pow2(n - 1)
  }

  /** The low n bits of v in two's complement. */
  ghost function ToBits(v: int, n: nat): (s: BitString)
    ensures |s| == n
    decreases n
  {
    if n == 0 then [] else ToBits(v / 2, n - 1) + [v % 2 == 1]
  }

  ghost function FromBits(s: BitString): nat {
    if |s| == 0 then 0 else 2 * FromBits(s[..|s| - 1]) + if s[|s| - 1] then 1 else 0
  }

  /** The two's complement reading of a bit string. */
  ghost function SignedFromBits(s: BitString): int {
    if |s| > 0 && s[0] then FromBits(s) - Pow2(|s|) else FromBits(s)
  }

  ghost function ByteBits(b: Byte): (s: BitString)
    ensures |s| == 8
  {
    ToBits(b as int, 8)
  }

  ghost function BitsOf(s: seq<Byte>): (r: BitString)
    ensures |r| == 8 * |s|
  {
    if |s| == 0 then [] else BitsOf(s[..|s| - 1]) + ByteBits(s[|s| - 1])
  }

  lemma {:induction false} Pow2Add(a: nat, b: nat)
    ensures Pow2(a + b) == Pow2(a) * Pow2(b)
  {
    if a > 0 {
      Pow2Add(a - 1, b);
      DoubleProduct(Pow2(a - 1), Pow2(b));
      assert Pow2(a + b) == 2 * Pow2(a - 1 + b);
    }
  }

  lemma DoubleProduct(x: int, y: int)
    ensures 2 * (x * y) == (2 * x) * y
  {
  }

  lemma Pow2Values()
    ensures Pow2(1) == 2 && Pow2(5) == 32 && Pow2(6) == 64 && Pow2(8) == 256 && Pow2(10) == 1024
    ensures Pow2(12) == 4096 && Pow2(17) == 131072 && Pow2(19) == 524288 && Pow2(20) == 1048576
    ensures Pow2(24) == 16777216
  {
    assert Pow2(4) == 16 && Pow2(8) == 256;
    Pow2Add(8, 8);
    Pow2Add(16, 8);
    Pow2Add(8, 4);
    assert Pow2(17) == 2 * Pow2(16);
    Pow2Add(16, 3);
    Pow2Add(16, 4);
    Pow2Add(8, 2);
  }

  // ---------- division by powers of two ----------

  lemma MulAtLeast(k: int, b: int)
    requires k >= 1 && b > 0
    ensures k * b >= b
  {
  }

  lemma DivMod(a: int, b: int, q: int, r: int)
    requires b > 0 && a == q * b + r && 0 <= r < b
    ensures a / b == q && a % b == r
  {
    var q', r' := a / b, a % b;
    assert (q - q') * b == r' - r by {
      assert a == q' * b + r';
    }
    if q > q' {
      MulAtLeast(q - q', b);
    } else if q < q' {
      MulAtLeast(q' - q, b);
    }
  }

  lemma DivDiv(a: int, b: int, c: int)
    requires b > 0 && c > 0
    ensures b * c > 0 && (a / b) / c == a / (b * c)
  {
    var q, r := a / b, a % b;
    var q2, r2 := q / c, q % c;
    MulAtLeast(b, c);
    Regroup(q2, c, r2, b);
    MulBelow(r2, c, b);
    DivMod(a, b * c, q2, r2 * b + r);
  }

  lemma Regroup(x: int, c: int, y: int, b: int)
    ensures (x * c + y) * b == x * (b * c) + y * b
  {
    assert (x * c) * b == x * (b * c);
  }

  lemma MulBelow(x: int, c: int, b: int)
    requires 0 <= x < c && b > 0
    ensures 0 <= x * b <= b * c - b
  {
    assert (c - 1 - x) * b >= 0;
    assert (c - 1 - x) * b == b * c - b - x * b;
  }

  lemma ModMul(x: int, q: int, p: int)
    requires q > 0 && p > 0
    ensures q * p > 0 && (x * p) % (q * p) == (x % q) * p
  {
    var k, r := x / q, x % q;
    MulAtLeast(q, p);
    Regroup(k, q, r, p);
    MulBelow(r, q, p);
    DivMod(x * p, q * p, k, r * p);
  }

  lemma ModDiv(x: int, q: int, p: int)
    requires q > 0 && p > 0
    ensures q * p > 0 && (x % (q * p)) / p == (x / p) % q
  {
    var y, s := x / p, x % p;
    var k, r := y / q, y % q;
    MulAtLeast(q, p);
    Regroup(k, q, r, p);
    MulBelow(r, q, p);
    DivMod(x, q * p, k, r * p + s);
    DivMod(r * p + s, p, r, s);
  }

  lemma MulDivCancel(x: int, q: int, p: int)
    requires q > 0 && p > 0
    ensures q * p > 0 && (x * p) / (q * p) == x / q
  {
    var k, r := x / q, x % q;
    MulAtLeast(q, p);
    Regroup(k, q, r, p);
    MulBelow(r, q, p);
    DivMod(x * p, q * p, k, r * p);
  }

  lemma HalfMod(v: int, p: int)
    requires p > 0
    ensures (v % (2 * p)) / 2 == (v / 2) % p && (v % (2 * p)) % 2 == v % 2
  {
    var q, r := v / (2 * p), v % (2 * p);
    assert v == q * (2 * p) + r;
    assert q * (2 * p) == 2 * (q * p);
    DivMod(v, 2, q * p + r / 2, r % 2);
    DivMod(v / 2, p, q, r / 2);
  }

  // ---------- reading back what was written ----------

  lemma {:induction false} FromToBits(v: int, n: nat)
    ensures FromBits(ToBits(v, n)) == v % Pow2(n)
    decreases n
  {
    if n > 0 {
      FromToBits(v / 2, n - 1);
      var s := ToBits(v, n);
      assert s[..n - 1] == ToBits(v / 2, n - 1);
      HalfMod(v, Pow2(n - 1));
    }
  }

  lemma {:induction false} FromBitsBound(s: BitString)
    ensures FromBits(s) < Pow2(|s|)
  {
    if |s| > 0 {
      FromBitsBound(s[..|s| - 1]);
    }
  }

  lemma {:induction false} ToFromBits(s: BitString)
    ensures ToBits(FromBits(s), |s|) == s
  {
    if |s| > 0 {
      ToFromBits(s[..|s| - 1]);
      assert FromBits(s) / 2 == FromBits(s[..|s| - 1]);
    }
  }

  lemma {:induction false} ToBitsMod(v: int, n: nat, k: nat)
    requires n <= k
    ensures ToBits(v % Pow2(k), n) == ToBits(v, n)
    decreases n
  {
    if n > 0 {
      HalfMod(v, Pow2(k - 1));
      ToBitsMod(v / 2, n - 1, k - 1);
    }
  }

  lemma {:induction false} ToBitsSplit(v: int, m: nat, a: nat)
    ensures ToBits(v, m + a) == ToBits(v / Pow2(a), m) + ToBits(v, a)
    decreases a
  {
    if a == 0 {
      assert ToBits(v, m) + [] == ToBits(v, m);
    } else {
      ToBitsSplit(v / 2, m, a - 1);
      DivDiv(v, 2, Pow2(a - 1));
    }
  }

  /** The leading bit of a two's complement number is its sign. */
  lemma {:induction false} LeadingBit(v: int, n: nat)
    requires n > 0
    ensures ToBits(v, n)[0] <==> v % Pow2(n) >= Pow2(n - 1)
  {
    ToBitsSplit(v, 1, n - 1);
    var p := Pow2(n - 1);
    var q := v / p;
    assert ToBits(q, 1) == [q % 2 == 1];
    HighBit(v, p);
  }

  lemma HighBit(v: int, p: int)
    requires p > 0
    ensures v % (2 * p) >= p <==> (v / p) % 2 == 1
  {
    var q, r := v / p, v % p;
    assert v == (q / 2) * (2 * p) + ((q % 2) * p + r) by {
      assert v == q * p + r && q == 2 * (q / 2) + q % 2;
      assert (2 * (q / 2) + q % 2) * p == (q / 2) * (2 * p) + (q % 2) * p;
    }
    if q % 2 == 1 {
      DivMod(v, 2 * p, q / 2, p + r);
    } else {
      DivMod(v, 2 * p, q / 2, r);
    }
  }

  lemma SignedRoundTrip(v: int, n: nat)
    requires n > 0 && -Pow2(n - 1) <= v < Pow2(n - 1)
    ensures SignedFromBits(ToBits(v, n)) == v
  {
    FromToBits(v, n);
    LeadingBit(v, n);
    if v < 0 {
      DivMod(v, Pow2(n), -1, v + Pow2(n));
    }
  }

  lemma {:induction false} BitsOfAppend(s: seq<Byte>, t: seq<Byte>)
    ensures BitsOf(s + t) == BitsOf(s) + BitsOf(t)
  {
    hide ByteBits;
    if |t| == 0 {
      assert s + t == s;
    } else {
      BitsOfAppend(s, t[..|t| - 1]);
      assert (s + t)[..|s + t| - 1] == s + t[..|t| - 1];
    }
  }

  /** The byte with value v. */
  function ByteOf(v: nat): (b: Byte)
    requires v < 256
    ensures b as nat == v
  {
    if v == 0 then 0 else NextByteValue(v - 1, ByteOf(v - 1))
  }

  function NextByteValue(v: nat, b: Byte): (c: Byte)
    requires v < 255 && b as nat == v
    ensures c as nat == v + 1
  {
    b + 1
  }

  lemma ByteRange(b: Byte)
    ensures (b as nat) < 256
  {
  }

  /** Bytes are determined by their bits. */
  lemma ByteOfBits(b: Byte, v: int)
    requires ByteBits(b) == ToBits(v, 8)
    ensures b as int == v % 256
  {
    hide ToBits;
    var w := b as nat;
    ByteRange(b);
    SameLowByte(w, v);
    SmallMod(w);
  }

  lemma SmallMod(w: nat)
    requires w < 256
    ensures w % 256 == w
  {
  }

  lemma SameLowByte(w: int, v: int)
    requires ToBits(w, 8) == ToBits(v, 8)
    ensures w % 256 == v % 256
  {
    FromToBits(v, 8);
    FromToBits(w, 8);
    Pow2Values();
  }

  lemma ByteOfInt(v: nat)
    requires v < 256
    ensures ByteBits(ByteOf(v)) == ToBits(v, 8)
  {
    hide ToBits;
  }
}
