// The 24-bit CRC of clock_orbit_rtcm.c (the transport layer of RTCM 10403.1) and the error
// bursts it is guaranteed to catch.
module Crc24 {
  import opened Bits

  type Word = bv32

  const REGISTER: Word := 0x1000000

  /** Addition of registers as polynomials over GF(2). */
  function Plus(a: Word, b: Word): Word {
    a ^ b
  }

  function Wide(b: Byte): Word {
    b as Word
  }

  function Wide8(b: Byte): Word {
    (b as Word) << 8
  }

  function Wide16(b: Byte): Word {
    (b as Word) << 16
  }

  /** Multiply the register by x modulo the generator. */
  function Shift(c: Word): Word {
    Plus(Double(c), Feedback(c))
  }

  function Double(c: Word): Word {
    c << 1
  }

  /** The generator polynomial, to be added when the top bit falls out. */
  function Feedback(c: Word): Word {
    if c & 0x800000 != 0 then 0x01864cfb else 0
  }

  function Shifts(c: Word, n: nat): Word {
    if n == 0 then c else Shift(Shifts(c, n - 1))
  }

  /** One byte of input. */
  function Feed(c: Word, b: Byte): Word {
    Shifts(Plus(c, Wide16(b)), 8)
  }

  /** The register after s, started from c. */
  function CrcFrom(c: Word, s: seq<Byte>): Word {
    if |s| == 0 then c else Feed(CrcFrom(c, s[..|s| - 1]), s[|s| - 1])
  }

  function Crc(s: seq<Byte>): Word {
    CrcFrom(0, s)
  }

  /** One turn of the inner loop: shift left, reduce when bit 24 appears. */
  method ShiftStep(c: Word) returns (crc: Word)
    ensures crc == Shift(c)
  {
    hide Shift;
    TopBitMoves(c);
    crc := c << 1;
    if crc & 0x1000000 != 0 {
      ShiftReduced(c);
      crc := crc ^ 0x01864cfb;
    } else {
      ShiftUnreduced(c);
    }
  }

  lemma TopBitMoves(c: Word)
    ensures (c << 1) & 0x1000000 != 0 <==> c & 0x800000 != 0
  {
  }

  lemma ShiftReduced(c: Word)
    requires c & 0x800000 != 0
    ensures Shift(c) == (c << 1) ^ 0x01864cfb
  {
  }

  lemma ShiftUnreduced(c: Word)
    requires c & 0x800000 == 0
    ensures Shift(c) == c << 1
  {
  }

  method ComputeCrc(buf: array<Byte>, off: nat, size: nat) returns (crc: Word)
    requires off + size <= buf.Length
    ensures crc == Crc(buf[off..off + size])
  {
    hide Shift;
    crc := 0;
    for k := 0 to size
      invariant crc == Crc(buf[off..off + k])
    {
      crc := crc ^ ((buf[off + k] as Word) << 16);
      ghost var d := crc;
      for i := 0 to 8
        invariant crc == Shifts(d, i)
      {
        crc := ShiftStep(crc);
      }
      assert buf[off..off + k + 1][..k] == buf[off..off + k];
    }
  }

  // ---------- arithmetic of registers ----------

  lemma PlusComm(a: Word, b: Word)
    ensures Plus(a, b) == Plus(b, a)
  {
  }

  lemma PlusAssoc(a: Word, b: Word, c: Word)
    ensures Plus(Plus(a, b), c) == Plus(a, Plus(b, c))
  {
  }

  lemma PlusZero(a: Word)
    ensures Plus(a, 0) == a && Plus(0, a) == a && Plus(a, a) == 0
  {
  }

  lemma PlusCancel(a: Word, b: Word, c: Word)
    ensures Plus(Plus(a, b), Plus(b, c)) == Plus(a, c)
  {
  }

  lemma PlusPairs(a: Word, b: Word, x: Word, y: Word)
    ensures Plus(Plus(a, x), Plus(b, y)) == Plus(Plus(a, b), Plus(x, y))
  {
    hide Plus;
    PlusAssoc(a, x, Plus(b, y));
    PlusAssoc(x, b, y);
    PlusComm(x, b);
    PlusAssoc(b, x, y);
    PlusAssoc(a, b, Plus(x, y));
  }

  lemma PlusEqual(a: Word, b: Word)
    ensures Plus(a, b) == 0 <==> a == b
  {
    hide Plus;
    PlusZero(a);
    PlusZero(b);
    PlusAssoc(a, b, b);
  }

  lemma PlusBound(a: Word, b: Word)
    requires a < REGISTER && b < REGISTER
    ensures Plus(a, b) < REGISTER
  {
  }

  lemma WideBound(b: Byte)
    ensures Wide(b) < 0x10000 && Wide8(b) < 0x10000 && Wide16(b) < REGISTER
    ensures Wide(b) << 8 == Wide8(b) && Wide8(b) << 8 == Wide16(b)
  {
  }

  lemma WidenXor(x: Byte, y: Byte)
    ensures Wide16(x ^ y) == Plus(Wide16(x), Wide16(y))
  {
  }

  lemma XorSame(b: Byte)
    ensures b ^ b == 0
  {
  }

  // ---------- the register as a linear machine ----------

  lemma ShiftBound(c: Word)
    requires c < REGISTER
    ensures Shift(c) < REGISTER
  {
  }

  lemma FeedbackLinear(a: Word, b: Word)
    ensures Feedback(Plus(a, b)) == Plus(Feedback(a), Feedback(b))
  {
    assert ((a ^ b) & 0x800000 != 0) <==> ((a & 0x800000 != 0) != (b & 0x800000 != 0));
  }

  lemma DoubleLinear(a: Word, b: Word)
    ensures Double(Plus(a, b)) == Plus(Double(a), Double(b))
  {
  }

  lemma ShiftLinear(a: Word, b: Word)
    ensures Shift(Plus(a, b)) == Plus(Shift(a), Shift(b))
  {
    hide Plus, Double, Feedback;
    FeedbackLinear(a, b);
    DoubleLinear(a, b);
    PlusPairs(Double(a), Double(b), Feedback(a), Feedback(b));
  }

  lemma ShiftInjective(a: Word)
    requires a < REGISTER && Shift(a) == 0
    ensures a == 0
  {
  }

  lemma {:induction false} ShiftsBound(c: Word, n: nat)
    requires c < REGISTER
    ensures Shifts(c, n) < REGISTER
  {
    hide Shift;
    if n > 0 {
      ShiftsBound(c, n - 1);
      ShiftBound(Shifts(c, n - 1));
    }
  }

  lemma FeedBound(c: Word, b: Byte)
    requires c < REGISTER
    ensures Feed(c, b) < REGISTER
  {
    hide Shifts, Plus, Wide16;
    WideBound(b);
    PlusBound(c, Wide16(b));
    ShiftsBound(Plus(c, Wide16(b)), 8);
  }

  /** The register never leaves its 24 bits. */
  lemma {:induction false} CrcBound(c: Word, s: seq<Byte>)
    requires c < REGISTER
    ensures CrcFrom(c, s) < REGISTER
  {
    hide Feed;
    if |s| > 0 {
      CrcBound(c, s[..|s| - 1]);
      FeedBound(CrcFrom(c, s[..|s| - 1]), s[|s| - 1]);
    }
  }

  lemma {:induction false} ShiftsLinear(a: Word, b: Word, n: nat)
    ensures Shifts(Plus(a, b), n) == Plus(Shifts(a, n), Shifts(b, n))
  {
    hide Shift, Plus;
    if n > 0 {
      ShiftsLinear(a, b, n - 1);
      ShiftLinear(Shifts(a, n - 1), Shifts(b, n - 1));
    }
  }

  /** No amount of shifting turns a nonzero register into zero. */
  lemma {:induction false} ShiftsInjective(a: Word, n: nat)
    requires a < REGISTER
    ensures Shifts(a, n) == 0 <==> a == 0
  {
    hide Shift;
    if n > 0 {
      ShiftsBound(a, n - 1);
      ShiftsInjective(a, n - 1);
      if Shifts(a, n) == 0 {
        ShiftInjective(Shifts(a, n - 1));
      } else if a == 0 {
        ShiftZero();
      }
    }
  }

  lemma CrcRange(s: seq<Byte>)
    ensures Crc(s) < REGISTER
  {
    CrcBound(0, s);
  }

  lemma ShiftZero()
    ensures Shift(0) == 0
  {
  }

  lemma {:induction false} ShiftsAdd(a: Word, m: nat, n: nat)
    ensures Shifts(Shifts(a, m), n) == Shifts(a, m + n)
  {
    hide Shift;
    if n > 0 {
      ShiftsAdd(a, m, n - 1);
    }
  }

  lemma ShiftPlain(a: Word)
    requires a < 0x800000
    ensures Shift(a) == Double(a)
  {
  }

  /** p moved up by n places, without reduction. */
  ghost function Up(p: Word, n: nat): Word {
    if n == 0 then p else Double(Up(p, n - 1))
  }

  lemma UpEight(a: Word)
    ensures Up(a, 8) == a << 8
  {
    hide Double;
    var b, c := Up(a, 4), a << 4;
    DoubleFour(a);
    DoubleFour(b);
    assert Up(a, 8) == Double(Up(a, 7)) == Double(Double(Up(a, 6)));
    assert Up(a, 6) == Double(Up(a, 5)) == Double(Double(b));
    assert Up(a, 4) == Double(Up(a, 3)) == Double(Double(Up(a, 2)));
    assert Up(a, 2) == Double(Up(a, 1)) == Double(Double(Up(a, 0)));
  }

  lemma DoubleFour(a: Word)
    ensures Double(Double(Double(Double(a)))) == a << 4
    ensures (a << 4) << 4 == a << 8
  {
  }

  lemma {:induction false} UpBound(p: Word, n: nat)
    requires n <= 8
    requires p < 0x10000
    ensures n < 8 ==> Up(p, n) < 0x800000
  {
    hide Double;
    DoubleBounds(p);
    if n > 0 {
      UpBound(p, n - 1);
      assert Up(p, 0) == p;
      assert n >= 1 ==> Up(p, 1) == Double(p);
      assert n >= 2 ==> Up(p, 2) == Double(Up(p, 1));
      assert n >= 3 ==> Up(p, 3) == Double(Up(p, 2));
      assert n >= 4 ==> Up(p, 4) == Double(Up(p, 3));
      assert n >= 5 ==> Up(p, 5) == Double(Up(p, 4));
      assert n >= 6 ==> Up(p, 6) == Double(Up(p, 5));
      assert n >= 7 ==> Up(p, 7) == Double(Up(p, 6));
    }
  }

  lemma DoubleBounds(p: Word)
    requires p < 0x10000
    ensures p < 0x800000 && Double(p) < 0x800000 && Double(Double(p)) < 0x800000
    ensures Double(Double(Double(p))) < 0x800000 && Double(Double(Double(Double(p)))) < 0x800000
    ensures Double(Double(Double(Double(Double(p))))) < 0x800000
    ensures Double(Double(Double(Double(Double(Double(p)))))) < 0x800000
    ensures Double(Double(Double(Double(Double(Double(Double(p))))))) < 0x800000
  {
  }

  /** Sixteen bits move up eight places without reduction. */
  lemma {:induction false} ShiftsUp(a: Word, n: nat)
    requires a < 0x10000 && n <= 8
    ensures Shifts(a, n) == Up(a, n)
  {
    hide Shift;
    if n > 0 {
      ShiftsUp(a, n - 1);
      UpBound(a, n - 1);
      ShiftPlain(Up(a, n - 1));
    }
  }

  lemma ShiftsPlain(a: Word)
    requires a < 0x10000
    ensures Shifts(a, 8) == a << 8
  {
    hide Shifts, Up;
    ShiftsUp(a, 8);
    UpEight(a);
  }

  lemma ByteShift(b: Byte)
    ensures Shifts(Wide(b), 8) == Wide8(b)
    ensures Shifts(Wide8(b), 8) == Wide16(b)
    ensures Shifts(Wide(b), 16) == Wide16(b)
  {
    hide Shifts, Wide, Wide8, Wide16;
    WideBound(b);
    ShiftsPlain(Wide(b));
    ShiftsPlain(Wide8(b));
    ShiftsAdd(Wide(b), 8, 8);
  }

  // ---------- differences ----------

  ghost function Xor(s: seq<Byte>, t: seq<Byte>): (d: seq<Byte>)
    requires |s| == |t|
    ensures |d| == |s| && forall i :: 0 <= i < |s| ==> d[i] == s[i] ^ t[i]
  {
    seq(|s|, i requires 0 <= i < |s| => s[i] ^ t[i])
  }

  lemma FeedLinear(a: Word, b: Word, x: Byte, y: Byte)
    ensures Feed(Plus(a, b), x ^ y) == Plus(Feed(a, x), Feed(b, y))
  {
    hide Shifts, Plus, Wide16;
    WidenXor(x, y);
    PlusPairs(a, b, Wide16(x), Wide16(y));
    ShiftsLinear(Plus(a, Wide16(x)), Plus(b, Wide16(y)), 8);
  }

  lemma {:induction false} CrcLinear(s: seq<Byte>, t: seq<Byte>)
    requires |s| == |t|
    ensures CrcFrom(0, Xor(s, t)) == Plus(CrcFrom(0, s), CrcFrom(0, t))
  {
    hide Feed, Plus;
    var n := |s|;
    if n == 0 {
      PlusZero(0);
    } else {
      var s', t' := s[..n - 1], t[..n - 1];
      CrcLinear(s', t');
      assert Xor(s, t)[..n - 1] == Xor(s', t');
      FeedLinear(CrcFrom(0, s'), CrcFrom(0, t'), s[n - 1], t[n - 1]);
    }
  }

  lemma {:induction false} CrcAppend(c: Word, s: seq<Byte>, t: seq<Byte>)
    ensures CrcFrom(c, s + t) == CrcFrom(CrcFrom(c, s), t)
  {
    hide Feed;
    if |t| == 0 {
      assert s + t == s;
    } else {
      CrcAppend(c, s, t[..|t| - 1]);
      assert (s + t)[..|s + t| - 1] == s + t[..|t| - 1];
    }
  }

  ghost predicate AllZero(s: seq<Byte>) {
    forall i :: 0 <= i < |s| ==> s[i] == 0
  }

  lemma FeedZero(c: Word)
    requires c < REGISTER
    ensures Feed(c, 0) < REGISTER && (Feed(c, 0) == 0 <==> c == 0)
  {
    hide Shifts, Plus;
    PlusZero(c);
    ShiftsInjective(c, 8);
    ShiftsBound(c, 8);
  }

  /** Zero bytes after a register keep it zero, or keep it nonzero. */
  lemma {:induction false} ZerosKeep(c: Word, s: seq<Byte>)
    requires c < REGISTER && AllZero(s)
    ensures CrcFrom(c, s) == 0 <==> c == 0
    ensures CrcFrom(c, s) < REGISTER
  {
    hide Feed;
    if |s| > 0 {
      ZerosKeep(c, s[..|s| - 1]);
      FeedZero(CrcFrom(c, s[..|s| - 1]));
    }
  }

  // ---------- three and four bytes at once ----------

  function Join2(x: Byte, y: Byte): Word {
    Plus(Wide16(x), Wide8(y))
  }

  function Join3(x: Byte, y: Byte, z: Byte): Word {
    Plus(Join2(x, y), Wide(z))
  }

  lemma FeedTwo(c: Word, x: Byte, y: Byte)
    ensures Feed(Feed(c, x), y) == Shifts(Plus(c, Join2(x, y)), 16)
  {
    hide Shifts, Plus, Wide, Wide8, Wide16;
    var a := Plus(c, Wide16(x));
    ByteShift(y);
    ShiftsLinear(a, Wide8(y), 8);
    ShiftsAdd(Plus(a, Wide8(y)), 8, 8);
    PlusAssoc(c, Wide16(x), Wide8(y));
  }

  lemma FeedThree(c: Word, x: Byte, y: Byte, z: Byte)
    ensures Feed(Feed(Feed(c, x), y), z) == Shifts(Plus(c, Join3(x, y, z)), 24)
  {
    hide Shifts, Plus, Wide, Wide16, Join2;
    FeedTwo(c, x, y);
    var a := Plus(c, Join2(x, y));
    ByteShift(z);
    ShiftsLinear(a, Wide(z), 16);
    ShiftsAdd(Plus(a, Wide(z)), 16, 8);
    PlusAssoc(c, Join2(x, y), Wide(z));
  }

  lemma FeedFour(x: Byte, y: Byte, z: Byte, w: Byte)
    ensures Feed(Feed(Feed(Feed(0, x), y), z), w) == Shifts(Plus(Shifts(Join3(x, y, z), 8), Wide(w)), 24)
  {
    hide Shifts, Plus, Wide, Wide16, Join3;
    FeedThree(0, x, y, z);
    var a := Join3(x, y, z);
    PlusZero(a);
    ByteShift(w);
    ShiftsAdd(a, 8, 16);
    ShiftsLinear(Shifts(a, 8), Wide(w), 16);
    ShiftsAdd(Plus(Shifts(a, 8), Wide(w)), 16, 8);
  }

  lemma Join3Facts(x: Byte, y: Byte, z: Byte)
    ensures Join3(x, y, z) < REGISTER
    ensures Join3(x, y, z) == (((x as Word) << 16) | ((y as Word) << 8) | (z as Word))
  {
  }

  /** The register as an unsigned number, byte by byte. */
  function Value(c: Word): nat {
    65536 * (Byte2(c) as nat) + 256 * (Byte1(c) as nat) + (Byte0(c) as nat)
  }

  function Byte2(c: Word): Byte {
    ((c >> 16) & 0xff) as Byte
  }

  function Byte1(c: Word): Byte {
    ((c >> 8) & 0xff) as Byte
  }

  function Byte0(c: Word): Byte {
    (c & 0xff) as Byte
  }

  lemma Join3Bytes(c: Word)
    requires c < REGISTER
    ensures Join3(Byte2(c), Byte1(c), Byte0(c)) == c
  {
  }

  lemma CrcThree(c: Word, x: Byte, y: Byte, z: Byte)
    ensures CrcFrom(c, [x, y, z]) == Feed(Feed(Feed(c, x), y), z)
  {
    hide Feed;
    var s := [x, y, z];
    assert s[..2] == [x, y] && [x, y][..1] == [x] && [x][..0] == [];
    assert CrcFrom(c, [x]) == Feed(CrcFrom(c, []), x);
    assert CrcFrom(c, [x, y]) == Feed(CrcFrom(c, [x]), y);
  }

  lemma CrcFour(x: Byte, y: Byte, z: Byte, w: Byte)
    ensures CrcFrom(0, [x, y, z, w]) == Feed(Feed(Feed(Feed(0, x), y), z), w)
  {
    hide Feed;
    CrcThree(0, x, y, z);
    assert [x, y, z, w][..3] == [x, y, z];
  }

  /** A message followed by its own CRC has CRC zero, and only by its own. */
  lemma CodewordIffZero(m: seq<Byte>, x: Byte, y: Byte, z: Byte)
    ensures Crc(m + [x, y, z]) == 0 <==> Crc(m) == Join3(x, y, z)
  {
    hide Feed, Shifts, Plus, Join3, CrcFrom;
    var c := CrcFrom(0, m);
    CrcBound(0, m);
    CrcAppend(0, m, [x, y, z]);
    CrcThree(c, x, y, z);
    FeedThree(c, x, y, z);
    Join3Facts(x, y, z);
    PlusBound(c, Join3(x, y, z));
    PlusEqual(c, Join3(x, y, z));
    ShiftsInjective(Plus(c, Join3(x, y, z)), 24);
  }

  // ---------- bursts ----------

  /** A nonzero error pattern of at most 24 bits somewhere in a window of four bytes. */
  ghost predicate IsBurst(w: Word) {
    exists p: Word, n: nat :: 0 < p < REGISTER && n <= 8 && w == Up(p, n)
  }

  ghost function High(u: Word): Word {
    u >> 8
  }

  ghost function Low(u: Word): Word {
    u & 0xff
  }

  ghost function Join4(x: Byte, y: Byte, z: Byte, w: Byte): Word {
    (Join3(x, y, z) << 8) ^ Wide(w)
  }

  lemma Join4Parts(x: Byte, y: Byte, z: Byte, w: Byte)
    ensures High(Join4(x, y, z, w)) == Join3(x, y, z) && Low(Join4(x, y, z, w)) == Wide(w)
  {
  }

  ghost function TopBit(d: Word): Word {
    d >> 7
  }

  lemma DoubleHigh(u: Word)
    requires u < 0x80000000
    ensures High(Double(u)) == Plus(Shift(High(u)), TopBit(Low(u)))
  {
    hide Shift, Plus, High, Low, TopBit, Double;
    HighBound(u);
    ShiftPlain(High(u));
    WindowHigh(u);
  }

  lemma HighBound(u: Word)
    requires u < 0x80000000
    ensures High(u) < 0x800000
  {
  }

  lemma WindowHigh(u: Word)
    requires u < 0x80000000
    ensures High(Double(u)) == Plus(Double(High(u)), TopBit(Low(u)))
  {
  }

  lemma DoubleLow(u: Word)
    requires u < 0x80000000
    ensures Low(Double(u)) == Plus(TopBit(Low(u)) << 8, Shift(Low(u)))
    ensures TopBit(Low(u)) < 0x10000
  {
  }

  lemma {:induction false} PatternBound(p: Word, n: nat)
    requires p < REGISTER && n < 8
    ensures Up(p, n) < 0x80000000
  {
    hide Double;
    PatternDoubles(p);
    assert Up(p, 0) == p;
    assert Up(p, 1) == Double(p);
    assert Up(p, 2) == Double(Up(p, 1));
    assert Up(p, 3) == Double(Up(p, 2));
    assert Up(p, 4) == Double(Up(p, 3));
    assert Up(p, 5) == Double(Up(p, 4));
    assert Up(p, 6) == Double(Up(p, 5));
    assert Up(p, 7) == Double(Up(p, 6));
  }

  lemma PatternDoubles(p: Word)
    requires p < REGISTER
    ensures p < 0x80000000 && Double(p) < 0x80000000 && Double(Double(p)) < 0x80000000
    ensures Double(Double(Double(p))) < 0x80000000 && Double(Double(Double(Double(p)))) < 0x80000000
    ensures Double(Double(Double(Double(Double(p))))) < 0x80000000
    ensures Double(Double(Double(Double(Double(Double(p)))))) < 0x80000000
    ensures Double(Double(Double(Double(Double(Double(Double(p))))))) < 0x80000000
  {
  }

  lemma SplitWindow(p: Word)
    requires p < REGISTER
    ensures Plus(High(p) << 8, Low(p)) == p && High(p) < 0x10000
  {
  }

  lemma ShiftsSwap(a: Word, n: nat)
    ensures Shifts(Shift(a), n) == Shift(Shifts(a, n))
  {
    hide Shift;
    ShiftsAdd(a, 1, n);
    ShiftsAdd(a, n, 1);
    assert Shifts(a, 1) == Shift(Shifts(a, 0));
    assert Shifts(Shifts(a, n), 1) == Shift(Shifts(Shifts(a, n), 0));
  }

  /** Dividing the window by the generator leaves the pattern shifted through the register. */
  lemma {:induction false} WindowRemainder(p: Word, n: nat)
    requires p < REGISTER && n <= 8
    ensures Plus(Shifts(High(Up(p, n)), 8), Low(Up(p, n))) == Shifts(p, n)
  {
    hide Shifts, Plus, High, Low, Double, TopBit, Shift;
    if n == 0 {
      SplitWindow(p);
      ShiftsPlain(High(p));
      ShiftsNone(p);
    } else {
      var u := Up(p, n - 1);
      WindowRemainder(p, n - 1);
      PatternBound(p, n - 1);
      DoubleHigh(u);
      DoubleLow(u);
      var t, a, d := TopBit(Low(u)), High(u), Low(u);
      ShiftsLinear(Shift(a), t, 8);
      ShiftsPlain(t);
      ShiftsSwap(a, 8);
      PlusCancel(Shift(Shifts(a, 8)), t << 8, Shift(d));
      ShiftLinear(Shifts(a, 8), d);
      ShiftsStep(p, n);
    }
  }

  lemma ShiftsNone(p: Word)
    ensures Shifts(p, 0) == p
  {
  }

  lemma ShiftsStep(p: Word, n: nat)
    requires n > 0
    ensures Shifts(p, n) == Shift(Shifts(p, n - 1))
  {
  }

  lemma BurstNonzero(d: seq<Byte>)
    requires |d| == 4 && IsBurst(Join4(d[0], d[1], d[2], d[3]))
    ensures CrcFrom(0, d) != 0
  {
    hide Feed, Shifts, Plus, High, Low, Join3, Join4, Wide, Up, CrcFrom;
    var w := Join4(d[0], d[1], d[2], d[3]);
    var p: Word, n: nat :| 0 < p < REGISTER && n <= 8 && w == Up(p, n);
    Join4Parts(d[0], d[1], d[2], d[3]);
    WindowRemainder(p, n);
    assert d == [d[0], d[1], d[2], d[3]];
    CrcFour(d[0], d[1], d[2], d[3]);
    FeedFour(d[0], d[1], d[2], d[3]);
    ShiftsAdd(p, n, 24);
    ShiftsInjective(p, n + 24);
  }

  /** s and t agree outside the window of four bytes at k. */
  ghost predicate AgreeOutside(s: seq<Byte>, t: seq<Byte>, k: nat) {
    && |s| == |t| && k + 4 <= |s|
    && s[..k] == t[..k] && s[k + 4..] == t[k + 4..]
  }

  /** s and t differ by a burst of at most 24 bits inside the window of four bytes at k. */
  ghost predicate BurstAt(s: seq<Byte>, t: seq<Byte>, k: nat) {
    && AgreeOutside(s, t, k)
    && IsBurst(Join4(s[k] ^ t[k], s[k + 1] ^ t[k + 1], s[k + 2] ^ t[k + 2], s[k + 3] ^ t[k + 3]))
  }

  lemma ThreeBytesBurst(x: Byte, y: Byte, z: Byte)
    requires x != 0 || y != 0 || z != 0
    ensures IsBurst(Join4(x, y, z, 0)) && IsBurst(Join4(0, x, y, z))
  {
    hide Join3, Join4, Up, Above;
    ThreeBytesWord(x, y, z);
    Patterns(Join3(x, y, z));
  }

  lemma Patterns(p: Word)
    requires p != 0 && p < REGISTER
    ensures IsBurst(Above(p, 0)) && IsBurst(p)
  {
    hide Up;
    UpEight(p);
    UpNone(p);
    NoLowByte(p);
    NotZero(p);
  }

  lemma NotZero(p: Word)
    requires p != 0
    ensures 0 < p
  {
  }

  lemma UpNone(p: Word)
    ensures Up(p, 0) == p
  {
  }

  ghost function Or3(a: Word, b: Word, c: Word): Word {
    (a << 16) | (b << 8) | c
  }

  ghost function Above(p: Word, c: Word): Word {
    (p << 8) ^ c
  }

  lemma JoinsAsWords(x: Byte, y: Byte, z: Byte, w: Byte)
    ensures Join3(x, y, z) == Or3(x as Word, y as Word, z as Word)
    ensures Join4(x, y, z, w) == Above(Join3(x, y, z), w as Word)
  {
    hide Join3;
    Join3Facts(x, y, z);
  }

  lemma WideWord(x: Byte)
    ensures x as Word < 256 && (x as Word == 0 <==> x == 0)
  {
  }

  lemma ThreeParts(a: Word, b: Word, c: Word)
    requires a < 256 && b < 256 && c < 256
    ensures Or3(a, b, c) == 0 <==> a == 0 && b == 0 && c == 0
    ensures Above(Or3(0, a, b), c) == Or3(a, b, c)
  {
  }

  lemma NoLowByte(p: Word)
    ensures Above(p, 0) == p << 8
  {
  }

  lemma ThreeBytesWord(x: Byte, y: Byte, z: Byte)
    requires x != 0 || y != 0 || z != 0
    ensures Join3(x, y, z) != 0 && Join3(x, y, z) < REGISTER
    ensures Join4(x, y, z, 0) == Above(Join3(x, y, z), 0) && Join4(0, x, y, z) == Join3(x, y, z)
  {
    hide Join3, Join4, Or3, Above;
    assert Join3(x, y, z) < REGISTER by {
      Join3Facts(x, y, z);
    }
    JoinsAsWords(x, y, z, 0);
    JoinsAsWords(0, x, y, z);
    WideWord(x);
    WideWord(y);
    WideWord(z);
    WideWord(0);
    ThreeParts(x as Word, y as Word, z as Word);
  }

  lemma XorZero(x: Byte, y: Byte)
    ensures x ^ y == 0 <==> x == y
  {
  }

  /** An edit of up to three consecutive bytes is such a burst, wherever it lies. */
  lemma EditIsBurst(s: seq<Byte>, t: seq<Byte>, j: nat) returns (k: nat)
    requires |s| == |t| >= 4 && j + 3 <= |s| && s != t
    requires forall i :: 0 <= i < |s| && !(j <= i < j + 3) ==> s[i] == t[i]
    ensures BurstAt(s, t, k)
  {
    hide IsBurst, Join4, AgreeOutside;
    k := if j + 4 <= |s| then j else j - 1;
    AgreesAround(s, t, j, k);
    var i := if k == j then j + 3 else k;
    XorZero(s[i], t[i]);
    EditDiffers(s, t, j);
    ThreeBytesBurst(s[j] ^ t[j], s[j + 1] ^ t[j + 1], s[j + 2] ^ t[j + 2]);
  }

  lemma AgreesAround(s: seq<Byte>, t: seq<Byte>, j: nat, k: nat)
    requires |s| == |t| && k <= j <= k + 1 && k + 4 <= |s|
    requires forall i :: 0 <= i < |s| && !(j <= i < j + 3) ==> s[i] == t[i]
    ensures AgreeOutside(s, t, k)
  {
  }

  lemma EditDiffers(s: seq<Byte>, t: seq<Byte>, j: nat)
    requires |s| == |t| && j + 3 <= |s| && s != t
    requires forall i :: 0 <= i < |s| && !(j <= i < j + 3) ==> s[i] == t[i]
    ensures s[j] ^ t[j] != 0 || s[j + 1] ^ t[j + 1] != 0 || s[j + 2] ^ t[j + 2] != 0
  {
    XorZero(s[j], t[j]);
    XorZero(s[j + 1], t[j + 1]);
    XorZero(s[j + 2], t[j + 2]);
    if s[j] == t[j] && s[j + 1] == t[j + 1] && s[j + 2] == t[j + 2] {
      SameBytes(s, t, j);
    }
  }

  lemma SameBytes(s: seq<Byte>, t: seq<Byte>, j: nat)
    requires |s| == |t| && j + 3 <= |s| && s[j] == t[j] && s[j + 1] == t[j + 1] && s[j + 2] == t[j + 2]
    requires forall i :: 0 <= i < |s| && !(j <= i < j + 3) ==> s[i] == t[i]
    ensures s == t
  {
  }

  lemma OutsideZero(s: seq<Byte>, t: seq<Byte>, k: nat)
    requires AgreeOutside(s, t, k)
    ensures AllZero(Xor(s, t)[..k]) && AllZero(Xor(s, t)[k + 4..])
  {
    var d := Xor(s, t);
    forall i | 0 <= i < |d| && !(k <= i < k + 4)
      ensures d[i] == 0
    {
      if i < k {
        assert s[i] == s[..k][i] && t[i] == t[..k][i];
      } else {
        assert s[i] == s[k + 4..][i - k - 4] && t[i] == t[k + 4..][i - k - 4];
      }
      XorSame(s[i]);
    }
  }

  /** An error burst of up to 24 bits, at any bit offset, changes the CRC of a whole block. */
  lemma BurstDetected(s: seq<Byte>, t: seq<Byte>, k: nat)
    requires BurstAt(s, t, k)
    ensures Crc(s) != Crc(t)
  {
    hide Feed, Plus, IsBurst, Join4, CrcFrom;
    var d := Xor(s, t);
    var lead, window, rest := d[..k], d[k..k + 4], d[k + 4..];
    assert d == (lead + window) + rest;
    OutsideZero(s, t, k);
    CrcAppend(0, lead + window, rest);
    CrcAppend(0, lead, window);
    ZerosKeep(0, lead);
    BurstNonzero(window);
    CrcBound(0, window);
    ZerosKeep(CrcFrom(0, window), rest);
    CrcLinear(s, t);
    PlusEqual(Crc(s), Crc(t));
  }

  /** The generator of CRC-24Q, which together with linearity and the shift step fixes every other value. */
  lemma CrcOfOne()
    ensures Crc([1]) == 0x864CFB && Crc([0, 1]) == 0x864CFB
  {
    assert [1][..0] == [] && [0, 1][..1] == [0] && [0][..0] == [];
  }
}
