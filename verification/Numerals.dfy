// Unsigned numbers as zlog's buf.c prints them: digits, zero padding, and reading them back.
module Numerals {

  function DigitChar(d: nat): char
    requires d < 16
  {
    if d < 10 then '0' + d as char else 'a' + (d - 10) as char
  }

  function DigitValue(c: char): int {
    if '0' <= c <= '9' then c as int - '0' as int
    else if 'a' <= c <= 'f' then c as int - 'a' as int + 10
    else -1
  }

  lemma DigitBack(d: nat)
    requires d < 16
    ensures DigitValue(DigitChar(d)) == d
  {
  }

  /** n in the given base, without leading zeros; zero is one digit. */
  function Numeral(n: nat, base: nat): (s: string)
    requires 2 <= base <= 16
    ensures |s| >= 1
    decreases n
  {
    if n < base then [DigitChar(n)] else Below(n, base); Numeral(n / base, base) + [DigitChar(n % base)]
  }

  lemma Below(n: nat, base: nat)
    requires 2 <= base <= n
    ensures 0 < n / base < n && n % base < base
  {
    Halves(n, base);
  }

  lemma Halves(n: nat, base: nat)
    requires 2 <= base <= n
    ensures 0 < n / base < n
  {
    QuotientRemainder(n, base);
    Shrinks(n / base, base, n);
  }

  lemma Shrinks(q: int, base: nat, n: nat)
    requires base >= 2 && n >= base && n - base < q * base <= n
    ensures 0 < q < n
  {
    if q <= 0 {
      NegativeProduct(q, base);
    } else {
      assert q * base >= q * 2;
    }
  }

  lemma NegativeProduct(q: int, base: nat)
    requires q <= 0
    ensures q * base <= 0
  {
  }

  /** The number a string of digits stands for. */
  function ValueOf(s: string, base: nat): int {
    if s == [] then 0 else ValueOf(s[..|s| - 1], base) * base + DigitValue(s[|s| - 1])
  }

  function Zeros(n: nat): (s: string)
    ensures |s| == n
  {
    seq(n, _ => '0')
  }

  /** Zero padding up to width, never cutting digits off. */
  function Padded(n: nat, base: nat, width: nat): string
    requires 2 <= base <= 16
  {
    var digits := Numeral(n, base);
    Zeros(if width > |digits| then width - |digits| else 0) + digits
  }

  lemma {:induction false} NumeralValue(n: nat, base: nat)
    requires 2 <= base <= 16
    ensures ValueOf(Numeral(n, base), base) == n
    decreases n
  {
    if n < base {
      assert [DigitChar(n)][..0] == [];
      DigitBack(n);
    } else {
      Below(n, base);
      NumeralValue(n / base, base);
      var s, t := Numeral(n / base, base), Numeral(n, base);
      assert t[..|t| - 1] == s;
      DigitBack(n % base);
      QuotientRemainder(n, base);
    }
  }

  lemma QuotientRemainder(n: nat, base: nat)
    requires base >= 2
    ensures n / base * base + n % base == n && 0 <= n % base < base
  {
  }

  lemma {:induction false} LeadingZeros(z: nat, s: string, base: nat)
    ensures ValueOf(Zeros(z) + s, base) == ValueOf(s, base)
    decreases |s| + z
  {
    var t := Zeros(z) + s;
    if s != [] {
      LeadingZeros(z, s[..|s| - 1], base);
      assert t[..|t| - 1] == Zeros(z) + s[..|s| - 1];
    } else if z > 0 {
      LeadingZeros(z - 1, s, base);
      assert t[..|t| - 1] == Zeros(z - 1) + s;
    }
  }

  /** Whatever the width, the printed number reads back as itself. */
  lemma PaddedReadsBack(n: nat, base: nat, width: nat)
    requires 2 <= base <= 16
    ensures ValueOf(Padded(n, base, width), base) == n
  {
    NumeralValue(n, base);
    var digits := Numeral(n, base);
    LeadingZeros(if width > |digits| then width - |digits| else 0, digits, base);
  }

  /** The digits are the shortest: no leading zero but for zero itself. */
  lemma {:induction false} NoLeadingZero(n: nat, base: nat)
    requires 2 <= base <= 16
    ensures Numeral(n, base)[0] == '0' <==> n == 0
    decreases n
  {
    if n >= base {
      Below(n, base);
      NoLeadingZero(n / base, base);
    }
  }

  function Power(base: nat, k: nat): (p: nat)
    ensures base >= 1 ==> p >= 1
  {
    if k == 0 then 1 else PositiveProduct(base, Power(base, k - 1)); base * Power(base, k - 1)
  }

  lemma PositiveProduct(a: nat, b: nat)
    ensures a * b >= 0 && (a >= 1 && b >= 1 ==> a * b >= 1)
  {
  }

  /** A number below base to the k-th, with the last digit taken off. */
  lemma PowerDivides(n: nat, base: nat, k: nat)
    requires base >= 2 && k >= 1 && n < Power(base, k)
    ensures n / base < Power(base, k - 1)
  {
    var q, p := n / base, Power(base, k - 1);
    QuotientRemainder(n, base);
    ProductGrows(base, q, p);
  }

  lemma ProductGrows(b: nat, q: nat, p: nat)
    ensures q >= p ==> q * b >= b * p
  {
  }

  /** Digits above nine are lower-case letters. */
  lemma DigitShown(d: nat)
    requires d < 16
    ensures Numeral(d, 16) == ["0123456789abcdef"[d]]
    ensures d < 10 ==> Numeral(d, 10) == ["0123456789"[d]]
  {
  }

  /** The number stands at the end, behind zeros up to the width. */
  lemma PaddedIs(n: nat, base: nat, width: nat)
    requires 2 <= base <= 16
    ensures var r, k := Padded(n, base, width), |Numeral(n, base)|;
      && |r| == (if width > k then width else k) && r[|r| - k..] == Numeral(n, base)
      && forall i :: 0 <= i < |r| - k ==> r[i] == '0'
  {
    hide Numeral;
  }
}
