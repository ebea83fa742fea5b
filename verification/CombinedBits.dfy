// Type 4056 as bits: the encoder lays out 256 bits a satellite, the decoder steps through the same bits by 96.
module CombinedBits {
  import opened Bits

  ghost predicate AllFalse(b: BitString) {
    forall i :: 0 <= i < |b| ==> !b[i]
  }

  /**
   * What the decoder reads at step j says the same as what the encoder wrote for satellite j: number, IOD and the
   * first three orbit values in front, the first clock value behind the two flags, and nothing in the fields that
   * the decoder does not read.
   */
  ghost predicate Copied(s: BitString, j: nat)
    requires 256 * j + 256 <= |s|
  {
    && s[96 * j..96 * j + 74] == s[256 * j..256 * j + 74]
    && s[96 * j + 76..96 * j + 96] == s[256 * j + 196..256 * j + 216]
    && AllFalse(s[256 * j + 74..256 * j + 194])
    && AllFalse(s[256 * j + 216..256 * j + 256])
  }

  ghost predicate AllCopied(s: BitString, n: nat)
    requires |s| == 256 * n
  {
    forall j :: 0 <= j < n ==> Copied(s, j)
  }

  /** Every satellite carries the same two flags. */
  ghost predicate Flags(s: BitString, n: nat, p: bool, d: bool)
    requires |s| == 256 * n
  {
    forall j {:trigger Flag(s, j, 0)} :: 0 <= j < n ==> Flag(s, j, 0) == p && Flag(s, j, 1) == d
  }

  ghost function Flag(s: BitString, j: nat, k: nat): bool
    requires 256 * j + 256 <= |s| && k < 2
  {
    s[256 * j + 194 + k]
  }

  /** Where the bit at x of satellite j sits, and what copying says of it. */
  lemma BitSource(s: BitString, j: nat, r: nat)
    requires 256 * j + 256 <= |s| && r < 256 && Copied(s, j)
    ensures r < 74 ==> s[256 * j + r] == s[96 * j + r]
    ensures 74 <= r < 194 ==> !s[256 * j + r]
    ensures 196 <= r < 216 ==> s[256 * j + r] == s[96 * j + r - 120]
    ensures 216 <= r ==> !s[256 * j + r]
  {
    if r < 74 {
      assert s[96 * j..96 * j + 74][r] == s[96 * j + r] && s[256 * j..256 * j + 74][r] == s[256 * j + r];
    } else if r < 194 {
      assert s[256 * j + 74..256 * j + 194][r - 74] == s[256 * j + r];
    } else if 196 <= r < 216 {
      assert s[96 * j + 76..96 * j + 96][r - 196] == s[96 * j + r - 120];
      assert s[256 * j + 196..256 * j + 216][r - 196] == s[256 * j + r];
    } else if 216 <= r {
      assert s[256 * j + 216..256 * j + 256][r - 216] == s[256 * j + r];
    }
  }

  /** Behind the first three orbit values of the first satellite only positions 2 and 3 modulo 32 can be set. */
  lemma {:induction false} SetPositions(s: BitString, n: nat, x: nat)
    requires |s| == 256 * n && AllCopied(s, n) && 74 <= x < |s| && s[x]
    ensures x % 32 == 2 || x % 32 == 3
    decreases x
  {
    hide Copied;
    var j, r := x / 256, x % 256;
    assert x == 256 * j + r && Copied(s, j);
    BitSource(s, j, r);
    if r < 74 {
      SetPositions(s, n, 96 * j + r);
      SameResidue(j, r);
    } else if 196 <= r < 216 {
      SetPositions(s, n, 96 * j + r - 120);
      ShiftedResidue(j, r);
      assert false;
    } else {
      FlagResidue(j, r);
    }
  }

  lemma Residue(x: int, q: int, r: int)
    requires x == 32 * q + r && 0 <= r < 32
    ensures x % 32 == r
  {
  }

  lemma SameResidue(j: nat, r: nat)
    ensures (256 * j + r) % 32 == (96 * j + r) % 32
  {
    Residue(256 * j + r, 8 * j + r / 32, r % 32);
    Residue(96 * j + r, 3 * j + r / 32, r % 32);
  }

  lemma ShiftedResidue(j: nat, r: nat)
    requires 196 <= r < 216
    ensures (96 * j + r - 120) % 32 != 2 && (96 * j + r - 120) % 32 != 3
  {
    Residue(96 * j + r - 120, 3 * j + 2, r - 184);
  }

  lemma FlagResidue(j: nat, r: nat)
    requires r == 194 || r == 195
    ensures (256 * j + r) % 32 == r - 192
  {
    Residue(256 * j + r, 8 * j + 6, r - 192);
  }

  lemma LastFlags(n: nat)
    requires n >= 1
    ensures (96 * (n - 1) + 74) % 32 == 10 && (96 * (n - 1) + 75) % 32 == 11
  {
    Residue(96 * (n - 1) + 74, 3 * (n - 1) + 2, 10);
    Residue(96 * (n - 1) + 75, 3 * (n - 1) + 2, 11);
  }

  /** With the flags clear nothing at all is set there. */
  lemma {:induction false} NothingSet(s: BitString, n: nat, x: nat)
    requires |s| == 256 * n && AllCopied(s, n) && Flags(s, n, false, false) && 74 <= x < |s|
    ensures !s[x]
    decreases x
  {
    hide Copied;
    var j, r := x / 256, x % 256;
    assert x == 256 * j + r && Copied(s, j);
    BitSource(s, j, r);
    if r < 74 {
      NothingSet(s, n, 96 * j + r);
    } else if 196 <= r < 216 {
      NothingSet(s, n, 96 * j + r - 120);
    } else if r == 194 || r == 195 {
      assert Flag(s, j, r - 194) == s[256 * j + 194 + (r - 194)] && (Flag(s, j, 0) || !Flag(s, j, 0));
    }
  }

  lemma SliceFalse(s: BitString, a: nat, b: nat)
    requires 74 <= a <= b <= |s| && AllFalse(s[74..])
    ensures AllFalse(s[a..b])
  {
    forall i | 0 <= i < b - a
      ensures !s[a..b][i]
    {
      assert s[74..][a + i - 74] == s[a + i];
    }
  }

  lemma FalseEqual(a: BitString, b: BitString)
    requires |a| == |b| && AllFalse(a) && AllFalse(b)
    ensures a == b
  {
  }

  lemma ClearIsCopied(s: BitString, j: nat)
    requires 256 * j + 256 <= |s| && AllFalse(s[74..])
    ensures Copied(s, j)
  {
    SliceFalse(s, 96 * j + 76, 96 * j + 96);
    SliceFalse(s, 256 * j + 196, 256 * j + 216);
    SliceFalse(s, 256 * j + 74, 256 * j + 194);
    SliceFalse(s, 256 * j + 216, 256 * j + 256);
    FalseEqual(s[96 * j + 76..96 * j + 96], s[256 * j + 196..256 * j + 216]);
    if j > 0 {
      SliceFalse(s, 96 * j, 96 * j + 74);
      SliceFalse(s, 256 * j, 256 * j + 74);
      FalseEqual(s[96 * j..96 * j + 74], s[256 * j..256 * j + 74]);
    }
  }

  /** The decoder reads back what was written exactly when nothing is set behind the first 74 bits. */
  lemma CopiedIffClear(s: BitString, n: nat, p: bool, d: bool)
    requires n >= 1 && |s| == 256 * n && Flags(s, n, p, d)
    ensures AllCopied(s, n) && s[96 * (n - 1) + 74] == p && s[96 * (n - 1) + 75] == d <==> AllFalse(s[74..])
  {
    hide Copied;
    if AllCopied(s, n) && s[96 * (n - 1) + 74] == p && s[96 * (n - 1) + 75] == d {
      LastFlags(n);
      if p {
        SetPositions(s, n, 96 * (n - 1) + 74);
      }
      if d {
        SetPositions(s, n, 96 * (n - 1) + 75);
      }
      forall i | 0 <= i < |s| - 74
        ensures !s[74..][i]
      {
        NothingSet(s, n, 74 + i);
      }
    }
    if AllFalse(s[74..]) {
      forall j | 0 <= j < n
        ensures Copied(s, j)
      {
        ClearIsCopied(s, j);
      }
      assert Flag(s, 0, 0) == s[74..][120] && Flag(s, 0, 1) == s[74..][121];
      assert s[96 * (n - 1) + 74] == s[74..][96 * (n - 1)] && s[96 * (n - 1) + 75] == s[74..][96 * (n - 1) + 1];
    }
  }
}
