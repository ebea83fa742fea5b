// Transport framing (section 4 of RTCM 10403.1): preamble, reserved bits, 10-bit length, body, CRC.
module SsrBlocks {
  import opened Bits
  import opened BitStreams
  import opened Crc24

  /** The body padded with zeros to whole bytes. */
  ghost function Pad(body: BitString): (p: BitString)
    ensures |p| % 8 == 0 && |p| / 8 == (|body| + 7) / 8 && body <= p
  {
    if |body| % 8 == 0 then body else body + ToBits(0, 8 - |body| % 8)
  }

  ghost function BodyLen(body: BitString): nat {
    (|body| + 7) / 8
  }

  /** Header, body and CRC together. */
  ghost function BlockLen(body: BitString): nat {
    BodyLen(body) + 6
  }

  /** s is the block that carries the given body bits. */
  ghost predicate IsBlock(s: seq<Byte>, body: BitString) {
    var len := BodyLen(body);
    && |s| == len + 6
    && s[0] == 0xD3 && s[1] as nat == (len / 256) % 256 && s[2] as nat == len % 256
    && BitsOf(s[3..len + 3]) == Pad(body)
    && Crc(s[..len + 3]) == Join3(s[len + 3], s[len + 4], s[len + 5])
  }

  /** out is the concatenation of one block per body, in order. */
  ghost predicate IsChain(out: seq<Byte>, bodies: seq<BitString>) {
    if |bodies| == 0 then |out| == 0 else
      var last := bodies[|bodies| - 1];
      && |out| >= BlockLen(last)
      && IsChain(out[..|out| - BlockLen(last)], bodies[..|bodies| - 1])
      && IsBlock(out[|out| - BlockLen(last)..], last)
  }

  ghost function ChainLen(bodies: seq<BitString>): nat {
    if |bodies| == 0 then 0 else ChainLen(bodies[..|bodies| - 1]) + BlockLen(bodies[|bodies| - 1])
  }

  /** Where block k starts. */
  ghost function Offset(bodies: seq<BitString>, k: nat): nat
    requires k <= |bodies|
  {
    ChainLen(bodies[..k])
  }

  lemma {:induction false} ChainLenIsLength(out: seq<Byte>, bodies: seq<BitString>)
    requires IsChain(out, bodies)
    ensures |out| == ChainLen(bodies)
  {
    hide IsBlock;
    if |bodies| > 0 {
      ChainLenIsLength(out[..|out| - BlockLen(bodies[|bodies| - 1])], bodies[..|bodies| - 1]);
    }
  }

  lemma {:induction false} ChainLenMonotone(bodies: seq<BitString>, more: seq<BitString>)
    ensures ChainLen(bodies) <= ChainLen(bodies + more)
  {
    hide BlockLen;
    if |more| == 0 {
      assert bodies + more == bodies;
    } else {
      ChainLenMonotone(bodies, more[..|more| - 1]);
      assert (bodies + more)[..|bodies + more| - 1] == bodies + more[..|more| - 1];
    }
  }

  /** Every block of a chain sits at its offset. */
  lemma {:induction false} ChainBlock(out: seq<Byte>, bodies: seq<BitString>, k: nat)
    requires IsChain(out, bodies) && k < |bodies|
    ensures var o := Offset(bodies, k);
      o + BlockLen(bodies[k]) <= |out| && IsBlock(out[o..o + BlockLen(bodies[k])], bodies[k])
    decreases |bodies|
  {
    hide IsBlock, BlockLen;
    var n := |bodies|;
    var cut := |out| - BlockLen(bodies[n - 1]);
    var out', bodies' := out[..cut], bodies[..n - 1];
    ChainLenIsLength(out', bodies');
    if k < n - 1 {
      ChainBlock(out', bodies', k);
      assert bodies'[..k] == bodies[..k];
      var o, l := Offset(bodies, k), BlockLen(bodies[k]);
      assert out'[o..o + l] == out[o..o + l];
    } else {
      assert bodies[..k] == bodies';
      assert out[cut..] == out[cut..cut + BlockLen(bodies[k])];
    }
  }

  // ---------- writing a block ----------

  /** The placeholder that INITBLOCK writes. */
  ghost function Header(): (h: BitString)
    ensures |h| == 24
  {
    ToBits(0xD3, 8) + ToBits(0, 6) + ToBits(0, 10)
  }

  /** A block under construction at byte offset start: the placeholder header, then body bits. */
  ghost predicate InBlock(w: BitWriter, done: seq<Byte>, start: nat, body: BitString)
    reads w, w.buffer
  {
    && w.Valid() && start == |done|
    && w.Stream() == BitsOf(done) + Header() + body
  }

  /** INITBLOCK. */
  method InitBlock(w: BitWriter) returns (ok: bool)
    requires w.Valid() && w.numbits == 0
    modifies w, w.buffer
    ensures w.Consistent()
    ensures ok <==> old(w.ressize) + 3 <= w.limit
    ensures ok ==> InBlock(w, old(w.buffer[..w.ressize]), old(w.ressize), [])
    ensures old(w.ressize) <= w.ressize && w.buffer[..old(w.ressize)] == old(w.buffer[..w.ressize])
    ensures w.buffer[w.limit..] == old(w.buffer[w.limit..])
  {
    hide ToBits, BitsOf;
    var fs := [Field(8, 0xD3), Field(6, 0), Field(10, 0)];
    PlaceholderFields();
    ghost var done := w.buffer[..w.ressize];
    assert w.Stream() == BitsOf(done) by {
      NoBits(w.bitbuffer);
      assert BitsOf(done) + [] == BitsOf(done);
    }
    ok := w.AddFields(fs);
    if ok {
      assert BitsOf(done) + Header() + [] == BitsOf(done) + Header();
    }
  }

  lemma NoBits(v: int)
    ensures ToBits(v, 0) == []
  {
  }

  lemma PlaceholderFields()
    ensures FieldBits([Field(8, 0xD3), Field(6, 0), Field(10, 0)]) == Header()
  {
    hide ToBits;
    var fs := [Field(8, 0xD3), Field(6, 0), Field(10, 0)];
    assert fs[..2][..1] == fs[..1] && fs[..1][..0] == [];
    assert FieldBits(fs[..0]) == [];
    assert FieldBits(fs[..1]) == ToBits(0xD3, 8);
    assert FieldBits(fs[..2]) == ToBits(0xD3, 8) + ToBits(0, 6);
  }

  /** More body bits. */
  method AddToBlock(w: BitWriter, fs: seq<Field>, ghost done: seq<Byte>, ghost start: nat, ghost body: BitString)
    returns (ok: bool)
    requires InBlock(w, done, start, body) && forall k :: 0 <= k < |fs| ==> fs[k].width <= 24
    modifies w, w.buffer
    ensures w.Consistent()
    ensures ok <==> start + 3 + (|body + FieldBits(fs)|) / 8 <= w.limit
    ensures ok ==> InBlock(w, done, start, body + FieldBits(fs))
    ensures old(w.ressize) <= w.ressize && w.buffer[..old(w.ressize)] == old(w.buffer[..w.ressize])
    ensures w.buffer[w.limit..] == old(w.buffer[w.limit..])
  {
    hide ToBits, BitsOf, FieldBits;
    ok := w.AddFields(fs);
    assert BitsOf(done) + Header() + (body + FieldBits(fs)) == BitsOf(done) + Header() + body + FieldBits(fs);
  }

  lemma {:induction false} StoredPrefix(whole: seq<Byte>, done: seq<Byte>, rest: BitString)
    requires BitsOf(whole) == BitsOf(done) + rest
    ensures |done| <= |whole| && whole[..|done|] == done
    ensures BitsOf(whole[|done|..]) == rest
  {
    hide ByteBits;
    var head, tail := whole[..|done|], whole[|done|..];
    assert whole == head + tail;
    BitsOfAppend(head, tail);
    assert BitsOf(head) == BitsOf(whole)[..8 * |done|] == BitsOf(done);
    assert BitsOf(tail) == BitsOf(whole)[8 * |done|..];
    BitsOfInjective(head, done);
  }

  lemma {:induction false} BitsOfInjective(s: seq<Byte>, t: seq<Byte>)
    requires |s| == |t| && BitsOf(s) == BitsOf(t)
    ensures s == t
  {
    hide ByteBits;
    if |s| > 0 {
      var n := |s| - 1;
      assert BitsOf(s)[..8 * n] == BitsOf(s[..n]) && BitsOf(t)[..8 * n] == BitsOf(t[..n]);
      assert BitsOf(s)[8 * n..] == ByteBits(s[n]) && BitsOf(t)[8 * n..] == ByteBits(t[n]);
      BitsOfInjective(s[..n], t[..n]);
      BytesEqual(s[n], t[n]);
      assert s == s[..n] + [s[n]] && t == t[..n] + [t[n]];
    }
  }

  lemma BytesEqual(b: Byte, c: Byte)
    requires ByteBits(b) == ByteBits(c)
    ensures b == c
  {
    hide ToBits;
    ByteOfBits(b, c as int);
    ByteOfBits(c, c as int);
    assert ((b as nat) as Byte) == b && ((c as nat) as Byte) == c;
  }

  lemma {:induction false} ZeroBits(n: nat)
    ensures forall i :: 0 <= i < n ==> !ToBits(0, n)[i]
  {
    if n > 0 {
      ZeroBits(n - 1);
    }
  }

  /** The three bytes of the placeholder header. */
  lemma HeaderBytes(s: seq<Byte>)
    requires |s| == 3 && BitsOf(s) == Header()
    ensures s == [0xD3, 0, 0]
  {
    hide ToBits, ByteBits;
    var t: seq<Byte> := [0xD3, 0, 0];
    assert BitsOf(t) == ByteBits(0xD3) + ByteBits(0) + ByteBits(0) by {
      assert t[..2][..1] == t[..1] && t[..1][..0] == [];
      assert BitsOf(t[..1]) == BitsOf([]) + ByteBits(0xD3);
      assert BitsOf(t[..2]) == BitsOf(t[..1]) + ByteBits(0);
    }
    ByteValues();
    ZeroBits(8);
    ZeroBits(6);
    ZeroBits(10);
    assert BitsOf(t) == Header();
    BitsOfInjective(s, t);
  }

  lemma ByteValues()
    ensures ByteBits(0xD3) == ToBits(0xD3, 8) && ByteBits(0) == ToBits(0, 8)
  {
    hide ToBits;
    assert (0xD3 as Byte) as int == 0xD3 && (0 as Byte) as int == 0;
  }

  /** Padding to a whole byte. */
  method PadBlock(w: BitWriter, ghost done: seq<Byte>, ghost start: nat, ghost body: BitString) returns (ok: bool)
    requires InBlock(w, done, start, body)
    modifies w, w.buffer
    ensures w.Consistent()
    ensures ok <==> start + 3 + BodyLen(body) <= w.limit
    ensures ok ==> InBlock(w, done, start, Pad(body)) && w.numbits == 0 && w.ressize == start + 3 + BodyLen(body)
    ensures old(w.ressize) <= w.ressize && w.buffer[..old(w.ressize)] == old(w.buffer[..w.ressize])
    ensures w.buffer[w.limit..] == old(w.buffer[w.limit..])
  {
    hide ToBits, BitsOf;
    assert |w.Stream()| % 8 == w.numbits && w.numbits == |body| % 8;
    if w.numbits != 0 {
      var a := 8 - w.numbits;
      ok := w.AddBits(a, 0);
      assert BitsOf(done) + Header() + (body + ToBits(0, a)) == BitsOf(done) + Header() + body + ToBits(0, a);
    } else {
      assert w.ressize == start + 3 + |body| / 8;
      ok := true;
    }
  }

  /** The placeholder header followed by bytes that carry p. */
  ghost predicate HeaderThen(rest: seq<Byte>, p: BitString) {
    |rest| >= 3 && rest[..3] == [0xD3, 0, 0] && BitsOf(rest[3..]) == p
  }

  /** What the buffer holds from start once the padded body is stored. */
  lemma StoredBlock(whole: seq<Byte>, done: seq<Byte>, p: BitString)
    requires BitsOf(whole) == BitsOf(done) + Header() + p
    ensures |done| <= |whole| && whole[..|done|] == done && HeaderThen(whole[|done|..], p)
  {
    hide BitsOf, ToBits, Header, ByteBits, HeaderThen;
    StreamMoves(BitsOf(done), Header(), p, Header() + p);
    StoredPrefix(whole, done, Header() + p);
    SplitHeader(whole[|done|..], p);
  }

  lemma SplitHeader(rest: seq<Byte>, p: BitString)
    requires BitsOf(rest) == Header() + p
    ensures HeaderThen(rest, p)
  {
    hide ToBits, Header, ByteBits;
    var h, b := rest[..3], rest[3..];
    assert rest == h + b;
    BitsOfAppend(h, b);
    SameSplit(BitsOf(h), BitsOf(b), Header(), p);
    HeaderBytes(h);
  }

  lemma SameSplit(a: BitString, b: BitString, c: BitString, d: BitString)
    requires a + b == c + d && |a| == |c|
    ensures a == c && b == d
  {
    assert a == (a + b)[..|a|] && c == (c + d)[..|a|];
    assert b == (a + b)[|a|..] && d == (c + d)[|a|..];
  }

  lemma Split24(x: nat, y: nat, z: nat)
    requires x < 256 && y < 256 && z < 256
    ensures ToBits(65536 * x + 256 * y + z, 24) == ToBits(x, 8) + ToBits(y, 8) + ToBits(z, 8)
  {
    hide ToBits, Pow2;
    var v := 65536 * x + 256 * y + z;
    Pow2Values();
    ToBitsSplit(v, 16, 8);
    ToBitsSplit(v / 256, 8, 8);
    assert v / 256 == 256 * x + y && v / 256 / 256 == x;
    ToBitsMod(v, 8, 8);
    ToBitsMod(v / 256, 8, 8);
  }

  lemma ValueBits(c: Word)
    ensures ToBits(Value(c), 24) == ByteBits(Byte2(c)) + ByteBits(Byte1(c)) + ByteBits(Byte0(c))
  {
    hide ToBits, Byte0, Byte1, Byte2;
    ByteRange(Byte2(c));
    ByteRange(Byte1(c));
    ByteRange(Byte0(c));
    Split24(Byte2(c) as nat, Byte1(c) as nat, Byte0(c) as nat);
  }

  lemma SameThree(a: BitString, b: BitString, c: BitString, x: BitString, y: BitString, z: BitString)
    requires |a| == |b| == |x| == |y| && a + b + c == x + y + z
    ensures a == x && b == y && c == z
  {
    SameSplit(a + b, c, x + y, z);
    SameSplit(a, b, x, y);
  }

  /** The CRC, appended as 24 bits, reads back as three bytes. */
  lemma CrcBytes(s: seq<Byte>, c: Word)
    requires |s| == 3 && c < REGISTER && BitsOf(s) == ToBits(Value(c), 24)
    ensures Join3(s[0], s[1], s[2]) == c
  {
    hide ToBits, ByteBits, Join3, BitsOf, Byte0, Byte1, Byte2, Value;
    ValueBits(c);
    ThreeBytes(s);
    SameThree(ByteBits(s[0]), ByteBits(s[1]), ByteBits(s[2]), ByteBits(Byte2(c)), ByteBits(Byte1(c)),
      ByteBits(Byte0(c)));
    BytesEqual(s[0], Byte2(c));
    BytesEqual(s[1], Byte1(c));
    BytesEqual(s[2], Byte0(c));
    Join3Bytes(c);
  }

  lemma ThreeBytes(s: seq<Byte>)
    requires |s| == 3
    ensures BitsOf(s) == ByteBits(s[0]) + ByteBits(s[1]) + ByteBits(s[2])
  {
    hide ByteBits;
    assert s[..2][..1] == s[..1] && s[..1][..0] == [];
    assert BitsOf(s[..1]) == BitsOf(s[..0]) + ByteBits(s[0]);
    assert BitsOf(s[..2]) == BitsOf(s[..1]) + ByteBits(s[1]);
  }

  /** ENDBLOCK: pad, patch the length into the header, append the CRC. */
  method EndBlock(w: BitWriter, start: nat, ghost done: seq<Byte>, ghost body: BitString) returns (ok: bool)
    requires InBlock(w, done, start, body)
    modifies w, w.buffer
    ensures w.Consistent()
    ensures ok <==> start + BlockLen(body) <= w.limit
    ensures ok ==> w.Valid() && w.numbits == 0 && w.ressize == start + BlockLen(body)
    ensures ok ==> w.buffer[..start] == done && IsBlock(w.buffer[start..w.ressize], body)
    ensures w.buffer[w.limit..] == old(w.buffer[w.limit..])
  {
    hide BitsOf, ToBits, Header, ByteBits, Pad, Crc, IsBlock;
    ok := PadBlock(w, done, start, body);
    if !ok {
      return;
    }
    ghost var whole := w.buffer[..w.ressize];
    WholeStream(w);
    StoredBlock(whole, done, Pad(body));
    var len := w.ressize - start - 3;
    SliceOfSlice(whole, w.buffer[..], start, 3);
    PatchLength(w.buffer, start, len);
    assert w.buffer[start + 3..w.ressize] == whole[start..][3..];
    assert w.buffer[..start] == done;
    ok := AppendCrc(w, start, len, body);
    assert ok ==> w.buffer[..start] == done;
  }

  lemma WholeStream(w: BitWriter)
    requires w.Valid() && w.numbits == 0
    ensures w.Stream() == BitsOf(w.buffer[..w.ressize])
  {
    hide ToBits, BitsOf;
    NoBits(w.bitbuffer);
    assert BitsOf(w.buffer[..w.ressize]) + [] == BitsOf(w.buffer[..w.ressize]);
  }

  lemma SliceOfSlice(whole: seq<Byte>, s: seq<Byte>, k: nat, m: nat)
    requires k + m <= |whole| <= |s| && whole == s[..|whole|]
    ensures whole[k..][..m] == s[k..k + m]
  {
  }

  /** The CRC over header and body, appended behind them. */
  method AppendCrc(w: BitWriter, start: nat, len: nat, ghost body: BitString) returns (ok: bool)
    requires w.Valid() && w.numbits == 0 && w.ressize == start + 3 + len && len == BodyLen(body)
    requires w.buffer[start] == 0xD3
    requires w.buffer[start + 1] as nat == (len / 256) % 256 && w.buffer[start + 2] as nat == len % 256
    requires BitsOf(w.buffer[start + 3..w.ressize]) == Pad(body)
    modifies w, w.buffer
    ensures w.Consistent()
    ensures ok <==> start + BlockLen(body) <= w.limit
    ensures ok ==> w.Valid() && w.numbits == 0 && w.ressize == start + BlockLen(body)
    ensures ok ==> w.buffer[..start] == old(w.buffer[..start]) && IsBlock(w.buffer[start..w.ressize], body)
    ensures w.buffer[w.limit..] == old(w.buffer[w.limit..])
  {
    hide BitsOf, ToBits, ByteBits, Pad, Crc, IsBlock;
    var crc := ComputeCrc(w.buffer, start, len + 3);
    ghost var head := w.buffer[start..start + len + 3];
    CrcRange(head);
    ghost var patched := w.buffer[..w.ressize];
    WholeStream(w);
    ok := w.AddBits(24, Value(crc));
    if ok {
      ghost var final := w.buffer[..w.ressize];
      WholeStream(w);
      StoredPrefix(final, patched, ToBits(Value(crc), 24));
      CrcBytes(final[|patched|..], crc);
      FinishBlock(final, patched, start, len, body);
      assert w.buffer[start..w.ressize] == final[start..];
      assert w.buffer[..start] == patched[..start];
    }
  }

  lemma FinishBlock(final: seq<Byte>, patched: seq<Byte>, start: nat, len: nat, body: BitString)
    requires len == BodyLen(body) && |patched| == start + 3 + len && |final| == |patched| + 3
    requires final[..|patched|] == patched
    requires patched[start] == 0xD3
    requires patched[start + 1] as nat == (len / 256) % 256 && patched[start + 2] as nat == len % 256
    requires BitsOf(patched[start + 3..]) == Pad(body)
    requires var t := final[|patched|..]; Join3(t[0], t[1], t[2]) == Crc(patched[start..])
    ensures IsBlock(final[start..], body)
  {
    hide BitsOf, Pad, Crc, Join3;
    var s := final[start..];
    assert s[..len + 3] == patched[start..];
    assert s[3..len + 3] == patched[start + 3..];
    var t := final[|patched|..];
    assert s[len + 3] == t[0] && s[len + 4] == t[1] && s[len + 5] == t[2];
    assert s[0] == patched[start] && s[1] == patched[start + 1] && s[2] == patched[start + 2];
  }

  /** blockstart[1] |= len >> 8; blockstart[2] = len. */
  method PatchLength(buffer: array<Byte>, start: nat, len: nat)
    requires start + 3 <= buffer.Length && buffer[start..start + 3] == [0xD3, 0, 0]
    modifies buffer
    ensures buffer[start] == 0xD3
    ensures buffer[start + 1] as nat == (len / 256) % 256 && buffer[start + 2] as nat == len % 256
    ensures forall k :: 0 <= k < buffer.Length && k != start + 1 && k != start + 2 ==> buffer[k] == old(buffer[k])
  {
    var old1 := buffer[start + 1];
    assert old1 == buffer[start..start + 3][1] && buffer[start] == buffer[start..start + 3][0];
    OrZero(ByteOf((len / 256) % 256));
    buffer[start + 1] := old1 | ByteOf((len / 256) % 256);
    buffer[start + 2] := ByteOf(len % 256);
  }

  lemma OrZero(b: Byte)
    ensures 0 | b == b
  {
  }

  lemma {:induction false} ChainAppend(out: seq<Byte>, bodies: seq<BitString>, blk: seq<Byte>, body: BitString)
    requires IsChain(out, bodies) && IsBlock(blk, body)
    ensures IsChain(out + blk, bodies + [body])
  {
    hide IsBlock;
    assert |blk| == BlockLen(body) by {
      BlockSize(blk, body);
    }
    assert (bodies + [body])[..|bodies|] == bodies;
    assert (out + blk)[..|out|] == out && (out + blk)[|out|..] == blk;
  }

  lemma BlockSize(s: seq<Byte>, body: BitString)
    requires IsBlock(s, body)
    ensures |s| == BlockLen(body)
  {
  }
}
