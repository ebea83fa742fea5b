// zlog's growing, truncating log buffer (tcp_channel_server/zlog/buf.c).
module LogBuffer {
  import opened LogText
  import opened Numerals

  const MAXLEN_PATH := 1024
  const ZLOG_INT32_LEN := 11
  const ZLOG_INT64_LEN := 20
  const ZLOG_MAX_UINT32_VALUE := 0xffff_ffff

  datatype Expansion = Failed | Text(str: string)

  function Shorter(a: nat, b: nat): nat {
    if a < b then a else b
  }

  class Buf {
    var start: array<char>
    var tail: nat
    const size_min: nat
    const size_max: nat
    var size_real: nat
    const truncate_str: string

    ghost predicate Valid()
      reads this
    {
      && start.Length == size_real && tail < size_real
      && size_min >= 1 && (size_max != 0 ==> size_real <= size_max)
    }

    /** The characters printed since the last restart. */
    ghost function Contents(): string
      requires Valid()
      reads this, start
    {
      start[..tail]
    }

    constructor (buf_size_min: nat, buf_size_max: nat, truncate: string)
      requires buf_size_min != 0 && (buf_size_max == 0 || buf_size_min <= buf_size_max)
      ensures Valid() && fresh(start) && Contents() == []
      ensures size_min == size_real == buf_size_min && size_max == buf_size_max && truncate_str == truncate
    {
      start := new char[buf_size_min](_ => '\0');
      tail := 0;
      size_min, size_max, size_real := buf_size_min, buf_size_max, buf_size_min;
      truncate_str := truncate;
    }

    /** zlog_buf_restart */
    method Restart()
      requires Valid()
      modifies this`tail
      ensures Valid() && Contents() == []
    {
      tail := 0;
    }

    /** Overwrite the end of the contents with the truncation mark. */
    method Truncate()
      requires Valid()
      modifies start
      ensures Valid() && Contents() == Overwritten(old(Contents()), truncate_str)
    {
      if |truncate_str| == 0 {
        return;
      }
      ghost var c := Contents();
      var p := if tail < |truncate_str| then 0 else tail - |truncate_str|;
      var len := tail - p;
      forall i | 0 <= i < len {
        start[p + i] := truncate_str[i];
      }
      assert start[..tail] == c[..p] + truncate_str[..len];
    }

    /** Grow by at least the increment, or to the limit; 1 says the limit was hit. */
    method Resize(increment: nat) returns (rc: int)
      requires Valid() && increment > 0
      modifies this`start, this`size_real
      ensures Valid() && Contents() == old(Contents())
      ensures start == old(start) || fresh(start)
      ensures rc == 0 || rc == 1
      ensures rc == 0 ==> size_real >= old(size_real) + increment
      ensures rc == 0 ==> size_real == old(size_real) + if size_max == 0 then 3 * increment / 2 else increment
      ensures rc == 1 <==> size_max != 0 && old(size_real) + increment > size_max
      ensures rc == 1 ==> size_real == size_max
    {
      rc := 0;
      if size_max != 0 && size_real >= size_max {
        return 1;
      }
      var new_size;
      if size_max == 0 {
        new_size := size_real + 3 * increment / 2;
      } else if size_real + increment <= size_max {
        new_size := size_real + increment;
      } else {
        new_size := size_max;
        rc := 1;
      }
      Realloc(new_size);
    }

    method Realloc(new_size: nat)
      requires Valid() && size_real <= new_size && (size_max != 0 ==> new_size <= size_max)
      modifies this`start, this`size_real
      ensures Valid() && Contents() == old(Contents()) && fresh(start) && size_real == new_size
    {
      var p := new char[new_size](i requires 0 <= i < new_size reads this, start =>
        if i < start.Length then start[i] else '\0');
      assert p[..tail] == start[..tail];
      start := p;
      size_real := new_size;
    }

    /** Make n characters fit behind the tail, or fill up to the limit. */
    method Room(n: nat) returns (rc: int)
      requires Valid()
      modifies this`start, this`size_real
      ensures Valid() && Contents() == old(Contents())
      ensures start == old(start) || fresh(start)
      ensures rc == 0 || rc == 1
      ensures rc == 0 ==> tail + n < size_real
      ensures rc == 1 ==> size_real == size_max
      ensures rc == 1 <==> size_max != 0 && tail + n >= size_max
    {
      rc := 0;
      if tail + n > size_real - 1 {
        rc := Resize(n - (size_real - 1 - tail));
      }
    }

    /** memcpy or memset of s at the given distance behind the tail. */
    method Write(at: nat, s: string)
      requires Valid() && tail + at + |s| <= start.Length
      modifies start
      ensures Valid() && start[..tail + at] == old(start[..tail + at])
      ensures start[tail + at..tail + at + |s|] == s
      ensures start[tail + at + |s|..] == old(start[tail + at + |s|..])
    {
      forall i | 0 <= i < |s| {
        start[tail + at + i] := s[i];
      }
    }

    /** Move the tail over what was written. */
    method Advance(n: nat, ghost c: string, ghost s: string)
      requires Valid() && tail + n < size_real && Contents() == c && |s| == n && start[tail..tail + n] == s
      modifies this`tail
      ensures Valid() && Contents() == c + s
    {
      assert start[..tail + n] == start[..tail] + start[tail..tail + n];
      tail := tail + n;
    }

    /** Take in what was written behind the tail. */
    method TakeAll(n: nat, ghost c: string, ghost s: string)
      requires Valid() && tail + n < size_real && Contents() == c && |s| == n && start[tail..tail + n] == s
      modifies this`tail
      ensures Valid() && Contents() == Absorb(c, s, size_max, truncate_str)
    {
      hide Absorb;
      Advance(n, c, s);
      AbsorbFits(c, s, size_max, truncate_str);
    }

    /** The same when only the first n characters of s fitted: the end of the buffer becomes the mark. */
    method TakeCut(n: nat, ghost c: string, ghost s: string)
      requires Valid() && size_real == size_max && tail + n == size_real - 1 && Contents() == c
      requires n <= |s| && |c| + |s| >= size_max && start[tail..tail + n] == s[..n]
      modifies this`tail, start
      ensures Valid() && Contents() == Absorb(c, s, size_max, truncate_str)
    {
      hide Absorb, Overwritten;
      Advance(n, c, s[..n]);
      Truncate();
      AbsorbCut(c, s, n, size_max, truncate_str);
    }

    /** zlog_buf_append */
    method Append(str: string) returns (rc: int)
      requires Valid()
      modifies this, start
      ensures Valid() && (start == old(start) || fresh(start))
      ensures Contents() == Absorb(old(Contents()), str, size_max, truncate_str)
      ensures rc == if size_max != 0 && |old(Contents())| + |str| >= size_max then 1 else 0
    {
      hide Absorb, Overwritten;
      ghost var c := Contents();
      rc := Room(|str|);
      if rc > 0 {
        var len_left := size_real - 1 - tail;
        Write(0, str[..len_left]);
        TakeCut(len_left, c, str);
        return 1;
      }
      Write(0, str);
      TakeAll(|str|, c, str);
      return 0;
    }

    /** Two pieces behind the tail, front first. */
    method WriteFrontFirst(a: string, b: string)
      requires Valid() && tail + |a| + |b| < size_real
      modifies start
      ensures Valid() && Contents() == old(Contents()) && start[tail..tail + |a| + |b|] == a + b
    {
      Write(0, a);
      ghost var front := start[..tail + |a|];
      assert front[tail..] == a && front[..tail] == start[..tail];
      Write(|a|, b);
      assert start[..tail + |a|] == front;
      assert start[tail..tail + |a|] == front[tail..];
      assert start[..tail] == front[..tail];
      assert start[tail..tail + |a| + |b|] == start[tail..tail + |a|] + start[tail + |a|..tail + |a| + |b|];
    }

    /** Two pieces behind the tail, back first. */
    method WriteBackFirst(a: string, b: string)
      requires Valid() && tail + |a| + |b| < size_real
      modifies start
      ensures Valid() && Contents() == old(Contents()) && start[tail..tail + |a| + |b|] == a + b
    {
      hide Spliced;
      ghost var was := start[..];
      Splice(|a|, b);
      Splice(0, a);
      SplicedTwice(was, tail, a, b);
      assert was[..tail] == old(start[..tail]);
      SliceOfAll(start, 0, tail);
      SliceOfAll(start, tail, tail + |a| + |b|);
    }

    /** A write as a whole: the array outside the piece is as before. */
    method Splice(at: nat, s: string)
      requires Valid() && tail + at + |s| <= start.Length
      modifies start
      ensures Valid() && start[..] == Spliced(old(start[..]), tail + at, s)
    {
      ghost var was := start[..];
      Write(at, s);
      assert start[..] == start[..tail + at] + start[tail + at..tail + at + |s|] + start[tail + at + |s|..];
      assert was[..tail + at] == old(start[..tail + at]) && was[tail + at + |s|..] == old(start[tail + at + |s|..]);
    }

    static ghost function Spliced(b: string, k: nat, s: string): (r: string)
      requires k + |s| <= |b|
      ensures |r| == |b|
    {
      b[..k] + s + b[k + |s|..]
    }

    static lemma SplicedTwice(w: string, k: nat, a: string, b: string)
      requires k + |a| + |b| <= |w|
      ensures var r := Spliced(Spliced(w, k + |a|, b), k, a);
        r[..k] == w[..k] && r[k..k + |a| + |b|] == a + b
    {
      var v := Spliced(w, k + |a|, b);
      assert v[..k] == w[..k] && v[k + |a|..][..|b|] == b;
    }

    static lemma SliceOfAll(s: array<char>, k: nat, m: nat)
      requires k <= m <= s.Length
      ensures s[..][k..m] == s[k..m] && s[..][..k] == s[..k]
    {
    }

    /** What dec32, dec64 and hex share: the digits tmp[p..], zero-padded to width, into the buffer. */
    method PutDigits(tmp: array<char>, p: nat, width: nat, ghost n: nat, ghost base: nat) returns (rc: int)
      requires Valid() && tmp != start && p <= tmp.Length && 2 <= base <= 16 && tmp[p..] == Numeral(n, base)
      modifies this, start
      ensures Valid() && (start == old(start) || fresh(start))
      ensures Contents() == Absorb(old(Contents()), Padded(n, base, width), size_max, truncate_str)
      ensures rc == if size_max != 0 && |old(Contents())| + |Padded(n, base, width)| >= size_max then 1 else 0
    {
      ghost var c, all := Contents(), Padded(n, base, width);
      var num_len := tmp.Length - p;
      var zero_len, out_len := 0, num_len;
      if width > num_len {
        zero_len := width - num_len;
        out_len := width;
      }
      assert all == Zeros(zero_len) + tmp[p..] && |all| == out_len;
      hide Absorb, Overwritten, Numeral, Padded, Zeros;
      rc := Room(out_len);
      if rc > 0 {
        PutDigitsCut(tmp, p, zero_len, c, all);
        return 1;
      }
      WriteFrontFirst(Zeros(zero_len), tmp[p..]);
      TakeAll(out_len, c, all);
      return 0;
    }

    /** The limit is hit: as much of the zeros and digits as fits, then the mark. */
    method PutDigitsCut(tmp: array<char>, p: nat, zeros: nat, ghost c: string, ghost all: string)
      requires Valid() && tmp != start && p <= tmp.Length && Contents() == c && all == Zeros(zeros) + tmp[p..]
      requires size_real == size_max && |c| + |all| >= size_max
      modifies this`tail, start
      ensures Valid() && Contents() == Absorb(c, all, size_max, truncate_str)
    {
      hide Absorb, Overwritten, Zeros;
      var zero_len, num_len := zeros, tmp.Length - p;
      var len_left := size_real - 1 - tail;
      ZerosCut(zero_len, tmp[p..], len_left);
      if len_left <= zero_len {
        zero_len := len_left;
        num_len := 0;
      } else {
        num_len := len_left - zero_len;
      }
      assert tmp[p..p + num_len] == tmp[p..][..num_len];
      WriteFrontFirst(Zeros(zero_len), tmp[p..p + num_len]);
      TakeCut(len_left, c, all);
    }

    /** zlog_buf_printf_dec32 */
    method PrintfDec32(ui32: nat, width: nat) returns (rc: int)
      requires Valid() && ui32 <= ZLOG_MAX_UINT32_VALUE
      modifies this, start
      ensures Valid() && (start == old(start) || fresh(start))
      ensures Contents() == Absorb(old(Contents()), Padded(ui32, 10, width), size_max, truncate_str)
      ensures rc == if size_max != 0 && |old(Contents())| + |Padded(ui32, 10, width)| >= size_max then 1 else 0
    {
      hide Absorb, Padded, Numeral, Power;
      var tmp := new char[ZLOG_INT32_LEN];
      Widths();
      var p := WriteDigits(tmp, ui32, 10);
      rc := PutDigits(tmp, p, width, ui32, 10);
    }

    /** zlog_buf_printf_dec64: small numbers take the 32-bit loop, the others the 64-bit one. */
    method PrintfDec64(ui64: nat, width: nat) returns (rc: int)
      requires Valid() && ui64 < 0x1_0000_0000_0000_0000
      modifies this, start
      ensures Valid() && (start == old(start) || fresh(start))
      ensures Contents() == Absorb(old(Contents()), Padded(ui64, 10, width), size_max, truncate_str)
      ensures rc == if size_max != 0 && |old(Contents())| + |Padded(ui64, 10, width)| >= size_max then 1 else 0
    {
      hide Absorb, Padded, Numeral, Power;
      var tmp := new char[ZLOG_INT64_LEN];
      Widths();
      var p;
      if ui64 <= ZLOG_MAX_UINT32_VALUE {
        var ui32 := Low32(ui64);
        p := WriteDigits(tmp, ui32, 10);
      } else {
        p := WriteDigits(tmp, ui64, 10);
      }
      rc := PutDigits(tmp, p, width, ui64, 10);
    }

    /** zlog_buf_printf_hex */
    method PrintfHex(ui32: nat, width: nat) returns (rc: int)
      requires Valid() && ui32 <= ZLOG_MAX_UINT32_VALUE
      modifies this, start
      ensures Valid() && (start == old(start) || fresh(start))
      ensures Contents() == Absorb(old(Contents()), Padded(ui32, 16, width), size_max, truncate_str)
      ensures rc == if size_max != 0 && |old(Contents())| + |Padded(ui32, 16, width)| >= size_max then 1 else 0
    {
      hide Absorb, Padded, Numeral, Power;
      var tmp := new char[ZLOG_INT32_LEN];
      Widths();
      var p := WriteDigits(tmp, ui32, 16);
      rc := PutDigits(tmp, p, width, ui32, 16);
    }

    /** vsnprintf into the free part: as much as fits before the terminating null. */
    method Vsnprintf(text: string) returns (nwrite: nat)
      requires Valid()
      modifies start
      ensures Valid() && Contents() == old(Contents()) && nwrite == |text|
      ensures start[tail..tail + Shorter(nwrite, size_real - tail - 1)] == text[..Shorter(nwrite, size_real - tail - 1)]
    {
      var k := Shorter(|text|, size_real - tail - 1);
      Write(0, text[..k]);
      ghost var before := start[..tail + k];
      start[tail + k] := '\0';
      assert start[..tail + k] == before;
      assert before[tail..] == text[..k] && before[..tail] == start[..tail];
      nwrite := |text|;
    }

    /** zlog_buf_vprintf; text is what the format and its arguments expand to, None an encoding error. */
    method Vprintf(text: Expansion) returns (rc: int)
      requires Valid()
      modifies this, start
      ensures Valid() && (start == old(start) || fresh(start))
      ensures text.Failed? ==> rc == -1 && Contents() == old(Contents())
      ensures text.Text? ==>
        && Contents() == Absorb(old(Contents()), text.str, size_max, truncate_str)
        && rc == if size_max != 0 && |old(Contents())| + |text.str| >= size_max then 1 else 0
    {
      hide Absorb, Overwritten;
      if text.Failed? {
        return -1;
      }
      ghost var c, s := Contents(), text.str;
      var size_left := size_real - tail;
      var nwrite := Vsnprintf(text.str);
      assert s[..|s|] == s;
      if nwrite < size_left {
        TakeAll(nwrite, c, s);
        return 0;
      }
      rc := Resize(nwrite - size_left + 1);
      size_left := size_real - tail;
      nwrite := Vsnprintf(text.str);
      if rc > 0 {
        TakeCut(size_left - 1, c, s);
        return 1;
      }
      TakeAll(nwrite, c, s);
    }

    /** zlog_buf_adjust_append */
    method AdjustAppend(str: string, left_adjust: bool, in_width: nat, out_width: nat) returns (rc: int)
      requires Valid()
      modifies this, start
      ensures Valid() && (start == old(start) || fresh(start))
      ensures var s := Adjusted(str, left_adjust, in_width, out_width);
        && Contents() == Absorb(old(Contents()), s, size_max, truncate_str)
        && rc == if size_max != 0 && |old(Contents())| + |s| >= size_max then 1 else 0
    {
      ghost var c, all := Contents(), Adjusted(str, left_adjust, in_width, out_width);
      var source_len := if out_width == 0 || |str| < out_width then |str| else out_width;
      var append_len, space_len := source_len, 0;
      if in_width != 0 && source_len < in_width {
        append_len := in_width;
        space_len := in_width - source_len;
      }
      assert str[..|str|] == str;
      assert all == Sided(str[..source_len], Spaces(space_len), left_adjust);
      hide Absorb, Overwritten, Spaces, Adjusted, Sided;
      rc := Room(append_len);
      if rc > 0 {
        append_len := size_real - 1 - tail;
        SidedCut(str, source_len, space_len, left_adjust, append_len);
        if left_adjust {
          if source_len < append_len {
            space_len := append_len - source_len;
          } else {
            source_len := append_len;
            space_len := 0;
          }
        } else {
          if space_len < append_len {
            source_len := append_len - space_len;
          } else {
            space_len := append_len;
            source_len := 0;
          }
        }
        Lay(str[..source_len], space_len, left_adjust, c, all[..append_len]);
        Truncate();
        AbsorbCut(c, all, append_len, size_max, truncate_str);
        return 1;
      }
      Lay(str[..source_len], space_len, left_adjust, c, all);
      AbsorbFits(c, all, size_max, truncate_str);
      return 0;
    }

    /** One call of a pattern's spec. */
    method Print(spec: Spec) returns (rc: int)
      requires Valid() && spec.Printable()
      modifies this, start
      ensures Valid() && (start == old(start) || fresh(start))
      ensures spec.Fails() ==> rc == -1 && Contents() == old(Contents())
      ensures !spec.Fails() ==>
        && Contents() == Absorb(old(Contents()), spec.Output(), size_max, truncate_str)
        && rc == if size_max != 0 && |old(Contents())| + |spec.Output()| >= size_max then 1 else 0
    {
      hide Absorb;
      match spec
      case Literal(str) => rc := Append(str);
      case Dec32(n, width) => rc := PrintfDec32(n, width);
      case Dec64(n, width) => rc := PrintfDec64(n, width);
      case Hex(n, width) => rc := PrintfHex(n, width);
      case Adjust(str, left, inWidth, outWidth) => rc := AdjustAppend(str, left, inWidth, outWidth);
      case Message(text) => rc := Vprintf(text);
    }

    /**
     * zlog_format_gen_msg: restart, then print spec by spec and stop at the first that does not return 0. The
     * contents are those of printing everything up to the first spec that fails, or to the end; the result is -1 if
     * one fails or the text was cut.
     */
    method GenMsg(specs: seq<Spec>) returns (rc: int)
      requires Valid() && forall i :: 0 <= i < |specs| ==> specs[i].Printable()
      modifies this, start
      ensures Valid() && (start == old(start) || fresh(start))
      ensures var text := Concat(Outputs(specs, Working(specs)));
        && Contents() == Shown(text, size_max, truncate_str)
        && rc == if Working(specs) < |specs| || (size_max != 0 && |text| >= size_max) then -1 else 0
    {
      hide Absorb, Shown, Concat, Spec.Output, Spec.Fails, Working;
      Restart();
      ConcatEmpty();
      ghost var f := Working(specs);
      for i := 0 to |specs|
        invariant Valid() && (start == old(start) || fresh(start)) && i <= f
        invariant Contents() == Concat(Outputs(specs, i)) && (size_max == 0 || |Contents()| < size_max)
      {
        ConcatNext(specs, i);
        ghost var c := Contents();
        var r := Print(specs[i]);
        if r != 0 {
          if i < f {
            AbsorbIsShown(c, specs[i].Output(), size_max, truncate_str);
            CutStays(specs, i, f, size_max, truncate_str);
          } else {
            ShownFits(c, size_max, truncate_str);
          }
          return -1;
        }
        AbsorbFits(c, specs[i].Output(), size_max, truncate_str);
      }
      ShownFits(Concat(Outputs(specs, |specs|)), size_max, truncate_str);
      return 0;
    }

    /** The text and its blanks, on the chosen side. */
    method Lay(source: string, space_len: nat, left_adjust: bool, ghost c: string, ghost all: string)
      requires Valid() && tail + |source| + space_len < size_real && Contents() == c
      requires all == Sided(source, Spaces(space_len), left_adjust)
      modifies this`tail, start
      ensures Valid() && Contents() == c + all
    {
      if left_adjust {
        WriteBackFirst(source, Spaces(space_len));
      } else {
        WriteFrontFirst(Spaces(space_len), source);
      }
      Advance(|source| + space_len, c, all);
    }
  }

  /** What a pattern prints, piece by piece. */
  datatype Spec =
    | Literal(str: string)
    | Dec32(n: nat, width: nat)
    | Dec64(n: nat, width: nat)
    | Hex(n: nat, width: nat)
    | Adjust(str: string, left: bool, inWidth: nat, outWidth: nat)
    | Message(text: Expansion)
  {
    predicate Printable() {
      match this
      case Dec32(n, _) => n <= ZLOG_MAX_UINT32_VALUE
      case Dec64(n, _) => n < 0x1_0000_0000_0000_0000
      case Hex(n, _) => n <= ZLOG_MAX_UINT32_VALUE
      case _ => true
    }

    function Output(): string {
      match this
      case Literal(s) => s
      case Dec32(m, w) => Padded(m, 10, w)
      case Dec64(m, w) => Padded(m, 10, w)
      case Hex(m, w) => Padded(m, 16, w)
      case Adjust(s, l, i, o) => Adjusted(s, l, i, o)
      case Message(Text(s)) => s
      case Message(Failed) => []
    }

    /** The message's format cannot be expanded. */
    predicate Fails() {
      Message? && text.Failed?
    }
  }

  /** The number of specs before the first that fails. */
  function Working(specs: seq<Spec>): (f: nat)
    ensures f <= |specs| && (forall i :: 0 <= i < f ==> !specs[i].Fails()) && (f < |specs| ==> specs[f].Fails())
  {
    if specs == [] || specs[0].Fails() then 0 else 1 + Working(specs[1..])
  }

  function Outputs(specs: seq<Spec>, k: nat): (r: seq<string>)
    requires k <= |specs|
    ensures |r| == k && forall i :: 0 <= i < k ==> r[i] == specs[i].Output()
  {
    seq(k, i requires 0 <= i < k => specs[i].Output())
  }

  lemma ConcatEmpty()
    ensures Concat([]) == []
  {
  }

  lemma ConcatNext(specs: seq<Spec>, i: nat)
    requires i < |specs|
    ensures Outputs(specs, 0) == []
    ensures Concat(Outputs(specs, i + 1)) == Concat(Outputs(specs, i)) + specs[i].Output()
  {
    hide Spec.Output;
    var r := Outputs(specs, i + 1);
    assert r[..i] == Outputs(specs, i);
  }

  lemma AbsorbIsShown(c: string, s: string, max: nat, t: string)
    ensures Absorb(c, s, max, t) == Shown(c + s, max, t)
  {
  }

  lemma ShownFits(text: string, max: nat, t: string)
    requires max == 0 || |text| < max
    ensures Shown(text, max, t) == text
  {
  }

  /** The piece that does not fit settles the contents. */
  lemma CutStays(specs: seq<Spec>, i: nat, k: nat, max: nat, t: string)
    requires i < k <= |specs| && max != 0 && |Concat(Outputs(specs, i + 1))| >= max
    ensures var all := Concat(Outputs(specs, k));
      |all| >= max && Shown(all, max, t) == Shown(Concat(Outputs(specs, i + 1)), max, t)
  {
    hide Spec.Output, Shown, Concat;
    var a, all := Outputs(specs, i + 1), Outputs(specs, k);
    var rest := all[i + 1..];
    assert all == a + rest;
    ConcatAppend(a, rest);
    PrintedIsShown(a, max, t);
    PrintedIsShown(all, max, t);
    OverflowIsFinal(a, rest, max, t);
  }

  function Sided(source: string, blanks: string, left: bool): (s: string)
    ensures |s| == |source| + |blanks|
  {
    if left then source + blanks else blanks + source
  }

  lemma ZerosCut(z: nat, digits: string, k: nat)
    requires k <= z + |digits|
    ensures |Zeros(z) + digits| == z + |digits|
    ensures (Zeros(z) + digits)[..k] == if k <= z then Zeros(k) + digits[..0] else Zeros(z) + digits[..k - z]
  {
  }

  lemma SidedCut(str: string, source: nat, space: nat, left: bool, k: nat)
    requires source <= |str| && k <= source + space
    ensures Sided(str[..source], Spaces(space), left)[..k] ==
      if left then Sided(str[..if source < k then source else k], Spaces(if source < k then k - source else 0), left)
      else Sided(str[..if space < k then k - space else 0], Spaces(if space < k then space else k), left)
  {
  }

  /** The largest arguments fit the temporary arrays. */
  lemma Widths()
    ensures ZLOG_MAX_UINT32_VALUE < Power(10, ZLOG_INT32_LEN) && ZLOG_MAX_UINT32_VALUE < Power(16, ZLOG_INT32_LEN)
    ensures 0xffff_ffff_ffff_ffff < Power(10, ZLOG_INT64_LEN)
  {
    assert Power(10, 4) == 10000 && Power(10, 8) == 100000000;
    assert Power(10, 12) == 1000000000000 && Power(10, 16) == 10000000000000000;
    assert Power(16, 4) == 65536 && Power(16, 8) == 4294967296;
  }

  /** The cast to uint32_t. */
  function Low32(v: nat): (r: nat)
    ensures v <= ZLOG_MAX_UINT32_VALUE ==> r == v
  {
    v % 0x1_0000_0000
  }

  /** The digits still to be written when v is left. */
  ghost function Remaining(v: nat, base: nat): string
    requires 2 <= base <= 16
  {
    if v == 0 then [] else Numeral(v, base)
  }

  lemma NumeralStep(v: nat, base: nat)
    requires 2 <= base <= 16
    ensures v % base < base && v / base >= 0
    ensures Numeral(v, base) == Remaining(v / base, base) + [DigitChar(v % base)]
  {
    if v >= base {
      Below(v, base);
    } else {
      SmallQuotient(v, base);
    }
  }

  lemma SmallQuotient(v: nat, base: nat)
    requires v < base
    ensures v / base == 0 && v % base == v
  {
  }

  method StoreDigit(tmp: array<char>, p: nat, c: char, ghost front: string, ghost done: string)
    requires 0 < p <= tmp.Length && tmp[p..] == done
    modifies tmp
    ensures front + tmp[p - 1..] == (front + [c]) + done
  {
    tmp[p - 1] := c;
    assert tmp[p - 1..] == [c] + tmp[p..];
  }

  /** The digit loop: from the end of tmp towards the front, at least one digit. */
  method WriteDigits(tmp: array<char>, n: nat, base: nat) returns (p: nat)
    requires 2 <= base <= 16 && tmp.Length >= 1 && n < Power(base, tmp.Length)
    modifies tmp
    ensures p < tmp.Length && tmp[p..] == Numeral(n, base)
  {
    hide Numeral, Power;
    NumeralStep(n, base);
    PowerDivides(n, base, tmp.Length);
    StoreDigit(tmp, tmp.Length, DigitChar(n % base), Remaining(n / base, base), []);
    p := tmp.Length - 1;
    var v: nat := n / base;
    while v != 0
      invariant p < tmp.Length && v < Power(base, p)
      invariant Remaining(v, base) + tmp[p..] == Numeral(n, base)
      decreases p
    {
      NumeralStep(v, base);
      PowerZero(base);
      PowerDivides(v, base, p);
      StoreDigit(tmp, p, DigitChar(v % base), Remaining(v / base, base), tmp[p..]);
      p := p - 1;
      v := v / base;
    }
  }

  lemma PowerZero(base: nat)
    ensures Power(base, 0) == 1
  {
  }

  /** zlog_buf_new: refuses a zero minimum, a maximum below the minimum, and an over-long mark. */
  method NewBuf(buf_size_min: nat, buf_size_max: nat, truncate: string) returns (a_buf: Buf?)
    ensures a_buf == null <==>
      buf_size_min == 0 || (buf_size_max != 0 && buf_size_max < buf_size_min) || |truncate| > MAXLEN_PATH
    ensures a_buf != null ==>
      && fresh(a_buf) && fresh(a_buf.start) && a_buf.Valid() && a_buf.Contents() == []
      && a_buf.size_max == buf_size_max && a_buf.truncate_str == truncate
  {
    if buf_size_min == 0 || (buf_size_max != 0 && buf_size_max < buf_size_min) {
      return null;
    }
    if |truncate| > MAXLEN_PATH {
      return null;
    }
    a_buf := new Buf(buf_size_min, buf_size_max, truncate);
  }
}
