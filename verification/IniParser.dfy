// The INI parser of tcp_channel_server/zy_config.c as it works on its line buffer.
module IniParser {
  import opened IniText

  /** The null-terminated string at s is str. */
  ghost predicate Holds(buf: array<char>, s: nat, str: string)
    reads buf
  {
    s + |str| < buf.Length && buf[s..s + |str|] == str && buf[s + |str|] == '\0' && '\0' !in str
  }

  /** What buf says at and behind s. */
  lemma CharAt(buf: array<char>, s: nat, str: string, i: nat)
    requires Holds(buf, s, str) && i <= |str|
    ensures buf[s + i] == if i < |str| then str[i] else '\0'
    ensures i < |str| ==> str[i] != '\0'
    ensures Holds(buf, s + i, str[i..])
  {
    assert buf[s + i..s + |str|] == str[i..];
    if i < |str| {
      assert buf[s..s + |str|][i] == str[i];
    }
  }

  /** Writing a null inside the string cuts it there. */
  method Cut(buf: array<char>, at: nat, ghost s: nat, ghost str: string)
    requires Holds(buf, s, str) && s <= at <= s + |str|
    modifies buf
    ensures Holds(buf, s, str[..at - s])
    ensures at < s + |str| ==> Holds(buf, at + 1, str[at - s + 1..])
  {
    buf[at] := '\0';
    assert buf[s..at] == str[..at - s];
    if at < s + |str| {
      assert buf[at + 1..s + |str|] == str[at - s + 1..];
    }
  }

  method Strlen(buf: array<char>, s: nat, ghost str: string) returns (n: nat)
    requires Holds(buf, s, str)
    ensures n == |str|
  {
    CharAt(buf, s, str, 0);
    n := 0;
    while buf[s + n] != '\0'
      invariant n <= |str| && buf[s + n] == if n < |str| then str[n] else '\0'
      decreases |str| - n
    {
      CharAt(buf, s, str, n + 1);
      n := n + 1;
    }
    CharAt(buf, s, str, n);
  }

  /** rstrip: nulls over the trailing whitespace. */
  method Rstrip(buf: array<char>, s: nat, ghost str: string)
    requires Holds(buf, s, str)
    modifies buf
    ensures Holds(buf, s, RStripped(str))
    ensures forall i :: 0 <= i < buf.Length && !(s <= i < s + |str|) ==> buf[i] == old(buf[i])
  {
    var n := Strlen(buf, s, str);
    var p := s + n;
    ghost var left := str;
    while p > s
      invariant p == s + |left| && left <= str && Holds(buf, s, left) && RStripped(left) == RStripped(str)
      invariant forall i :: 0 <= i < buf.Length && !(s <= i < s + |str|) ==> buf[i] == old(buf[i])
    {
      p := p - 1;
      CharAt(buf, s, left, p - s);
      if !IsSpace(buf[p]) {
        break;
      }
      Shorter(buf, s, left);
      buf[p] := '\0';
      left := left[..|left| - 1];
      assert buf[s..p] == left;
    }
  }

  lemma Shorter(buf: array<char>, s: nat, left: string)
    requires Holds(buf, s, left) && left != [] && IsSpace(left[|left| - 1])
    ensures RStripped(left) == RStripped(left[..|left| - 1])
    ensures buf[s..s + |left| - 1] == left[..|left| - 1]
  {
    assert buf[s..s + |left| - 1] == buf[s..s + |left|][..|left| - 1];
  }

  /** lskip */
  method Lskip(buf: array<char>, s: nat, ghost str: string) returns (p: nat)
    requires Holds(buf, s, str)
    ensures p == s + |str| - |LSkipped(str)| && Holds(buf, p, LSkipped(str))
  {
    hide Holds, IsSpace, LSkipped, SameSkipped;
    p := s;
    ghost var k := 0;
    CharAt(buf, s, str, 0);
    Inside(buf, s, str);
    SkipNothing(str);
    while buf[p] != '\0' && IsSpace(buf[p])
      invariant p == s + k && Holds(buf, s, str) && SameSkipped(str, k) && k <= |str|
      invariant buf[p] == if k < |str| then str[k] else '\0'
      decreases |str| - k
    {
      SkipOne(str, k);
      CharAt(buf, s, str, k + 1);
      p := p + 1;
      k := k + 1;
    }
    CharAt(buf, s, str, k);
    SkipDone(str, k);
  }

  /** Nothing but whitespace lies before k. */
  ghost predicate SameSkipped(str: string, k: nat) {
    k <= |str| && LSkipped(str[k..]) == LSkipped(str)
  }

  lemma SkipNothing(str: string)
    ensures SameSkipped(str, 0)
  {
    assert str[0..] == str;
  }

  lemma SkipOne(str: string, k: nat)
    requires SameSkipped(str, k) && k < |str| && IsSpace(str[k])
    ensures SameSkipped(str, k + 1)
  {
    assert str[k..][1..] == str[k + 1..];
  }

  lemma SkipDone(str: string, k: nat)
    requires SameSkipped(str, k) && (k < |str| ==> !IsSpace(str[k]))
    ensures LSkipped(str) == str[k..]
  {
  }

  /** find_char_or_comment */
  method FindCharOrComment(buf: array<char>, s: nat, c: char, ghost str: string) returns (p: nat)
    requires Holds(buf, s, str)
    ensures p == s + Find(str, c, false)
    ensures Holds(buf, p, str[Find(str, c, false)..])
    ensures buf[p] == if Find(str, c, false) < |str| then str[Find(str, c, false)] else '\0'
  {
    hide Find, Holds, IsSpace;
    p := s;
    ghost var k := 0;
    var was_whitespace := false;
    CharAt(buf, s, str, 0);
    assert str[0..] == str;
    Inside(buf, s, str);
    while buf[p] != '\0' && buf[p] != c && !(was_whitespace && buf[p] == ';')
      invariant k <= |str| && p == s + k && Holds(buf, s, str)
      invariant buf[p] == if k < |str| then str[k] else '\0'
      invariant Find(str, c, false) == k + Find(str[k..], c, was_whitespace)
      decreases |str| - k
    {
      FindOn(str, k, c, was_whitespace);
      CharAt(buf, s, str, k + 1);
      was_whitespace := IsSpace(buf[p]);
      p := p + 1;
      k := k + 1;
    }
    CharAt(buf, s, str, k);
    FindOn(str, k, c, was_whitespace);
  }

  lemma Inside(buf: array<char>, s: nat, str: string)
    requires Holds(buf, s, str)
    ensures s + |str| < buf.Length && '\0' !in str
  {
  }

  lemma FindOn(str: string, k: nat, c: char, ws: bool)
    requires k <= |str|
    ensures Find(str[k..], c, ws) ==
      if k == |str| || str[k] == c || (ws && str[k] == ';') then 0 else 1 + Find(str[k + 1..], c, IsSpace(str[k]))
  {
    if k < |str| {
      assert str[k..][1..] == str[k + 1..];
    }
  }

  /** The string handed on, or copied by strncpy0. */
  method StringAt(buf: array<char>, s: nat, ghost str: string) returns (r: string)
    requires Holds(buf, s, str)
    ensures r == str
  {
    var n := Strlen(buf, s, str);
    r := buf[s..s + n];
  }

  // ---------- the line loop ----------

  /** A section header: start is behind the bracket. */
  method ParseHeader(buf: array<char>, start: nat, ghost rest: string, st0: State, ghost accepts: nat -> bool)
    returns (st: State)
    requires Holds(buf, start, rest)
    modifies buf
    ensures st == Apply(st0, SplitHeader(rest), accepts)
  {
    st := st0;
    var end := FindCharOrComment(buf, start, ']', rest);
    if buf[end] == ']' {
      Cut(buf, end, start, rest);
      var title := StringAt(buf, start, rest[..end - start]);
      st := st.(section := Clipped(title, MAX_SECTION), prevName := []);
    } else if st.error == 0 {
      st := st.(error := st.lineno);
    }
  }

  /** A name=value or name:value line. */
  method ParseEntry(buf: array<char>, start: nat, ghost text: string, st0: State, accepts: nat -> bool)
    returns (st: State)
    requires Holds(buf, start, text)
    modifies buf
    ensures st == Apply(st0, SplitEntry(text), accepts)
  {
    hide Clipped, Find, RStripped, ValuePart, Holds, Called;
    Inside(buf, start, text);
    st := st0;
    var end := FindCharOrComment(buf, start, '=', text);
    if buf[end] != '=' {
      end := FindCharOrComment(buf, start, ':', text);
    }
    if buf[end] == '=' || buf[end] == ':' {
      var name, value := TakePair(buf, start, end, text);
      st := st.(prevName := Clipped(name, MAX_NAME));
      st := Handle(st, Call(st.section, name, value), accepts);
    } else if st.error == 0 {
      st := st.(error := st.lineno);
    }
  }

  /** Cut the line at the delimiter and strip both sides. */
  method TakePair(buf: array<char>, start: nat, end: nat, ghost text: string) returns (name: string, value: string)
    requires Holds(buf, start, text) && start <= end < start + |text|
    modifies buf
    ensures name == RStripped(text[..end - start]) && value == ValuePart(text[end - start + 1..])
  {
    hide RStripped, ValuePart;
    ghost var left, right := text[..end - start], text[end - start + 1..];
    Cut(buf, end, start, text);
    Rstrip(buf, start, left);
    assert buf[end + 1..end + 1 + |right|] == right;
    name := StringAt(buf, start, RStripped(left));
    value := TakeValue(buf, end + 1, right);
  }

  method TakeValue(buf: array<char>, at: nat, ghost right: string) returns (value: string)
    requires Holds(buf, at, right)
    modifies buf
    ensures value == ValuePart(right)
  {
    hide RStripped, LSkipped, Find, Holds;
    var v := Lskip(buf, at, right);
    ghost var rest := LSkipped(right);
    ghost var kept := rest[..Find(rest, '\0', false)];
    Inside(buf, v, rest);
    var stop := FindCharOrComment(buf, v, '\0', rest);
    if buf[stop] == ';' {
      Cut(buf, stop, v, rest);
    }
    assert rest[..|rest|] == rest;
    Rstrip(buf, v, kept);
    value := StringAt(buf, v, RStripped(kept));
  }

  /** Call the handler and note a refusal. */
  method Handle(st0: State, c: Call, accepts: nat -> bool) returns (st: State)
    ensures st == Called(st0, c, accepts)
  {
    var accepted := accepts(|st0.calls|);
    st := st0.(calls := st0.calls + [c]);
    if !accepted && st.error == 0 {
      st := st.(error := st.lineno);
    }
  }

  /** The byte order mark at the front of the buffer. */
  method SkipBom(buf: array<char>, first: bool, ghost line: string) returns (start: nat)
    requires Holds(buf, 0, line) && buf.Length == INI_MAX_LINE
    ensures start == |line| - |Text(line, first)| && Holds(buf, start, Text(line, first))
    ensures start == if first && HasBom(line) then 3 else 0
  {
    start := 0;
    CharAt(buf, 0, line, 0);
    assert line[0..] == line;
    if first && buf[0] as int == 0xEF && buf[1] as int == 0xBB && buf[2] as int == 0xBF {
      CharAt(buf, 0, line, 1);
      CharAt(buf, 0, line, 2);
      CharAt(buf, 0, line, 3);
      start := start + 3;
    } else if |line| >= 3 {
      CharAt(buf, 0, line, 1);
      CharAt(buf, 0, line, 2);
    }
  }

  /** What is left of a line when it is stripped on both sides. */
  ghost function Stripped(line: string, first: bool): string {
    LSkipped(RStripped(Text(line, first)))
  }

  /** Whether anything was skipped in front of the text. */
  lemma StartMoved(line: string, first: bool, start: nat)
    requires start == |line| - |Text(line, first)|
                      + |RStripped(Text(line, first))| - |Stripped(line, first)|
    requires Stripped(line, first) != []
    ensures start > 0 <==> Indented(line, first)
  {
  }

  /** Strip the line on both sides. */
  method Strip(buf: array<char>, first: bool, ghost line: string) returns (start: nat)
    requires Holds(buf, 0, line) && buf.Length == INI_MAX_LINE
    modifies buf
    ensures Holds(buf, start, Stripped(line, first))
    ensures Stripped(line, first) != [] ==> (start > 0 <==> Indented(line, first))
  {
    hide Holds, RStripped, LSkipped, Indented, Text;
    start := SkipBom(buf, first, line);
    ghost var text := Text(line, first);
    Rstrip(buf, start, text);
    start := Lskip(buf, start, RStripped(text));
    if LSkipped(RStripped(text)) != [] {
      StartMoved(line, first, start);
    }
  }

  /** The branches on the stripped line. */
  method Dispatch(buf: array<char>, start: nat, ghost left: string, st0: State, accepts: nat -> bool)
    returns (st: State)
    requires Holds(buf, start, left)
    modifies buf
    ensures st == Apply(st0, ClassifyStart(left, st0.prevName != [] && start > 0), accepts)
  {
    hide Holds, SplitHeader, SplitEntry, Called;
    st := st0;
    CharAt(buf, start, left, 0);
    Inside(buf, start, left);
    assert left[0..] == left;
    if buf[start] == ';' || buf[start] == '#' {
    } else if st.prevName != [] && buf[start] != '\0' && start > 0 {
      var value := StringAt(buf, start, left);
      st := Handle(st, Call(st.section, st.prevName, value), accepts);
    } else if buf[start] == '[' {
      CharAt(buf, start, left, 1);
      st := ParseHeader(buf, start + 1, left[1..], st, accepts);
    } else if buf[start] != '\0' && buf[start] != ';' {
      st := ParseEntry(buf, start, left, st, accepts);
    }
  }

  /** Only a line with something on it cares where it started. */
  lemma LineMeaning(line: string, first: bool, continuing: bool, moved: bool)
    requires Stripped(line, first) != [] ==> (moved <==> Indented(line, first))
    ensures ClassifyStart(Stripped(line, first), continuing && moved) == Classify(line, first, continuing)
  {
    hide LSkipped, RStripped, Indented, Text;
  }

  /** The state behind one line, by the stripped line and where it starts. */
  lemma StepMeaning(st: State, line: string, moved: bool, accepts: nat -> bool)
    requires Stripped(line, st.lineno == 0) != [] ==> (moved <==> Indented(line, st.lineno == 0))
    ensures Step(st, line, accepts)
      == Apply(st.(lineno := st.lineno + 1),
               ClassifyStart(Stripped(line, st.lineno == 0), st.prevName != [] && moved), accepts)
  {
    hide Stripped, Indented, Apply, ClassifyStart, Classify;
    LineMeaning(line, st.lineno == 0, st.prevName != [], moved);
  }

  /** One line of the file. */
  method ParseLine(buf: array<char>, ghost line: string, st0: State, accepts: nat -> bool) returns (st: State)
    requires Holds(buf, 0, line) && buf.Length == INI_MAX_LINE
    modifies buf
    ensures st == Step(st0, line, accepts)
  {
    hide Holds, Stripped, Indented, Apply, ClassifyStart, Step;
    st := st0.(lineno := st0.lineno + 1);
    var first := st.lineno == 1;
    var start := Strip(buf, first, line);
    StepMeaning(st0, line, start > 0, accepts);
    st := Dispatch(buf, start, Stripped(line, first), st, accepts);
  }

  /** fgets: the next line of the file, at most 199 characters, and a null behind it. */
  method Fgets(buf: array<char>, file: string, at: nat) returns (next: nat)
    requires buf.Length == INI_MAX_LINE && at < |file|
    modifies buf
    ensures next == at + LineEnd(file[at..], 0) && at < next <= |file|
    ensures Holds(buf, 0, CString(file[at..next]))
  {
    hide CString;
    ghost var text := file[at..];
    LineEndProgress(text);
    var n := 0;
    var ended := false;
    while at + n < |file| && n < INI_MAX_LINE - 1 && !ended
      invariant n <= |text| && n < INI_MAX_LINE && buf[..n] == text[..n]
      invariant LineEnd(text, 0) == if ended then n else LineEnd(text, n)
      decreases INI_MAX_LINE - n, !ended
    {
      buf[n] := file[at + n];
      assert text[..n + 1] == text[..n] + [text[n]];
      ended := file[at + n] == '\n';
      n := n + 1;
    }
    buf[n] := '\0';
    next := at + n;
    assert file[at..next] == text[..n] == buf[..n];
    FirstNull(buf, 0, file[at..next]);
  }

  lemma {:induction false} FirstNull(buf: array<char>, s: nat, l: string)
    requires s + |l| < buf.Length && buf[s..s + |l|] == l && buf[s + |l|] == '\0'
    ensures Holds(buf, s, CString(l))
    decreases |l|
  {
    if l == [] || l[0] == '\0' {
      if l != [] {
        assert buf[s..s + |l|][0] == l[0];
      }
    } else {
      assert buf[s + 1..s + |l|] == l[1..];
      assert buf[s..s + |l|][0] == l[0];
      FirstNull(buf, s + 1, l[1..]);
      var t := CString(l[1..]);
      assert buf[s..s + |t| + 1] == [l[0]] + t;
    }
  }

  /** ini_parse_file: the handler calls made, and the number of the first bad line. */
  method ParseFile(file: string, accepts: nat -> bool) returns (error: nat, calls: seq<Call>)
    ensures var st := Run(CStrings(Lines(file)), accepts);
      error == st.error && calls == st.calls
  {
    hide Step, LineEnd, CString, CStrings, Lines, Run;
    NoLines(file, accepts);
    var line := new char[INI_MAX_LINE];
    var st := INITIAL;
    var at := 0;
    ghost var done: seq<string> := [];
    while at < |file|
      invariant at <= |file| && Lines(file) == done + Lines(file[at..])
      invariant st == Run(CStrings(done), accepts)
      decreases |file| - at
    {
      var next := Fgets(line, file, at);
      ghost var l := file[at..next];
      NextLine(file, at, next, done);
      st := ParseLine(line, CString(l), st, accepts);
      RunAppend(CStrings(done), CString(l), accepts);
      CStringsAppend(done, l);
      done := done + [l];
      at := next;
    }
    assert file[at..] == [] && done + [] == done;
    return st.error, st.calls;
  }

  lemma NoLines(file: string, accepts: nat -> bool)
    ensures Lines([]) == [] && CStrings([]) == [] && file[0..] == file
    ensures Run([], accepts) == INITIAL
  {
  }

  lemma CStringsAppend(ls: seq<string>, l: string)
    ensures CStrings(ls + [l]) == CStrings(ls) + [CString(l)]
  {
    hide CString;
  }

  lemma NextLine(file: string, at: nat, next: nat, done: seq<string>)
    requires at < |file| && next == at + LineEnd(file[at..], 0) <= |file|
    ensures done + Lines(file[at..]) == (done + [file[at..next]]) + Lines(file[next..])
  {
    assert file[at..][..next - at] == file[at..next];
    assert file[at..][next - at..] == file[next..];
    assert Lines(file[at..]) == [file[at..next]] + Lines(file[next..]);
  }
}
