// What the INI parser of tcp_channel_server/zy_config.c makes of a line, and of a file.
module IniText {

  const INI_MAX_LINE := 200
  const MAX_SECTION := 50
  const MAX_NAME := 50

  // ---------- the string helpers ----------

  predicate IsSpace(c: char) {
    c == ' ' || 9 <= c as int <= 13
  }

  /** s without its trailing whitespace. */
  function RStripped(s: string): (r: string)
    ensures r <= s && (r == [] || !IsSpace(r[|r| - 1]))
  {
    if s == [] || !IsSpace(s[|s| - 1]) then s else RStripped(s[..|s| - 1])
  }

  /** s without its leading whitespace. */
  function LSkipped(s: string): (r: string)
    ensures |r| <= |s| && r == s[|s| - |r|..] && (r == [] || !IsSpace(r[0]))
  {
    if s == [] || !IsSpace(s[0]) then s else LSkipped(s[1..])
  }

  /** The first c, or ';' behind whitespace, in s; ws says whether whitespace came before. */
  function Find(s: string, c: char, ws: bool): (k: nat)
    ensures k <= |s|
    ensures k < |s| ==> s[k] == c || s[k] == ';'
    ensures c !in s[..k]
  {
    if s == [] || s[0] == c || (ws && s[0] == ';') then 0 else 1 + Find(s[1..], c, IsSpace(s[0]))
  }

  /** strncpy0: at most size - 1 characters are kept. */
  function Clipped(s: string, size: nat): string
    requires size >= 1
  {
    if |s| < size then s else s[..size - 1]
  }

  // ---------- lines ----------

  /** One call of the handler. */
  datatype Call = Call(section: string, name: string, value: string)

  /** section, prev_name, lineno and error of ini_parse_file, and the calls made so far. */
  datatype State = State(section: string, prevName: string, lineno: nat, error: nat, calls: seq<Call>)

  const INITIAL := State([], [], 0, 0, [])

  datatype Meaning =
    | Nothing
    | Malformed
    | Header(section: string)
    | Entry(name: string, value: string)
    | Continuation(value: string)

  predicate HasBom(line: string) {
    |line| >= 3 && line[0] as int == 0xEF && line[1] as int == 0xBB && line[2] as int == 0xBF
  }

  /** The name=value pair, or name:value if there is no '='. */
  function SplitEntry(start: string): (m: Meaning)
    ensures m.Entry? || m.Malformed?
  {
    var eq := Find(start, '=', false);
    var end := if eq < |start| && start[eq] == '=' then eq else Find(start, ':', false);
    if end < |start| && (start[end] == '=' || start[end] == ':') then
      Entry(RStripped(start[..end]), ValuePart(start[end + 1..]))
    else Malformed
  }

  /** The value: skip whitespace, cut the comment off, strip. */
  function ValuePart(rest: string): string {
    var value := LSkipped(rest);
    RStripped(value[..Find(value, '\0', false)])
  }

  /** Whether the stripped line starts behind the beginning of the buffer: after whitespace or a byte order mark. */
  predicate Indented(line: string, first: bool) {
    if first && HasBom(line) then true else line != [] && IsSpace(line[0])
  }

  function Text(line: string, first: bool): string {
    if first && HasBom(line) then line[3..] else line
  }

  /** The branches of the parser on one line; continuing says whether a name came before. */
  function Classify(line: string, first: bool, continuing: bool): Meaning {
    ClassifyStart(LSkipped(RStripped(Text(line, first))), continuing && Indented(line, first))
  }

  function ClassifyStart(start: string, continued: bool): Meaning {
    if start == [] then Nothing
    else if start[0] == ';' || start[0] == '#' then Nothing
    else if continued then Continuation(start)
    else if start[0] == '[' then SplitHeader(start[1..])
    else SplitEntry(start)
  }

  function SplitHeader(rest: string): Meaning {
    var end := Find(rest, ']', false);
    if end < |rest| && rest[end] == ']' then Header(rest[..end]) else Malformed
  }

  /** Record a handler call; accepts tells what the handler returns on its n-th call. */
  function Called(st: State, c: Call, accepts: nat -> bool): State {
    st.(calls := st.calls + [c],
        error := if !accepts(|st.calls|) && st.error == 0 then st.lineno else st.error)
  }

  /** What a line of the given meaning does. */
  function Apply(st: State, meaning: Meaning, accepts: nat -> bool): State {
    match meaning
    case Nothing => st
    case Malformed => st.(error := if st.error == 0 then st.lineno else st.error)
    case Header(s) => st.(section := Clipped(s, MAX_SECTION), prevName := [])
    case Continuation(v) => Called(st, Call(st.section, st.prevName, v), accepts)
    case Entry(n, v) =>
      Called(st.(prevName := Clipped(n, MAX_NAME)), Call(st.section, n, v), accepts)
  }

  /** One turn of the loop over the lines. */
  function Step(st: State, line: string, accepts: nat -> bool): State {
    Apply(st.(lineno := st.lineno + 1), Classify(line, st.lineno == 0, st.prevName != []), accepts)
  }

  function Run(lines: seq<string>, accepts: nat -> bool): State {
    if lines == [] then INITIAL else Step(Run(lines[..|lines| - 1], accepts), lines[|lines| - 1], accepts)
  }

  // ---------- the return value ----------

  /** Line i (from 0) is malformed, or the handler refuses it. */
  predicate Bad(lines: seq<string>, i: nat, accepts: nat -> bool)
    requires i < |lines|
  {
    var before := Run(lines[..i], accepts);
    match Classify(lines[i], i == 0, before.prevName != [])
    case Nothing => false
    case Header(_) => false
    case Malformed => true
    case _ => !accepts(|before.calls|)
  }

  /** The result is the number of the first bad line, or 0 if no line is bad. */
  lemma {:induction false} ErrorIsFirstBad(lines: seq<string>, accepts: nat -> bool)
    ensures Run(lines, accepts).lineno == |lines| && Run(lines, accepts).error <= |lines|
    ensures var e := Run(lines, accepts).error;
      && (e > 0 ==> Bad(lines, e - 1, accepts))
      && (forall i :: 0 <= i < (if e > 0 then e - 1 else |lines|) ==> !Bad(lines, i, accepts))
  {
    hide Classify;
    if lines != [] {
      var n := |lines| - 1;
      ErrorIsFirstBad(lines[..n], accepts);
      forall i | 0 <= i < n
        ensures Bad(lines, i, accepts) <==> Bad(lines[..n], i, accepts)
      {
        assert lines[..n][..i] == lines[..i];
      }
    }
  }

  // ---------- values ----------

  predicate Trimmed(s: string) {
    s == [] || (!IsSpace(s[0]) && !IsSpace(s[|s| - 1]))
  }

  lemma SkippedStripped(s: string)
    ensures Trimmed(LSkipped(RStripped(s)))
  {
    var r := RStripped(s);
    var l := LSkipped(r);
    if l != [] {
      assert l[|l| - 1] == r[|r| - 1];
    }
  }

  lemma ValuePartTrimmed(rest: string)
    ensures Trimmed(ValuePart(rest))
  {
    var value := LSkipped(rest);
    var r := RStripped(value[..Find(value, '\0', false)]);
    if r != [] {
      assert r[0] == value[0];
    }
  }

  /** Whatever the file holds, every value handed over is free of surrounding whitespace. */
  lemma {:induction false} ValuesTrimmed(lines: seq<string>, accepts: nat -> bool, k: nat)
    requires k < |Run(lines, accepts).calls|
    ensures Trimmed(Run(lines, accepts).calls[k].value)
  {
    hide Classify, Trimmed;
    if lines != [] {
      var n := |lines| - 1;
      var before := Run(lines[..n], accepts);
      if k < |before.calls| {
        ValuesTrimmed(lines[..n], accepts, k);
      } else {
        MeaningTrimmed(lines[n], before.lineno == 0, before.prevName != []);
      }
    }
  }

  lemma MeaningTrimmed(line: string, first: bool, continuing: bool)
    ensures var m := Classify(line, first, continuing);
      && (m.Continuation? || m.Entry? ==> Trimmed(m.value))
      && (m.Entry? ==> Trimmed(m.name))
  {
    hide RStripped, SplitEntry, Trimmed, Find, IsSpace;
    SkippedStripped(Text(line, first));
    EntryTrimmed(LSkipped(RStripped(Text(line, first))));
    EntryNameTrimmed(LSkipped(RStripped(Text(line, first))));
  }

  lemma EntryNameTrimmed(start: string)
    requires start == [] || !IsSpace(start[0])
    ensures SplitEntry(start).Entry? ==> Trimmed(SplitEntry(start).name)
  {
    hide ValuePart, Find, IsSpace;
    var eq := Find(start, '=', false);
    var end := if eq < |start| && start[eq] == '=' then eq else Find(start, ':', false);
    var name := RStripped(start[..end]);
    if name != [] {
      assert name[0] == start[0];
    }
  }

  /** A name without surrounding whitespace, or the first 49 characters of one that is longer. */
  ghost predicate IsName(n: string) {
    Trimmed(n) || exists t: string :: Trimmed(t) && |t| > 49 && n == t[..49]
  }

  lemma ClippedName(t: string)
    requires Trimmed(t)
    ensures IsName(Clipped(t, MAX_NAME))
  {
    hide Trimmed;
  }

  /**
   * Whatever the file holds, every name handed over is free of surrounding whitespace; for a continuation line it is
   * such a name clipped to 49 characters.
   */
  lemma {:induction false} NamesTrimmed(lines: seq<string>, accepts: nat -> bool)
    ensures IsName(Run(lines, accepts).prevName)
    ensures forall k :: 0 <= k < |Run(lines, accepts).calls| ==> IsName(Run(lines, accepts).calls[k].name)
  {
    hide Classify, IsName, Clipped, Trimmed;
    EmptyName();
    if lines != [] {
      var n := |lines| - 1;
      var before := Run(lines[..n], accepts);
      NamesTrimmed(lines[..n], accepts);
      var m := Classify(lines[n], before.lineno == 0, before.prevName != []);
      MeaningTrimmed(lines[n], before.lineno == 0, before.prevName != []);
      if m.Entry? {
        TrimmedName(m.name);
        ClippedName(m.name);
      }
    }
  }

  lemma EmptyName()
    ensures IsName([])
  {
  }

  lemma TrimmedName(n: string)
    requires Trimmed(n)
    ensures IsName(n)
  {
  }

  lemma EntryTrimmed(start: string)
    ensures SplitEntry(start).Entry? ==> Trimmed(SplitEntry(start).value)
  {
    hide ValuePart, Find, Trimmed;
    var eq := Find(start, '=', false);
    var end := if eq < |start| && start[eq] == '=' then eq else Find(start, ':', false);
    if end < |start| {
      ValuePartTrimmed(start[end + 1..]);
    }
  }

  // ---------- lines of a file ----------

  /** fgets: up to 199 characters, or to the end of the line. */
  function LineEnd(text: string, k: nat): (n: nat)
    requires k <= |text| && k < INI_MAX_LINE
    ensures k <= n <= |text| && n < INI_MAX_LINE
    decreases |text| - k
  {
    if k == |text| || k == INI_MAX_LINE - 1 then k
    else if text[k] == '\n' then k + 1
    else LineEnd(text, k + 1)
  }

  lemma LineEndProgress(text: string)
    requires text != []
    ensures LineEnd(text, 0) > 0
  {
  }

  /** The lines fgets delivers. */
  function Lines(text: string): seq<string> {
    if text == [] then [] else
      LineEndProgress(text);
      [text[..LineEnd(text, 0)]] + Lines(text[LineEnd(text, 0)..])
  }

  function Joined(lines: seq<string>): string {
    if lines == [] then [] else lines[0] + Joined(lines[1..])
  }

  /** A line fgets delivers whole: short, and ended by its only newline. */
  predicate IsLine(l: string) {
    1 <= |l| < INI_MAX_LINE && l[|l| - 1] == '\n' && '\n' !in l[..|l| - 1] && '\0' !in l
  }

  lemma {:induction false} LineEndWhole(l: string, rest: string, k: nat)
    requires IsLine(l) && k < |l|
    ensures LineEnd(l + rest, k) == |l|
    decreases |l| - k
  {
    if k < |l| - 1 {
      assert l[..|l| - 1][k] != '\n';
      LineEndWhole(l, rest, k + 1);
    }
  }

  /** Whole lines come back as they were joined. */
  lemma {:induction false} LinesOfJoined(lines: seq<string>)
    requires forall i :: 0 <= i < |lines| ==> IsLine(lines[i])
    ensures Lines(Joined(lines)) == lines
  {
    if lines != [] {
      var l, rest := lines[0], Joined(lines[1..]);
      LinesOfJoined(lines[1..]);
      LineEndWhole(l, rest, 0);
      assert (l + rest)[..|l|] == l && (l + rest)[|l|..] == rest;
    }
  }

  // ---------- printing and parsing ----------

  datatype Pair = Pair(name: string, value: string)

  datatype Section = Section(title: string, pairs: seq<Pair>)

  /** Characters the printer may put on a line. */
  predicate Plain(s: string) {
    '\n' !in s && '\0' !in s
  }

  /** No ';' directly behind whitespace. */
  predicate NoComment(s: string) {
    forall i :: 0 < i < |s| ==> !(IsSpace(s[i - 1]) && s[i] == ';')
  }

  predicate IsTitle(s: string) {
    |s| < MAX_SECTION && Plain(s) && ']' !in s && NoComment(s)
  }

  predicate IsPair(p: Pair) {
    && Plain(p.name) && Plain(p.value) && Trimmed(p.name) && Trimmed(p.value)
    && p.name != [] && p.name[0] !in {'[', ';', '#'} && '=' !in p.name && NoComment(p.name) && NoComment(p.value)
    && |p.name| + |p.value| + 2 < INI_MAX_LINE
  }

  predicate IsSection(s: Section) {
    IsTitle(s.title) && forall i :: 0 <= i < |s.pairs| ==> IsPair(s.pairs[i])
  }

  function PairLine(p: Pair): string {
    p.name + "=" + p.value + "\n"
  }

  function HeaderLine(title: string): string {
    "[" + title + "]\n"
  }

  /** Without a stop character or a comment in it, the search runs through s. */
  lemma {:induction false} FindThrough(s: string, rest: string, c: char, ws: bool)
    requires c !in s && NoComment(s) && (s != [] ==> !(ws && s[0] == ';'))
    ensures Find(s + rest, c, ws) == |s| + Find(rest, c, if s == [] then ws else IsSpace(s[|s| - 1]))
  {
    hide NoComment, Find, IsSpace;
    if s == [] {
      assert s + rest == rest;
    } else {
      FindStep(s, rest, c, ws);
      NoCommentTail(s);
      FindThrough(s[1..], rest, c, IsSpace(s[0]));
    }
  }

  lemma FindStep(s: string, rest: string, c: char, ws: bool)
    requires s != [] && s[0] != c && !(ws && s[0] == ';')
    ensures Find(s + rest, c, ws) == 1 + Find(s[1..] + rest, c, IsSpace(s[0]))
  {
    assert (s + rest)[1..] == s[1..] + rest;
  }

  lemma NoCommentTail(s: string)
    requires s != [] && NoComment(s)
    ensures NoComment(s[1..]) && (s[1..] != [] ==> !(IsSpace(s[0]) && s[1..][0] == ';'))
  {
    hide IsSpace;
    forall i | 0 < i < |s[1..]|
      ensures !(IsSpace(s[1..][i - 1]) && s[1..][i] == ';')
    {
      assert s[1..][i - 1] == s[i] && s[1..][i] == s[i + 1];
    }
  }

  /** A printed line is classified by its text. */
  lemma StrippedLine(s: string, first: bool, continuing: bool)
    requires s != [] && !IsSpace(s[|s| - 1]) && !IsSpace(s[0]) && (first ==> s[0] == '[')
    ensures Classify(s + "\n", first, continuing) == ClassifyStart(s, false)
  {
    hide ClassifyStart;
    assert (s + "\n")[..|s|] == s && (s + "\n")[0] == s[0];
    assert RStripped(s + "\n") == s;
  }

  lemma TrimmedStays(s: string)
    requires Trimmed(s)
    ensures LSkipped(s) == s && RStripped(s) == s
  {
  }

  lemma HeaderParses(title: string, first: bool, continuing: bool)
    requires IsTitle(title)
    ensures Classify(HeaderLine(title), first, continuing) == Header(title)
    ensures IsLine(HeaderLine(title))
  {
    hide LSkipped, RStripped, Find, NoComment, SplitEntry, Classify;
    var start := "[" + title + "]";
    assert HeaderLine(title) == start + "\n";
    StrippedLine(start, first, continuing);
    assert start[1..] == title + "]";
    TitleFound(title);
    assert (title + "]")[..|title|] == title;
    HeaderIsLine(title);
  }

  lemma HeaderIsLine(title: string)
    requires IsTitle(title)
    ensures IsLine(HeaderLine(title))
  {
    hide NoComment;
    var l := HeaderLine(title);
    assert l[..|l| - 1] == "[" + title + "]";
  }

  lemma TitleFound(title: string)
    requires ']' !in title && NoComment(title)
    ensures Find(title + "]", ']', false) == |title|
  {
    hide Find, NoComment;
    FindThrough(title, "]", ']', false);
    FindHere("]", ']', if title == [] then false else IsSpace(title[|title| - 1]));
  }

  lemma FindHere(s: string, c: char, ws: bool)
    requires s != [] && s[0] == c
    ensures Find(s, c, ws) == 0
  {
  }

  lemma FindAtEnd(c: char, ws: bool)
    ensures Find([], c, ws) == 0
  {
  }

  lemma PairParses(p: Pair, continuing: bool, first: bool)
    requires IsPair(p) && !first
    ensures Classify(PairLine(p), first, continuing) == Entry(p.name, p.value)
    ensures IsLine(PairLine(p))
  {
    hide LSkipped, RStripped, Find, ValuePart, NoComment, Classify, SplitEntry;
    var start := p.name + "=" + p.value;
    assert PairLine(p) == start + "\n";
    assert start[|start| - 1] == if p.value == [] then '=' else p.value[|p.value| - 1];
    assert start[0] == p.name[0];
    StrippedLine(start, first, continuing);
    PairSplits(p);
    PairIsLine(p);
  }

  lemma PairIsLine(p: Pair)
    requires IsPair(p)
    ensures IsLine(PairLine(p))
  {
    hide NoComment, Trimmed;
    var l := PairLine(p);
    assert l[..|l| - 1] == p.name + "=" + p.value;
  }

  lemma PairSplits(p: Pair)
    requires IsPair(p)
    ensures SplitEntry(p.name + "=" + p.value) == Entry(p.name, p.value)
  {
    hide LSkipped, RStripped, Find, ValuePart, NoComment, Trimmed, IsSpace;
    var start, n := p.name + "=" + p.value, |p.name|;
    NameFound(p.name, p.value);
    assert start[..n] == p.name && start[n + 1..] == p.value && start[n] == '=';
    TrimmedStays(p.name);
    ValueStays(p.value);
  }

  lemma NameFound(name: string, value: string)
    requires name != [] && '=' !in name && NoComment(name)
    ensures Find(name + "=" + value, '=', false) == |name|
  {
    hide Find, NoComment, IsSpace;
    assert name + "=" + value == name + ("=" + value);
    FindThrough(name, "=" + value, '=', false);
    FindHere("=" + value, '=', IsSpace(name[|name| - 1]));
  }

  lemma ValueStays(v: string)
    requires Trimmed(v) && Plain(v) && NoComment(v)
    ensures ValuePart(v) == v
  {
    hide LSkipped, RStripped, Find, NoComment;
    TrimmedStays(v);
    FindThrough(v, [], '\0', false);
    FindAtEnd('\0', if v == [] then false else IsSpace(v[|v| - 1]));
    assert v + [] == v && v[..|v|] == v;
  }

  /** The lines of a section's first k pairs, under its header. */
  function SectionLines(s: Section, k: nat): (ls: seq<string>)
    requires k <= |s.pairs|
    ensures |ls| == k + 1
  {
    if k == 0 then [HeaderLine(s.title)] else SectionLines(s, k - 1) + [PairLine(s.pairs[k - 1])]
  }

  function Print(ss: seq<Section>): seq<string> {
    if ss == [] then [] else Print(ss[..|ss| - 1]) + SectionLines(ss[|ss| - 1], |ss[|ss| - 1].pairs|)
  }

  function SectionCalls(s: Section, k: nat): seq<Call>
    requires k <= |s.pairs|
  {
    if k == 0 then [] else SectionCalls(s, k - 1) + [Call(s.title, s.pairs[k - 1].name, s.pairs[k - 1].value)]
  }

  function Triples(ss: seq<Section>): seq<Call> {
    if ss == [] then [] else Triples(ss[..|ss| - 1]) + SectionCalls(ss[|ss| - 1], |ss[|ss| - 1].pairs|)
  }

  lemma RunAppend(ls: seq<string>, l: string, accepts: nat -> bool)
    ensures Run(ls + [l], accepts) == Step(Run(ls, accepts), l, accepts)
  {
    hide Step;
    var all := ls + [l];
    assert |all| == |ls| + 1 && all[..|all| - 1] == ls && all[|all| - 1] == l;
  }

  lemma HeaderStep(st: State, title: string, accepts: nat -> bool)
    requires IsTitle(title)
    ensures Step(st, HeaderLine(title), accepts) == st.(lineno := st.lineno + 1, section := title, prevName := [])
  {
    hide Classify, HeaderLine;
    HeaderParses(title, st.lineno == 0, st.prevName != []);
  }

  /** The numbers of the lines the first k pairs of a section are on, with `before` lines ahead of it. */
  function SectionNumbers(before: nat, k: nat): (ns: seq<nat>)
    ensures |ns| == k && forall i :: 0 <= i < k ==> ns[i] == before + 2 + i
  {
    seq(k, i => before + 2 + i)
  }

  /** The line numbers of all printed pairs. */
  function PairNumbers(ss: seq<Section>): (ns: seq<nat>)
    ensures forall i :: 0 <= i < |ns| ==> ns[i] > 0
  {
    if ss == [] then []
    else PairNumbers(ss[..|ss| - 1]) + SectionNumbers(|Print(ss[..|ss| - 1])|, |ss[|ss| - 1].pairs|)
  }

  /** The line number of the first call the handler refuses, 0 if it refuses none of these calls. */
  function FirstRefused(numbers: seq<nat>, accepts: nat -> bool): nat {
    if numbers == [] then 0
    else
      var n := |numbers| - 1;
      var e := FirstRefused(numbers[..n], accepts);
      if e != 0 || accepts(n) then e else numbers[n]
  }

  lemma {:induction false} FirstRefusedIs(numbers: seq<nat>, accepts: nat -> bool)
    requires forall i :: 0 <= i < |numbers| ==> numbers[i] > 0
    ensures var e := FirstRefused(numbers, accepts);
      if e == 0 then forall i :: 0 <= i < |numbers| ==> accepts(i)
      else exists i :: 0 <= i < |numbers| && e == numbers[i] && !accepts(i) && forall j: nat :: j < i ==> accepts(j)
  {
    if numbers != [] {
      var n := |numbers| - 1;
      FirstRefusedIs(numbers[..n], accepts);
      assert forall i :: 0 <= i < n ==> numbers[..n][i] == numbers[i];
    }
  }

  lemma FirstRefusedAppend(ns: seq<nat>, x: nat, accepts: nat -> bool)
    ensures FirstRefused(ns + [x], accepts) ==
      if FirstRefused(ns, accepts) != 0 || accepts(|ns|) then FirstRefused(ns, accepts) else x
  {
    assert (ns + [x])[..|ns|] == ns;
  }

  lemma PairStep(st: State, p: Pair, accepts: nat -> bool)
    requires IsPair(p) && st.lineno > 0
    ensures var st' := Step(st, PairLine(p), accepts);
      && st'.calls == st.calls + [Call(st.section, p.name, p.value)]
      && st'.section == st.section && st'.lineno == st.lineno + 1
      && st'.error == if st.error != 0 || accepts(|st.calls|) then st.error else st.lineno + 1
  {
    hide Classify, PairLine;
    PairParses(p, st.prevName != [], st.lineno == 0);
  }

  /** ns are the line numbers of the calls made so far. */
  ghost predicate Recorded(st: State, ns: seq<nat>, accepts: nat -> bool) {
    |ns| == |st.calls| && st.error == FirstRefused(ns, accepts)
  }

  lemma {:induction false} SectionParses(before: seq<string>, s: Section, k: nat, accepts: nat -> bool, ns: seq<nat>)
    requires IsSection(s) && k <= |s.pairs| && Recorded(Run(before, accepts), ns, accepts)
    ensures var st, st0 := Run(before + SectionLines(s, k), accepts), Run(before, accepts);
      && st.calls == st0.calls + SectionCalls(s, k) && st.section == s.title
      && st.lineno == st0.lineno + k + 1 && Recorded(st, ns + SectionNumbers(st0.lineno, k), accepts)
  {
    hide Step, PairLine, HeaderLine, IsPair, IsTitle, Run, FirstRefused;
    var base := Run(before, accepts).lineno;
    if k == 0 {
      RunAppend(before, HeaderLine(s.title), accepts);
      HeaderStep(Run(before, accepts), s.title, accepts);
      assert ns + SectionNumbers(base, 0) == ns;
    } else {
      SectionParses(before, s, k - 1, accepts, ns);
      var ls, l := before + SectionLines(s, k - 1), PairLine(s.pairs[k - 1]);
      assert before + SectionLines(s, k) == ls + [l];
      RunAppend(ls, l, accepts);
      PairStep(Run(ls, accepts), s.pairs[k - 1], accepts);
      FirstRefusedAppend(ns + SectionNumbers(base, k - 1), base + k + 1, accepts);
      assert ns + SectionNumbers(base, k) == (ns + SectionNumbers(base, k - 1)) + [base + k + 1];
    }
  }

  /**
   * Printing any sections and parsing the lines calls the handler with exactly the triples, in order, whatever it
   * answers; the result is the number of the line with the first pair it refuses.
   */
  lemma {:induction false} PrintParse(ss: seq<Section>, accepts: nat -> bool)
    requires forall i :: 0 <= i < |ss| ==> IsSection(ss[i])
    ensures Run(Print(ss), accepts).calls == Triples(ss) && Run(Print(ss), accepts).lineno == |Print(ss)|
    ensures |PairNumbers(ss)| == |Triples(ss)|
    ensures Run(Print(ss), accepts).error == FirstRefused(PairNumbers(ss), accepts)
  {
    hide IsSection, SectionLines, SectionCalls, Step, FirstRefused, Print, Triples, PairNumbers, Run;
    if ss == [] {
      NothingPrinted(accepts);
    } else {
      var n := |ss| - 1;
      PrintParse(ss[..n], accepts);
      SectionParses(Print(ss[..n]), ss[n], |ss[n].pairs|, accepts, PairNumbers(ss[..n]));
      LastPrinted(ss);
      SectionCallsSize(ss[n], |ss[n].pairs|);
    }
  }

  lemma NothingPrinted(accepts: nat -> bool)
    ensures Print([]) == [] && Triples([]) == [] && PairNumbers([]) == [] && Run([], accepts) == INITIAL
    ensures FirstRefused([], accepts) == 0
  {
  }

  lemma LastPrinted(ss: seq<Section>)
    requires ss != []
    ensures var n := |ss| - 1;
      && Print(ss) == Print(ss[..n]) + SectionLines(ss[n], |ss[n].pairs|)
      && Triples(ss) == Triples(ss[..n]) + SectionCalls(ss[n], |ss[n].pairs|)
      && PairNumbers(ss) == PairNumbers(ss[..n]) + SectionNumbers(|Print(ss[..n])|, |ss[n].pairs|)
  {
  }

  lemma {:induction false} SectionCallsSize(s: Section, k: nat)
    requires k <= |s.pairs|
    ensures |SectionCalls(s, k)| == k
  {
    if k > 0 {
      SectionCallsSize(s, k - 1);
    }
  }

  lemma {:induction false} SectionLinesAreLines(s: Section, k: nat)
    requires IsSection(s) && k <= |s.pairs|
    ensures forall i :: 0 <= i < k + 1 ==> IsLine(SectionLines(s, k)[i])
  {
    hide Classify, IsLine;
    if k == 0 {
      HeaderParses(s.title, true, false);
    } else {
      SectionLinesAreLines(s, k - 1);
      PairParses(s.pairs[k - 1], false, false);
    }
  }

  lemma {:induction false} PrintedLines(ss: seq<Section>)
    requires forall i :: 0 <= i < |ss| ==> IsSection(ss[i])
    ensures forall i :: 0 <= i < |Print(ss)| ==> IsLine(Print(ss)[i])
  {
    hide IsSection, IsLine;
    if ss != [] {
      var n := |ss| - 1;
      PrintedLines(ss[..n]);
      SectionLinesAreLines(ss[n], |ss[n].pairs|);
    }
  }

  /** A line as C sees it: up to the first null. */
  function CString(l: string): (r: string)
    ensures r <= l && '\0' !in r
  {
    if l == [] || l[0] == '\0' then [] else [l[0]] + CString(l[1..])
  }

  function CStrings(lines: seq<string>): (r: seq<string>)
    ensures |r| == |lines| && forall i :: 0 <= i < |r| ==> r[i] == CString(lines[i])
  {
    seq(|lines|, i requires 0 <= i < |lines| => CString(lines[i]))
  }

  lemma {:induction false} CStringWhole(l: string)
    requires '\0' !in l
    ensures CString(l) == l
  {
    if l != [] {
      CStringWhole(l[1..]);
    }
  }

  lemma CStringsWhole(lines: seq<string>)
    requires forall i :: 0 <= i < |lines| ==> IsLine(lines[i])
    ensures CStrings(lines) == lines
  {
    hide CString;
    forall i | 0 <= i < |lines|
      ensures CString(lines[i]) == lines[i]
    {
      assert IsLine(lines[i]);
      CStringWhole(lines[i]);
    }
  }

  /** The same through the file: its text is cut into lines by fgets. */
  lemma FileRoundTrip(ss: seq<Section>, accepts: nat -> bool)
    requires forall i :: 0 <= i < |ss| ==> IsSection(ss[i])
    ensures Run(CStrings(Lines(Joined(Print(ss)))), accepts).calls == Triples(ss)
    ensures Run(CStrings(Lines(Joined(Print(ss)))), accepts).error == FirstRefused(PairNumbers(ss), accepts)
  {
    hide IsSection, IsLine, Print, Lines, Joined, Run, Triples, CStrings, FirstRefused;
    PrintedLines(ss);
    LinesOfJoined(Print(ss));
    PrintParse(ss, accepts);
    CStringsWhole(Print(ss));
  }
}
