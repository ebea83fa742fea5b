// Configuration files in any layout: comments, blank lines, byte order mark, blanks around names and values, either
// delimiter, inline comments and continuation lines.
module IniLayout {
  import opened IniText

  predicate AllSpace(s: string) {
    forall i :: 0 <= i < |s| ==> IsBlank(s[i])
  }

  /** The six whitespace characters of C. */
  predicate IsBlank(c: char) {
    c == ' ' || c == '\t' || c == '\n' || c == '\U{0b}' || c == '\U{0c}' || c == '\r'
  }

  /** What may stand behind a value: blanks, and if there is a value, a comment behind at least one of them. */
  datatype Tail = Blanks(s: string) | Comment(gap: string, text: string) {
    function Shown(): string {
      match this
      case Blanks(s) => s
      case Comment(gap, text) => gap + ";" + text
    }

    predicate Fits(value: string) {
      match this
      case Blanks(s) => AllSpace(s) && Plain(s)
      case Comment(gap, text) => value != [] && gap != [] && AllSpace(gap) && Plain(gap) && Plain(text)
    }
  }

  datatype Item =
    | Ignored(indent: string, text: string)
    | Title(title: string, rest: string)
    | Assign(name: string, before: string, delim: char, behind: string, value: string, tail: Tail)
    | Further(indent: string, value: string, blanks: string)
  {
    function Shown(): string {
      match this
      case Ignored(indent, text) => indent + text
      case Title(title, rest) => "[" + title + "]" + rest
      case Assign(name, before, delim, behind, value, tail) =>
        name + before + [delim] + (behind + value + tail.Shown())
      case Further(indent, value, blanks) => indent + value + blanks
    }

    /** The item can be read back; a further line needs a name before it. */
    predicate Valid(named: bool) {
      match this
      case Ignored(indent, text) =>
        AllSpace(indent) && Plain(indent) && Plain(text) && (text == [] || text[0] == ';' || text[0] == '#')
      case Title(title, rest) => Plain(title) && ']' !in title && NoComment(title) && Plain(rest)
      case Assign(name, before, delim, behind, value, tail) =>
        && Plain(name) && name != [] && Trimmed(name) && name[0] !in {'[', ';', '#'} && NoComment(name)
        && AllSpace(before) && AllSpace(behind) && Plain(before) && Plain(behind)
        && Plain(value) && Trimmed(value) && NoComment(value) && tail.Fits(value)
        && '=' !in name && (delim == '=' || (delim == ':' && ':' !in name && '=' !in value))
      case Further(indent, value, blanks) =>
        && named && indent != [] && AllSpace(indent) && AllSpace(blanks) && Plain(indent) && Plain(blanks)
        && Plain(value) && value != [] && Trimmed(value) && value[0] != ';' && value[0] != '#'
    }
  }

  // ---------- stripping ----------

  lemma BlankIsSpace(c: char)
    requires IsBlank(c)
    ensures IsSpace(c)
  {
  }

  lemma {:induction false} StripSpaces(s: string)
    requires AllSpace(s)
    ensures RStripped(s) == []
  {
    if s != [] {
      StripSpaces(s[..|s| - 1]);
    }
  }

  /** Stripping stops at the last character of s that is not whitespace. */
  lemma {:induction false} StripKeeps(s: string, x: string)
    requires s != [] && !IsSpace(s[|s| - 1])
    ensures RStripped(s + x) == s + RStripped(x)
    decreases |x|
  {
    hide IsSpace;
    if x == [] {
      assert s + x == s;
    } else {
      var n := |x| - 1;
      assert (s + x)[..|s + x| - 1] == s + x[..n] && (s + x)[|s + x| - 1] == x[n];
      StripKeeps(s, x[..n]);
      StripOne(s + x);
      StripOne(x);
    }
  }

  lemma StripOne(s: string)
    requires s != []
    ensures RStripped(s) == if IsSpace(s[|s| - 1]) then RStripped(s[..|s| - 1]) else s
  {
  }

  lemma {:induction false} SkipSpaces(s: string, x: string)
    requires AllSpace(s)
    ensures LSkipped(s + x) == LSkipped(x)
  {
    if s == [] {
      assert s + x == x;
    } else {
      BlankIsSpace(s[0]);
      hide IsSpace, IsBlank;
      assert (s + x)[1..] == s[1..] + x && (s + x)[0] == s[0];
      SkipSpaces(s[1..], x);
    }
  }

  /** Blanks behind a stripped string. */
  lemma StripBlanks(s: string, x: string)
    requires Trimmed(s) && AllSpace(x)
    ensures RStripped(s + x) == s
  {
    hide IsSpace, RStripped;
    StripSpaces(x);
    if s == [] {
      assert s + x == x;
    } else {
      LastNotSpace(s);
      StripKeeps(s, x);
      assert s + [] == s;
    }
  }

  lemma LastNotSpace(s: string)
    requires Trimmed(s) && s != []
    ensures !IsSpace(s[|s| - 1]) && !IsSpace(s[0])
  {
  }

  lemma SpacesJoin(s: string, x: string)
    requires AllSpace(s) && AllSpace(x)
    ensures AllSpace(s + x)
  {
  }

  lemma NewlineIsSpace()
    ensures AllSpace("\n") && AllSpace([])
  {
  }

  // ---------- values ----------

  /** Only what follows the leading whitespace counts. */
  lemma ValueSkips(behind: string, v: string)
    requires AllSpace(behind)
    ensures ValuePart(behind + v) == ValuePart(v)
  {
    hide Find, RStripped, IsSpace;
    SkipSpaces(behind, v);
  }

  lemma SameText(x: string, y: string)
    requires x == y
    ensures RStripped(x) == RStripped(y) && ValuePart(x) == ValuePart(y)
  {
  }

  /** The value of a printed assignment, whatever follows it. */
  lemma ValueFound(behind: string, value: string, tail: Tail)
    requires AllSpace(behind) && Trimmed(value) && Plain(value) && NoComment(value) && tail.Fits(value)
    ensures ValuePart(RStripped(behind + value + tail.Shown() + "\n")) == value
  {
    hide RStripped, LSkipped, Find, IsSpace, NoComment, ValuePart, AllSpace;
    NewlineIsSpace();
    match tail
    case Blanks(s) =>
      SpacesJoin(s, "\n");
      SameText(behind + value + tail.Shown() + "\n", behind + value + (s + "\n"));
      PlainValue(behind, value, s + "\n");
    case Comment(gap, text) =>
      CommentJoins(behind, value, gap, text);
      CommentedValue(behind, value, gap, text + "\n");
  }

  lemma CommentJoins(behind: string, value: string, gap: string, text: string)
    ensures behind + value + Comment(gap, text).Shown() + "\n" == (behind + (value + gap) + ";") + (text + "\n")
  {
  }

  lemma PlainValue(behind: string, value: string, blanks: string)
    requires AllSpace(behind) && Trimmed(value) && Plain(value) && NoComment(value) && AllSpace(blanks)
    ensures ValuePart(RStripped(behind + value + blanks)) == value
  {
    hide RStripped, LSkipped, Find, IsSpace, NoComment, AllSpace, ValuePart, Trimmed, Plain;
    ValueStays(value);
    if value == [] {
      SpacesJoin(behind, blanks);
      SameText(behind + value + blanks, behind + blanks);
      StripSpaces(behind + blanks);
    } else {
      StripBehind(behind, value, blanks);
      ValueSkips(behind, value);
    }
  }

  lemma StripBehind(behind: string, value: string, blanks: string)
    requires Trimmed(value) && value != [] && AllSpace(blanks)
    ensures RStripped(behind + value + blanks) == behind + value
  {
    hide RStripped, IsSpace, AllSpace;
    LastNotSpace(value);
    StripKeeps(behind + value, blanks);
    StripSpaces(blanks);
  }

  lemma CommentedValue(behind: string, value: string, gap: string, text: string)
    requires AllSpace(behind) && Trimmed(value) && Plain(value) && NoComment(value) && value != []
    requires gap != [] && AllSpace(gap) && Plain(gap)
    ensures ValuePart(RStripped((behind + (value + gap) + ";") + text)) == value
  {
    hide RStripped, LSkipped, Find, IsSpace, NoComment, AllSpace, ValuePart, Trimmed, Plain;
    var u, rest := value + gap, RStripped(text);
    SemicolonIsNoSpace();
    StripKeeps(behind + u + ";", text);
    SameText((behind + u + ";") + rest, behind + (u + (";" + rest)));
    ValueSkips(behind, u + (";" + rest));
    CommentCut(value, gap, rest);
  }

  lemma CommentCut(value: string, gap: string, rest: string)
    requires Trimmed(value) && Plain(value) && NoComment(value) && value != []
    requires gap != [] && AllSpace(gap) && Plain(gap)
    ensures ValuePart((value + gap) + (";" + rest)) == value
  {
    hide RStripped, LSkipped, Find, IsSpace, NoComment, AllSpace, Trimmed;
    var u := value + gap;
    SpacesNoComment(value, gap);
    GapEnds(value, gap);
    FindThrough(u, ";" + rest, '\0', false);
    StopsAtComment(rest, '\0');
    FirstNotSpace(value, gap);
    StartsWith(u, ";" + rest);
    StripBlanks(value, gap);
    CutFront(u, ";" + rest);
  }

  lemma CutFront(u: string, x: string)
    requires LSkipped(u + x) == u + x && Find(u + x, '\0', false) == |u|
    ensures ValuePart(u + x) == RStripped(u)
  {
    hide RStripped, LSkipped, Find;
    assert (u + x)[..|u|] == u;
  }

  lemma GapEnds(value: string, gap: string)
    requires gap != [] && AllSpace(gap)
    ensures IsSpace((value + gap)[|value + gap| - 1])
  {
  }

  lemma FirstNotSpace(value: string, gap: string)
    requires Trimmed(value) && value != []
    ensures value + gap != [] && !IsSpace((value + gap)[0])
  {
  }

  lemma SemicolonIsNoSpace()
    ensures !IsSpace(';')
  {
  }

  lemma StartsWith(u: string, x: string)
    requires u != [] && !IsSpace(u[0])
    ensures LSkipped(u + x) == u + x
  {
  }

  lemma LastIsSpace(gap: string)
    requires gap != [] && AllSpace(gap)
    ensures IsSpace(gap[|gap| - 1])
  {
  }

  lemma StopsAtComment(rest: string, c: char)
    ensures Find(";" + rest, c, true) == 0
  {
  }

  lemma SpacesNoComment(s: string, gap: string)
    requires NoComment(s) && AllSpace(gap)
    ensures NoComment(s + gap) && (s != [] ==> (s + gap)[0] == s[0])
  {
  }

  // ---------- the delimiter ----------

  /** A search that meets its character nowhere before the end or a comment does not end on it. */
  lemma {:induction false} FindMisses(u: string, v: string, c: char, ws: bool)
    requires c !in u && c != ';' && (v == [] || (v[0] == ';' && (if u == [] then ws else IsSpace(u[|u| - 1]))))
    ensures var k := Find(u + v, c, ws); k == |u + v| || (u + v)[k] == ';'
  {
    hide IsSpace;
    if u == [] {
      assert u + v == v;
    } else {
      var s := u + v;
      assert s[1..] == u[1..] + v && s[0] == u[0];
      FindMisses(u[1..], v, c, IsSpace(u[0]));
    }
  }

  lemma DelimiterFound(name: string, before: string, d: char, rest: string)
    requires name != [] && Trimmed(name) && NoComment(name) && AllSpace(before) && d !in name && (d == '=' || d == ':')
    ensures Find(name + before + [d] + rest, d, false) == |name + before|
  {
    hide Find, IsSpace, NoComment;
    SpacesNoComment(name, before);
    NoDelimiter(d, before);
    assert name + before + [d] + rest == (name + before) + ([d] + rest);
    FindThrough(name + before, [d] + rest, d, false);
    FindHere([d] + rest, d, IsSpace((name + before)[|name + before| - 1]));
  }

  lemma NoDelimiter(d: char, before: string)
    requires (d == '=' || d == ':') && AllSpace(before)
    ensures d !in before
  {
  }

  /** The text behind the delimiter, stripped, holds no '=' before a comment. */
  lemma NoEquals(name: string, before: string, behind: string, value: string, tail: Tail)
    requires '=' !in name && '=' !in value && AllSpace(before) && AllSpace(behind) && tail.Fits(value)
    ensures var s := name + before + ":" + RStripped(behind + value + tail.Shown() + "\n");
      var k := Find(s, '=', false); k == |s| || s[k] == ';'
  {
    hide Find, IsSpace, RStripped, AllSpace, LSkipped;
    var u := name + before + ":";
    NoDelimiter('=', before);
    NoDelimiter('=', behind);
    match tail
    case Blanks(b) =>
      var x := behind + value + tail.Shown() + "\n";
      NoDelimiter('=', b);
      StrippedMembers(x, '=');
      MissesAll(u, RStripped(x));
    case Comment(gap, text) =>
      SemicolonIsNoSpace();
      NoDelimiter('=', gap);
      CommentJoins(behind, value, gap, text);
      StripKeeps(behind + (value + gap) + ";", text + "\n");
      MissesComment(u, behind, value, gap, RStripped(text + "\n"));
  }

  lemma StrippedMembers(x: string, c: char)
    requires c !in x
    ensures c !in RStripped(x)
  {
  }

  lemma MissesAll(u: string, r: string)
    requires '=' !in u && '=' !in r
    ensures var k := Find(u + r, '=', false); k == |u + r| || (u + r)[k] == ';'
  {
    hide Find;
    FindMisses(u + r, [], '=', false);
    assert (u + r) + [] == u + r;
  }

  lemma MissesComment(u: string, behind: string, value: string, gap: string, r: string)
    requires '=' !in u && '=' !in behind && '=' !in value && '=' !in gap && gap != [] && AllSpace(gap)
    ensures var s := u + ((behind + (value + gap) + ";") + r);
      var k := Find(s, '=', false); k == |s| || s[k] == ';'
  {
    hide Find, IsSpace;
    var w := u + (behind + (value + gap));
    LastIsSpace(gap);
    assert w[|w| - 1] == gap[|gap| - 1];
    FindMisses(w, ";" + r, '=', false);
    assert u + ((behind + (value + gap) + ";") + r) == w + (";" + r);
  }

  lemma AssignSplits(name: string, before: string, delim: char, behind: string, value: string, tail: Tail)
    requires Assign(name, before, delim, behind, value, tail).Valid(true)
    ensures SplitEntry(name + before + [delim] + RStripped(behind + value + tail.Shown() + "\n")) == Entry(name, value)
  {
    hide Find, IsSpace, RStripped, NoComment, ValuePart, AllSpace;
    var rest := RStripped(behind + value + tail.Shown() + "\n");
    var start, n := name + before + [delim] + rest, |name + before|;
    DelimiterFound(name, before, delim, rest);
    if delim == ':' {
      NoEquals(name, before, behind, value, tail);
    }
    assert start[..n] == name + before && start[n + 1..] == rest && start[n] == delim;
    StripBlanks(name, before);
    ValueFound(behind, value, tail);
  }

  // ---------- one item ----------

  /** What a line means once it is stripped. */
  ghost function Stripped(line: string): string {
    LSkipped(RStripped(line))
  }

  function MeaningOf(item: Item): Meaning {
    match item
    case Ignored(_, _) => Nothing
    case Title(title, _) => Header(title)
    case Assign(name, _, _, _, value, _) => Entry(name, value)
    case Further(_, value, _) => Continuation(value)
  }

  lemma ItemMeaning(item: Item, named: bool)
    requires item.Valid(named)
    ensures ClassifyStart(Stripped(item.Shown() + "\n"), item.Further?) == MeaningOf(item)
    ensures item.Ignored? ==> ClassifyStart(Stripped(item.Shown() + "\n"), true) == Nothing
  {
    hide Stripped, ClassifyStart, AllSpace, IsSpace, NoComment, Trimmed, Plain;
    match item
    case Ignored(indent, text) => IgnoredMeaning(indent, text);
    case Title(title, rest) => TitleMeaning(title, rest);
    case Assign(name, before, delim, behind, value, tail) => AssignMeaning(item);
    case Further(indent, value, blanks) => FurtherMeaning(indent, value, blanks);
  }

  /** A line that begins, behind whitespace, with a string that does not end in whitespace. */
  lemma StripsFrom(indent: string, head: string, x: string) returns (r: string)
    requires AllSpace(indent) && head != [] && !IsSpace(head[0]) && !IsSpace(head[|head| - 1])
    ensures r == RStripped(x) && Stripped((indent + head) + x) == head + r
  {
    hide IsSpace, RStripped, LSkipped, AllSpace;
    r := RStripped(x);
    StripKeeps(indent + head, x);
    Reassociate(indent, head, r);
    SkipSpaces(indent, head + r);
    StartsWith(head, r);
  }

  lemma Reassociate(x: string, y: string, z: string)
    ensures (x + y) + z == x + (y + z)
  {
  }

  lemma IgnoredMeaning(indent: string, text: string)
    requires AllSpace(indent) && (text == [] || text[0] == ';' || text[0] == '#')
    ensures ClassifyStart(Stripped(indent + text + "\n"), false) == Nothing
    ensures ClassifyStart(Stripped(indent + text + "\n"), true) == Nothing
  {
    hide IsSpace, AllSpace, RStripped, LSkipped, SplitHeader, SplitEntry, Stripped;
    if text == [] {
      assert indent + text + "\n" == indent + "\n";
      BlankStripped(indent);
    } else {
      CommentStarts(text[0]);
      assert indent + text + "\n" == (indent + text[..1]) + (text[1..] + "\n");
      var r := StripsFrom(indent, text[..1], text[1..] + "\n");
      assert (text[..1] + r)[0] == text[0];
    }
  }

  lemma BlankStripped(indent: string)
    requires AllSpace(indent)
    ensures Stripped(indent + "\n") == []
  {
    hide IsSpace, RStripped, LSkipped;
    NewlineIsSpace();
    SpacesJoin(indent, "\n");
    StripSpaces(indent + "\n");
    SkipNothing();
  }

  lemma SkipNothing()
    ensures LSkipped([]) == []
  {
  }

  lemma CommentStarts(c: char)
    requires c == ';' || c == '#'
    ensures !IsSpace(c)
  {
  }

  lemma BracketsAreNoSpace()
    ensures !IsSpace('[') && !IsSpace(']') && !IsSpace('=') && !IsSpace(':')
  {
  }

  lemma TitleMeaning(title: string, rest: string)
    requires ']' !in title && NoComment(title)
    ensures ClassifyStart(Stripped("[" + title + "]" + rest + "\n"), false) == Header(title)
  {
    hide IsSpace, SplitEntry, SplitHeader, NoComment, Stripped, RStripped;
    BracketsAreNoSpace();
    var h := "[" + title + "]";
    assert "[" + title + "]" + rest + "\n" == ([] + h) + (rest + "\n");
    var r := StripsFrom([], h, rest + "\n");
    assert (h + r)[1..] == title + ("]" + r) && (h + r)[0] == '[';
    TitleSplits(title, r);
  }

  lemma TitleSplits(title: string, r: string)
    requires ']' !in title && NoComment(title)
    ensures SplitHeader(title + ("]" + r)) == Header(title)
  {
    hide IsSpace, Find, NoComment;
    assert (title + ("]" + r))[..|title|] == title;
    FindThrough(title, "]" + r, ']', false);
    FindHere("]" + r, ']', if title == [] then false else IsSpace(title[|title| - 1]));
  }

  lemma AssignMeaning(item: Item)
    requires item.Assign? && item.Valid(true)
    ensures ClassifyStart(Stripped(item.Shown() + "\n"), false) == Entry(item.name, item.value)
  {
    hide IsSpace, RStripped, SplitEntry, SplitHeader, NoComment, AllSpace, Stripped;
    var Assign(name, before, delim, behind, value, tail) := item;
    NewlineIsSpace();
    BracketsAreNoSpace();
    var head, rest := name + before + [delim], behind + value + tail.Shown();
    LastNotSpace(name);
    assert head[0] == name[0];
    assert item.Shown() + "\n" == ([] + head) + (rest + "\n");
    var r := StripsFrom([], head, rest + "\n");
    AssignSplits(name, before, delim, behind, value, tail);
    assert (head + r)[0] == name[0];
  }

  lemma FurtherMeaning(indent: string, value: string, blanks: string)
    requires AllSpace(indent) && AllSpace(blanks) && value != [] && Trimmed(value) && value[0] != ';' && value[0] != '#'
    ensures ClassifyStart(Stripped(indent + value + blanks + "\n"), true) == Continuation(value)
  {
    hide IsSpace, RStripped, SplitEntry, SplitHeader, AllSpace, Stripped;
    NewlineIsSpace();
    SpacesJoin(blanks, "\n");
    LastNotSpace(value);
    assert indent + value + blanks + "\n" == (indent + value) + (blanks + "\n");
    var r := StripsFrom(indent, value, blanks + "\n");
    StripSpaces(blanks + "\n");
    assert value + [] == value;
  }

  // ---------- a document ----------

  const BYTE_ORDER_MARK := [0xEF as char, 0xBB as char, 0xBF as char]

  datatype Document = Document(bom: bool, items: seq<Item>)

  /** What the items so far amount to: the section, the name a further line continues, the calls and their lines. */
  datatype Effect = Effect(section: string, name: string, calls: seq<Call>, numbers: seq<nat>)

  /** At most the first 49 characters. */
  function Front49(s: string): string {
    if |s| <= 49 then s else s[..49]
  }

  function Play(items: seq<Item>): (e: Effect)
    ensures |e.calls| == |e.numbers|
  {
    if items == [] then Effect([], [], [], [])
    else
      var e := Play(items[..|items| - 1]);
      match items[|items| - 1]
      case Ignored(_, _) => e
      case Title(title, _) => e.(section := Front49(title), name := [])
      case Assign(name, _, _, _, value, _) =>
        Effect(e.section, Front49(name), e.calls + [Call(e.section, name, value)], e.numbers + [|items|])
      case Further(_, value, _) =>
        e.(calls := e.calls + [Call(e.section, e.name, value)], numbers := e.numbers + [|items|])
  }

  function LineOf(d: Document, i: nat): string
    requires i < |d.items|
  {
    (if i == 0 && d.bom then BYTE_ORDER_MARK else []) + d.items[i].Shown() + "\n"
  }

  function LinesOf(d: Document, k: nat): (ls: seq<string>)
    requires k <= |d.items|
    ensures |ls| == k && forall i :: 0 <= i < k ==> ls[i] == LineOf(d, i)
  {
    seq(k, i requires 0 <= i < k => LineOf(d, i))
  }

  /** Every item can be read back where it stands, and a mark that was not put in front is not there by chance. */
  ghost predicate IsDocument(d: Document) {
    && (forall i :: 0 <= i < |d.items| ==> d.items[i].Valid(Play(d.items[..i]).name != []))
    && (d.items != [] && !d.bom ==> !HasBom(LineOf(d, 0)))
  }

  /** The meaning of a line of a document. */
  lemma LineMeans(d: Document, i: nat)
    requires IsDocument(d) && i < |d.items|
    ensures Classify(LineOf(d, i), i == 0, Play(d.items[..i]).name != []) == MeaningOf(d.items[i])
  {
    hide ClassifyStart, Stripped, AllSpace, IsSpace, NoComment, Trimmed, Plain, RStripped, LSkipped;
    var item, named := d.items[i], Play(d.items[..i]).name != [];
    ItemMeaning(item, named);
    if i == 0 {
      assert d.items[..0] == [];
      FirstText(d);
    } else {
      assert LineOf(d, i) == item.Shown() + "\n";
    }
    StripsTo(LineOf(d, i), i == 0);
    if i > 0 && named && !item.Ignored? {
      IndentOf(item, named);
    }
  }

  lemma FirstText(d: Document)
    requires d.items != [] && (!d.bom ==> !HasBom(LineOf(d, 0)))
    ensures Text(LineOf(d, 0), true) == d.items[0].Shown() + "\n"
  {
    var x := d.items[0].Shown();
    if d.bom {
      assert LineOf(d, 0) == BYTE_ORDER_MARK + (x + "\n");
      MarkIsMark(x + "\n");
    } else {
      assert LineOf(d, 0) == x + "\n";
    }
  }

  lemma MarkIsMark(x: string)
    ensures HasBom(BYTE_ORDER_MARK + x) && (BYTE_ORDER_MARK + x)[3..] == x
  {
  }

  lemma StripsTo(line: string, first: bool)
    ensures LSkipped(RStripped(Text(line, first))) == Stripped(Text(line, first))
  {
  }

  /** Titles and names stand at the beginning of their lines, further lines do not. */
  lemma IndentOf(item: Item, named: bool)
    requires item.Valid(named) && !item.Ignored?
    ensures Indented(item.Shown() + "\n", false) == item.Further?
  {
  }

  lemma StepOfItem(st: State, d: Document, i: nat, accepts: nat -> bool)
    requires IsDocument(d) && i < |d.items| && st.lineno == i
    requires var e := Play(d.items[..i]);
      st.section == e.section && st.prevName == e.name && st.calls == e.calls && Recorded(st, e.numbers, accepts)
    ensures var e, st' := Play(d.items[..i + 1]), Step(st, LineOf(d, i), accepts);
      && st'.section == e.section && st'.prevName == e.name && st'.calls == e.calls && st'.lineno == i + 1
      && Recorded(st', e.numbers, accepts)
  {
    hide Classify, IsDocument, FirstRefused;
    LineMeans(d, i);
    var all := d.items[..i + 1];
    assert all[..|all| - 1] == d.items[..i] && all[|all| - 1] == d.items[i];
    FirstRefusedAppend(Play(d.items[..i]).numbers, i + 1, accepts);
  }

  lemma {:induction false} DocumentRun(d: Document, k: nat, accepts: nat -> bool)
    requires IsDocument(d) && k <= |d.items|
    ensures var e, st := Play(d.items[..k]), Run(LinesOf(d, k), accepts);
      && st.section == e.section && st.prevName == e.name && st.calls == e.calls && st.lineno == k
      && Recorded(st, e.numbers, accepts)
  {
    hide IsDocument, Step, FirstRefused, LineOf, Play;
    if k == 0 {
      assert d.items[..0] == [];
      NothingPlayed(accepts);
    } else {
      DocumentRun(d, k - 1, accepts);
      assert LinesOf(d, k) == LinesOf(d, k - 1) + [LineOf(d, k - 1)];
      RunAppend(LinesOf(d, k - 1), LineOf(d, k - 1), accepts);
      StepOfItem(Run(LinesOf(d, k - 1), accepts), d, k - 1, accepts);
    }
  }

  lemma NothingPlayed(accepts: nat -> bool)
    ensures Play([]) == Effect([], [], [], []) && Run([], accepts) == INITIAL && FirstRefused([], accepts) == 0
  {
  }

  /**
   * A document in any layout, as a file: the handler is called with exactly the names and values its items were made
   * of, in order, whatever it answers, and the result is the number of the line with the first one it refuses.
   */
  lemma DocumentRoundTrip(d: Document, accepts: nat -> bool)
    requires IsDocument(d) && forall i :: 0 <= i < |d.items| ==> IsLine(LineOf(d, i))
    ensures var st := Run(CStrings(Lines(Joined(LinesOf(d, |d.items|)))), accepts);
      st.calls == Play(d.items).calls && st.error == FirstRefused(Play(d.items).numbers, accepts)
  {
    hide IsDocument, IsLine, Lines, Joined, Run, Play, CStrings, FirstRefused, LineOf;
    assert d.items[..|d.items|] == d.items;
    LinesOfJoined(LinesOf(d, |d.items|));
    CStringsWhole(LinesOf(d, |d.items|));
    DocumentRun(d, |d.items|, accepts);
  }

  /** A comment right behind the delimiter is not one: it is handed over as the value. */
  lemma CommentForValue(name: string, text: string)
    requires name != [] && Trimmed(name) && NoComment(name) && '=' !in name && Plain(text) && NoComment(";" + text)
    requires Trimmed(";" + text)
    ensures SplitEntry(name + " = ;" + text) == Entry(name, ";" + text)
  {
    hide Find, IsSpace, RStripped, NoComment, ValuePart, AllSpace, Trimmed;
    var start, n := name + " = ;" + text, |name + " "|;
    SpaceIsBlank();
    assert start == name + " " + ['='] + (" " + (";" + text));
    DelimiterFound(name, " ", '=', " " + (";" + text));
    assert start[..n] == name + " " && start[n + 1..] == " " + (";" + text) && start[n] == '=';
    StripBlanks(name, " ");
    ValueSkips(" ", ";" + text);
    ValueStays(";" + text);
  }

  lemma SpaceIsBlank()
    ensures AllSpace(" ")
  {
  }
}
