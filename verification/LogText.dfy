// What zlog's bounded buffer shows of the text printed into it.
module LogText {

  /** The end of c replaced by t, or all of c by the front of t when c is the shorter. */
  function Overwritten(c: string, t: string): (r: string)
    ensures |r| == |c|
  {
    if |t| <= |c| then c[..|c| - |t|] + t else t[..|c|]
  }

  /** Everything printed so far, cut to a buffer of max bytes (0: no limit) and marked at the cut. */
  function Shown(text: string, max: nat, t: string): string {
    if max == 0 || |text| < max then text else Overwritten(text[..max - 1], t)
  }

  /** One more string printed into contents c. */
  function Absorb(c: string, s: string, max: nat, t: string): string {
    Shown(c + s, max, t)
  }

  lemma AbsorbFits(c: string, s: string, max: nat, t: string)
    requires max == 0 || |c| + |s| < max
    ensures Absorb(c, s, max, t) == c + s
  {
  }

  lemma AbsorbCut(c: string, s: string, left: nat, max: nat, t: string)
    requires left <= |s| && |c| + left == max - 1 && |c| + |s| >= max
    ensures Absorb(c, s, max, t) == Overwritten(c + s[..left], t)
  {
    assert (c + s)[..max - 1] == c + s[..left];
  }

  function Concat(ss: seq<string>): string {
    if ss == [] then [] else Concat(ss[..|ss| - 1]) + ss[|ss| - 1]
  }

  /** A run of prints into an empty buffer. */
  function Printed(ss: seq<string>, max: nat, t: string): string {
    if ss == [] then [] else Absorb(Printed(ss[..|ss| - 1], max, t), ss[|ss| - 1], max, t)
  }

  lemma OverwrittenAgain(c: string, s: string, t: string)
    ensures Overwritten((Overwritten(c, t) + s)[..|c|], t) == Overwritten(c, t)
  {
    assert (Overwritten(c, t) + s)[..|c|] == Overwritten(c, t);
  }

  /** Cutting and marking at every print shows the same as cutting and marking the whole text once. */
  lemma AbsorbShown(text: string, s: string, max: nat, t: string)
    ensures Absorb(Shown(text, max, t), s, max, t) == Shown(text + s, max, t)
  {
    if max != 0 && |text| >= max {
      var c := text[..max - 1];
      assert (text + s)[..max - 1] == c;
      OverwrittenAgain(c, s, t);
      if s == [] {
        assert Overwritten(c, t) + s == Overwritten(c, t);
        FullStays(c, t, max);
      }
    }
  }

  lemma FullStays(c: string, t: string, max: nat)
    requires max != 0 && |c| == max - 1
    ensures Shown(Overwritten(c, t), max, t) == Overwritten(c, t)
  {
  }

  /**
   * A whole run: the buffer holds the concatenation of everything printed if that fits, and otherwise its first
   * max - 1 characters with the tail overwritten by the truncation mark.
   */
  lemma {:induction false} PrintedIsShown(ss: seq<string>, max: nat, t: string)
    ensures Printed(ss, max, t) == Shown(Concat(ss), max, t)
  {
    hide Shown, Absorb;
    if ss == [] {
      EmptyShown(max, t);
    } else {
      PrintedIsShown(ss[..|ss| - 1], max, t);
      AbsorbShown(Concat(ss[..|ss| - 1]), ss[|ss| - 1], max, t);
    }
  }

  lemma EmptyShown(max: nat, t: string)
    ensures Shown([], max, t) == []
  {
  }

  lemma {:induction false} ConcatAppend(ss: seq<string>, ts: seq<string>)
    ensures Concat(ss + ts) == Concat(ss) + Concat(ts)
  {
    if ts == [] {
      assert ss + ts == ss;
    } else {
      var us := ss + ts;
      assert us[..|us| - 1] == ss + ts[..|ts| - 1];
      ConcatAppend(ss, ts[..|ts| - 1]);
    }
  }

  /** Once the text has outgrown the buffer, further prints change nothing. */
  lemma {:induction false} OverflowIsFinal(ss: seq<string>, ts: seq<string>, max: nat, t: string)
    requires max != 0 && |Concat(ss)| >= max
    ensures Printed(ss + ts, max, t) == Printed(ss, max, t)
  {
    PrintedIsShown(ss, max, t);
    PrintedIsShown(ss + ts, max, t);
    ConcatAppend(ss, ts);
    assert Concat(ss + ts)[..max - 1] == Concat(ss)[..max - 1];
  }

  function Spaces(n: nat): (s: string)
    ensures |s| == n
  {
    seq(n, _ => ' ')
  }

  /** str cut to max width (0: uncut), then filled with blanks to min width on the given side. */
  function Adjusted(str: string, left: bool, inWidth: nat, outWidth: nat): string {
    var kept := if outWidth == 0 || |str| < outWidth then str else str[..outWidth];
    var blanks := Spaces(if inWidth > |kept| then inWidth - |kept| else 0);
    if left then kept + blanks else blanks + kept
  }

  /**
   * What is printed of an adjusted string: the front of str, cut to outWidth if that is not 0, at its front when it is
   * left-adjusted and at its end otherwise, with blanks in the other places up to inWidth.
   */
  lemma AdjustedIs(str: string, left: bool, inWidth: nat, outWidth: nat)
    ensures var r := Adjusted(str, left, inWidth, outWidth);
      var n := if outWidth == 0 || |str| < outWidth then |str| else outWidth;
      && |r| == (if inWidth > n then inWidth else n)
      && (left ==> r[..n] == str[..n] && forall i :: n <= i < |r| ==> r[i] == ' ')
      && (!left ==> r[|r| - n..] == str[..n] && forall i :: 0 <= i < |r| - n ==> r[i] == ' ')
  {
    var r := Adjusted(str, left, inWidth, outWidth);
    var n := if outWidth == 0 || |str| < outWidth then |str| else outWidth;
    assert str[..|str|] == str;
    if left {
      assert r[..n] == str[..n];
    } else {
      assert r[|r| - n..] == str[..n];
    }
  }

  /** A text that is cut ends in the mark and starts with what was printed; a mark longer than the buffer fills it. */
  lemma CutEndsInMark(text: string, max: nat, t: string)
    requires max != 0 && |text| >= max
    ensures var r := Shown(text, max, t);
      && |r| == max - 1
      && (|t| < max ==> r[max - 1 - |t|..] == t && r[..max - 1 - |t|] == text[..max - 1 - |t|])
      && (|t| >= max ==> r == t[..max - 1])
  {
    var c := text[..max - 1];
    if |t| < max {
      assert c[..max - 1 - |t|] == text[..max - 1 - |t|];
    }
  }
}
