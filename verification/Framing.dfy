// Where frames lie in a byte stream, and what the length expression of iwise_net_xihe_module.c makes of a header.
module Framing {
  import opened Bits
  import opened SsrMessages
  import opened SsrDecoder
  import opened SsrRoundTrip

  const MAX_BUFFER := 4096
  const PACKAGE_SIZE := 512

  // ---------- the length expression ----------

  function Shifted(b1: bv16, x: bv16): bv16 {
    (b1 << 8) | x
  }

  /** b1 << 8 | b2 + 6, where C binds the addition tighter than the or. */
  function FrameLength(b1: Byte, b2: Byte): nat {
    Shifted(b1 as bv16, (b2 as nat + 6) as bv16) as nat
  }

  lemma ShiftedLow(a: bv16, x: bv16)
    requires a < 256 && x < 256
    ensures Shifted(a, x) as int == 256 * (a as int) + x as int
  {
    DisjointOr(a, x);
  }

  lemma DisjointOr(a: bv16, x: bv16)
    requires a < 256 && x < 256
    ensures ((a << 8) | x) as int == 256 * (a as int) + x as int
  {
  }

  lemma ShiftedHigh(a: bv16, x: bv16)
    requires a < 256 && 256 <= x < 512
    ensures Shifted(a, x) == Shifted(a | 1, x - 256)
  {
  }

  lemma HighPart(x: bv16)
    requires 256 <= x < 512
    ensures (x - 256) as int == x as int - 256
  {
  }

  lemma WithLowBit(a: bv16)
    requires a < 256
    ensures (a | 1) as int == if a as int % 2 == 1 then a as int else a as int + 1
    ensures (a | 1) < 256
  {
  }

  lemma WideByte(b: Byte)
    ensures (b as bv16) as int == b as int && b as bv16 < 256
  {
  }

  lemma WideSum(x: nat)
    requires x < 512
    ensures (x as bv16) as int == x && (x as bv16) < 512 && (x < 256 <==> x as bv16 < 256)
  {
  }

  /** When the sum carries, the carry meets the low bit of b1 and is lost if that bit is set. */
  lemma FrameLengthValue(b1: Byte, b2: Byte)
    ensures FrameLength(b1, b2) ==
      256 * (b1 as int) + b2 as int + 6 - if b2 as int >= 250 && b1 as int % 2 == 1 then 256 else 0
  {
    hide Shifted;
    var a, x := b1 as bv16, (b2 as nat + 6) as bv16;
    WideByte(b1);
    WideSum(b2 as nat + 6);
    if x < 256 {
      ShiftedLow(a, x);
    } else {
      ShiftedHigh(a, x);
      HighPart(x);
      WithLowBit(a);
      ShiftedLow(a | 1, x - 256);
    }
  }

  /** The header bytes of a block with n body bytes. */
  ghost predicate Announces(b1: Byte, b2: Byte, n: nat) {
    b1 as int == n / 256 && b2 as int == n % 256
  }

  lemma AnnouncedLength(b1: Byte, b2: Byte, n: nat)
    requires Announces(b1, b2, n)
    ensures FrameLength(b1, b2) == n + 6 - if n % 256 >= 250 && n / 256 % 2 == 1 then 256 else 0
  {
    FrameLengthValue(b1, b2);
  }

  /** Of all body lengths the field can hold, the receiver measures and takes exactly those up to 505 bytes. */
  lemma LengthIsRight(b1: Byte, b2: Byte, n: nat)
    requires Announces(b1, b2, n) && n < 1024
    ensures FrameLength(b1, b2) == n + 6 && n + 6 <= PACKAGE_SIZE <==> n <= 505
  {
    AnnouncedLength(b1, b2, n);
  }

  // ---------- one turn of the frame loop, on any buffer ----------

  /** Where the search for the preamble stops, one past the received data if there is none; None if it leaves b. */
  function SeekFrom(b: seq<Byte>, start: nat, end: nat): (r: Option<nat>)
    decreases end + 1 - start
  {
    if start > end then Some(start)
    else if start >= |b| then None
    else if b[start] == 0xD3 then Some(start)
    else SeekFrom(b, start + 1, end)
  }

  /** Wait for more data, go round again, handle a frame, or read outside the buffer. */
  datatype Turn = Wait(start: nat) | Again(start: nat) | Frame(start: nat, length: nat) | Outside

  function NextTurn(b: seq<Byte>, start: nat, end: nat): Turn {
    if end - start < 3 then Wait(start) else
      match SeekFrom(b, start, end)
      case None => Outside
      case Some(s) =>
        if s + 2 >= |b| then Outside
        else
          var length := FrameLength(b[s + 1], b[s + 2]);
          if length > PACKAGE_SIZE then Again(s)
          else if end - s < length then Wait(s)
          else Frame(s, length)
  }

  /** The search stops at the first preamble at or behind start, but not behind the byte at end. */
  lemma {:induction false} SeekStops(b: seq<Byte>, start: nat, end: nat, s: nat)
    requires start <= s <= end + 1 && s <= |b| && (s <= end ==> s < |b| && b[s] == 0xD3)
    requires forall i :: start <= i < s ==> b[i] != 0xD3
    ensures SeekFrom(b, start, end) == Some(s)
    decreases s - start
  {
    if start < s {
      SeekStops(b, start + 1, end, s);
    }
  }

  /** Turn number k, when nothing else changes. */
  function TurnAfter(b: seq<Byte>, start: nat, end: nat, k: nat): Turn {
    if k == 0 then NextTurn(b, start, end)
    else
      match TurnAfter(b, start, end, k - 1)
      case Again(s) => NextTurn(b, s, end)
      case t => t
  }

  /** Going round again changes nothing while three bytes are left. */
  lemma AgainRepeats(b: seq<Byte>, start: nat, end: nat)
    requires NextTurn(b, start, end).Again?
    ensures var s := NextTurn(b, start, end).start;
      NextTurn(b, s, end) == if end - s < 3 then Wait(s) else Again(s)
  {
    hide FrameLength;
    SeekTwice(b, start, end);
  }

  lemma {:induction false} SeekTwice(b: seq<Byte>, start: nat, end: nat)
    requires SeekFrom(b, start, end).Some?
    ensures var s := SeekFrom(b, start, end).value; SeekFrom(b, s, end) == Some(s)
    decreases end + 1 - start
  {
    if start <= end && b[start] != 0xD3 {
      SeekTwice(b, start + 1, end);
    }
  }

  lemma {:induction false} StuckForever(b: seq<Byte>, start: nat, end: nat, k: nat)
    requires NextTurn(b, start, end).Again? && end - NextTurn(b, start, end).start >= 3
    ensures TurnAfter(b, start, end, k) == NextTurn(b, start, end)
  {
    hide NextTurn;
    if k > 0 {
      StuckForever(b, start, end, k - 1);
      AgainRepeats(b, start, end);
    }
  }

  /** The first preamble from start on is at s, it has two bytes behind it, and they announce more than PACKAGE_SIZE. */
  ghost predicate EndlessAt(b: seq<Byte>, start: nat, end: nat, s: nat) {
    && start <= s && s + 3 <= end <= |b|
    && b[s] == 0xD3 && (forall i :: start <= i < s ==> b[i] != 0xD3)
    && FrameLength(b[s + 1], b[s + 2]) > PACKAGE_SIZE
  }

  lemma {:induction false} SeekFinds(b: seq<Byte>, start: nat, end: nat)
    requires SeekFrom(b, start, end).Some? && start <= end
    ensures var s := SeekFrom(b, start, end).value;
      && start <= s <= end + 1 && (s <= end ==> s < |b| && b[s] == 0xD3)
      && forall i :: start <= i < s && i < |b| ==> b[i] != 0xD3
    decreases end - start
  {
    if b[start] != 0xD3 && start < end {
      SeekFinds(b, start + 1, end);
    }
  }

  lemma EndlessIsAgain(b: seq<Byte>, start: nat, end: nat, s: nat)
    requires EndlessAt(b, start, end, s)
    ensures NextTurn(b, start, end) == Again(s)
  {
    hide FrameLength;
    SeekStops(b, start, end, s);
  }

  lemma AgainIsEndless(b: seq<Byte>, start: nat, end: nat)
    requires end <= |b| && NextTurn(b, start, end).Again? && end - NextTurn(b, start, end).start >= 3
    ensures EndlessAt(b, start, end, NextTurn(b, start, end).start)
  {
    hide FrameLength;
    SeekFinds(b, start, end);
  }

  /** Every turn of the loop ends with going round again. */
  ghost predicate Spins(b: seq<Byte>, start: nat, end: nat) {
    forall k: nat :: TurnAfter(b, start, end, k).Again?
  }

  /**
   * The loop spins for ever on received data exactly when the first preamble in them has two bytes behind it that
   * announce more than PACKAGE_SIZE.
   */
  lemma StuckIff(b: seq<Byte>, start: nat, end: nat)
    requires end <= |b|
    ensures Spins(b, start, end) <==> exists s: nat :: EndlessAt(b, start, end, s)
  {
    hide EndlessAt, Spins;
    if s: nat :| EndlessAt(b, start, end, s) {
      EndlessSpins(b, start, end, s);
    } else if Spins(b, start, end) {
      var s := SpinsIsEndless(b, start, end);
    }
  }

  lemma SpinsIsEndless(b: seq<Byte>, start: nat, end: nat) returns (s: nat)
    requires end <= |b| && Spins(b, start, end)
    ensures EndlessAt(b, start, end, s)
  {
    hide NextTurn, EndlessAt;
    assert TurnAfter(b, start, end, 0) == NextTurn(b, start, end);
    AgainRepeats(b, start, end);
    assert TurnAfter(b, start, end, 1).Again?;
    AgainIsEndless(b, start, end);
    s := NextTurn(b, start, end).start;
  }

  lemma EndlessSpins(b: seq<Byte>, start: nat, end: nat, s: nat)
    requires EndlessAt(b, start, end, s)
    ensures forall k: nat :: TurnAfter(b, start, end, k) == Again(s)
    ensures Spins(b, start, end)
  {
    hide NextTurn, TurnAfter;
    forall k: nat
      ensures TurnAfter(b, start, end, k) == Again(s)
    {
      EndlessIsAgain(b, start, end, s);
      StuckForever(b, start, end, k);
    }
  }

  /** A body of 506 to 511 bytes is cut too short; on one of 512 bytes or more the loop spins forever. */
  lemma LongBodies(b: seq<Byte>, start: nat, end: nat, n: nat)
    requires start + 3 <= end <= |b| && b[start] == 0xD3
    requires Announces(b[start + 1], b[start + 2], n) && 506 <= n < 1024
    ensures n >= 512 ==> forall k: nat :: TurnAfter(b, start, end, k) == Again(start)
    ensures n < 512 ==>
      NextTurn(b, start, end) == if end - start < n - 250 then Wait(start) else Frame(start, n - 250)
  {
    hide FrameLength, Announces, TurnAfter;
    AnnouncedLength(b[start + 1], b[start + 2], n);
    SeekStops(b, start, end, start);
    if n >= 512 {
      EndlessSpins(b, start, end, start);
    }
  }

  /**
   * Data without a preamble are dropped, and the search goes on behind the data: unless the old byte that lies there
   * is a preamble, the first byte received next is dropped unseen.
   */
  lemma Garbage(b: seq<Byte>, start: nat, end: nat)
    requires start + 3 <= end && end + 3 < |b| && forall i :: start <= i < end ==> b[i] != 0xD3
    ensures TurnAfter(b, start, end, 1) == Wait(if b[end] == 0xD3 then end else end + 1)
  {
    hide FrameLength;
    var s := if b[end] == 0xD3 then end else end + 1;
    SeekStops(b, start, end, s);
    var t := NextTurn(b, start, end);
    FrameLengthValue(b[s + 1], b[s + 2]);
    assert t == Wait(s) || t == Again(s);
    assert TurnAfter(b, start, end, 0) == t;
    if t.Again? {
      AgainRepeats(b, start, end);
    }
  }

  // ---------- streams of frames ----------

  ghost predicate IsFrame(f: seq<Byte>) {
    6 <= |f| <= PACKAGE_SIZE && f[0] == 0xD3 && FrameLength(f[1], f[2]) == |f|
  }

  /** On the header of such a piece the frame loop spins for ever. */
  ghost predicate IsEndless(f: seq<Byte>) {
    |f| >= 3 && f[0] == 0xD3 && FrameLength(f[1], f[2]) > PACKAGE_SIZE
  }

  ghost predicate Framed(fs: seq<seq<Byte>>) {
    forall i :: 0 <= i < |fs| ==> IsFrame(fs[i]) || IsEndless(fs[i])
  }

  /** The number of frames before the first piece that is none. */
  ghost function Leading(fs: seq<seq<Byte>>): (k: nat)
    ensures k <= |fs| && (forall i :: 0 <= i < k ==> IsFrame(fs[i])) && (k < |fs| ==> !IsFrame(fs[k]))
  {
    if fs == [] || !IsFrame(fs[0]) then 0 else 1 + Leading(fs[1..])
  }

  /** The first k pieces, one after the other. */
  ghost function Joined(fs: seq<seq<Byte>>, k: nat): seq<Byte>
    requires k <= |fs|
  {
    if k == 0 then [] else Joined(fs, k - 1) + fs[k - 1]
  }

  ghost function Stream(fs: seq<seq<Byte>>): seq<Byte> {
    Joined(fs, |fs|)
  }

  ghost function Position(fs: seq<seq<Byte>>, k: nat): nat
    requires k <= |fs|
  {
    |Joined(fs, k)|
  }

  lemma {:induction false} JoinedPrefix(fs: seq<seq<Byte>>, k: nat, m: nat)
    requires k <= m <= |fs|
    ensures Position(fs, k) <= Position(fs, m) && Joined(fs, m)[..Position(fs, k)] == Joined(fs, k)
  {
    if k < m {
      JoinedPrefix(fs, k, m - 1);
      assert Joined(fs, m)[..Position(fs, k)] == Joined(fs, m - 1)[..Position(fs, k)];
    }
  }

  /** Piece k of the stream. */
  lemma PieceAt(fs: seq<seq<Byte>>, k: nat)
    requires k < |fs|
    ensures Position(fs, k + 1) == Position(fs, k) + |fs[k]| <= |Stream(fs)|
    ensures Stream(fs)[Position(fs, k)..Position(fs, k + 1)] == fs[k]
  {
    JoinedPrefix(fs, k + 1, |fs|);
    var p, q := Position(fs, k), Position(fs, k + 1);
    assert Stream(fs)[p..q] == Stream(fs)[..q][p..q];
    assert Joined(fs, k + 1)[p..q] == fs[k];
  }

  /** The frames that have arrived completely with the first n bytes, among the first k. */
  ghost function Complete(fs: seq<seq<Byte>>, k: nat, n: nat): (h: nat)
    requires k <= |fs|
    ensures h <= k
  {
    if k == 0 || Position(fs, k) <= n then k else Complete(fs, k - 1, n)
  }

  /** h is the number of complete frames when frame h has not arrived. */
  lemma {:induction false} CompleteIs(fs: seq<seq<Byte>>, k: nat, n: nat, h: nat)
    requires h <= k <= |fs| && Position(fs, h) <= n && (h == k || n < Position(fs, h + 1))
    ensures Complete(fs, k, n) == h
  {
    if h < k {
      JoinedPrefix(fs, h + 1, k);
      CompleteIs(fs, k - 1, n, h);
    }
  }

  lemma {:induction false} CompleteAtLeast(fs: seq<seq<Byte>>, k: nat, n: nat, h: nat)
    requires h <= k <= |fs| && Position(fs, h) <= n
    ensures h <= Complete(fs, k, n)
  {
    if h < k {
      CompleteAtLeast(fs, k - 1, n, h);
    }
  }

  /** What is left over is less than a frame, unless all of the first k pieces are complete. */
  lemma {:induction false} CompleteBounds(fs: seq<seq<Byte>>, k: nat, n: nat)
    requires k <= Leading(fs)
    ensures var h := Complete(fs, k, n);
      Position(fs, h) <= n && (h < k ==> n < Position(fs, h + 1) <= Position(fs, h) + PACKAGE_SIZE)
  {
    hide Joined, IsFrame, Leading;
    PositionZero(fs);
    if k != 0 && Position(fs, k) > n {
      CompleteBounds(fs, k - 1, n);
      if Complete(fs, k - 1, n) == k - 1 {
        FrameSize(fs, k - 1);
      }
    }
  }

  /** The frames handled when n bytes have arrived: those that are complete, before the first piece that is none. */
  ghost function Handled(fs: seq<seq<Byte>>, n: nat): (h: nat)
    ensures h <= Leading(fs) <= |fs|
  {
    Complete(fs, Leading(fs), n)
  }

  /** The header of the first piece that is no frame has arrived. */
  ghost predicate Blocked(fs: seq<seq<Byte>>, n: nat) {
    Leading(fs) < |fs| && Position(fs, Leading(fs)) + 3 <= n
  }

  lemma PositionZero(fs: seq<seq<Byte>>)
    ensures Position(fs, 0) == 0
  {
  }

  lemma FrameSize(fs: seq<seq<Byte>>, k: nat)
    requires k < Leading(fs)
    ensures Position(fs, k) + 6 <= Position(fs, k + 1) <= Position(fs, k) + PACKAGE_SIZE
  {
    assert IsFrame(fs[k]);
    PieceAt(fs, k);
  }

  // ---------- what the decoder makes of the frames ----------

  /** What the receiver learns from one frame: it decodes each into a cleared structure. */
  ghost function Heard(f: seq<Byte>): Outcome {
    Decode(Some(Fresh()), None, f)
  }

  ghost function Returns(fs: seq<seq<Byte>>, k: nat): (r: seq<Return>)
    requires k <= |fs|
    ensures |r| == k && forall i :: 0 <= i < k ==> r[i] == Heard(fs[i]).ret
  {
    seq(k, i requires 0 <= i < k => Heard(fs[i]).ret)
  }

  /**
   * The structure copied into the shared context after a frame. It is copied whatever the decoder answers;
   * after a decoding error its contents are not specified.
   */
  ghost function Kept(f: seq<Byte>): Option<ClockOrbitData> {
    if Heard(f).ret.Accepted() then Heard(f).co else None
  }

  ghost function Stored(fs: seq<seq<Byte>>, k: nat): (r: seq<Option<ClockOrbitData>>)
    requires k <= |fs|
    ensures |r| == k && forall i :: 0 <= i < k ==> r[i] == Kept(fs[i])
  {
    seq(k, i requires 0 <= i < k => Kept(fs[i]))
  }

  /** The frames among the first k that count as parse errors. */
  ghost function ParseErrors(fs: seq<seq<Byte>>, k: nat): nat
    requires k <= |fs|
  {
    if k == 0 then 0 else ParseErrors(fs, k - 1) + if Heard(fs[k - 1]).ret == Ok then 0 else 1
  }

  lemma {:induction false} ParseErrorsGrow(fs: seq<seq<Byte>>, k: nat, m: nat)
    requires k <= m <= |fs|
    ensures ParseErrors(fs, k) <= ParseErrors(fs, m)
  {
    hide Heard;
    if k < m {
      ParseErrorsGrow(fs, k, m - 1);
    }
  }
}
