// The encoder's blocks through the receiver: which of them it can frame, and what becomes of them.
module StreamTheorems {
  import opened Bits
  import opened SsrBlocks
  import opened SsrMessages
  import opened SsrDecoder
  import opened SsrRoundTrip
  import opened SsrLimits
  import opened SsrChains
  import opened Framing
  import opened FrameReceiver

  /** The receiver frames a block correctly exactly when its body has at most 505 bytes. */
  lemma FrameIffShort(blk: seq<Byte>, body: BitString)
    requires IsBlock(blk, body) && BodyLen(body) < 1024
    ensures IsFrame(blk) <==> BodyLen(body) <= 505
  {
    hide FrameLength, Announces, BitsOf, Pad, Crc24.Crc, Crc24.Join3;
    var n := BodyLen(body);
    HeaderAnnounces(blk[1], blk[2], n);
    LengthIsRight(blk[1], blk[2], n);
  }

  lemma HeaderAnnounces(b1: Byte, b2: Byte, n: nat)
    requires n < 1024 && b1 as nat == (n / 256) % 256 && b2 as nat == n % 256
    ensures Announces(b1, b2, n)
  {
  }

  /** The blocks of a chain, cut apart. */
  ghost function Blocks(out: seq<Byte>, bodies: seq<BitString>): (fs: seq<seq<Byte>>)
    requires IsChain(out, bodies)
    ensures |fs| == |bodies|
  {
    if |bodies| == 0 then [] else
      var cut := |out| - BlockLen(bodies[|bodies| - 1]);
      Blocks(out[..cut], bodies[..|bodies| - 1]) + [out[cut..]]
  }

  lemma {:induction false} BlocksJoin(out: seq<Byte>, bodies: seq<BitString>)
    requires IsChain(out, bodies)
    ensures Stream(Blocks(out, bodies)) == out
    ensures forall i :: 0 <= i < |bodies| ==> IsBlock(Blocks(out, bodies)[i], bodies[i])
    decreases |bodies|
  {
    hide IsBlock, BlockLen;
    if |bodies| > 0 {
      var cut := |out| - BlockLen(bodies[|bodies| - 1]);
      var fs := Blocks(out[..cut], bodies[..|bodies| - 1]);
      BlocksJoin(out[..cut], bodies[..|bodies| - 1]);
      JoinedOfPrefix(fs + [out[cut..]], fs, |fs|);
      assert out == out[..cut] + out[cut..];
    }
  }

  lemma {:induction false} JoinedOfPrefix(fs: seq<seq<Byte>>, gs: seq<seq<Byte>>, k: nat)
    requires k <= |gs| && gs <= fs
    ensures Joined(fs, k) == Joined(gs, k)
  {
    if k > 0 {
      JoinedOfPrefix(fs, gs, k - 1);
    }
  }

  // ---------- how many satellites the receiver can take ----------

  /** The most satellites a message can have for the receiver. */
  function Limit(k: Kind): nat {
    if k.HasOrbit() && k.HasClock() then 15 else if k.HasOrbit() then 20 else 32
  }

  /** Combined messages of up to 15 satellites and orbit messages of up to 20 fit; clock messages always do. */
  lemma SatellitesThatFit(c: ClockOrbitData, k: Kind, mmi: int)
    requires IsClockOrbit(c)
    ensures BodyLen(DraftBits(DraftOf(c, k), mmi)) <= 505 <==> k.Count(c) <= Limit(k)
    ensures k.Count(c) > Limit(k) ==> 512 <= BodyLen(DraftBits(DraftOf(c, k), mmi)) <= 1030
  {
    hide DraftBits, DraftOf, IsClockOrbit;
    BodySize(c, k, mmi);
    CountBound(c, k);
    CountLimit(c, k);
  }

  lemma LongHeader(b1: Byte, b2: Byte, n: nat)
    requires 512 <= n <= 1030 && b1 as nat == (n / 256) % 256 && b2 as nat == n % 256
    ensures FrameLength(b1, b2) > PACKAGE_SIZE
  {
    hide FrameLength;
    FrameLengthValue(b1, b2);
  }

  /** The receiver takes a block as a frame up to that limit; beyond it, its header makes the loop spin. */
  lemma BlockFramed(c: ClockOrbitData, k: Kind, mmi: int, blk: seq<Byte>)
    requires IsClockOrbit(c) && IsBlock(blk, DraftBits(DraftOf(c, k), mmi))
    ensures IsFrame(blk) <==> k.Count(c) <= Limit(k)
    ensures IsEndless(blk) <==> k.Count(c) > Limit(k)
  {
    hide FrameLength, DraftBits, DraftOf, IsClockOrbit, BitsOf, Pad, Crc24.Crc, Crc24.Join3;
    SatellitesThatFit(c, k, mmi);
    var n := BodyLen(DraftBits(DraftOf(c, k), mmi));
    if k.Count(c) <= Limit(k) {
      FrameIffShort(blk, DraftBits(DraftOf(c, k), mmi));
    } else {
      LongHeader(blk[1], blk[2], n);
    }
  }

  /**
   * On any block with more satellites than that, wherever it lies in the buffer, every turn of the loop is the same for
   * ever as soon as its header has arrived.
   */
  lemma LongBlockSpins(c: ClockOrbitData, k: Kind, mmi: int, blk: seq<Byte>, b: seq<Byte>, start: nat, end: nat)
    requires IsClockOrbit(c) && IsBlock(blk, DraftBits(DraftOf(c, k), mmi)) && k.Count(c) > Limit(k)
    requires start + 3 <= end <= |b| && |blk| >= 3 && b[start..start + 3] == blk[..3]
    ensures forall j: nat :: TurnAfter(b, start, end, j) == Again(start)
  {
    hide FrameLength, DraftBits, DraftOf, IsClockOrbit, IsBlock, TurnAfter;
    BlockFramed(c, k, mmi, blk);
    forall i | 0 <= i < 3
      ensures b[start + i] == blk[i]
    {
      assert b[start..start + 3][i] == blk[..3][i];
    }
    EndlessSpins(b, start, end, start);
  }

  // ---------- what becomes of the blocks ----------

  /** One correction message as the encoder sends it; more is its multiple-message bit. */
  datatype Sent = Sent(data: ClockOrbitData, kind: Kind, more: bool, block: seq<Byte>) {
    predicate Fits() {
      kind.Count(data) <= Limit(kind)
    }
  }

  function Bit(more: bool): int {
    if more then 1 else 0
  }

  /** The block MakeClockOrbit writes for the message. */
  ghost predicate WellSent(s: Sent) {
    IsClockOrbit(s.data) && IsBlock(s.block, DraftBits(DraftOf(s.data, s.kind), Bit(s.more)))
  }

  ghost function Wire(ms: seq<Sent>): (fs: seq<seq<Byte>>)
    ensures |fs| == |ms| && forall i :: 0 <= i < |ms| ==> fs[i] == ms[i].block
  {
    seq(|ms|, i requires 0 <= i < |ms| => ms[i].block)
  }

  ghost predicate AllWellSent(ms: seq<Sent>) {
    forall i :: 0 <= i < |ms| ==> WellSent(ms[i])
  }

  lemma WellSentData(ms: seq<Sent>)
    requires AllWellSent(ms)
    ensures forall i :: 0 <= i < |ms| ==> IsClockOrbit(ms[i].data)
  {
  }

  /** What was stored for a message is the expected structure exactly when the message survives its layout. */
  ghost predicate Right(stored: Option<ClockOrbitData>, data: ClockOrbitData, kind: Kind)
    requires IsClockOrbit(data)
  {
    stored == Some(Expected(data, kind)) <==> Intact(data, kind)
  }

  /** Exactly the first h messages are stored, in order. */
  ghost predicate Delivered(stored: seq<Option<ClockOrbitData>>, ms: seq<Sent>, h: nat)
    requires AllWellSent(ms)
  {
    |stored| == h <= |ms| && forall i :: 0 <= i < h ==> Right(stored[i], ms[i].data, ms[i].kind)
  }

  /** How many of the first k messages announce another one. */
  ghost function Announcing(ms: seq<Sent>, k: nat): nat
    requires k <= |ms|
  {
    if k == 0 then 0 else Announcing(ms, k - 1) + if ms[k - 1].more then 1 else 0
  }

  /** The number of messages before the first one with too many satellites for the receiver. */
  ghost function Fitting(ms: seq<Sent>): (k: nat)
    ensures k <= |ms| && (forall i :: 0 <= i < k ==> ms[i].Fits()) && (k < |ms| ==> !ms[k].Fits())
  {
    if ms == [] || !ms[0].Fits() then 0 else 1 + Fitting(ms[1..])
  }

  lemma OneDelivered(m: Sent)
    requires WellSent(m)
    ensures IsFrame(m.block) <==> m.Fits()
    ensures IsEndless(m.block) <==> !m.Fits()
    ensures m.Fits() ==> Heard(m.block).ret == Accept(Bit(m.more)) && Right(Kept(m.block), m.data, m.kind)
  {
    hide Expected, IsClockOrbit, DraftBits, DraftOf, IsFrame, IsEndless, IsBlock, Decode, Intact;
    BlockFramed(m.data, m.kind, Bit(m.more), m.block);
    BlockExact(m.data, m.kind, Bit(m.more), m.block, [], None);
    assert m.block + [] == m.block;
  }

  /**
   * A stream of blocks: those before the first one with too many satellites are frames. Each of them is stored, in
   * the order sent, as the correction it was made from if and only if that is intact, and the ones that announce
   * another message, and only those, are counted as parse errors.
   */
  lemma {:induction false} AllDelivered(ms: seq<Sent>, k: nat)
    requires k <= Fitting(ms) && AllWellSent(ms)
    ensures Framed(Wire(ms)) && Leading(Wire(ms)) == Fitting(ms)
    ensures ParseErrors(Wire(ms), k) == Announcing(ms, k) && Delivered(Stored(Wire(ms), k), ms, k)
  {
    hide Heard, Kept, Right, WellSent, IsFrame, IsEndless, Leading, Fitting, Sent.Fits;
    WellSentData(ms);
    forall i | 0 <= i < |ms|
      ensures IsFrame(Wire(ms)[i]) <==> ms[i].Fits()
      ensures IsEndless(Wire(ms)[i]) <==> !ms[i].Fits()
      ensures ms[i].Fits() ==> Right(Kept(Wire(ms)[i]), ms[i].data, ms[i].kind)
    {
      OneDelivered(ms[i]);
    }
    if k > 0 {
      AllDelivered(ms, k - 1);
      OneDelivered(ms[k - 1]);
    }
  }

  /** The messages that have arrived completely with the first n bytes, before the first one that is too long. */
  ghost function Arrived(ms: seq<Sent>, n: nat): (h: nat)
    ensures h <= Fitting(ms)
  {
    Complete(Wire(ms), Fitting(ms), n)
  }

  /** The header of the first message that is too long has arrived. */
  ghost predicate HeaderOfLong(ms: seq<Sent>, n: nat) {
    Fitting(ms) < |ms| && Position(Wire(ms), Fitting(ms)) + 3 <= n
  }

  /**
   * The encoder's blocks, for any corrections, received over a connection in any chunks. The connection is dropped
   * exactly when five of the messages that arrived announce another one, at the fifth; otherwise the loop spins for
   * ever exactly when the header of a message with too many satellites arrived; otherwise it waits for more. What was
   * stored until then is right.
   */
  method ReceiverPublishes(r: Receiver, chunks: seq<seq<Byte>>, ghost ms: seq<Sent>)
    returns (reset: bool, stuck: bool, ghost h: nat)
    requires r.Shaped() && r.start == r.end == 0 && r.parse_error_time == 0 && r.answers == [] && r.stored == []
    requires AllWellSent(ms) && forall i :: 0 <= i < |chunks| ==> 1 <= |chunks[i]| <= PACKAGE_SIZE
    requires Stream(chunks) <= Stream(Wire(ms))
    modifies r, r.buffer, r.clockorbit
    ensures var n := |Stream(chunks)|;
      && (reset <==> Announcing(ms, Arrived(ms, n)) >= 5)
      && (stuck <==> !reset && HeaderOfLong(ms, n))
      && (!reset ==> h == Arrived(ms, n))
    ensures Delivered(r.stored, ms, h)
    ensures reset ==> 0 < h && Announcing(ms, h) == 5 && ms[h - 1].more
    ensures stuck ==> h == Fitting(ms) < |ms| && !ms[h].Fits() && 0 <= r.start && 0 <= r.end
    ensures stuck ==> forall j: nat :: TurnAfter(r.buffer[..], r.start, r.end, j) == Again(r.start)
  {
    hide *;
    ghost var fs, n := Wire(ms), |Stream(chunks)|;
    StreamFacts(ms, n);
    ghost var m;
    reset, stuck, h, m := r.Receive(chunks, fs);
    if reset {
      DroppedFacts(r, ms, m, h);
    } else if stuck {
      StuckFacts(r, ms, m);
      LongArrived(ms, n);
    }
    StoredRight(ms, h);
  }

  lemma StreamFacts(ms: seq<Sent>, n: nat)
    requires AllWellSent(ms)
    ensures Framed(Wire(ms)) && Leading(Wire(ms)) == Fitting(ms)
    ensures Handled(Wire(ms), n) == Arrived(ms, n) && (Blocked(Wire(ms), n) <==> HeaderOfLong(ms, n))
    ensures ParseErrors(Wire(ms), Arrived(ms, n)) == Announcing(ms, Arrived(ms, n))
  {
    hide Heard, WellSent, IsFrame, IsEndless, Joined, Leading, Fitting, Framed, Delivered;
    AllDelivered(ms, Arrived(ms, n));
  }

  lemma StoredRight(ms: seq<Sent>, h: nat)
    requires AllWellSent(ms) && h <= Fitting(ms)
    ensures h <= |ms| && Delivered(Stored(Wire(ms), h), ms, h)
  {
    hide Heard, WellSent, IsFrame, IsEndless, Leading, Fitting, Framed, Delivered, ParseErrors;
    AllDelivered(ms, h);
  }

  lemma DroppedFacts(r: Receiver, ms: seq<Sent>, m: nat, h: nat)
    requires AllWellSent(ms) && r.Dropped(Wire(ms), m, h)
    ensures 0 < h <= Fitting(ms) && Announcing(ms, h) == 5 && ms[h - 1].more
  {
    hide Heard, WellSent, IsFrame, IsEndless, Joined, Leading, Fitting, Framed, Delivered, ParseErrors, Returns, Stored;
    AllDelivered(ms, 0);
    AllDelivered(ms, h);
    AllDelivered(ms, h - 1);
  }

  lemma LongArrived(ms: seq<Sent>, n: nat)
    requires HeaderOfLong(ms, n)
    ensures Arrived(ms, n) == Fitting(ms)
  {
    hide Joined, Fitting;
  }

  lemma StuckFacts(r: Receiver, ms: seq<Sent>, m: nat)
    requires AllWellSent(ms) && r.Stuck(Wire(ms), m)
    ensures Fitting(ms) < |ms| && !ms[Fitting(ms)].Fits()
    ensures 0 <= r.start && 0 <= r.end
    ensures forall j: nat :: TurnAfter(r.buffer[..], r.start, r.end, j) == Again(r.start)
  {
    hide Heard, WellSent, IsFrame, IsEndless, Joined, Leading, Fitting, Framed, Delivered, TurnAfter, Returns, Stored;
    AllDelivered(ms, 0);
  }

  // ---------- chains ----------

  /** The blocks of the chain made for c, as messages. */
  ghost function ChainSent(c: ClockOrbitData, number: int, more: bool, fs: seq<seq<Byte>>): (ms: seq<Sent>)
    requires IsClockOrbit(c) && |fs| == |Plan(c, number)|
    ensures |ms| == |fs|
    ensures forall i :: 0 <= i < |fs| ==> ms[i] == Sent(c, PlannedKind(c, number, i), i + 1 < |fs| || more, fs[i])
  {
    hide Plan, PlannedKind, IsClockOrbit;
    seq(|fs|, i requires 0 <= i < |fs| => Sent(c, PlannedKind(c, number, i), i + 1 < |fs| || more, fs[i]))
  }

  /**
   * A chain sent for one correction is such a stream of messages: they are framed up to the first whose kind has too
   * many satellites, and of those all but the last of the chain are counted as parse errors, and the last too if more
   * is announced. They are nevertheless stored, each overwriting the one before.
   */
  lemma ChainsAreMostlyRefused(c: ClockOrbitData, number: int, more: bool, out: seq<Byte>, k: nat)
    requires IsClockOrbit(c)
    requires IsChain(out, Bodies(Plan(c, number), |Plan(c, number)|, more))
    requires k <= Fitting(ChainSent(c, number, more, Blocks(out, Bodies(Plan(c, number), |Plan(c, number)|, more))))
    ensures var fs := Blocks(out, Bodies(Plan(c, number), |Plan(c, number)|, more));
      var ms := ChainSent(c, number, more, fs);
      && AllWellSent(ms) && Wire(ms) == fs && Stream(fs) == out
      && (Leading(fs) == |fs| <==> forall i :: 0 <= i < |fs| ==>
            PlannedKind(c, number, i).Count(c) <= Limit(PlannedKind(c, number, i)))
      && ParseErrors(fs, k) == (if k > 0 && k == |fs| && !more then k - 1 else k)
      && Delivered(Stored(fs, k), ms, k)
  {
    hide IsClockOrbit, Plan, Bodies, Heard, Kept, Blocks, IsChain, IsBlock, PlannedKind, Right, DraftBits, DraftOf,
      Fitting, Leading, Limit;
    var plan := Plan(c, number);
    var bodies := Bodies(plan, |plan|, more);
    var fs := Blocks(out, bodies);
    var ms := ChainSent(c, number, more, fs);
    BlocksJoin(out, bodies);
    assert Wire(ms) == fs;
    AllDelivered(ms, k);
    AnnouncingChain(ms, more, k);
  }

  lemma {:induction false} AnnouncingChain(ms: seq<Sent>, more: bool, k: nat)
    requires k <= |ms| && forall i :: 0 <= i < |ms| ==> ms[i].more == (i + 1 < |ms| || more)
    ensures Announcing(ms, k) == if k > 0 && k == |ms| && !more then k - 1 else k
  {
    if k > 0 {
      AnnouncingChain(ms, more, k - 1);
    }
  }
}
