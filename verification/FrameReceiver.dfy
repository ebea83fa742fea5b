// The receive, frame and parse loop of xihe_handle in iwise_net_xihe_module.c, over the buffer of iwise_pool.c.
module FrameReceiver {
  import opened Bits
  import opened SsrMessages
  import opened SsrDecoder
  import opened SsrRoundTrip
  import opened Framing

  class Receiver {
    const buffer: array<Byte>
    const clockorbit: ClockOrbit
    var start: int
    var end: int
    var parse_error_time: int
    ghost var answers: seq<Return>
    ghost var stored: seq<Option<ClockOrbitData>>

    ghost predicate Shaped()
      reads this, buffer
    {
      buffer.Length == MAX_BUFFER && 0 <= start <= end <= MAX_BUFFER
    }

    /** n bytes of the stream have arrived, h frames are handled, the rest waits between start and end. */
    ghost predicate Pending(fs: seq<seq<Byte>>, n: nat, h: nat)
      reads this, buffer
    {
      && Shaped() && Framed(fs)
      && h <= Leading(fs) && Position(fs, h) <= n <= |Stream(fs)|
      && buffer[start..end] == Stream(fs)[Position(fs, h)..n]
      && parse_error_time == ParseErrors(fs, h) <= 4
      && answers == Returns(fs, h) && stored == Stored(fs, h)
    }

    /** As Pending, every complete frame is handled, and there is room for the largest recv. */
    ghost predicate Idle(fs: seq<seq<Byte>>, n: nat)
      reads this, buffer
    {
      Pending(fs, n, Handled(fs, n)) && !Blocked(fs, n) && end + PACKAGE_SIZE <= MAX_BUFFER
    }

    /** All frames before the first piece that is none are handled, and every further turn of the loop is the same. */
    ghost predicate Stuck(fs: seq<seq<Byte>>, n: nat)
      reads this, buffer
    {
      && Pending(fs, n, Leading(fs)) && Blocked(fs, n)
      && forall k: nat :: TurnAfter(buffer[..], start, end, k) == Again(start)
    }

    /** Five frames were refused: everything buffered is dropped. */
    ghost predicate Dropped(fs: seq<seq<Byte>>, n: nat, h: nat)
      reads this, buffer
    {
      && Shaped() && start == end == 0 && parse_error_time == 0
      && 0 < h <= Leading(fs) && Position(fs, h) <= n <= |Stream(fs)|
      && ParseErrors(fs, h - 1) == 4 && ParseErrors(fs, h) == 5
      && answers == Returns(fs, h) && stored == Stored(fs, h)
    }

    constructor ()
      ensures Idle([], 0) && fresh(buffer) && fresh(clockorbit)
      ensures start == end == 0 && parse_error_time == 0 && answers == [] && stored == []
    {
      buffer := new Byte[MAX_BUFFER];
      clockorbit := new ClockOrbit();
      start, end, parse_error_time := 0, 0, 0;
      answers, stored := [], [];
      new;
      hide Heard, IsFrame;
      assert buffer[start..end] == Stream([])[0..0];
    }

    /** iwise_pool_compress: make room by moving what is pending to the front. */
    method Compress()
      requires Shaped()
      modifies this`start, this`end, buffer
      ensures Shaped() && buffer[start..end] == old(buffer[start..end])
      ensures if old(end) + PACKAGE_SIZE > MAX_BUFFER then start == 0 else start == old(start)
    {
      if MAX_BUFFER - end < PACKAGE_SIZE {
        forall i | 0 <= i < end - start {
          buffer[i] := buffer[start + i];
        }
        end := end - start;
        start := 0;
      }
    }

    /** memset(&clockorbit, 0, sizeof(iwise_clockorbit_t)) */
    method Clear()
      modifies clockorbit
      ensures clockorbit.View() == Fresh()
    {
      clockorbit.GPSEpochTime, clockorbit.GLONASSEpochTime := 0, 0;
      clockorbit.NumberOfGPSSat, clockorbit.NumberOfGLONASSSat := 0, 0;
      clockorbit.ClockDataSupplied, clockorbit.OrbitDataSupplied := false, false;
      clockorbit.epochGPS, clockorbit.epochSize := seq(101, _ => 0), 0;
      clockorbit.SatRefPoint, clockorbit.SatRefDatum := 0, 0;
      clockorbit.Sat := seq(NUMGPS + NUMGLONASS, _ => NO_SAT);
    }

    /** Skip to the first preamble; the loop looks at the byte at end too, and fails where that is outside the array. */
    method Seek() returns (inside: bool)
      requires Shaped()
      modifies this`start
      ensures 0 <= start
      ensures SeekFrom(buffer[..], old(start), end) == if inside then Some(start) else None
    {
      ghost var b := buffer[..];
      while start <= end
        invariant 0 <= start <= end + 1 && SeekFrom(b, start, end) == SeekFrom(b, old(start), end)
        decreases end - start
      {
        if start == MAX_BUFFER {
          return false;
        }
        if buffer[start] == 0xD3 {
          break;
        }
        start := start + 1;
      }
      return true;
    }

    /** One turn of the frame loop up to the decision, on any data. */
    method TakeTurn() returns (t: Turn)
      requires Shaped()
      modifies this`start
      ensures t == NextTurn(buffer[..], old(start), end)
      ensures !t.Outside? ==> start == t.start
    {
      hide FrameLength, SeekFrom;
      if end - start < 3 {
        return Wait(start);
      }
      var inside := Seek();
      if !inside || start + 2 >= MAX_BUFFER {
        return Outside;
      }
      var length := FrameLength(buffer[start + 1], buffer[start + 2]);
      if length > PACKAGE_SIZE {
        return Again(start);
      }
      if end - start < length {
        return Wait(start);
      }
      return Frame(start, length);
    }

    /** The header of the next piece, once three bytes are there. */
    lemma NextHeader(fs: seq<seq<Byte>>, n: nat, h: nat)
      requires Pending(fs, n, h) && end - start >= 3
      ensures h < |fs| && |fs[h]| >= 3 && end - start == n - Position(fs, h)
      ensures buffer[start] == fs[h][0] == 0xD3 && buffer[start + 1] == fs[h][1] && buffer[start + 2] == fs[h][2]
      ensures Position(fs, h + 1) == Position(fs, h) + |fs[h]| <= |Stream(fs)|
    {
      hide Joined, Heard, FrameLength, Returns, Stored;
      var p, s := Position(fs, h), Stream(fs);
      assert |buffer[start..end]| == n - p;
      assert h < |fs|;
      assert IsFrame(fs[h]) || IsEndless(fs[h]);
      PieceAt(fs, h);
      forall i | 0 <= i < 3
        ensures buffer[start + i] == fs[h][i]
      {
        assert buffer[start..end][i] == s[p..n][i] == s[p + i];
        assert s[p..Position(fs, h + 1)][i] == s[p + i];
      }
    }

    /** Where a complete frame lies. */
    lemma NextFrame(fs: seq<seq<Byte>>, n: nat, h: nat)
      requires Pending(fs, n, h) && h < Leading(fs) && Position(fs, h + 1) <= n
      ensures start + |fs[h]| <= end && buffer[start..start + |fs[h]|] == fs[h]
      ensures buffer[start + |fs[h]|..end] == Stream(fs)[Position(fs, h + 1)..n]
    {
      hide Joined, Heard, IsFrame;
      var p, q, s := Position(fs, h), Position(fs, h + 1), Stream(fs);
      PieceAt(fs, h);
      var pending := buffer[start..end];
      assert |pending| == n - p;
      assert pending[..q - p] == s[p..n][..q - p] == s[p..q];
      assert pending[q - p..] == s[p..n][q - p..] == s[q..n];
      assert buffer[start..start + |fs[h]|] == pending[..q - p];
      assert buffer[start + |fs[h]|..end] == pending[q - p..];
    }

    /** Decode the complete frame at start; the fifth parse error drops the connection and the buffer. */
    method HandleFrame(length: int, ghost fs: seq<seq<Byte>>, ghost n: nat, ghost h: nat) returns (reset: bool)
      requires Pending(fs, n, h) && h < Leading(fs) && Position(fs, h + 1) <= n && length == |fs[h]|
      modifies this, clockorbit
      ensures !reset ==> Pending(fs, n, h + 1) && start == old(start) + length && end == old(end)
      ensures reset ==> Dropped(fs, n, h + 1)
    {
      hide Heard, IsFrame, IsEndless, Leading, FrameLength, Fresh, Joined, Returns, Stored, ParseErrors;
      NextFrame(fs, n, h);
      NextHandled(fs, h);
      ghost var frame := fs[h];
      Clear();
      var ret, bytesused := Decoded(frame, length);
      start := start + length;
      answers := answers + [ret];
      stored := stored + [if ret.Accepted() then Some(clockorbit.View()) else None];
      if ret != Ok {
        parse_error_time := parse_error_time + 1;
        if parse_error_time > 4 {
          parse_error_time := 0;
          start := 0;
          end := 0;
          return true;
        }
      }
      return false;
    }

    /** One more frame handled. */
    static lemma NextHandled(fs: seq<seq<Byte>>, h: nat)
      requires h < |fs|
      ensures Returns(fs, h + 1) == Returns(fs, h) + [Heard(fs[h]).ret]
      ensures Stored(fs, h + 1) == Stored(fs, h) + [Kept(fs[h])]
      ensures ParseErrors(fs, h + 1) == ParseErrors(fs, h) + if Heard(fs[h]).ret == Ok then 0 else 1
    {
      hide Heard;
    }

    /** The call of GetClockOrbitBias on the frame. */
    method Decoded(ghost frame: seq<Byte>, length: int) returns (ret: Return, bytesused: int)
      requires Shaped() && 0 <= length && start + length <= end && buffer[start..start + length] == frame
      requires clockorbit.View() == Fresh()
      modifies clockorbit
      ensures ret == Heard(frame).ret
      ensures ret.Accepted() ==> Heard(frame).co == Some(clockorbit.View())
    {
      hide Fresh, Decode, ClockOrbit.View;
      ret, bytesused := GetClockOrbitBias(clockorbit, null, buffer, start, length);
    }

    /** What a turn finds: the next frame, or the header of a piece that is no frame, or too little. */
    lemma TurnOnFrames(fs: seq<seq<Byte>>, n: nat, h: nat)
      requires Pending(fs, n, h)
      ensures NextTurn(buffer[..], start, end) ==
        if h < Leading(fs) && Position(fs, h + 1) <= n then Frame(start, |fs[h]|)
        else if h == Leading(fs) && Blocked(fs, n) then Again(start)
        else Wait(start)
    {
      hide Heard, FrameLength, Joined, Returns, Stored, Leading;
      PendingSize(fs, n, h);
      if h < Leading(fs) {
        FrameSize(fs, h);
        PieceAt(fs, h);
      }
      if end - start >= 3 {
        NextHeader(fs, n, h);
        SeekStopsAt(start);
        assert IsFrame(fs[h]) || IsEndless(fs[h]);
      }
    }

    /** The turn on such a stream: start is kept, and the loop spins exactly on the first piece that is no frame. */
    method Measure(ghost fs: seq<seq<Byte>>, ghost n: nat, ghost h: nat) returns (t: Turn)
      requires Pending(fs, n, h)
      modifies this`start
      ensures Pending(fs, n, h) && start == old(start)
      ensures t.Frame? ==>
        h < Leading(fs) && Position(fs, h + 1) <= n && t.length == |fs[h]| && 6 <= t.length <= end - start
      ensures t.Again? ==> h == Leading(fs) && Stuck(fs, n)
      ensures t.Wait? ==> h == Handled(fs, n) && !Blocked(fs, n)
      ensures !t.Outside?
    {
      hide Heard, FrameLength, Joined, IsFrame, IsEndless, NextTurn, TurnAfter, Complete, Leading, Returns, Stored;
      TurnOnFrames(fs, n, h);
      PendingSize(fs, n, h);
      if h < Leading(fs) {
        FrameSize(fs, h);
        PieceAt(fs, h);
      }
      t := TakeTurn();
      if t.Again? {
        SpinsHere(fs, n);
      } else if t.Wait? {
        CompleteIs(fs, Leading(fs), n, h);
        if h < Leading(fs) {
          NotBlocked(fs, n, h);
        }
      }
    }

    lemma SpinsHere(fs: seq<seq<Byte>>, n: nat)
      requires Pending(fs, n, Leading(fs)) && Blocked(fs, n)
      ensures forall k: nat :: TurnAfter(buffer[..], start, end, k) == Again(start)
    {
      hide Heard, FrameLength, Joined, Returns, Stored, Leading, TurnAfter;
      var h := Leading(fs);
      PendingSize(fs, n, h);
      NextHeader(fs, n, h);
      assert IsEndless(fs[h]);
      EndlessSpins(buffer[..], start, end, start);
    }

    static lemma NotBlocked(fs: seq<seq<Byte>>, n: nat, h: nat)
      requires h < Leading(fs) && n < Position(fs, h + 1)
      ensures !Blocked(fs, n)
    {
      hide Joined, Leading;
      JoinedPrefix(fs, h + 1, Leading(fs));
    }

    lemma PendingSize(fs: seq<seq<Byte>>, n: nat, h: nat)
      requires Pending(fs, n, h)
      ensures end - start == n - Position(fs, h)
    {
      hide Heard, Joined, IsFrame, Returns, Stored;
      assert |buffer[start..end]| == n - Position(fs, h);
    }

    lemma SeekStopsAt(at: nat)
      requires Shaped() && at < end && buffer[at] == 0xD3
      ensures SeekFrom(buffer[..], at, end) == Some(at)
    {
    }

    /**
     * The inner loop: handle every complete frame. Where the code goes round for ever the model returns; the state
     * then is Stuck.
     */
    method Parse(ghost fs: seq<seq<Byte>>, ghost n: nat, ghost h0: nat)
      returns (reset: bool, stuck: bool, ghost h: nat)
      requires Pending(fs, n, h0)
      modifies this, clockorbit
      ensures !(reset && stuck)
      ensures !reset && !stuck ==> Pending(fs, n, h) && h == Handled(fs, n) && !Blocked(fs, n)
      ensures reset ==> Dropped(fs, n, h)
      ensures stuck ==> Stuck(fs, n) && h == Leading(fs)
    {
      hide *;
      h := h0;
      reset, stuck := false, false;
      while true
        invariant Pending(fs, n, h) && !reset && !stuck
        decreases end - start
      {
        var t := Measure(fs, n, h);
        if t.Again? {
          stuck := true;
          break;
        }
        if t.Wait? {
          break;
        }
        if t.Frame? {
          reset := HandleFrame(t.length, fs, n, h);
          h := h + 1;
          if reset {
            break;
          }
        }
      }
    }

    /** recv puts the chunk behind what is pending. */
    method Recv(chunk: seq<Byte>, ghost fs: seq<seq<Byte>>, ghost n: nat, ghost h: nat)
      requires Pending(fs, n, h) && end + |chunk| <= MAX_BUFFER
      requires n + |chunk| <= |Stream(fs)| && chunk == Stream(fs)[n..n + |chunk|]
      modifies this`end, buffer
      ensures Pending(fs, n + |chunk|, h)
    {
      hide Heard, IsFrame, Joined;
      ghost var waiting := buffer[start..end];
      forall i | 0 <= i < |chunk| {
        buffer[end + i] := chunk[i];
      }
      end := end + |chunk|;
      assert buffer[start..end] == waiting + chunk;
      ghost var p, m := Position(fs, h), n + |chunk|;
      assert Stream(fs)[p..m] == Stream(fs)[p..n] + Stream(fs)[n..m];
    }

    /** One turn of the outer loop: receive a chunk, handle the frames it completes, make room for the next. */
    method HandleChunk(chunk: seq<Byte>, ghost fs: seq<seq<Byte>>, ghost n: nat)
      returns (reset: bool, stuck: bool, ghost h: nat)
      requires Idle(fs, n) && 1 <= |chunk| <= PACKAGE_SIZE
      requires n + |chunk| <= |Stream(fs)| && chunk == Stream(fs)[n..n + |chunk|]
      modifies this, buffer, clockorbit
      ensures !(reset && stuck)
      ensures !reset && !stuck ==> Idle(fs, n + |chunk|)
      ensures reset ==> Dropped(fs, n + |chunk|, h)
      ensures stuck ==> Stuck(fs, n + |chunk|) && h == Leading(fs)
    {
      hide Heard, IsFrame, Joined, Shaped, ParseErrors, Returns, Stored, Framed, Leading, TurnAfter;
      h := Handled(fs, n);
      Recv(chunk, fs, n, h);
      reset, stuck, h := Parse(fs, n + |chunk|, h);
      if !stuck {
        MakeRoom(reset, fs, n + |chunk|, h);
      }
    }

    method MakeRoom(ghost reset: bool, ghost fs: seq<seq<Byte>>, ghost n: nat, ghost h: nat)
      requires if reset then Dropped(fs, n, h) else Pending(fs, n, h) && h == Handled(fs, n) && !Blocked(fs, n)
      modifies this`start, this`end, buffer
      ensures if reset then Dropped(fs, n, h) else Idle(fs, n)
    {
      hide Heard, IsFrame, Joined, Complete, ParseErrors, Returns, Stored, Framed, Leading;
      if !reset {
        LittleLeft(fs, n);
        PendingSize(fs, n, h);
      }
      Compress();
    }

    static lemma LittleLeft(fs: seq<seq<Byte>>, n: nat)
      requires !Blocked(fs, n) && n <= |Stream(fs)|
      ensures n < Position(fs, Handled(fs, n)) + PACKAGE_SIZE
    {
      hide IsFrame, Joined, Leading;
      CompleteBounds(fs, Leading(fs), n);
    }

    /**
     * A connection: chunk by chunk, until five frames have been refused or the loop spins for ever, on any stream of
     * frames and pieces that announce too much. What is handed to the decoder, in what order and with what result
     * depends on the bytes received, never on how recv split them; m bytes have been received at the end.
     */
    method Receive(chunks: seq<seq<Byte>>, ghost fs: seq<seq<Byte>>)
      returns (reset: bool, stuck: bool, ghost h: nat, ghost m: nat)
      requires Shaped() && start == end == 0 && parse_error_time == 0 && answers == [] && stored == []
      requires Framed(fs) && forall i :: 0 <= i < |chunks| ==> 1 <= |chunks[i]| <= PACKAGE_SIZE
      requires Stream(chunks) <= Stream(fs)
      modifies this, buffer, clockorbit
      ensures m <= |Stream(chunks)|
      ensures reset <==> ParseErrors(fs, Handled(fs, |Stream(chunks)|)) >= 5
      ensures stuck <==> !reset && Blocked(fs, |Stream(chunks)|)
      ensures reset ==> Dropped(fs, m, h)
      ensures stuck ==> Stuck(fs, m)
      ensures !reset && !stuck ==> Idle(fs, m) && m == |Stream(chunks)|
      ensures !reset ==> h == Handled(fs, |Stream(chunks)|)
      ensures answers == Returns(fs, h) && stored == Stored(fs, h)
    {
      hide Heard, IsFrame, Joined, FrameLength, Leading, Framed, TurnAfter;
      Nothing(fs);
      PositionZero(chunks);
      reset, stuck, m := false, false, 0;
      for i := 0 to |chunks|
        invariant m == Position(chunks, i) && Idle(fs, m)
      {
        ChunkAt(chunks, i, fs);
        reset, stuck, h := HandleChunk(chunks[i], fs, m);
        m := m + |chunks[i]|;
        if reset {
          TooMany(fs, m, |Stream(chunks)|, h);
          return;
        }
        if stuck {
          StaysBlocked(fs, m, |Stream(chunks)|);
          return;
        }
      }
      h := Handled(fs, m);
    }

    static lemma StaysBlocked(fs: seq<seq<Byte>>, n: nat, m: nat)
      requires Blocked(fs, n) && n <= m
      ensures Blocked(fs, m) && Handled(fs, m) == Leading(fs)
    {
      hide Joined, Leading;
    }

    lemma Nothing(fs: seq<seq<Byte>>)
      requires Shaped() && start == end == 0 && parse_error_time == 0 && answers == [] && stored == []
      requires Framed(fs)
      ensures Idle(fs, 0)
    {
      hide Heard, FrameLength, Joined;
      PositionZero(fs);
      if Leading(fs) > 0 {
        FrameSize(fs, 0);
        NotBlocked(fs, 0, 0);
      }
      CompleteIs(fs, Leading(fs), 0, 0);
      assert buffer[start..end] == Stream(fs)[0..0];
    }

    lemma ChunkAt(chunks: seq<seq<Byte>>, i: nat, fs: seq<seq<Byte>>)
      requires i < |chunks| && Stream(chunks) <= Stream(fs)
      ensures Position(chunks, i + 1) == Position(chunks, i) + |chunks[i]| <= |Stream(chunks)| <= |Stream(fs)|
      ensures Stream(fs)[Position(chunks, i)..Position(chunks, i + 1)] == chunks[i]
    {
      hide Joined;
      PieceAt(chunks, i);
      var p, q := Position(chunks, i), Position(chunks, i + 1);
      assert Stream(fs)[..|Stream(chunks)|][p..q] == Stream(fs)[p..q];
    }

    lemma TooMany(fs: seq<seq<Byte>>, n: nat, m: nat, h: nat)
      requires Dropped(fs, n, h) && n <= m <= |Stream(fs)|
      ensures ParseErrors(fs, Handled(fs, m)) >= 5
    {
      hide Heard, Joined, Leading;
      CompleteAtLeast(fs, Leading(fs), m, h);
      ParseErrorsGrow(fs, h, Handled(fs, m));
    }
  }
}
