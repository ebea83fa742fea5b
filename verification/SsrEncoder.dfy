// MakeClockOrbit and MakeBias: the selected messages written as a chain of blocks.
module SsrEncoder {
  import opened Bits
  import opened BitStreams
  import opened SsrBlocks
  import opened SsrMessages

  // ---------- one message ----------

  ghost predicate Narrow(fs: seq<Field>) {
    forall k :: 0 <= k < |fs| ==> fs[k].width <= 24
  }

  ghost predicate NarrowDraft(d: Draft) {
    d.epochBits <= 24 && forall i :: 0 <= i < |d.groups| ==> Narrow(d.groups[i])
  }

  lemma LengthTooShort(start: nat, limit: nat, part: nat, whole: nat)
    requires start + 3 + part / 8 > limit && part <= whole
    ensures start + 3 + (whole + 7) / 8 > limit
  {
  }

  lemma {:induction false} GroupsGrow(gs: seq<seq<Field>>, i: nat)
    requires i <= |gs|
    ensures |GroupBits(gs[..i])| <= |GroupBits(gs)|
    decreases |gs|
  {
    hide FieldBits;
    if i < |gs| {
      var gs' := gs[..|gs| - 1];
      GroupsGrow(gs', i);
      assert gs'[..i] == gs[..i];
    } else {
      assert gs[..i] == gs;
    }
  }

  lemma NoGroupBits(gs: seq<seq<Field>>, head: BitString)
    ensures head + GroupBits(gs[..0]) == head
  {
  }

  lemma NextGroupBits(gs: seq<seq<Field>>, i: nat)
    requires i < |gs|
    ensures GroupBits(gs[..i + 1]) == GroupBits(gs[..i]) + FieldBits(gs[i])
  {
    hide FieldBits;
    assert gs[..i + 1][..i] == gs[..i];
  }

  /** The satellite loop of a message; `done` is everything before the block at start. */
  method WriteSats(w: BitWriter, gs: seq<seq<Field>>, ghost done: seq<Byte>, ghost start: nat, ghost head: BitString)
    returns (ok: bool)
    requires InBlock(w, done, start, head) && forall i :: 0 <= i < |gs| ==> Narrow(gs[i])
    modifies w, w.buffer
    ensures w.Consistent()
    ensures ok ==> InBlock(w, done, start, head + GroupBits(gs))
    ensures !ok ==> start + 3 + BodyLen(head + GroupBits(gs)) > w.limit
    ensures w.buffer[w.limit..] == old(w.buffer[w.limit..])
  {
    hide FieldBits, GroupBits;
    NoGroupBits(gs, head);

    for i := 0 to |gs|
      invariant InBlock(w, done, start, head + GroupBits(gs[..i]))
      invariant w.buffer[w.limit..] == old(w.buffer[w.limit..])
    {
      NextGroupBits(gs, i);
      StreamMoves(head, GroupBits(gs[..i]), FieldBits(gs[i]), GroupBits(gs[..i + 1]));
      ok := AddToBlock(w, gs[i], done, start, head + GroupBits(gs[..i]));
      if !ok {
        GroupsGrow(gs, i + 1);
        LengthTooShort(start, w.limit, |head + GroupBits(gs[..i + 1])|, |head + GroupBits(gs)|);
        return;
      }
    }
    assert gs[..|gs|] == gs;
    ok := true;
  }

  /** One message as a block. */
  method WriteMessage(w: BitWriter, d: Draft, mmi: int) returns (ok: bool)
    requires NarrowDraft(d) && w.Valid() && w.numbits == 0
    modifies w, w.buffer
    ensures w.Consistent()
    ensures var body := DraftBits(d, mmi);
      && (ok <==> old(w.ressize) + BlockLen(body) <= w.limit)
      && (ok ==> w.Valid() && w.numbits == 0 && w.ressize == old(w.ressize) + BlockLen(body))
      && (ok ==> w.buffer[..old(w.ressize)] == old(w.buffer[..w.ressize]))
      && (ok ==> IsBlock(w.buffer[old(w.ressize)..w.ressize], body))
    ensures w.buffer[w.limit..] == old(w.buffer[w.limit..])
  {
    hide FieldBits, InBlock, IsBlock, HeaderFields, GroupBits;
    ghost var done := w.buffer[..w.ressize];
    var start := w.ressize;
    var head := HeaderFields(d.number, d.epochBits, d.epoch, mmi, |d.groups|);
    ghost var body := DraftBits(d, mmi);
    ok := InitBlock(w);
    if !ok {
      return;
    }
    assert [] + FieldBits(head) == FieldBits(head);
    HeadNarrow(d.number, d.epochBits, d.epoch, mmi, |d.groups|);
    ok := AddToBlock(w, head, done, start, []);
    if !ok {
      LengthTooShort(start, w.limit, |FieldBits(head)|, |body|);
      return;
    }
    ok := WriteSats(w, d.groups, done, start, FieldBits(head));
    if !ok {
      return;
    }
    ok := EndBlock(w, start, done, body);
  }

  lemma HeadNarrow(number: int, epochBits: nat, epoch: int, mmi: int, count: int)
    requires epochBits <= 24
    ensures Narrow(HeaderFields(number, epochBits, epoch, mmi, count))
  {
  }

  // ---------- the chain ----------

  ghost predicate Written(w: BitWriter, bodies: seq<BitString>)
    reads w, w.buffer
  {
    w.Valid() && w.numbits == 0 && IsChain(w.buffer[..w.ressize], bodies)
  }

  /** if(flag) { INITBLOCK ... ENDBLOCK } with the running multiple-message counter. */
  method Stage(w: BitWriter, flag: bool, d: Draft, mmi: int, more: bool, ghost plan: seq<Draft>, ghost total: nat)
    returns (ok: bool, left: int)
    requires NarrowDraft(d) && Written(w, Bodies(plan, total, more))
    requires |plan| + (if flag then 1 else 0) <= total
    requires mmi == total - |plan| - (if more then 0 else 1)
    modifies w, w.buffer
    ensures w.Consistent()
    ensures var plan' := plan + Opt(flag, d);
      && (ok <==> ChainLen(Bodies(plan', total, more)) <= w.limit)
      && (ok ==> Written(w, Bodies(plan', total, more)))
      && left == total - |plan'| - (if more then 0 else 1)
    ensures w.buffer[w.limit..] == old(w.buffer[w.limit..])
  {
    hide FieldBits, IsBlock, IsChain, DraftBits, BlockLen;
    ghost var bodies := Bodies(plan, total, more);
    ChainLenIsLength(w.buffer[..w.ressize], bodies);
    if !flag {
      assert plan + Opt(flag, d) == plan;
      return true, mmi;
    }
    ghost var plan' := plan + [d];
    ghost var body := DraftBits(d, MoreBit(|plan|, total, more));
    assert Bodies(plan', total, more) == bodies + [body];
    assert (bodies + [body])[..|bodies|] == bodies;
    ghost var before := w.buffer[..w.ressize];
    ok := WriteMessage(w, d, if mmi != 0 then 1 else 0);
    left := mmi - 1;
    if ok {
      ghost var blk := w.buffer[|before|..w.ressize];
      ChainAppend(before, bodies, blk, body);
      assert w.buffer[..w.ressize] == before + blk;
    }
  }

  /** gpsor + gpscl + ... */
  method CountTaken(branches: seq<(bool, Draft)>) returns (n: nat)
    ensures n == |Taken(branches)|
  {
    n := 0;
    assert branches[..|branches|] == branches;
    for i := 0 to |branches|
      invariant n == |Taken(branches[..i])|
    {
      assert branches[..i + 1][..i] == branches[..i];
      if branches[i].0 {
        n := n + 1;
      }
    }
  }

  lemma {:induction false} TakenGrows(b: seq<(bool, Draft)>, i: nat)
    requires i <= |b|
    ensures Taken(b[..i]) <= Taken(b)
    decreases |b|
  {
    if i < |b| {
      var b' := b[..|b| - 1];
      TakenGrows(b', i);
      assert b'[..i] == b[..i];
    } else {
      assert b[..i] == b;
    }
  }

  lemma ChainSize(w: BitWriter, bodies: seq<BitString>)
    requires Written(w, bodies)
    ensures w.ressize == ChainLen(bodies) && IsChain(w.buffer[..w.ressize], bodies)
  {
    hide IsChain;
    ChainLenIsLength(w.buffer[..w.ressize], bodies);
  }

  /** A prefix of the plan that does not fit means the plan does not fit. */
  lemma TooLong(p: seq<Draft>, q: seq<Draft>, total: nat, more: bool)
    requires p <= q
    ensures ChainLen(Bodies(p, total, more)) <= ChainLen(Bodies(q, total, more))
  {
    hide DraftBits, ChainLen;
    var b, d := Bodies(p, total, more), Bodies(q, total, more);
    ChainLenMonotone(b, d[|b|..]);
    assert b + d[|b|..] == d;
  }

  lemma StartChain(w: BitWriter, total: nat, more: bool)
    requires w.Valid() && w.numbits == 0 && w.ressize == 0
    ensures Written(w, Bodies([], total, more))
  {
  }

  /** The branches of the encoder one after the other, stopping when the buffer is full. */
  method WriteBranches(branches: seq<(bool, Draft)>, more: bool, buffer: array<Byte>, size: nat)
    returns (ressize: nat)
    requires size <= buffer.Length && forall i :: 0 <= i < |branches| ==> NarrowDraft(branches[i].1)
    modifies buffer
    ensures var plan := Taken(branches);
      var bodies := Bodies(plan, |plan|, more);
      if ChainLen(bodies) <= size
      then ressize == ChainLen(bodies) && IsChain(buffer[..ressize], bodies)
      else ressize == 0
    ensures buffer[size..] == old(buffer[size..])
  {
    hide ChainLen, NarrowDraft, Written, Bodies, IsChain;
    var mmi := CountTaken(branches);
    ghost var total: nat := mmi;
    if !more {
      mmi := mmi - 1;
    }
    var w := new BitWriter(buffer, size);
    StartChain(w, total, more);
    assert branches[..|branches|] == branches;
    for i := 0 to |branches|
      invariant w.Consistent() && buffer[size..] == old(buffer[size..])
      invariant Written(w, Bodies(Taken(branches[..i]), total, more))
      invariant mmi == total - |Taken(branches[..i])| - (if more then 0 else 1)
    {
      var ok;
      ok, mmi := NextBranch(w, branches, i, mmi, more, total);
      if !ok {
        return 0;
      }
    }
    ChainSize(w, Bodies(Taken(branches), total, more));
    return w.ressize;
  }

  method NextBranch(w: BitWriter, branches: seq<(bool, Draft)>, i: nat, mmi: int, more: bool, ghost total: nat)
    returns (ok: bool, left: int)
    requires i < |branches| && NarrowDraft(branches[i].1) && total == |Taken(branches)|
    requires Written(w, Bodies(Taken(branches[..i]), total, more))
    requires mmi == total - |Taken(branches[..i])| - (if more then 0 else 1)
    modifies w, w.buffer
    ensures w.Consistent()
    ensures ok ==> Written(w, Bodies(Taken(branches[..i + 1]), total, more))
    ensures left == total - |Taken(branches[..i + 1])| - (if more then 0 else 1)
    ensures !ok ==> ChainLen(Bodies(Taken(branches), total, more)) > w.limit
    ensures w.buffer[w.limit..] == old(w.buffer[w.limit..])
  {
    hide ChainLen, NarrowDraft, Written, Bodies;
    TakenGrows(branches, i + 1);
    assert branches[..i + 1][..i] == branches[..i];
    ok, left := Stage(w, branches[i].0, branches[i].1, mmi, more, Taken(branches[..i]), total);
    TooLong(Taken(branches[..i + 1]), Taken(branches), total, more);
  }

  lemma SatNarrow(s: SatData, refPoint: int, refDatum: int, orbit: bool, clock: bool)
    ensures Narrow(SatFields(s, refPoint, refDatum, orbit, clock))
  {
  }

  lemma DraftNarrow(c: ClockOrbitData, k: Kind)
    requires IsClockOrbit(c)
    ensures NarrowDraft(DraftOf(c, k))
  {
    hide SatFields;
    var gs := SatGroups(c, k);
    forall i | 0 <= i < |gs|
      ensures Narrow(gs[i])
    {
      SatNarrow(c.Sat[k.Base() + i], c.SatRefPoint, c.SatRefDatum, k.HasOrbit(), k.HasClock());
    }
  }

  lemma {:induction false} BiasListNarrow(b: seq<CodeBias>)
    ensures Narrow(BiasListFields(b))
  {
    if |b| > 0 {
      BiasListNarrow(b[..|b| - 1]);
    }
  }

  lemma BiasDraftNarrow(b: BiasData, gps: bool)
    requires IsBias(b)
    ensures NarrowDraft(BiasDraft(b, gps))
  {
    var d := BiasDraft(b, gps);
    var base := if gps then 0 else NUMGPS;
    forall i | 0 <= i < |d.groups|
      ensures Narrow(d.groups[i])
    {
      BiasListNarrow(b.Sat[base + i].Biases[..b.Sat[base + i].NumberOfCodeBiases]);
    }
  }

  /**
   * Encode the supplied corrections.  The result is the length of the chain, or 0 when the buffer is
   * too small for it (or nothing is to be sent).
   */
  method MakeClockOrbit(co: ClockOrbit, number: int, moremessagesfollow: bool, buffer: array<Byte>, size: nat)
    returns (ressize: nat)
    requires co.Valid() && size <= buffer.Length
    modifies buffer
    ensures var plan := Plan(co.View(), number);
      var bodies := Bodies(plan, |plan|, moremessagesfollow);
      if ChainLen(bodies) <= size
      then ressize == ChainLen(bodies) && IsChain(buffer[..ressize], bodies)
      else ressize == 0
    ensures buffer[size..] == old(buffer[size..])
  {
    hide DraftOf, ChainLen, IsChain, IsClockOrbit, NarrowDraft;
    var c := co.View();
    var gps, glo := co.NumberOfGPSSat != 0, co.NumberOfGLONASSSat != 0;
    var orbit, clock := co.OrbitDataSupplied, co.ClockDataSupplied;
    var gpsor := gps && orbit && (number == AUTO || number == 4050);
    var gpscl := gps && clock && (number == AUTO || number == 4051);
    var gpsco := false;
    if gps && clock && orbit && (number == AUTO || number == 4056) {
      gpsco, gpsor, gpscl := true, false, false;
    }
    var gloor := glo && orbit && (number == AUTO || number == 4053);
    var glocl := glo && clock && (number == AUTO || number == 4054);
    var gloco := false;
    if glo && clock && orbit && (number == AUTO || number == 4057) {
      gloco, gloor, glocl := true, false, false;
    }
    var branches := [(gpsor, DraftOf(c, GpsOrbit)), (gpscl, DraftOf(c, GpsClock)), (gpsco, DraftOf(c, GpsCombined)),
                     (gloor, DraftOf(c, GlonassOrbit)), (glocl, DraftOf(c, GlonassClock)),
                     (gloco, DraftOf(c, GlonassCombined))];
    forall k: Kind
      ensures NarrowDraft(DraftOf(c, k))
    {
      DraftNarrow(c, k);
    }
    assert branches == Branches(c, number);
    ressize := WriteBranches(branches, moremessagesfollow, buffer, size);
  }

  /** Encode the code biases, with the same result convention. */
  method MakeBias(b: Bias, number: int, moremessagesfollow: bool, buffer: array<Byte>, size: nat)
    returns (ressize: nat)
    requires b.Valid() && size <= buffer.Length
    modifies buffer
    ensures var plan := BiasPlan(b.View(), number);
      var bodies := Bodies(plan, |plan|, moremessagesfollow);
      if ChainLen(bodies) <= size
      then ressize == ChainLen(bodies) && IsChain(buffer[..ressize], bodies)
      else ressize == 0
    ensures buffer[size..] == old(buffer[size..])
  {
    hide BiasDraft, ChainLen, IsChain, IsBias, NarrowDraft;
    var d := b.View();
    var gps := b.NumberOfGPSSat != 0 && (number == AUTO || number == 4052);
    var glo := b.NumberOfGLONASSSat != 0 && (number == AUTO || number == 4055);
    BiasDraftNarrow(d, true);
    BiasDraftNarrow(d, false);
    var branches := [(gps, BiasDraft(d, true)), (glo, BiasDraft(d, false))];
    assert branches == BiasBranches(d, number);
    ressize := WriteBranches(branches, moremessagesfollow, buffer, size);
  }
}
