// GetClockOrbitBias: header and CRC checks, then one message unpacked into the caller's structure.
module SsrDecoder {
  import opened Bits
  import opened BitStreams
  import opened Crc24
  import opened SsrMessages

  /**
   * The return codes.  MinusFive is the literal returned for type 4056 without a structure.
   * OutOfBounds marks the inputs on which the C code would index past a fixed array or through a
   * null pointer; the model stops there.
   */
  datatype Return =
    | MessageFollows | Ok | UnknownType | UnknownData | CrcMismatch
    | NoClockOrbitParameter | NoBiasParameter | TimeMismatch | DataMismatch
    | ShortBuffer | MessageExceedsBuffer | MinusFive | OutOfBounds
  {
    predicate Accepted() {
      Ok? || MessageFollows?
    }
  }

  datatype Option<+T> = None | Some(value: T)

  datatype Step<+S> = Fail(ret: Return) | Next(state: S, rest: BitString)

  // ---------- the decoder as a function ----------

  /** A field to read: its width and whether it is sign-extended. */
  datatype Slot = Slot(width: nat, signed: bool)

  ghost predicate IsSlots(ss: seq<Slot>) {
    forall k :: 0 <= k < |ss| ==> 1 <= ss[k].width <= 24
  }

  ghost function ReadSlot(s: Slot, rest: BitString): (r: Step<int>)
    ensures r.Next? && !s.signed ==> r.state >= 0
    ensures r.Fail? ==> r.ret == ShortBuffer
  {
    if s.width > |rest| then Fail(ShortBuffer)
    else Next(if s.signed then SignedFromBits(rest[..s.width]) else FromBits(rest[..s.width]), rest[s.width..])
  }

  ghost function ReadSlots(ss: seq<Slot>, rest: BitString): (r: Step<seq<int>>)
    ensures r.Next? ==> |r.state| == |ss|
    ensures r.Next? ==> forall k :: 0 <= k < |ss| && !ss[k].signed ==> r.state[k] >= 0
    ensures r.Fail? ==> r.ret == ShortBuffer
  {
    if |ss| == 0 then Next([], rest) else
      match ReadSlots(ss[..|ss| - 1], rest)
      case Fail(e) => Fail(e)
      case Next(vs, r) =>
        match ReadSlot(ss[|ss| - 1], r)
        case Fail(e) => Fail(e)
        case Next(v, r') => Next(vs + [v], r')
  }

  function Repeat(s: Slot, n: nat): (ss: seq<Slot>)
    ensures |ss| == n && forall k :: 0 <= k < n ==> ss[k] == s
  {
    seq(n, _ => s)
  }

  /** What follows a satellite number: IOD, no orbit values, two flags if there are any, nc clock values. */
  function PayloadSlots(no: nat, nc: nat): seq<Slot> {
    [Slot(8, false)] + Repeat(Slot(20, true), no)
    + (if no > 0 then [Slot(1, false), Slot(1, false)] else [])
    + Repeat(Slot(20, true), nc)
  }

  /** How many orbit and clock values the decoder expects. */
  function OrbitCount(k: Kind): (n: nat)
    ensures n <= 9
  {
    if k.GpsCombined? then 3 else if k.HasOrbit() then 9 else 0
  }

  function ClockCount(k: Kind): (n: nat)
    ensures n <= 3
  {
    if k.GpsCombined? then 1 else if k.HasClock() then 3 else 0
  }

  /** The part of the structure's shape that decoding needs. */
  predicate Shape(c: ClockOrbitData) {
    && |c.epochGPS| == 101 && 0 <= c.epochSize <= 100
    && |c.Sat| == NUMGPS + NUMGLONASS && (forall i :: 0 <= i < |c.Sat| ==> IsSat(c.Sat[i]))
  }

  function Unscale(old_: seq<real>, vs: seq<int>, orbit: bool): (r: seq<real>)
    requires |vs| <= |old_|
    ensures |r| == |old_|
    ensures forall k :: 0 <= k < |vs| ==> r[k] == (if orbit then OrbitUnits(k, vs[k]) else ClockUnits(k, vs[k]))
    ensures forall k :: |vs| <= k < |old_| ==> r[k] == old_[k]
  {
    seq(|old_|, k requires 0 <= k < |old_| =>
      if k < |vs| then (if orbit then OrbitUnits(k, vs[k]) else ClockUnits(k, vs[k])) else old_[k])
  }

  /** Store the values of one satellite. */
  function StoreSat(c: ClockOrbitData, i: nat, id: int, vs: seq<int>, no: nat, nc: nat): (c': ClockOrbitData)
    requires Shape(c) && i < |c.Sat| && no <= 9 && nc <= 3 && |vs| == |PayloadSlots(no, nc)|
    ensures Shape(c')
  {
    var s := c.Sat[i];
    var s' := SatData(id, vs[0], Unscale(s.Orbit, vs[1..1 + no], true), Unscale(s.Clock, vs[|vs| - nc..], false));
    c.(Sat := c.Sat[i := s'],
       SatRefPoint := if no > 0 then vs[1 + no] else c.SatRefPoint,
       SatRefDatum := if no > 0 then vs[2 + no] else c.SatRefDatum)
  }

  ghost function DecodeSat(c: ClockOrbitData, i: nat, no: nat, nc: nat, rest: BitString): (r: Step<ClockOrbitData>)
    requires Shape(c) && no <= 9 && nc <= 3
    ensures r.Fail? ==> !r.ret.Accepted()
    ensures r.Next? ==> Shape(r.state)
  {
    if i >= |c.Sat| then Fail(OutOfBounds) else
      match ReadSlot(Slot(6, false), rest)
      case Fail(e) => Fail(e)
      case Next(id, r) =>
        if c.Sat[i].ID != 0 && c.Sat[i].ID != id then Fail(DataMismatch) else
          match ReadSlots(PayloadSlots(no, nc), r)
          case Fail(e) => Fail(e)
          case Next(vs, r') => Next(StoreSat(c, i, id, vs, no, nc), r')
  }

  ghost function DecodeSats(c: ClockOrbitData, base: nat, n: nat, no: nat, nc: nat,
                            rest: BitString): (r: Step<ClockOrbitData>)
    requires Shape(c) && no <= 9 && nc <= 3
    ensures r.Fail? ==> !r.ret.Accepted()
    ensures r.Next? ==> Shape(r.state)
    decreases n
  {
    if n == 0 then Next(c, rest) else
      match DecodeSats(c, base, n - 1, no, nc, rest)
      case Fail(e) => Fail(e)
      case Next(c', r) => DecodeSat(c', base + n - 1, no, nc, r)
  }

  function StoreEpoch(c: ClockOrbitData, k: Kind, t: int): (c': ClockOrbitData)
    requires Shape(c)
    ensures Shape(c')
  {
    if k.IsGps() then
      c.(GPSEpochTime := t, epochGPS := c.epochGPS[c.epochSize := t],
         epochSize := if c.epochSize < 100 then c.epochSize + 1 else c.epochSize)
    else c.(GLONASSEpochTime := t)
  }

  function StoreCount(c: ClockOrbitData, k: Kind, n: int): ClockOrbitData {
    if k.IsGps() then c.(NumberOfGPSSat := n) else c.(NumberOfGLONASSSat := n)
  }

  predicate AlreadySupplied(c: ClockOrbitData, k: Kind) {
    (k.HasOrbit() && c.OrbitDataSupplied) || (k.HasClock() && c.ClockDataSupplied)
  }

  function Supply(c: ClockOrbitData, k: Kind): ClockOrbitData {
    c.(OrbitDataSupplied := c.OrbitDataSupplied || k.HasOrbit(),
       ClockDataSupplied := c.ClockDataSupplied || k.HasClock())
  }

  function HeadSlots(): seq<Slot> {
    [Slot(1, false), Slot(6, false), Slot(5, false)]
  }

  /** The message after its epoch; the result carries the multiple-message bit. */
  ghost function DecodeTail(c: ClockOrbitData, k: Kind, rest: BitString): (r: Step<(ClockOrbitData, int)>)
    requires Shape(c)
    ensures r.Fail? ==> !r.ret.Accepted()
    ensures r.Next? ==> Shape(r.state.0)
  {
    match ReadSlots(HeadSlots(), rest)
    case Fail(e) => Fail(e)
    case Next(vs, r) =>
      if k.Count(c) != 0 && k.Count(c) != vs[2] then Fail(DataMismatch)
      else if AlreadySupplied(c, k) then Fail(DataMismatch)
      else
        match DecodeSats(Supply(StoreCount(c, k, vs[2]), k), k.Base(), vs[2], OrbitCount(k), ClockCount(k), r)
        case Fail(e) => Fail(e)
        case Next(c', r') => Next((c', vs[0]), r')
  }

  /** The message after its type number. */
  ghost function DecodeMessage(c: ClockOrbitData, k: Kind, rest: BitString): (r: Step<(ClockOrbitData, int)>)
    requires Shape(c)
    ensures r.Fail? ==> !r.ret.Accepted()
    ensures r.Next? ==> Shape(r.state.0)
  {
    match ReadSlot(Slot(k.EpochBits(), false), rest)
    case Fail(e) => Fail(e)
    case Next(t, r) =>
      if k.Count(c) != 0 && k.Epoch(c) != t then Fail(TimeMismatch)
      else DecodeTail(StoreEpoch(c, k, t), k, r)
  }

  // ---------- bias messages ----------

  predicate BiasShape(b: BiasData) {
    |b.Sat| == NUMGPS + NUMGLONASS && forall i :: 0 <= i < |b.Sat| ==> |b.Sat[i].Biases| == NUMBIAS
  }

  function PairSlots(): seq<Slot> {
    [Slot(5, false), Slot(20, true)]
  }

  ghost function DecodeBias(bs: seq<CodeBias>, j: nat, rest: BitString): (r: Step<seq<CodeBias>>)
    ensures r.Fail? ==> !r.ret.Accepted()
    ensures r.Next? ==> |r.state| == |bs|
  {
    if j >= |bs| then Fail(OutOfBounds) else
      match ReadSlots(PairSlots(), rest)
      case Fail(e) => Fail(e)
      case Next(vs, r) => Next(bs[j := CodeBias(vs[0], BiasUnits(vs[1]))], r)
  }

  /** The first n code biases of a satellite. */
  ghost function DecodeBiases(bs: seq<CodeBias>, n: nat, rest: BitString): (r: Step<seq<CodeBias>>)
    ensures r.Fail? ==> !r.ret.Accepted()
    ensures r.Next? ==> |r.state| == |bs|
  {
    if n == 0 then Next(bs, rest) else
      match DecodeBiases(bs, n - 1, rest)
      case Fail(e) => Fail(e)
      case Next(bs', r) => DecodeBias(bs', n - 1, r)
  }

  ghost function DecodeBiasSat(b: BiasData, i: nat, rest: BitString): (r: Step<BiasData>)
    requires BiasShape(b)
    ensures r.Fail? ==> !r.ret.Accepted()
    ensures r.Next? ==> BiasShape(r.state)
  {
    if i >= |b.Sat| then Fail(OutOfBounds) else
      match ReadSlot(Slot(6, false), rest)
      case Fail(e) => Fail(e)
      case Next(id, r) =>
        if b.Sat[i].ID != 0 && b.Sat[i].ID != id then Fail(DataMismatch) else
          match ReadSlot(Slot(5, false), r)
          case Fail(e) => Fail(e)
          case Next(n, r') =>
            match DecodeBiases(b.Sat[i].Biases, n, r')
            case Fail(e) => Fail(e)
            case Next(bs, r2) => Next(b.(Sat := b.Sat[i := BiasSat(id, n, bs)]), r2)
  }

  ghost function DecodeBiasSats(b: BiasData, base: nat, n: nat, rest: BitString): (r: Step<BiasData>)
    requires BiasShape(b)
    ensures r.Fail? ==> !r.ret.Accepted()
    ensures r.Next? ==> BiasShape(r.state)
    decreases n
  {
    if n == 0 then Next(b, rest) else
      match DecodeBiasSats(b, base, n - 1, rest)
      case Fail(e) => Fail(e)
      case Next(b', r) => DecodeBiasSat(b', base + n - 1, r)
  }

  function BiasCount(b: BiasData, gps: bool): int {
    if gps then b.NumberOfGPSSat else b.NumberOfGLONASSSat
  }

  function BiasEpoch(b: BiasData, gps: bool): int {
    if gps then b.GPSEpochTime else b.GLONASSEpochTime
  }

  function StoreBiasEpoch(b: BiasData, gps: bool, t: int): (b': BiasData)
    ensures BiasShape(b) ==> BiasShape(b')
  {
    if gps then b.(GPSEpochTime := t) else b.(GLONASSEpochTime := t)
  }

  function StoreBiasCount(b: BiasData, gps: bool, n: int): (b': BiasData)
    ensures BiasShape(b) ==> BiasShape(b')
  {
    if gps then b.(NumberOfGPSSat := n) else b.(NumberOfGLONASSSat := n)
  }

  /** The time check of a bias message consults the satellite count of the orbit structure. */
  ghost function DecodeBiasMessage(b: BiasData, coCount: int, gps: bool, rest: BitString): (r: Step<(BiasData, int)>)
    requires BiasShape(b)
    ensures r.Fail? ==> !r.ret.Accepted()
    ensures r.Next? ==> BiasShape(r.state.0)
  {
    match ReadSlot(Slot(20, false), rest)
    case Fail(e) => Fail(e)
    case Next(t, r) =>
      if coCount != 0 && BiasEpoch(b, gps) != t then Fail(TimeMismatch)
      else DecodeBiasTail(StoreBiasEpoch(b, gps, t), gps, r)
  }

  ghost function DecodeBiasTail(b: BiasData, gps: bool, rest: BitString): (r: Step<(BiasData, int)>)
    requires BiasShape(b)
    ensures r.Fail? ==> !r.ret.Accepted()
    ensures r.Next? ==> BiasShape(r.state.0)
  {
    match ReadSlots(HeadSlots(), rest)
    case Fail(e) => Fail(e)
    case Next(vs, r) =>
      if BiasCount(b, gps) != 0 && BiasCount(b, gps) != vs[2] then Fail(DataMismatch)
      else
        match DecodeBiasSats(StoreBiasCount(b, gps, vs[2]), if gps then 0 else NUMGPS, vs[2], r)
        case Fail(e) => Fail(e)
        case Next(b', r') => Next((b', vs[0]), r')
  }

  // ---------- a whole block ----------

  datatype Outcome = Outcome(ret: Return, co: Option<ClockOrbitData>, b: Option<BiasData>, used: int)

  function KindOf(number: int): Option<Kind> {
    if number == 4050 then Some(GpsOrbit)
    else if number == 4051 then Some(GpsClock)
    else if number == 4056 then Some(GpsCombined)
    else if number == 4053 then Some(GlonassOrbit)
    else if number == 4054 then Some(GlonassClock)
    else if number == 4057 then Some(GlonassCombined)
    else None
  }

  function Accept(mmi: int): Return {
    if mmi != 0 then MessageFollows else Ok
  }

  ghost predicate Shapes(co: Option<ClockOrbitData>, b: Option<BiasData>) {
    (co.Some? ==> Shape(co.value)) && (b.Some? ==> BiasShape(b.value))
  }

  /** The body of the switch. */
  ghost function DecodeBody(co: Option<ClockOrbitData>, b: Option<BiasData>, number: int, rest: BitString,
                            used: int): (o: Outcome)
    requires Shapes(co, b)
    ensures o.used == used && Shapes(o.co, o.b)
  {
    if KindOf(number).Some? then
      var k := KindOf(number).value;
      if co.None? then Outcome(if k.GpsCombined? then MinusFive else NoClockOrbitParameter, co, b, used) else
        match DecodeMessage(co.value, k, rest)
        case Fail(e) => Outcome(e, co, b, used)
        case Next(st, _) => Outcome(Accept(st.1), Some(st.0), b, used)
    else if number == 4052 || number == 4055 then
      if b.None? then Outcome(NoBiasParameter, co, b, used)
      else if co.None? then Outcome(OutOfBounds, co, b, used)
      else
        var gps := number == 4052;
        var count := if gps then co.value.NumberOfGPSSat else co.value.NumberOfGLONASSSat;
        match DecodeBiasMessage(b.value, count, gps, rest)
        case Fail(e) => Outcome(e, co, b, used)
        case Next(st, _) => Outcome(Accept(st.1), co, Some(st.0), used)
    else Outcome(UnknownType, co, b, used)
  }

  function HeaderSlots(): seq<Slot> {
    [Slot(8, false), Slot(6, false), Slot(10, false)]
  }

  /** Header and CRC: the body length, and the bits from the message number on. */
  ghost function DecodeFrame(buf: seq<Byte>): (r: Step<nat>)
    ensures r.Fail? ==> !r.ret.Accepted()
  {
    if |buf| < 7 then Fail(ShortBuffer) else
      match ReadSlots(HeaderSlots(), BitsOf(buf))
      case Fail(e) => Fail(e)
      case Next(h, rest) =>
        if h[0] != 0xD3 || h[1] != 0 then Fail(UnknownData)
        else if |buf| < h[2] + 6 then Fail(MessageExceedsBuffer)
        else if Crc(buf[..h[2] + 3]) != Join3(buf[h[2] + 3], buf[h[2] + 4], buf[h[2] + 5]) then Fail(CrcMismatch)
        else Next(h[2], rest)
  }

  /** The decoder's verdict on a buffer.  After an error the structures are unspecified. */
  ghost function Decode(co: Option<ClockOrbitData>, b: Option<BiasData>, buf: seq<Byte>): (o: Outcome)
    requires Shapes(co, b)
    ensures Shapes(o.co, o.b)
  {
    match DecodeFrame(buf)
    case Fail(e) => Outcome(e, co, b, 0)
    case Next(len, rest) =>
      match ReadSlot(Slot(12, false), rest)
      case Fail(e) => Outcome(e, co, b, 0)
      case Next(number, r) => DecodeBody(co, b, number, r, len + 6)
  }

  // ---------- the decoder as the C code runs it ----------

  /** A run of GETBITS and GETFLOATSIGN macros. */
  method ReadList(rd: BitReader, ss: seq<Slot>) returns (ok: bool, vs: seq<int>)
    requires rd.Valid() && IsSlots(ss)
    modifies rd
    ensures ok <==> ReadSlots(ss, old(rd.Rest())).Next?
    ensures ok ==> rd.Valid() && ReadSlots(ss, old(rd.Rest())) == Next(vs, rd.Rest())
  {
    vs := [];
    ghost var rest := rd.Rest();
    for k := 0 to |ss|
      invariant rd.Valid() && ReadSlots(ss[..k], rest) == Next(vs, rd.Rest())
    {
      assert ss[..k + 1][..k] == ss[..k];
      var good, v;
      if ss[k].signed {
        good, v := rd.GetSigned(ss[k].width);
      } else {
        good, v := rd.GetBits(ss[k].width);
      }
      if !good {
        ShortList(ss, k, rest);
        return false, vs;
      }
      vs := vs + [v];
    }
    assert ss[..|ss|] == ss;
    ok := true;
  }

  /** A failed prefix fails the list. */
  lemma {:induction false} ShortList(ss: seq<Slot>, k: nat, rest: BitString)
    requires k < |ss| && ReadSlots(ss[..k + 1], rest).Fail?
    ensures ReadSlots(ss, rest).Fail?
    decreases |ss|
  {
    hide ReadSlot;
    if k + 1 < |ss| {
      var ss' := ss[..|ss| - 1];
      assert ss'[..k + 1] == ss[..k + 1];
      ShortList(ss', k, rest);
    } else {
      assert ss[..k + 1] == ss;
    }
  }

  method ReadOne(rd: BitReader, s: Slot) returns (ok: bool, v: int)
    requires rd.Valid() && 1 <= s.width <= 24
    modifies rd
    ensures ok <==> ReadSlot(s, old(rd.Rest())).Next?
    ensures ok ==> rd.Valid() && ReadSlot(s, old(rd.Rest())) == Next(v, rd.Rest())
  {
    if s.signed {
      ok, v := rd.GetSigned(s.width);
    } else {
      ok, v := rd.GetBits(s.width);
    }
  }

  /** The multiple-message bit, six reserved bits that are skipped, and the number of satellites. */
  method ReadHead(rd: BitReader) returns (ok: bool, mmi: int, count: int)
    requires rd.Valid()
    modifies rd
    ensures ok <==> ReadSlots(HeadSlots(), old(rd.Rest())).Next?
    ensures ok ==> rd.Valid() && ReadSlots(HeadSlots(), old(rd.Rest())).rest == rd.Rest()
    ensures ok ==> var vs := ReadSlots(HeadSlots(), old(rd.Rest())).state; mmi == vs[0] && count == vs[2] >= 0
  {
    hide FromBits, ReadSlots, HeadSlots, BitReader.Rest;
    ghost var rest := rd.Rest();
    HeadParts(rest);
    count := 0;
    ok, mmi := rd.GetBits(1);
    if !ok {
      return;
    }
    ok := rd.SkipBits(6);
    if !ok {
      return;
    }
    ok, count := rd.GetBits(5);
  }

  /** What the three slots make of the bits. */
  lemma HeadParts(rest: BitString)
    ensures ReadSlots(HeadSlots(), rest).Next? <==> |rest| >= 12
    ensures |rest| < 12 || ReadSlots(HeadSlots(), rest)
      == Next([FromBits(rest[..1]), FromBits(rest[1..][..6]), FromBits(rest[1..][6..][..5])], rest[1..][6..][5..])
  {
    hide FromBits, ReadSlots;
    var x, y, z := Slot(1, false), Slot(6, false), Slot(5, false);
    assert HeadSlots() == (([] + [x]) + [y]) + [z];
    ReadNone(rest);
    ReadNext([], x, rest);
    ReadNext([] + [x], y, rest);
    ReadNext(([] + [x]) + [y], z, rest);
    if |rest| >= 12 {
      var a, b, c := FromBits(rest[..1]), FromBits(rest[1..][..6]), FromBits(rest[1..][6..][..5]);
      assert (([] + [a]) + [b]) + [c] == [a, b, c];
    }
  }

  lemma ReadNone(rest: BitString)
    ensures ReadSlots([], rest) == Next([], rest)
  {
  }

  lemma ReadNext(ss: seq<Slot>, s: Slot, rest: BitString)
    ensures match ReadSlots(ss, rest)
      case Fail(e) => ReadSlots(ss + [s], rest) == Fail(e)
      case Next(vs, r) =>
        ReadSlots(ss + [s], rest) == match ReadSlot(s, r) case Fail(e) => Fail(e) case Next(v, r') => Next(vs + [v], r')
  {
    hide ReadSlot;
    assert (ss + [s])[..|ss|] == ss;
  }

  /** One turn of the satellite loop. */
  method UnpackSat(rd: BitReader, co: ClockOrbit, i: nat, no: nat, nc: nat) returns (err: Option<Return>)
    requires rd.Valid() && Shape(co.View()) && no <= 9 && nc <= 3
    modifies rd, co
    ensures match DecodeSat(old(co.View()), i, no, nc, old(rd.Rest()))
      case Fail(e) => err == Some(e)
      case Next(c, r) => err == None && rd.Valid() && co.View() == c && rd.Rest() == r
  {
    hide ReadSlots, ReadSlot, StoreSat, PayloadSlots;
    if i >= |co.Sat| {
      return Some(OutOfBounds);
    }
    var ok, id := ReadOne(rd, Slot(6, false));
    if !ok {
      return Some(ShortBuffer);
    }
    if co.Sat[i].ID != 0 && co.Sat[i].ID != id {
      return Some(DataMismatch);
    }
    var vs;
    PayloadIsSlots(no, nc);
    ok, vs := ReadList(rd, PayloadSlots(no, nc));
    if !ok {
      return Some(ShortBuffer);
    }
    PutSat(co, i, id, vs, no, nc);
    err := None;
  }

  lemma PayloadIsSlots(no: nat, nc: nat)
    ensures IsSlots(PayloadSlots(no, nc))
  {
  }

  /** The assignments to co->Sat[i] and the two reference flags. */
  method PutSat(co: ClockOrbit, i: nat, id: int, vs: seq<int>, no: nat, nc: nat)
    requires Shape(co.View()) && i < |co.Sat| && no <= 9 && nc <= 3 && |vs| == |PayloadSlots(no, nc)|
    modifies co
    ensures co.View() == StoreSat(old(co.View()), i, id, vs, no, nc)
  {
    var s := co.Sat[i];
    if no > 0 {
      co.SatRefPoint := vs[1 + no];
      co.SatRefDatum := vs[2 + no];
    }
    co.Sat := co.Sat[i := SatData(id, vs[0], Unscale(s.Orbit, vs[1..1 + no], true),
                                  Unscale(s.Clock, vs[|vs| - nc..], false))];
  }

  /** The satellite loop. */
  method UnpackSats(rd: BitReader, co: ClockOrbit, base: nat, n: nat, no: nat, nc: nat) returns (err: Option<Return>)
    requires rd.Valid() && Shape(co.View()) && no <= 9 && nc <= 3
    modifies rd, co
    ensures match DecodeSats(old(co.View()), base, n, no, nc, old(rd.Rest()))
      case Fail(e) => err == Some(e)
      case Next(c, r) => err == None && rd.Valid() && co.View() == c && rd.Rest() == r
  {
    hide DecodeSats, DecodeSat, Shape;
    ghost var c, rest := co.View(), rd.Rest();
    SatsNone(c, base, no, nc, rest);
    for i := 0 to n
      invariant rd.Valid() && Shape(co.View())
      invariant DecodeSats(c, base, i, no, nc, rest) == Next(co.View(), rd.Rest())
    {
      OneMoreSat(c, base, i, no, nc, rest);
      err := UnpackSat(rd, co, base + i, no, nc);
      if err.Some? {
        FailedSats(c, base, i + 1, n, no, nc, rest);
        return;
      }
    }
    err := None;
  }

  lemma SatsNone(c: ClockOrbitData, base: nat, no: nat, nc: nat, rest: BitString)
    requires Shape(c) && no <= 9 && nc <= 3
    ensures DecodeSats(c, base, 0, no, nc, rest) == Next(c, rest)
  {
  }

  lemma OneMoreSat(c: ClockOrbitData, base: nat, i: nat, no: nat, nc: nat, rest: BitString)
    requires Shape(c) && no <= 9 && nc <= 3 && DecodeSats(c, base, i, no, nc, rest).Next?
    ensures var st := DecodeSats(c, base, i, no, nc, rest);
      DecodeSats(c, base, i + 1, no, nc, rest) == DecodeSat(st.state, base + i, no, nc, st.rest)
  {
    hide DecodeSat;
  }

  lemma {:induction false} FailedSats(c: ClockOrbitData, base: nat, k: nat, n: nat, no: nat, nc: nat, rest: BitString)
    requires Shape(c) && no <= 9 && nc <= 3 && k <= n
    requires DecodeSats(c, base, k, no, nc, rest).Fail?
    ensures DecodeSats(c, base, n, no, nc, rest) == DecodeSats(c, base, k, no, nc, rest)
    decreases n
  {
    hide DecodeSat;
    if k < n {
      FailedSats(c, base, k, n - 1, no, nc, rest);
    }
  }

  /** One branch of the switch for an orbit or clock message, from the epoch on. */
  method UnpackMessage(rd: BitReader, co: ClockOrbit, k: Kind) returns (err: Option<Return>, mmi: int)
    requires rd.Valid() && Shape(co.View())
    modifies rd, co
    ensures match DecodeMessage(old(co.View()), k, old(rd.Rest()))
      case Fail(e) => err == Some(e)
      case Next(st, r) => err == None && co.View() == st.0 && mmi == st.1
  {
    hide ReadSlots, ReadSlot, DecodeTail, Shape, StoreEpoch;
    mmi := 0;
    var ok, t := ReadOne(rd, Slot(k.EpochBits(), false));
    if !ok {
      return Some(ShortBuffer), mmi;
    }
    if k.Count(co.View()) != 0 && k.Epoch(co.View()) != t {
      return Some(TimeMismatch), mmi;
    }
    PutEpoch(co, k, t);
    err, mmi := UnpackTail(rd, co, k);
  }

  method UnpackTail(rd: BitReader, co: ClockOrbit, k: Kind) returns (err: Option<Return>, mmi: int)
    requires rd.Valid() && Shape(co.View())
    modifies rd, co
    ensures match DecodeTail(old(co.View()), k, old(rd.Rest()))
      case Fail(e) => err == Some(e)
      case Next(st, r) => err == None && co.View() == st.0 && mmi == st.1
  {
    hide ReadSlots, ReadSlot, DecodeSats, Shape, Supply, StoreCount, AlreadySupplied, OrbitCount, ClockCount, HeadSlots;
    mmi := 0;
    var ok, more, count := ReadHead(rd);
    if !ok {
      return Some(ShortBuffer), mmi;
    }
    mmi := more;
    if k.Count(co.View()) != 0 && k.Count(co.View()) != count {
      return Some(DataMismatch), mmi;
    }
    if AlreadySupplied(co.View(), k) {
      return Some(DataMismatch), mmi;
    }
    PutCount(co, k, count);
    err := UnpackSats(rd, co, k.Base(), count, OrbitCount(k), ClockCount(k));
  }

  method PutEpoch(co: ClockOrbit, k: Kind, t: int)
    requires Shape(co.View())
    modifies co
    ensures co.View() == StoreEpoch(old(co.View()), k, t) && Shape(co.View())
  {
    if k.IsGps() {
      co.GPSEpochTime := t;
      co.epochGPS := co.epochGPS[co.epochSize := t];
      if co.epochSize < 100 {
        co.epochSize := co.epochSize + 1;
      }
    } else {
      co.GLONASSEpochTime := t;
    }
  }

  method PutCount(co: ClockOrbit, k: Kind, n: int)
    requires Shape(co.View())
    modifies co
    ensures co.View() == Supply(StoreCount(old(co.View()), k, n), k) && Shape(co.View())
  {
    if k.IsGps() {
      co.NumberOfGPSSat := n;
    } else {
      co.NumberOfGLONASSSat := n;
    }
    if k.HasOrbit() {
      co.OrbitDataSupplied := true;
    }
    if k.HasClock() {
      co.ClockDataSupplied := true;
    }
  }

  // ---------- bias messages, as the C code runs them ----------

  method UnpackBias(rd: BitReader, bs0: seq<CodeBias>, j: nat) returns (err: Option<Return>, bs: seq<CodeBias>)
    requires rd.Valid()
    modifies rd
    ensures match DecodeBias(bs0, j, old(rd.Rest()))
      case Fail(e) => err == Some(e)
      case Next(b, r) => err == None && rd.Valid() && bs == b && rd.Rest() == r
  {
    hide ReadSlots;
    bs := bs0;
    if j >= |bs| {
      return Some(OutOfBounds), bs;
    }
    var ok, vs := ReadList(rd, PairSlots());
    if !ok {
      return Some(ShortBuffer), bs;
    }
    bs := bs[j := CodeBias(vs[0], BiasUnits(vs[1]))];
    err := None;
  }

  method UnpackBiases(rd: BitReader, bs0: seq<CodeBias>, n: nat) returns (err: Option<Return>, bs: seq<CodeBias>)
    requires rd.Valid()
    modifies rd
    ensures match DecodeBiases(bs0, n, old(rd.Rest()))
      case Fail(e) => err == Some(e)
      case Next(b, r) => err == None && rd.Valid() && bs == b && rd.Rest() == r
  {
    hide DecodeBias;
    bs := bs0;
    ghost var rest := rd.Rest();
    for j := 0 to n
      invariant rd.Valid()
      invariant DecodeBiases(bs0, j, rest) == Next(bs, rd.Rest())
    {
      err, bs := UnpackBias(rd, bs, j);
      if err.Some? {
        FailedBiases(bs0, j + 1, n, rest);
        return;
      }
    }
    err := None;
  }

  lemma {:induction false} FailedBiases(bs: seq<CodeBias>, k: nat, n: nat, rest: BitString)
    requires k <= n && DecodeBiases(bs, k, rest).Fail?
    ensures DecodeBiases(bs, n, rest) == DecodeBiases(bs, k, rest)
    decreases n
  {
    hide DecodeBias;
    if k < n {
      FailedBiases(bs, k, n - 1, rest);
    }
  }

  method UnpackBiasSat(rd: BitReader, b: Bias, i: nat) returns (err: Option<Return>)
    requires rd.Valid() && BiasShape(b.View())
    modifies rd, b
    ensures match DecodeBiasSat(old(b.View()), i, old(rd.Rest()))
      case Fail(e) => err == Some(e)
      case Next(d, r) => err == None && rd.Valid() && b.View() == d && rd.Rest() == r
  {
    hide ReadSlot, DecodeBiases, BitReader.Rest;
    if i >= |b.Sat| {
      return Some(OutOfBounds);
    }
    var ok, id := ReadOne(rd, Slot(6, false));
    if !ok {
      return Some(ShortBuffer);
    }
    if b.Sat[i].ID != 0 && b.Sat[i].ID != id {
      return Some(DataMismatch);
    }
    var n;
    ok, n := ReadOne(rd, Slot(5, false));
    if !ok {
      return Some(ShortBuffer);
    }
    var bs;
    err, bs := UnpackBiases(rd, b.Sat[i].Biases, n);
    if err.None? {
      b.Sat := b.Sat[i := BiasSat(id, n, bs)];
    }
  }

  method UnpackBiasSats(rd: BitReader, b: Bias, base: nat, n: nat) returns (err: Option<Return>)
    requires rd.Valid() && BiasShape(b.View())
    modifies rd, b
    ensures match DecodeBiasSats(old(b.View()), base, n, old(rd.Rest()))
      case Fail(e) => err == Some(e)
      case Next(d, r) => err == None && rd.Valid() && b.View() == d && rd.Rest() == r
  {
    hide DecodeBiasSat, BiasShape;
    ghost var d, rest := b.View(), rd.Rest();
    for i := 0 to n
      invariant rd.Valid() && BiasShape(b.View())
      invariant DecodeBiasSats(d, base, i, rest) == Next(b.View(), rd.Rest())
    {
      err := UnpackBiasSat(rd, b, base + i);
      if err.Some? {
        FailedBiasSats(d, base, i + 1, n, rest);
        return;
      }
    }
    err := None;
  }

  lemma {:induction false} FailedBiasSats(b: BiasData, base: nat, k: nat, n: nat, rest: BitString)
    requires BiasShape(b) && k <= n && DecodeBiasSats(b, base, k, rest).Fail?
    ensures DecodeBiasSats(b, base, n, rest) == DecodeBiasSats(b, base, k, rest)
    decreases n
  {
    hide DecodeBiasSat;
    if k < n {
      FailedBiasSats(b, base, k, n - 1, rest);
    }
  }

  method UnpackBiasMessage(rd: BitReader, b: Bias, coCount: int, gps: bool) returns (err: Option<Return>, mmi: int)
    requires rd.Valid() && BiasShape(b.View())
    modifies rd, b
    ensures match DecodeBiasMessage(old(b.View()), coCount, gps, old(rd.Rest()))
      case Fail(e) => err == Some(e)
      case Next(st, r) => err == None && b.View() == st.0 && mmi == st.1
  {
    hide ReadSlots, ReadSlot, DecodeBiasTail, StoreBiasEpoch;
    mmi := 0;
    var ok, t := ReadOne(rd, Slot(20, false));
    if !ok {
      return Some(ShortBuffer), mmi;
    }
    if coCount != 0 && BiasEpoch(b.View(), gps) != t {
      return Some(TimeMismatch), mmi;
    }
    PutBiasEpoch(b, gps, t);
    err, mmi := UnpackBiasTail(rd, b, gps);
  }

  method UnpackBiasTail(rd: BitReader, b: Bias, gps: bool) returns (err: Option<Return>, mmi: int)
    requires rd.Valid() && BiasShape(b.View())
    modifies rd, b
    ensures match DecodeBiasTail(old(b.View()), gps, old(rd.Rest()))
      case Fail(e) => err == Some(e)
      case Next(st, r) => err == None && b.View() == st.0 && mmi == st.1
  {
    hide ReadSlots, ReadSlot, DecodeBiasSats, StoreBiasCount;
    mmi := 0;
    var ok, more, count := ReadHead(rd);
    if !ok {
      return Some(ShortBuffer), mmi;
    }
    mmi := more;
    if BiasCount(b.View(), gps) != 0 && BiasCount(b.View(), gps) != count {
      return Some(DataMismatch), mmi;
    }
    PutBiasCount(b, gps, count);
    err := UnpackBiasSats(rd, b, if gps then 0 else NUMGPS, count);
  }

  method PutBiasEpoch(b: Bias, gps: bool, t: int)
    modifies b
    ensures b.View() == StoreBiasEpoch(old(b.View()), gps, t)
  {
    if gps {
      b.GPSEpochTime := t;
    } else {
      b.GLONASSEpochTime := t;
    }
  }

  method PutBiasCount(b: Bias, gps: bool, n: int)
    modifies b
    ensures b.View() == StoreBiasCount(old(b.View()), gps, n)
  {
    if gps {
      b.NumberOfGPSSat := n;
    } else {
      b.NumberOfGLONASSSat := n;
    }
  }

  // ---------- the entry point ----------

  function ViewOf(co: ClockOrbit?): Option<ClockOrbitData>
    reads co
  {
    if co == null then None else Some(co.View())
  }

  function ViewOfBias(b: Bias?): Option<BiasData>
    reads b
  {
    if b == null then None else Some(b.View())
  }

  /** The switch over the message number. */
  method UnpackBody(rd: BitReader, co: ClockOrbit?, b: Bias?, number: int, ghost used: int) returns (ret: Return)
    requires rd.Valid() && Shapes(ViewOf(co), ViewOfBias(b))
    modifies rd, co, b
    ensures var o := DecodeBody(old(ViewOf(co)), old(ViewOfBias(b)), number, old(rd.Rest()), used);
      ret == o.ret && (ret.Accepted() ==> ViewOf(co) == o.co && ViewOfBias(b) == o.b)
  {
    hide DecodeMessage, DecodeBiasMessage, Shape, BiasShape;
    if KindOf(number).Some? {
      var k := KindOf(number).value;
      if co == null {
        return if k.GpsCombined? then MinusFive else NoClockOrbitParameter;
      }
      var err, mmi := UnpackMessage(rd, co, k);
      if err.Some? {
        return err.value;
      }
      return Accept(mmi);
    } else if number == 4052 || number == 4055 {
      if b == null {
        return NoBiasParameter;
      }
      if co == null {
        return OutOfBounds;
      }
      var gps := number == 4052;
      var err, mmi := UnpackBiasMessage(rd, b, if gps then co.NumberOfGPSSat else co.NumberOfGLONASSSat, gps);
      if err.Some? {
        return err.value;
      }
      return Accept(mmi);
    } else {
      return UnknownType;
    }
  }

  /** Decode the block at buffer[off..off + size]. */
  method GetClockOrbitBias(co: ClockOrbit?, b: Bias?, buffer: array<Byte>, off: nat, size: nat)
    returns (ret: Return, bytesused: int)
    requires off + size <= buffer.Length && Shapes(ViewOf(co), ViewOfBias(b))
    modifies co, b
    ensures var o := Decode(old(ViewOf(co)), old(ViewOfBias(b)), buffer[off..off + size]);
      && ret == o.ret
      && (ret.Accepted() ==> ViewOf(co) == o.co && ViewOfBias(b) == o.b && bytesused == o.used)
  {
    var rd := new BitReader(buffer, off, size);
    ret, bytesused := DecodeFrom(rd, co, b, buffer, off, size);
  }

  method DecodeFrom(rd: BitReader, co: ClockOrbit?, b: Bias?, buffer: array<Byte>, off: nat, size: nat)
    returns (ret: Return, bytesused: int)
    requires off + size <= buffer.Length && Shapes(ViewOf(co), ViewOfBias(b))
    requires rd.Valid() && rd.Rest() == BitsOf(buffer[off..off + size])
    modifies rd, co, b
    ensures var o := Decode(old(ViewOf(co)), old(ViewOfBias(b)), buffer[off..off + size]);
      && ret == o.ret
      && (ret.Accepted() ==> ViewOf(co) == o.co && ViewOfBias(b) == o.b && bytesused == o.used)
  {
    hide ReadSlot, DecodeBody, DecodeFrame, Shapes, BitsOf;
    bytesused := 0;
    var err, len := CheckFrame(rd, buffer, off, size);
    if err.Some? {
      return err.value, bytesused;
    }
    var ok, number := ReadOne(rd, Slot(12, false));
    if !ok {
      return ShortBuffer, bytesused;
    }
    ret := UnpackBody(rd, co, b, number, len + 6);
    bytesused := len + 6;
  }

  /** The header and CRC checks. */
  method CheckFrame(rd: BitReader, buffer: array<Byte>, off: nat, size: nat) returns (err: Option<Return>, len: nat)
    requires off + size <= buffer.Length && rd.Valid() && rd.Rest() == BitsOf(buffer[off..off + size])
    modifies rd
    ensures match DecodeFrame(buffer[off..off + size])
      case Fail(e) => err == Some(e)
      case Next(n, r) => err == None && len == n && rd.Valid() && rd.Rest() == r
  {
    hide ReadSlots, Crc, BitsOf, Join3;
    len := 0;
    if size < 7 {
      return Some(ShortBuffer), len;
    }
    ghost var buf := buffer[off..off + size];
    var ok, h := ReadList(rd, HeaderSlots());
    if !ok {
      return Some(ShortBuffer), len;
    }
    if h[0] != 0xD3 || h[1] != 0 {
      return Some(UnknownData), len;
    }
    if size < h[2] + 6 {
      return Some(MessageExceedsBuffer), len;
    }
    len := h[2];
    var good := CrcMatches(buffer, off, size, len);
    err := if good then None else Some(CrcMismatch);
  }

  /** The CRC of header and body against the three bytes behind them. */
  method CrcMatches(buffer: array<Byte>, off: nat, size: nat, len: nat) returns (ok: bool)
    requires off + size <= buffer.Length && len + 6 <= size
    ensures var buf := buffer[off..off + size];
      ok <==> Crc(buf[..len + 3]) == Join3(buf[len + 3], buf[len + 4], buf[len + 5])
  {
    hide Crc, Join3;
    ghost var buf := buffer[off..off + size];
    var crc := ComputeCrc(buffer, off, len + 3);
    assert buffer[off..off + len + 3] == buf[..len + 3];
    ok := crc == Join3(buffer[off + len + 3], buffer[off + len + 4], buffer[off + len + 5]);
  }
}
