// The correction messages of clock_orbit_rtcm.h: the structures in memory and the layout on the wire.
module SsrMessages {
  import opened Bits
  import opened BitStreams
  import opened CastMath

  const NUMGPS := 32
  const NUMGLONASS := 24
  const NUMBIAS := 10
  const AUTO := 0

  // ---------- structures ----------

  /** Orbit holds the nine members of OrbitPart and Clock the three of ClockPart, in declared order. */
  datatype SatData = SatData(ID: int, IOD: int, Orbit: seq<real>, Clock: seq<real>)

  predicate IsSat(s: SatData) {
    |s.Orbit| == 9 && |s.Clock| == 3
  }

  const NO_SAT := SatData(0, 0, [0.0, 0.0, 0.0, 0.0, 0.0, 0.0, 0.0, 0.0, 0.0], [0.0, 0.0, 0.0])

  datatype ClockOrbitData = ClockOrbitData(
    GPSEpochTime: int, GLONASSEpochTime: int, NumberOfGPSSat: int, NumberOfGLONASSSat: int,
    ClockDataSupplied: bool, OrbitDataSupplied: bool, epochGPS: seq<int>, epochSize: int,
    SatRefPoint: int, SatRefDatum: int, Sat: seq<SatData>)

  /** The shape the C declaration fixes, with the counts its comments allow. */
  predicate IsClockOrbit(c: ClockOrbitData) {
    && |c.epochGPS| == 101 && 0 <= c.epochSize <= 100
    && |c.Sat| == NUMGPS + NUMGLONASS && (forall i :: 0 <= i < |c.Sat| ==> IsSat(c.Sat[i]))
    && 0 <= c.NumberOfGPSSat <= NUMGPS && 0 <= c.NumberOfGLONASSSat <= NUMGLONASS
  }

  datatype CodeBias = CodeBias(Type: int, Value: real)

  datatype BiasSat = BiasSat(ID: int, NumberOfCodeBiases: int, Biases: seq<CodeBias>)

  datatype BiasData = BiasData(
    GPSEpochTime: int, GLONASSEpochTime: int, NumberOfGPSSat: int, NumberOfGLONASSSat: int, Sat: seq<BiasSat>)

  predicate IsBiasSat(s: BiasSat) {
    |s.Biases| == NUMBIAS && 0 <= s.NumberOfCodeBiases <= NUMBIAS
  }

  predicate IsBias(b: BiasData) {
    && |b.Sat| == NUMGPS + NUMGLONASS && (forall i :: 0 <= i < |b.Sat| ==> IsBiasSat(b.Sat[i]))
    && 0 <= b.NumberOfGPSSat <= NUMGPS && 0 <= b.NumberOfGLONASSSat <= NUMGLONASS
  }

  // ---------- scaling ----------

  function OrbitScale(k: nat): (s: real)
    ensures s > 0.0
  {
    if k < 3 then 1000.0 else if k < 6 then 100000.0 else 5000000.0
  }

  function ClockScale(k: nat): (s: real)
    ensures s > 0.0
  {
    if k == 0 then 1000.0 else if k == 1 then 100000.0 else 5000000.0
  }

  const BIAS_SCALE: real := 100.0

  /** The integer that SCALEADDBITS writes for a value in physical units. */
  function OrbitSteps(k: nat, x: real): int {
    Trunc(OrbitScale(k) * x)
  }

  function ClockSteps(k: nat, x: real): int {
    Trunc(ClockScale(k) * x)
  }

  function BiasSteps(x: real): int {
    Trunc(BIAS_SCALE * x)
  }

  /** The value in physical units that GETFLOATSIGN makes of an integer. */
  function OrbitUnits(k: nat, v: int): real {
    v as real / OrbitScale(k)
  }

  function ClockUnits(k: nat, v: int): real {
    v as real / ClockScale(k)
  }

  function BiasUnits(v: int): real {
    v as real / BIAS_SCALE
  }

  // ---------- layouts ----------

  datatype Kind = GpsOrbit | GpsClock | GpsCombined | GlonassOrbit | GlonassClock | GlonassCombined {
    function Number(): int {
      match this
      case GpsOrbit => 4050
      case GpsClock => 4051
      case GpsCombined => 4056
      case GlonassOrbit => 4053
      case GlonassClock => 4054
      case GlonassCombined => 4057
    }

    predicate IsGps() {
      GpsOrbit? || GpsClock? || GpsCombined?
    }

    predicate HasOrbit() {
      GpsOrbit? || GpsCombined? || GlonassOrbit? || GlonassCombined?
    }

    predicate HasClock() {
      GpsClock? || GpsCombined? || GlonassClock? || GlonassCombined?
    }

    /** Where this system's satellites start in Sat. */
    function Base(): nat {
      if IsGps() then 0 else NUMGPS
    }

    function EpochBits(): nat {
      if IsGps() then 20 else 17
    }

    function Epoch(c: ClockOrbitData): int {
      if IsGps() then c.GPSEpochTime else c.GLONASSEpochTime
    }

    function Count(c: ClockOrbitData): int {
      if IsGps() then c.NumberOfGPSSat else c.NumberOfGLONASSSat
    }
  }

  function OrbitFields(orbit: seq<real>): (fs: seq<Field>)
    ensures |fs| == |orbit|
    ensures forall k :: 0 <= k < |fs| ==> fs[k] == Field(20, OrbitSteps(k, orbit[k]))
  {
    seq(|orbit|, k requires 0 <= k < |orbit| => Field(20, OrbitSteps(k, orbit[k])))
  }

  function ClockFields(clock: seq<real>): (fs: seq<Field>)
    ensures |fs| == |clock|
    ensures forall k :: 0 <= k < |fs| ==> fs[k] == Field(20, ClockSteps(k, clock[k]))
  {
    seq(|clock|, k requires 0 <= k < |clock| => Field(20, ClockSteps(k, clock[k])))
  }

  /** One satellite on the wire. */
  function SatFields(s: SatData, refPoint: int, refDatum: int, orbit: bool, clock: bool): (fs: seq<Field>) {
    [Field(6, s.ID)] + SatPayload(s, refPoint, refDatum, orbit, clock)
  }

  /** Everything after the satellite number. */
  function SatPayload(s: SatData, refPoint: int, refDatum: int, orbit: bool, clock: bool): (fs: seq<Field>) {
    [Field(8, s.IOD)]
    + (if orbit then OrbitFields(s.Orbit) + [Field(1, refPoint), Field(1, refDatum)] else [])
    + (if clock then ClockFields(s.Clock) else [])
  }

  function BiasListFields(b: seq<CodeBias>): seq<Field> {
    if |b| == 0 then []
    else BiasListFields(b[..|b| - 1])
         + [Field(5, b[|b| - 1].Type), Field(20, BiasSteps(b[|b| - 1].Value))]
  }

  function BiasSatFields(s: BiasSat): seq<Field>
    requires IsBiasSat(s)
  {
    [Field(6, s.ID)] + BiasPayload(s)
  }

  function BiasPayload(s: BiasSat): seq<Field>
    requires IsBiasSat(s)
  {
    [Field(5, s.NumberOfCodeBiases)] + BiasListFields(s.Biases[..s.NumberOfCodeBiases])
  }

  function HeaderFields(number: int, epochBits: nat, epoch: int, mmi: int, count: int): seq<Field> {
    [Field(12, number), Field(epochBits, epoch), Field(1, mmi), Field(6, 0), Field(5, count)]
  }

  // ---------- messages ----------

  /** A message before its multiple-message bit is known: header values and one field list per satellite. */
  datatype Draft = Draft(number: int, epochBits: nat, epoch: int, groups: seq<seq<Field>>)

  ghost function GroupBits(gs: seq<seq<Field>>): BitString {
    if |gs| == 0 then [] else GroupBits(gs[..|gs| - 1]) + FieldBits(gs[|gs| - 1])
  }

  /** The body bits of a message. */
  ghost function DraftBits(d: Draft, mmi: int): BitString {
    FieldBits(HeaderFields(d.number, d.epochBits, d.epoch, mmi, |d.groups|)) + GroupBits(d.groups)
  }

  function SatGroups(c: ClockOrbitData, k: Kind): (gs: seq<seq<Field>>)
    requires IsClockOrbit(c)
    ensures |gs| == k.Count(c)
    ensures forall i :: 0 <= i < |gs| ==>
      gs[i] == SatFields(c.Sat[k.Base() + i], c.SatRefPoint, c.SatRefDatum, k.HasOrbit(), k.HasClock())
  {
    seq(k.Count(c), i requires 0 <= i < k.Count(c) =>
      SatFields(c.Sat[k.Base() + i], c.SatRefPoint, c.SatRefDatum, k.HasOrbit(), k.HasClock()))
  }

  function DraftOf(c: ClockOrbitData, k: Kind): Draft
    requires IsClockOrbit(c)
  {
    Draft(k.Number(), k.EpochBits(), k.Epoch(c), SatGroups(c, k))
  }

  function BiasGroups(b: BiasData, base: nat, n: nat): (gs: seq<seq<Field>>)
    requires IsBias(b) && base + n <= |b.Sat|
    ensures |gs| == n && forall i :: 0 <= i < n ==> gs[i] == BiasSatFields(b.Sat[base + i])
  {
    seq(n, i requires 0 <= i < n => BiasSatFields(b.Sat[base + i]))
  }

  function BiasDraft(b: BiasData, gps: bool): Draft
    requires IsBias(b)
  {
    if gps then Draft(4052, 20, b.GPSEpochTime, BiasGroups(b, 0, b.NumberOfGPSSat))
    else Draft(4055, 20, b.GLONASSEpochTime, BiasGroups(b, NUMGPS, b.NumberOfGLONASSSat))
  }

  // ---------- which messages are sent ----------

  function Opt<T>(c: bool, x: T): seq<T> {
    if c then [x] else []
  }

  /** The messages whose guard holds, in order. */
  function Taken(s: seq<(bool, Draft)>): (p: seq<Draft>)
    ensures |p| <= |s|
  {
    if |s| == 0 then [] else Taken(s[..|s| - 1]) + Opt(s[|s| - 1].0, s[|s| - 1].1)
  }

  /** The six encoder branches with their guards, in the order they are written. */
  function Branches(c: ClockOrbitData, number: int): (s: seq<(bool, Draft)>)
    requires IsClockOrbit(c)
  {
    var gps, glo := c.NumberOfGPSSat != 0, c.NumberOfGLONASSSat != 0;
    var orbit, clock := c.OrbitDataSupplied, c.ClockDataSupplied;
    var gpsco := gps && clock && orbit && (number == AUTO || number == 4056);
    var gloco := glo && clock && orbit && (number == AUTO || number == 4057);
    [(gps && orbit && (number == AUTO || number == 4050) && !gpsco, DraftOf(c, GpsOrbit)),
     (gps && clock && (number == AUTO || number == 4051) && !gpsco, DraftOf(c, GpsClock)),
     (gpsco, DraftOf(c, GpsCombined)),
     (glo && orbit && (number == AUTO || number == 4053) && !gloco, DraftOf(c, GlonassOrbit)),
     (glo && clock && (number == AUTO || number == 4054) && !gloco, DraftOf(c, GlonassClock)),
     (gloco, DraftOf(c, GlonassCombined))]
  }

  function BiasBranches(b: BiasData, number: int): (s: seq<(bool, Draft)>)
    requires IsBias(b)
  {
    [(b.NumberOfGPSSat != 0 && (number == AUTO || number == 4052), BiasDraft(b, true)),
     (b.NumberOfGLONASSSat != 0 && (number == AUTO || number == 4055), BiasDraft(b, false))]
  }

  /** The messages MakeClockOrbit sends for a type (0 asks for everything supplied). */
  function Plan(c: ClockOrbitData, number: int): seq<Draft>
    requires IsClockOrbit(c)
  {
    Taken(Branches(c, number))
  }

  function BiasPlan(b: BiasData, number: int): seq<Draft>
    requires IsBias(b)
  {
    Taken(BiasBranches(b, number))
  }

  /** The multiple-message bit of message k out of n. */
  function MoreBit(k: nat, n: nat, moremessagesfollow: bool): int {
    if k + 1 < n || moremessagesfollow then 1 else 0
  }

  /** The bodies of the blocks for the first messages of a plan of `total`. */
  ghost function Bodies(plan: seq<Draft>, total: nat, more: bool): (b: seq<BitString>)
    ensures |b| == |plan|
    ensures forall k :: 0 <= k < |b| ==> b[k] == DraftBits(plan[k], MoreBit(k, total, more))
  {
    seq(|plan|, k requires 0 <= k < |plan| => DraftBits(plan[k], MoreBit(k, total, more)))
  }

  // ---------- classes ----------

  /** struct ClockOrbit.  Sat and epochGPS are arrays embedded in the struct, so they cannot be shared. */
  class ClockOrbit {
    var GPSEpochTime: int
    var GLONASSEpochTime: int
    var NumberOfGPSSat: int
    var NumberOfGLONASSSat: int
    var ClockDataSupplied: bool
    var OrbitDataSupplied: bool
    var epochGPS: seq<int>
    var epochSize: int
    var SatRefPoint: int
    var SatRefDatum: int
    var Sat: seq<SatData>

    /** A zeroed structure. */
    constructor ()
      ensures View() == ClockOrbitData(0, 0, 0, 0, false, false, seq(101, _ => 0), 0, 0, 0,
                                       seq(NUMGPS + NUMGLONASS, _ => NO_SAT))
    {
      GPSEpochTime, GLONASSEpochTime, NumberOfGPSSat, NumberOfGLONASSSat := 0, 0, 0, 0;
      ClockDataSupplied, OrbitDataSupplied := false, false;
      epochGPS, epochSize, SatRefPoint, SatRefDatum := seq(101, _ => 0), 0, 0, 0;
      Sat := seq(NUMGPS + NUMGLONASS, _ => NO_SAT);
    }

    function View(): ClockOrbitData
      reads this
    {
      ClockOrbitData(GPSEpochTime, GLONASSEpochTime, NumberOfGPSSat, NumberOfGLONASSSat, ClockDataSupplied,
                     OrbitDataSupplied, epochGPS, epochSize, SatRefPoint, SatRefDatum, Sat)
    }

    ghost predicate Valid()
      reads this
    {
      IsClockOrbit(View())
    }
  }

  class Bias {
    var GPSEpochTime: int
    var GLONASSEpochTime: int
    var NumberOfGPSSat: int
    var NumberOfGLONASSSat: int
    var Sat: seq<BiasSat>

    function View(): BiasData
      reads this
    {
      BiasData(GPSEpochTime, GLONASSEpochTime, NumberOfGPSSat, NumberOfGLONASSSat, Sat)
    }

    ghost predicate Valid()
      reads this
    {
      IsBias(View())
    }
  }
}
