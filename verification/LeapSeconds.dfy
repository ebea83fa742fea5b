// gpst2utc and utc2gpst over the leap second table of iwise_ppp/cross.c.
module LeapSeconds {
  import opened CastMath
  import opened Calendar
  import opened GpsTime

  const ROWS := 16

  /** A row of the table: the UTC date from which UTC - GPST is the offset. */
  function Row(i: nat): (r: (real, real, real))
    requires i < ROWS
  {
    match i
    case 0 => (2012.0, 7.0, -16.0)
    case 1 => (2009.0, 1.0, -15.0)
    case 2 => (2006.0, 1.0, -14.0)
    case 3 => (1999.0, 1.0, -13.0)
    case 4 => (1997.0, 7.0, -12.0)
    case 5 => (1996.0, 1.0, -11.0)
    case 6 => (1994.0, 7.0, -10.0)
    case 7 => (1993.0, 7.0, -9.0)
    case 8 => (1992.0, 7.0, -8.0)
    case 9 => (1991.0, 1.0, -7.0)
    case 10 => (1990.0, 1.0, -6.0)
    case 11 => (1988.0, 1.0, -5.0)
    case 12 => (1985.0, 7.0, -4.0)
    case 13 => (1983.0, 7.0, -3.0)
    case 14 => (1982.0, 7.0, -2.0)
    case _ => (1981.0, 7.0, -1.0)
  }

  /** Every row starts on the first of its month at midnight. */
  function Start(i: nat): GTime
    requires i < ROWS
  {
    Epoch2Time([Row(i).0, Row(i).1, 1.0, 0.0, 0.0, 0.0])
  }

  function Offset(i: nat): real
    requires i < ROWS
  {
    Row(i).2
  }

  // ---------- the two searches ----------

  /** The first row, from i on, that has begun at UTC time t. */
  function UtcRow(t: GTime, i: nat): (k: nat)
    requires i <= ROWS
    ensures i <= k <= ROWS
    decreases ROWS - i
  {
    if i == ROWS || TimeDiff(t, Start(i)) >= 0.0 then i else UtcRow(t, i + 1)
  }

  /** The first row, from i on, that has begun at GPS time t. */
  function GpsRow(t: GTime, i: nat): (k: nat)
    requires i <= ROWS
    ensures i <= k <= ROWS
    decreases ROWS - i
  {
    if i == ROWS || TimeDiff(TimeAdd(t, Offset(i)), Start(i)) >= 0.0 then i else GpsRow(t, i + 1)
  }

  function UtcToGps(t: GTime): GTime {
    if UtcRow(t, 0) == ROWS then t else TimeAdd(t, -Offset(UtcRow(t, 0)))
  }

  function GpsToUtc(t: GTime): GTime {
    if GpsRow(t, 0) == ROWS then t else TimeAdd(t, Offset(GpsRow(t, 0)))
  }

  /** utc2gpst */
  method Utc2Gpst(t: GTime) returns (r: GTime)
    ensures r == UtcToGps(t)
  {
    hide Row, Epoch2Time, TimeAdd;
    for i := 0 to ROWS
      invariant UtcRow(t, 0) == UtcRow(t, i)
    {
      if TimeDiff(t, Start(i)) >= 0.0 {
        return TimeAdd(t, -Offset(i));
      }
    }
    return t;
  }

  /** gpst2utc */
  method Gpst2Utc(t: GTime) returns (tu: GTime)
    ensures tu == GpsToUtc(t)
  {
    hide Row, Epoch2Time, TimeAdd;
    for i := 0 to ROWS
      invariant GpsRow(t, 0) == GpsRow(t, i)
    {
      tu := TimeAdd(t, Offset(i));
      if TimeDiff(tu, Start(i)) >= 0.0 {
        return tu;
      }
    }
    return t;
  }

  // ---------- the table in whole seconds ----------

  function StartDay(i: nat): int
    requires i < ROWS
  {
    match i
    case 0 => 15522
    case 1 => 14245
    case 2 => 13149
    case 3 => 10592
    case 4 => 10043
    case 5 => 9496
    case 6 => 8947
    case 7 => 8582
    case 8 => 8217
    case 9 => 7670
    case 10 => 7305
    case 11 => 6574
    case 12 => 5660
    case 13 => 4929
    case 14 => 4564
    case _ => 4199
  }

  function RowYear(i: nat): int
    requires i < ROWS
  {
    match i
    case 0 => 2012 case 1 => 2009 case 2 => 2006 case 3 => 1999
    case 4 => 1997 case 5 => 1996 case 6 => 1994 case 7 => 1993
    case 8 => 1992 case 9 => 1991 case 10 => 1990 case 11 => 1988
    case 12 => 1985 case 13 => 1983 case 14 => 1982 case _ => 1981
  }

  function RowMonth(i: nat): int
    requires i < ROWS
  {
    if i == 1 || i == 2 || i == 3 || i == 5 || i == 9 || i == 10 || i == 11 then 1 else 7
  }

  lemma RowCasts(i: nat)
    requires i < ROWS
    ensures Row(i).0 == RowYear(i) as real && Row(i).1 == RowMonth(i) as real && Offset(i) == (i - ROWS) as real
  {
  }

  lemma RowDay(i: nat)
    requires i < ROWS
    ensures 1970 <= RowYear(i) <= 2099 && DayFormula(RowYear(i), RowMonth(i), 1) == StartDay(i)
  {
  }

  function Second(i: nat): int
    requires i < ROWS
  {
    86400 * StartDay(i)
  }

  lemma StartValue(i: nat)
    requires i < ROWS
    ensures Start(i) == GTime(Second(i), 0.0)
  {
    hide Row, RowYear, RowMonth, StartDay, Trunc, DayFormula;
    RowCasts(i);
    RowDay(i);
    TruncWhole(RowYear(i));
    TruncWhole(RowMonth(i));
    TruncWhole(1);
    TruncWhole(0);
    MonthRange(i);
  }

  lemma MonthRange(i: nat)
    requires i < ROWS
    ensures 1 <= RowMonth(i) <= 12
  {
  }

  /** The rows are in descending order, leap seconds at least half a year apart. */
  lemma {:induction false} Descending(i: nat, j: nat)
    requires i < j < ROWS
    ensures Second(i) > Second(j) + 15552000
    decreases j
  {
    hide StartDay;
    if i + 1 < j {
      Descending(i, j - 1);
    }
    NextRow(j - 1);
  }

  lemma NextRow(i: nat)
    requires i + 1 < ROWS
    ensures Second(i) > Second(i + 1) + 15552000
  {
  }

  lemma ShiftWhole(t: GTime, n: int)
    requires IsTime(t)
    ensures TimeAdd(t, n as real) == GTime(t.time + n, t.sec)
  {
    assert (t.sec + n as real).Floor == n;
  }

  lemma Begun(t: GTime, i: nat)
    requires IsTime(t) && i < ROWS
    ensures TimeDiff(t, Start(i)) >= 0.0 <==> t.time >= Second(i)
    ensures TimeDiff(TimeAdd(t, Offset(i)), Start(i)) >= 0.0 <==> t.time - (ROWS - i) >= Second(i)
    ensures TimeAdd(t, Offset(i)) == GTime(t.time - (ROWS - i), t.sec)
    ensures TimeAdd(t, -Offset(i)) == GTime(t.time + (ROWS - i), t.sec)
  {
    hide Row, RowYear, RowMonth, Epoch2Time, StartDay, TimeAdd;
    StartValue(i);
    RowCasts(i);
    ShiftWhole(t, i - ROWS);
    ShiftWhole(t, ROWS - i);
    assert -Offset(i) == (ROWS - i) as real;
  }

  /** k is the row in force at UTC second s. */
  ghost predicate InForce(s: int, k: nat) {
    k <= ROWS && (k < ROWS ==> s >= Second(k)) && (k > 0 ==> s < Second(k - 1))
  }

  lemma {:induction false} UtcRowInForce(t: GTime, i: nat, k: nat)
    requires IsTime(t) && i <= k && InForce(t.time, k)
    ensures UtcRow(t, i) == k
    decreases k - i
  {
    hide Start, StartDay, TimeAdd;
    if i < k {
      if i < k - 1 {
        Descending(i, k - 1);
      }
      Begun(t, i);
      UtcRowInForce(t, i + 1, k);
    } else if i < ROWS {
      Begun(t, i);
    }
  }

  /** Before row k applies, GPS time minus each earlier row's offset still falls short of that row. */
  lemma {:induction false} GpsRowInForce(t: GTime, i: nat, k: nat)
    requires IsTime(t) && i <= k <= ROWS
    requires (k < ROWS ==> t.time - (ROWS - k) >= Second(k)) && (k > 0 ==> t.time - (ROWS - (k - 1)) < Second(k - 1))
    ensures GpsRow(t, i) == k
    decreases k - i
  {
    hide Start, StartDay, TimeAdd, Offset;
    if i < k {
      if i < k - 1 {
        Descending(i, k - 1);
      }
      Begun(t, i);
      GpsRowInForce(t, i + 1, k);
    } else if i < ROWS {
      Begun(t, i);
    }
  }

  /** Some row is in force at every second. */
  lemma FindRow(s: int, i: nat) returns (k: nat)
    requires i <= ROWS && (i > 0 ==> s < Second(i - 1))
    ensures i <= k && InForce(s, k)
    decreases ROWS - i
  {
    hide Second;
    if i == ROWS || s >= Second(i) {
      k := i;
    } else {
      k := FindRow(s, i + 1);
    }
  }

  lemma FindGpsRow(s: int, i: nat) returns (k: nat)
    requires i <= ROWS && (i > 0 ==> s - (ROWS - (i - 1)) < Second(i - 1))
    ensures i <= k <= ROWS
    ensures (k < ROWS ==> s - (ROWS - k) >= Second(k)) && (k > 0 ==> s - (ROWS - (k - 1)) < Second(k - 1))
    decreases ROWS - i
  {
    hide Second;
    if i == ROWS || s - (ROWS - i) >= Second(i) {
      k := i;
    } else {
      k := FindGpsRow(s, i + 1);
    }
  }

  lemma UtcToGpsValue(t: GTime, k: nat)
    requires IsTime(t) && InForce(t.time, k)
    ensures UtcToGps(t) == GTime(t.time + (ROWS - k), t.sec)
  {
    hide Start, StartDay, TimeAdd, Offset, UtcRow, InForce;
    UtcRowInForce(t, 0, k);
    AtMostRows(t.time, k);
    if k < ROWS {
      Begun(t, k);
    }
  }

  lemma AtMostRows(s: int, k: nat)
    requires InForce(s, k)
    ensures k <= ROWS
  {
  }

  lemma GpsToUtcValue(t: GTime, k: nat)
    requires IsTime(t) && k <= ROWS
    requires (k < ROWS ==> t.time - (ROWS - k) >= Second(k)) && (k > 0 ==> t.time - (ROWS - (k - 1)) < Second(k - 1))
    ensures GpsToUtc(t) == GTime(t.time - (ROWS - k), t.sec)
  {
    hide Start, StartDay, TimeAdd, Offset, GpsRow;
    GpsRowInForce(t, 0, k);
    if k < ROWS {
      Begun(t, k);
    }
  }

  /** UTC survives the trip through GPS time, always. */
  lemma UtcRoundTrip(u: GTime)
    requires IsTime(u)
    ensures GpsToUtc(UtcToGps(u)) == u
  {
    hide UtcToGps, GpsToUtc, Second;
    var k := FindRow(u.time, 0);
    UtcToGpsValue(u, k);
    GpsToUtcValue(UtcToGps(u), k);
  }

  /** The GPS second in which row j's leap second is being inserted. */
  ghost predicate Inserting(g: GTime) {
    exists j: nat :: j < ROWS && g.time == Second(j) + (ROWS - j) - 1
  }

  /** GPS time survives the trip through UTC except in an inserted second, from which it comes back one later. */
  lemma GpsRoundTrip(g: GTime)
    requires IsTime(g)
    ensures UtcToGps(GpsToUtc(g)) == if Inserting(g) then GTime(g.time + 1, g.sec) else g
  {
    hide UtcToGps, GpsToUtc, Second;
    var k := FindGpsRow(g.time, 0);
    GpsToUtcValue(g, k);
    var u := GpsToUtc(g);
    if k > 0 && u.time == Second(k - 1) {
      if k > 1 {
        Descending(k - 2, k - 1);
      }
      UtcToGpsValue(u, k - 1);
      assert Inserting(g);
    } else {
      UtcToGpsValue(u, k);
      NotInserting(g, k);
    }
  }

  /** Outside the last second before row k - 1 takes effect, no row is being inserted. */
  lemma NotInserting(g: GTime, k: nat)
    requires k <= ROWS
    requires (k < ROWS ==> g.time - (ROWS - k) >= Second(k)) && (k > 0 ==> g.time - (ROWS - (k - 1)) < Second(k - 1))
    requires k > 0 ==> g.time - (ROWS - k) != Second(k - 1)
    ensures !Inserting(g)
  {
    hide Second;
    forall j: nat | j < ROWS
      ensures g.time != Second(j) + (ROWS - j) - 1
    {
      if j > k {
        Descending(k, j);
      } else if j + 1 < k {
        Descending(j, k - 1);
      }
    }
  }
}
