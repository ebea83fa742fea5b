// gtime_t: conversion to and from calendar dates, and between GPS time and UTC (iwise_ppp/cross.c).
module GpsTime {
  import opened CastMath
  import opened Calendar

  /** Whole seconds since 1970 and a fraction. */
  datatype GTime = GTime(time: int, sec: real)

  /** The fraction is under one second, as the structure's declaration asks. */
  predicate IsTime(t: GTime) {
    0.0 <= t.sec < 1.0
  }

  const END_OF_2099 := 4102444800

  /** timeadd */
  function TimeAdd(t: GTime, sec: real): (r: GTime)
    ensures IsTime(r)
    ensures r.time as real + r.sec == t.time as real + t.sec + sec
  {
    var tt := (t.sec + sec).Floor;
    GTime(t.time + tt, t.sec + sec - tt as real)
  }

  /** timediff */
  function TimeDiff(t1: GTime, t2: GTime): real {
    (t1.time - t2.time) as real + t1.sec - t2.sec
  }

  /** epoch2time */
  function Epoch2Time(ep: seq<real>): GTime
    requires |ep| >= 6
  {
    var year, mon, day := Trunc(ep[0]), Trunc(ep[1]), Trunc(ep[2]);
    if year < 1970 || 2099 < year || mon < 1 || 12 < mon then GTime(0, 0.0)
    else
      var sec := ep[5].Floor;
      GTime(DayFormula(year, mon, day) * 86400 + Trunc(ep[3]) * 3600 + Trunc(ep[4]) * 60 + sec, ep[5] - sec as real)
  }

  /** A date and time of day between 1970 and 2099. */
  ghost predicate IsCivil(ep: seq<real>) {
    && |ep| == 6
    && (forall k :: 0 <= k < 5 ==> ep[k] == Trunc(ep[k]) as real)
    && IsDate(Trunc(ep[0]), Trunc(ep[1]), Trunc(ep[2]))
    && 0 <= Trunc(ep[3]) < 24 && 0 <= Trunc(ep[4]) < 60 && 0.0 <= ep[5] < 60.0
  }

  // ---------- calendar round trips ----------

  lemma SplitSeconds(a: int, b: int, h: int, m: int, s: int, h': int, m': int, s': int)
    requires 0 <= h < 24 && 0 <= m < 60 && 0 <= s < 60 && 0 <= h' < 24 && 0 <= m' < 60 && 0 <= s' < 60
    requires a * 86400 + h * 3600 + m * 60 + s == b * 86400 + h' * 3600 + m' * 60 + s'
    ensures a == b && h == h' && m == m' && s == s'
  {
  }

  /** Different dates have different day numbers. */
  lemma DayFormulaInjective(y: int, m: int, d: int, y': int, m': int, d': int)
    requires IsDate(y, m, d) && IsDate(y', m', d') && DayFormula(y, m, d) == DayFormula(y', m', d')
    ensures y == y' && m == m' && d == d'
  {
    hide Elapsed, DayFormula, Mday;
    var q, r := CycleDay(y, m, d);
    var q', r' := CycleDay(y', m', d');
    assert q == q' && r == r';
    OneMonth(r, 12 * ((y - 1970) % 4) + m - 1, 12 * ((y' - 1970) % 4) + m' - 1);
  }

  /** Where a date lies in its four-year cycle. */
  lemma CycleDay(y: int, m: int, d: int) returns (q: int, r: int)
    requires IsDate(y, m, d)
    ensures q == (y - 1970) / 4 && 0 <= r < 1461 && DayFormula(y, m, d) == 1461 * q + r
    ensures var k := 12 * ((y - 1970) % 4) + m - 1;
      0 <= k < 48 && Elapsed(k) <= r < Elapsed(k + 1) && d - 1 == r - Elapsed(k)
  {
    hide Elapsed, DayFormula, Mday;
    var yy := (y - 1970) % 4;
    q := (y - 1970) / 4;
    var k := 12 * yy + m - 1;
    FormulaByCycle(q, yy, m - 1, d - 1);
    CycleMonth(q, yy, m - 1);
    ElapsedStep(k);
    ElapsedYears();
    ElapsedGrows(k + 1, 48);
    ElapsedGrows(0, k);
    r := Elapsed(k) + d - 1;
  }

  lemma EpochValue(ep: seq<real>)
    requires IsCivil(ep)
    ensures Epoch2Time(ep) ==
      GTime(DayFormula(Trunc(ep[0]), Trunc(ep[1]), Trunc(ep[2])) * 86400
            + Trunc(ep[3]) * 3600 + Trunc(ep[4]) * 60 + ep[5].Floor, ep[5] - ep[5].Floor as real)
    ensures 0 <= ep[5].Floor < 60
  {
  }

  lemma DayRange(y: int, m: int, d: int)
    requires IsDate(y, m, d)
    ensures 0 <= DayFormula(y, m, d) < 47482
  {
    hide DayFormula, MonthLength, Elapsed;
    var q, r := CycleDay(y, m, d);
    if q == 32 {
      var k := 12 * ((y - 1970) % 4) + m - 1;
      assert k < 24;
      ElapsedYears();
      ElapsedGrows(k + 1, 24);
    }
  }

  lemma SecondsRange(days: int, h: int, m: int, s: int)
    requires 0 <= days < 47482 && 0 <= h < 24 && 0 <= m < 60 && 0 <= s < 60
    ensures 0 <= days * 86400 + h * 3600 + m * 60 + s < END_OF_2099
  {
  }

  /** Every civil time is a normalised time before the end of 2099. */
  lemma EpochInRange(ep: seq<real>)
    requires IsCivil(ep)
    ensures IsTime(Epoch2Time(ep)) && 0 <= Epoch2Time(ep).time < END_OF_2099
  {
    EpochValue(ep);
    hide Trunc, DayFormula, Epoch2Time, MonthLength;
    DayRange(Trunc(ep[0]), Trunc(ep[1]), Trunc(ep[2]));
    SecondsRange(DayFormula(Trunc(ep[0]), Trunc(ep[1]), Trunc(ep[2])), Trunc(ep[3]), Trunc(ep[4]), ep[5].Floor);
  }

  /** No two civil times are the same gtime_t. */
  lemma EpochUnique(ep: seq<real>, ep': seq<real>)
    requires IsCivil(ep) && IsCivil(ep') && Epoch2Time(ep) == Epoch2Time(ep')
    ensures ep == ep'
  {
    EpochValue(ep);
    EpochValue(ep');
    hide Trunc, DayFormula, Epoch2Time, MonthLength;
    SplitSeconds(DayFormula(Trunc(ep[0]), Trunc(ep[1]), Trunc(ep[2])),
                 DayFormula(Trunc(ep'[0]), Trunc(ep'[1]), Trunc(ep'[2])),
                 Trunc(ep[3]), Trunc(ep[4]), ep[5].Floor, Trunc(ep'[3]), Trunc(ep'[4]), ep'[5].Floor);
    DayFormulaInjective(Trunc(ep[0]), Trunc(ep[1]), Trunc(ep[2]), Trunc(ep'[0]), Trunc(ep'[1]), Trunc(ep'[2]));
    assert ep[5] == ep'[5];
    forall k | 0 <= k < 6
      ensures ep[k] == ep'[k]
    {
      if k < 5 {
        assert ep[k] == Trunc(ep[k]) as real && ep'[k] == Trunc(ep'[k]) as real;
      }
    }
  }

  /** The date found by the loop of time2epoch. */
  lemma LoopDate(days: int, mon: int, day: int)
    requires 0 <= days < 47482 && 0 <= mon < 48 && day == days % 1461 - Elapsed(mon) && 0 <= day < Mday(mon)
    ensures var y, m := 1970 + days / 1461 * 4 + mon / 12, mon % 12 + 1;
      IsDate(y, m, day + 1) && DayFormula(y, m, day + 1) == days
  {
    hide Elapsed, DayFormula, Mday, MonthLength;
    var q, yy, m := days / 1461, mon / 12, mon % 12;
    assert days == 1461 * q + days % 1461 && mon == 12 * yy + m;
    if q == 32 && mon >= 24 {
      ElapsedYears();
      ElapsedGrows(24, mon);
      assert false;
    }
    FormulaByCycle(q, yy, m, day);
    CycleMonth(q, yy, m);
  }

  lemma ClockParts(sec: int)
    requires 0 <= sec < 86400
    ensures 0 <= sec / 3600 < 24 && 0 <= sec % 3600 / 60 < 60 && 0 <= sec % 60 < 60
    ensures sec == sec / 3600 * 3600 + sec % 3600 / 60 * 60 + sec % 60
  {
  }

  /** time2epoch: from 1970 to 2099 it yields the civil time that epoch2time maps back to t. */
  method Time2Epoch(t: GTime, ep: array<real>)
    requires ep.Length == 6
    modifies ep
    ensures IsTime(t) && 0 <= t.time < END_OF_2099 ==> IsCivil(ep[..]) && Epoch2Time(ep[..]) == t
  {
    hide DayFormula, Elapsed, Mday, MonthLength, Trunc;
    var days := DivC(t.time, 86400);
    var sec := t.time - days * 86400;
    var mon, day := SubtractMonths(ModC(days, 1461));
    ep[0] := (1970 + DivC(days, 1461) * 4 + DivC(mon, 12)) as real;
    ep[1], ep[2] := (ModC(mon, 12) + 1) as real, (day + 1) as real;
    ep[3], ep[4], ep[5] := DivC(sec, 3600) as real, DivC(ModC(sec, 3600), 60) as real, ModC(sec, 60) as real + t.sec;
    if IsTime(t) && 0 <= t.time < END_OF_2099 {
      LoopDate(days, mon, day);
      ClockParts(sec);
      CivilParts(ep[..], 1970 + days / 1461 * 4 + mon / 12, mon % 12 + 1, day + 1,
                 sec / 3600, sec % 3600 / 60, sec % 60, t.sec);
    }
  }

  /** time2epoch undoes epoch2time on every civil time. */
  method CivilRoundTrip(ep0: seq<real>, ep: array<real>)
    requires IsCivil(ep0) && ep.Length == 6
    modifies ep
    ensures ep[..] == ep0
  {
    hide IsCivil, Epoch2Time;
    EpochInRange(ep0);
    CivilSize(ep0);
    Time2Epoch(Epoch2Time(ep0), ep);
    EpochUnique(ep[..], ep0);
  }

  lemma CivilSize(ep: seq<real>)
    requires IsCivil(ep)
    ensures |ep| == 6
  {
  }

  lemma CivilParts(ep: seq<real>, y: int, m: int, d: int, h: int, mi: int, s: int, f: real)
    requires ep == [y as real, m as real, d as real, h as real, mi as real, s as real + f]
    requires IsDate(y, m, d) && 0 <= h < 24 && 0 <= mi < 60 && 0 <= s < 60 && 0.0 <= f < 1.0
    ensures IsCivil(ep)
    ensures Epoch2Time(ep) == GTime(DayFormula(y, m, d) * 86400 + h * 3600 + mi * 60 + s, f)
  {
    hide Trunc, DayFormula, MonthLength;
    TruncWhole(y);
    TruncWhole(m);
    TruncWhole(d);
    TruncWhole(h);
    TruncWhole(mi);
    assert (s as real + f).Floor == s;
  }
}
