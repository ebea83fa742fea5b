// The civil calendar: a Gregorian reference, the closed day formula of epoch2time, and the 48-month subtraction
// loop of time2epoch (iwise_ppp/cross.c).
module Calendar {

  // ---------- Gregorian reference ----------

  predicate IsLeapYear(y: int) {
    y % 4 == 0 && (y % 100 != 0 || y % 400 == 0)
  }

  function MonthLength(y: int, m: int): int {
    if m == 2 then (if IsLeapYear(y) then 29 else 28)
    else if m == 4 || m == 6 || m == 9 || m == 11 then 30
    else 31
  }

  predicate IsDate(y: int, m: int, d: int) {
    1970 <= y <= 2099 && 1 <= m <= 12 && 1 <= d <= MonthLength(y, m)
  }

  /** Days in the years from 1970 up to and not including y. */
  function YearsBefore(y: int): int
    requires y >= 1970
    decreases y
  {
    if y == 1970 then 0 else YearsBefore(y - 1) + if IsLeapYear(y - 1) then 366 else 365
  }

  /** Days in the months of year y before month m. */
  function MonthsBefore(y: int, m: int): int
    requires 1 <= m <= 12
    decreases m
  {
    if m == 1 then 0 else MonthsBefore(y, m - 1) + MonthLength(y, m - 1)
  }

  /** Days since 1970-01-01, counted year by year and month by month. */
  function DayNumber(y: int, m: int, d: int): int
    requires 1970 <= y && 1 <= m <= 12
  {
    YearsBefore(y) + MonthsBefore(y, m) + d - 1
  }

  // ---------- the closed formula ----------

  const DAY_OF_YEAR: seq<int> := [1, 32, 60, 91, 121, 152, 182, 213, 244, 274, 305, 335]

  /** The expression of epoch2time; its leap rule is year % 4 == 0. */
  function DayFormula(y: int, m: int, d: int): int
    requires 1970 <= y && 1 <= m <= 12
  {
    (y - 1970) * 365 + (y - 1969) / 4 + DAY_OF_YEAR[m - 1] + d - 2 + if y % 4 == 0 && m >= 3 then 1 else 0
  }

  lemma {:induction false} YearsClosed(y: int)
    requires 1970 <= y <= 2100
    ensures YearsBefore(y) == (y - 1970) * 365 + (y - 1969) / 4
    decreases y
  {
    if y > 1970 {
      YearsClosed(y - 1);
      EveryFourth(y - 1);
    }
  }

  lemma EveryFourth(y: int)
    requires 1970 <= y <= 2099
    ensures IsLeapYear(y) <==> y % 4 == 0
    ensures (y + 1 - 1969) / 4 == (y - 1969) / 4 + if y % 4 == 0 then 1 else 0
  {
  }

  lemma MonthsClosed(y: int, m: int)
    requires 1970 <= y <= 2099 && 1 <= m <= 12
    ensures MonthsBefore(y, m) == DAY_OF_YEAR[m - 1] - 1 + if y % 4 == 0 && m >= 3 then 1 else 0
  {
    EveryFourth(y);
    if m > 1 {
      MonthsClosed(y, m - 1);
    }
  }

  /** The closed formula counts Gregorian days over its whole range. */
  lemma DayFormulaIsGregorian(y: int, m: int, d: int)
    requires 1970 <= y <= 2099 && 1 <= m <= 12
    ensures DayFormula(y, m, d) == DayNumber(y, m, d)
  {
    YearsClosed(y);
    MonthsClosed(y, m);
  }

  // ---------- the 48-month loop ----------

  /** The month lengths of four years, 1970 to 1973. */
  function Mday(mon: int): (days: int)
    requires 0 <= mon < 48
    ensures 28 <= days <= 31
  {
    match mon
    case 0 => 31 case 1 => 28 case 2 => 31 case 3 => 30 case 4 => 31 case 5 => 30
    case 6 => 31 case 7 => 31 case 8 => 30 case 9 => 31 case 10 => 30 case 11 => 31
    case 12 => 31 case 13 => 28 case 14 => 31 case 15 => 30 case 16 => 31 case 17 => 30
    case 18 => 31 case 19 => 31 case 20 => 30 case 21 => 31 case 22 => 30 case 23 => 31
    case 24 => 31 case 25 => 29 case 26 => 31 case 27 => 30 case 28 => 31 case 29 => 30
    case 30 => 31 case 31 => 31 case 32 => 30 case 33 => 31 case 34 => 30 case 35 => 31
    case 36 => 31 case 37 => 28 case 38 => 31 case 39 => 30 case 40 => 31 case 41 => 30
    case 42 => 31 case 43 => 31 case 44 => 30 case 45 => 31 case 46 => 30 case _ => 31
  }

  /** Days in the first mon months of the table. */
  function Elapsed(mon: nat): int
    requires mon <= 48
  {
    if mon == 0 then 0 else Elapsed(mon - 1) + Mday(mon - 1)
  }

  /** Month m (from 0) of year yy of the cycle, in closed form; years 0, 1, 3 are common, year 2 is the leap year. */
  function ElapsedClosed(yy: int, m: int): int
    requires 0 <= yy < 4 && 0 <= m < 12
  {
    365 * yy + (if yy == 3 then 1 else 0) + DAY_OF_YEAR[m] - 1 + if yy == 2 && m >= 2 then 1 else 0
  }

  lemma ElapsedYears()
    ensures Elapsed(0) == 0 && Elapsed(12) == 365 && Elapsed(24) == 730 && Elapsed(36) == 1096 && Elapsed(48) == 1461
  {
    hide Elapsed, Mday;
    NoMonths();
    YearOfTable(0);
    YearOfTable(1);
    YearOfTable(2);
    YearOfTable(3);
  }

  lemma NoMonths()
    ensures Elapsed(0) == 0
  {
  }

  lemma YearOfTable(yy: int)
    requires 0 <= yy < 4
    ensures Elapsed(12 * yy + 12) == Elapsed(12 * yy) + if yy == 2 then 366 else 365
  {
    hide Elapsed, Mday;
    HalfYear(yy, 0);
    HalfYear(yy, 6);
  }

  lemma HalfYear(yy: int, m: int)
    requires 0 <= yy < 4 && (m == 0 || m == 6)
    ensures Elapsed(12 * yy + m + 6) == Elapsed(12 * yy + m) + if m == 6 then 184 else if yy == 2 then 182 else 181
  {
    hide Elapsed, Mday;
    for i := 0 to 6
      invariant Elapsed(12 * yy + m + i) == Elapsed(12 * yy + m) + FirstMonths(yy, m, i)
    {
      TableMonth(yy, m + i);
      ElapsedStep(12 * yy + m + i);
    }
  }

  /** Days in the i months from month m of year yy of the table. */
  function FirstMonths(yy: int, m: int, i: int): int
    requires 0 <= m < 12 && 0 <= i <= 12 - m
  {
    (if m + i == 12 then 366 else DAY_OF_YEAR[m + i]) - DAY_OF_YEAR[m]
    + if yy == 2 && m < 2 <= m + i then 1 else 0
  }

  lemma {:induction false} ElapsedIsClosed(yy: int, m: int)
    requires 0 <= yy < 4 && 0 <= m < 12
    ensures Elapsed(12 * yy + m) == ElapsedClosed(yy, m)
    decreases m
  {
    hide Mday, Elapsed;
    ElapsedYears();
    if m > 0 {
      ElapsedIsClosed(yy, m - 1);
      TableMonth(yy, m - 1);
      ElapsedStep(12 * yy + m - 1);
    }
  }

  lemma ElapsedStep(mon: nat)
    requires mon < 48
    ensures Elapsed(mon + 1) == Elapsed(mon) + Mday(mon)
  {
  }

  lemma TableMonth(yy: int, m: int)
    requires 0 <= yy < 4 && 0 <= m < 12
    ensures Mday(12 * yy + m) == if m == 1 then (if yy == 2 then 29 else 28)
                                 else if m == 3 || m == 5 || m == 8 || m == 10 then 30 else 31
  {
  }

  lemma {:induction false} ElapsedGrows(a: nat, b: nat)
    requires a <= b <= 48
    ensures Elapsed(a) <= Elapsed(b)
    decreases b
  {
    hide Mday;
    if a < b {
      ElapsedGrows(a, b - 1);
    }
  }

  /** A day of the cycle lies in one month only. */
  lemma OneMonth(r: int, a: nat, b: nat)
    requires a < 48 && b < 48
    requires Elapsed(a) <= r < Elapsed(a + 1) && Elapsed(b) <= r < Elapsed(b + 1)
    ensures a == b
  {
    hide Elapsed;
    if a < b {
      ElapsedGrows(a + 1, b);
    } else if b < a {
      ElapsedGrows(b + 1, a);
    }
  }

  /** The month table agrees with the calendar. */
  lemma CycleMonth(q: int, yy: int, m: int)
    requires 0 <= yy < 4 && 0 <= m < 12 && 1970 <= 1970 + 4 * q + yy <= 2099
    ensures MonthLength(1970 + 4 * q + yy, m + 1) == Mday(12 * yy + m)
  {
    EveryFourth(1970 + 4 * q + yy);
    CycleLeap(q, yy);
    TableMonth(yy, m);
  }

  lemma CycleLeap(q: int, yy: int)
    requires 0 <= yy < 4
    ensures (1970 + 4 * q + yy) % 4 == 0 <==> yy == 2
    ensures (1970 + 4 * q + yy - 1969) / 4 == q + if yy == 3 then 1 else 0
  {
  }

  /** The formula on a date written as cycle, year of the cycle and month. */
  lemma FormulaByCycle(q: int, yy: int, m: int, d: int)
    requires 0 <= yy < 4 && 0 <= m < 12 && q >= 0
    ensures DayFormula(1970 + 4 * q + yy, m + 1, d + 1) == 1461 * q + Elapsed(12 * yy + m) + d
  {
    CycleLeap(q, yy);
    ElapsedIsClosed(yy, m);
  }

  /** The search of time2epoch: how many whole months fit in day, and what is left. */
  method SubtractMonths(day0: int) returns (mon: int, day: int)
    requires day0 < 1461
    ensures 0 <= mon < 48
    ensures 0 <= day0 ==> day == day0 - Elapsed(mon) && 0 <= day < Mday(mon)
    ensures day0 < 0 ==> mon == 0 && day == day0
  {
    hide Mday, Elapsed;
    ElapsedYears();
    day := day0;
    mon := 0;
    while mon < 48
      invariant 0 <= mon <= 48 && day == day0 - Elapsed(mon)
      invariant if day0 >= 0 then day >= 0 else mon == 0
    {
      ElapsedStep(mon);
      if day >= Mday(mon) {
        day := day - Mday(mon);
      } else {
        break;
      }
      mon := mon + 1;
    }
  }
}
