/** Calendar arithmetic (runtime/datetime.c: syslogTime2time_t, getWeekdayNbr) against the Gregorian calendar. */
module Calendar {
  import opened Values

  // ----- the calendar, counted from the first day of year 0 -----

  predicate Leap(y: int) { y % 4 == 0 && (y % 100 != 0 || y % 400 == 0) }

  function YearDays(y: int): int { if Leap(y) then 366 else 365 }

  function MonthDays(y: int, m: int): int {
    if m == 2 then (if Leap(y) then 29 else 28) else if m == 4 || m == 6 || m == 9 || m == 11 then 30 else 31
  }

  function DaysToYear(y: nat): int { if y == 0 then 0 else DaysToYear(y - 1) + YearDays(y - 1) }

  /** Days from the first day of a year to the first day of a month. */
  function DaysToMonth(y: int, m: int): int
    requires 1 <= m <= 12
    decreases m
  {
    if m == 1 then 0 else DaysToMonth(y, m - 1) + MonthDays(y, m - 1)
  }

  function DayCount(y: nat, m: int, d: int): int
    requires 1 <= m <= 12
  {
    DaysToYear(y) + DaysToMonth(y, m) + d - 1
  }

  /** Day 0 of year 0 is a Saturday; Sunday is 0. */
  function Weekday(y: nat, m: int, d: int): int
    requires 1 <= m <= 12
  {
    (DayCount(y, m, d) + 6) % 7
  }

  // ----- closed forms -----

  /** Days to the end of year y less the 366 of year 0: the leap-year rule in closed form. */
  function Rule(y: int): int { 365 * y + y / 4 - y / 100 + y / 400 }

  lemma Quarter(y: nat)
    ensures (y + 1) / 4 == y / 4 + (if (y + 1) % 4 == 0 then 1 else 0)
  {}

  lemma Century(y: nat)
    ensures (y + 1) / 100 == y / 100 + (if (y + 1) % 100 == 0 then 1 else 0)
    ensures y % 100 == 0 ==> y % 4 == 0
  {
    assert y == 4 * (25 * (y / 100)) + y % 100;
  }

  lemma FourCenturies(y: nat)
    ensures (y + 1) / 400 == y / 400 + (if (y + 1) % 400 == 0 then 1 else 0)
    ensures y % 400 == 0 ==> y % 100 == 0
  {
    assert y == 100 * (4 * (y / 400)) + y % 400;
  }

  lemma RuleStep(y: nat)
    ensures Rule(y + 1) == Rule(y) + YearDays(y + 1)
  {
    Quarter(y);
    Century(y);
    Century(y + 1);
    FourCenturies(y);
    FourCenturies(y + 1);
  }

  lemma {:induction false} DaysToYearIs(y: nat)
    ensures DaysToYear(y) + (if Leap(y) then 1 else 0) == Rule(y) + 1
  {
    if y > 0 {
      DaysToYearIs(y - 1);
      RuleStep(y - 1);
    }
  }

  lemma {:induction false} MonthsIs(y: int, m: int)
    requires 1 <= m <= 12
    ensures m <= 2 ==> DaysToMonth(y, m) == (306 * (m + 13)) / 10 - 428
    ensures m > 2 ==> DaysToMonth(y, m) == (306 * (m + 1)) / 10 - 63 + (if Leap(y) then 1 else 0)
    decreases m
  {
    if m > 1 {
      MonthsIs(y, m - 1);
    }
  }

  // ----- seconds since 1970-01-01 -----

  function EpochDays(y: nat, m: int, d: int): int
    requires 1 <= m <= 12
  {
    DayCount(y, m, d) - DayCount(1970, 1, 1)
  }

  /** Days are counted one by one over the ends of months and years, from Thursday, 1 January 1970. */
  lemma DaysInARow(y: nat, m: int)
    requires 1 <= m <= 12
    ensures m < 12 ==> EpochDays(y, m + 1, 1) == EpochDays(y, m, MonthDays(y, m)) + 1
    ensures EpochDays(y + 1, 1, 1) == EpochDays(y, 12, 31) + 1
    ensures EpochDays(1970, 1, 1) == 0 && Weekday(1970, 1, 1) == 4
  {
    MonthsIs(y, 12);
    FirstOfYear(1970);
    assert Rule(1969) == 719162;
  }

  /** The first second of a year of the table. */
  function YearStart(y: int): int { 86400 * (365 * (y - 1970) + (y - 1) / 4 - 492) }

  lemma FirstOfYear(y: nat)
    requires y >= 1
    ensures DaysToYear(y) == Rule(y - 1) + 366
  {
    DaysToYearIs(y - 1);
    assert DaysToYear(y) == DaysToYear(y - 1) + YearDays(y - 1);
  }

  /** From 1968 to 2100 the centuries cancel. */
  lemma RuleNearNow(y: int)
    requires 1967 <= y < 2100
    ensures Rule(y) == 365 * y + y / 4 - 15
  {
    assert y / 100 - y / 400 == 15;
  }

  lemma YearStartIs(y: nat)
    requires 1968 <= y <= 2100
    ensures YearStart(y) == 86400 * EpochDays(y, 1, 1)
  {
    FirstOfYear(y);
    FirstOfYear(1970);
    RuleNearNow(y - 1);
    RuleNearNow(1969);
  }

  // The table holds the last second of each year from 1967 to 2099, so that the entry of year y - 1 precedes year y.

  const FROM_1968: seq<int> :=
    [-63158401, -31536001, -1, 31535999, 63071999, 94694399, 126230399, 157766399, 189302399,
     220924799, 252460799, 283996799, 315532799, 347155199, 378691199, 410227199, 441763199, 473385599,
     504921599, 536457599, 567993599, 599615999, 631151999, 662687999, 694223999, 725846399, 757382399,
     788918399, 820454399, 852076799, 883612799, 915148799, 946684799, 978307199, 1009843199, 1041379199]

  const FROM_2004: seq<int> :=
    [1072915199, 1104537599, 1136073599, 1167609599, 1199145599, 1230767999, 1262303999, 1293839999, 1325375999,
     1356998399, 1388534399, 1420070399, 1451606399, 1483228799, 1514764799, 1546300799, 1577836799, 1609459199,
     1640995199, 1672531199, 1704067199, 1735689599, 1767225599, 1798761599, 1830297599, 1861919999, 1893455999,
     1924991999, 1956527999, 1988150399, 2019686399, 2051222399, 2082758399, 2114380799, 2145916799, 2177452799]

  const FROM_2040: seq<int> :=
    [2208988799, 2240611199, 2272147199, 2303683199, 2335219199, 2366841599, 2398377599, 2429913599, 2461449599,
     2493071999, 2524607999, 2556143999, 2587679999, 2619302399, 2650838399, 2682374399, 2713910399, 2745532799,
     2777068799, 2808604799, 2840140799, 2871763199, 2903299199, 2934835199, 2966371199, 2997993599, 3029529599,
     3061065599, 3092601599, 3124223999, 3155759999, 3187295999, 3218831999, 3250454399, 3281990399, 3313526399]

  const FROM_2076: seq<int> :=
    [3345062399, 3376684799, 3408220799, 3439756799, 3471292799, 3502915199, 3534451199, 3565987199, 3597523199,
     3629145599, 3660681599, 3692217599, 3723753599, 3755375999, 3786911999, 3818447999, 3849983999, 3881606399,
     3913142399, 3944678399, 3976214399, 4007836799, 4039372799, 4070908799, 4102444799]

  const YEAR_IN_SECS: seq<int> := FROM_1968 + FROM_2004 + FROM_2040 + FROM_2076

  lemma From1968(i: nat)
    requires i < |FROM_1968|
    ensures |FROM_1968| == 36 && FROM_1968[i] == YearStart(1968 + i) - 1
  {}

  lemma From2004(i: nat)
    requires i < |FROM_2004|
    ensures |FROM_2004| == 36 && FROM_2004[i] == YearStart(2004 + i) - 1
  {}

  lemma From2040(i: nat)
    requires i < |FROM_2040|
    ensures |FROM_2040| == 36 && FROM_2040[i] == YearStart(2040 + i) - 1
  {}

  lemma From2076(i: nat)
    requires i < |FROM_2076|
    ensures |FROM_2076| == 25 && FROM_2076[i] == YearStart(2076 + i) - 1
  {}

  lemma TableIs(y: int)
    requires 1968 <= y <= 2100
    ensures |YEAR_IN_SECS| == 133 && YEAR_IN_SECS[y - 1968] == YearStart(y) - 1
  {
    From1968(if 1968 <= y < 2004 then y - 1968 else 0);
    From2004(if 2004 <= y < 2040 then y - 2004 else 0);
    From2040(if 2040 <= y < 2076 then y - 2040 else 0);
    From2076(if 2076 <= y < 2101 then y - 2076 else 0);
  }

  datatype Stamp = Stamp(year: nat, month: int, day: int, hour: int, minute: int, second: int,
                         offsetMode: char, offsetHour: int, offsetMinute: int)

  /** The day and time on the clock of the sender, as if it were UTC. */
  function LocalSeconds(ts: Stamp): int
    requires 1 <= ts.month <= 12
  {
    86400 * EpochDays(ts.year, ts.month, ts.day) + 3600 * ts.hour + 60 * ts.minute + ts.second
  }

  /** syslogTime2time_t: a clock with a + offset is ahead of UTC. */
  method UnixTime(ts: Stamp) returns (t: int)
    ensures ts.year < 1970 || ts.year > 2100 ==> t == 0
    ensures 1970 <= ts.year <= 2100 && 1 <= ts.month <= 12 ==>
              if ts.offsetMode == '+' then t == LocalSeconds(ts) - 3600 * ts.offsetHour - 60 * ts.offsetMinute
              else t == LocalSeconds(ts) + 3600 * ts.offsetHour + 60 * ts.offsetMinute
  {
    if ts.year < 1970 || ts.year > 2100 { return 0; }
    var monthInDays := CumulatedDays(ts.month);
    if (ts.year % 100 != 0 && ts.year % 4 == 0) || ts.year == 2000 {
      if ts.month > 2 { monthInDays := monthInDays + 1; }
    }
    assert 1 <= ts.month <= 12 ==> monthInDays == DaysToMonth(ts.year, ts.month) by {
      if 1 <= ts.month <= 12 { MonthsIs(ts.year, ts.month); LeapIs(ts.year); }
    }
    TableIs(ts.year);
    YearStartIs(ts.year);
    var numberOfDays := monthInDays + ts.day - 1;
    t := YEAR_IN_SECS[ts.year - 1967 - 1] + 1 + numberOfDays * 86400;
    t := t + ts.hour * 60 * 60;
    t := t + ts.minute * 60;
    t := t + ts.second;
    var utcOffset := ts.offsetHour * 3600 + ts.offsetMinute * 60;
    if ts.offsetMode == '+' { utcOffset := -utcOffset; }
    t := t + utcOffset;
  }

  /** Days before a month in a year without a leap day; any other month counts none. */
  function CumulatedDays(month: int): int {
    if 1 <= month <= 12 then [0, 31, 59, 90, 120, 151, 181, 212, 243, 273, 304, 334][month - 1] else 0
  }

  lemma LeapIs(y: int)
    requires 1970 <= y <= 2100
    ensures Leap(y) <==> (y % 100 != 0 && y % 4 == 0) || y == 2000
  {}

  // ----- day of the week -----

  /** The number getWeekdayNbr reduces modulo 7. */
  function DayNumber(y: int, m: int, d: int): int {
    var g := if m < 3 then y - 1 else y;
    var f := if m < 3 then m + 13 else m + 1;
    CDiv(36525 * g, 100) + CDiv(306 * f, 10) + d - 621049
  }

  /** getWeekdayNbr */
  function WeekdayNbr(y: int, m: int, d: int): int { CMod(DayNumber(y, m, d), 7) }

  /**
   * Century years without a leap day from 1901 to the last February before the date, less those back to 1900. The
   * first two months of year 0 lie one leap day off, because the quotient of the year before is cut toward zero.
   */
  function Skipped(y: int, m: int): int {
    var g := if m < 3 then y - 1 else y;
    g / 100 - g / 400 - 15 + (if g < 0 then 1 else 0)
  }

  lemma Julian(g: int)
    requires g >= 0
    ensures CDiv(36525 * g, 100) == 365 * g + g / 4
  {
    assert 36525 * g == 100 * (365 * g) + 25 * g;
  }

  lemma DayNumberIs(y: nat, m: int, d: int)
    requires 1 <= m <= 12
    ensures DayNumber(y, m, d) == DayCount(y, m, d) + Skipped(y, m) - 620971
  {
    MonthsIs(y, m);
    if m < 3 && y == 0 {
      assert CDiv(36525 * -1, 100) == -365;
    } else if m < 3 {
      Julian(y - 1);
      FirstOfYear(y);
    } else {
      Julian(y);
      DaysToYearIs(y);
    }
  }

  lemma SevenShift(x: int, k: int)
    ensures (x + k - 620971) % 7 == (x + 6) % 7 <==> k % 7 == 0
  {}

  /** The remainder of C, against one in 0..6. */
  lemma CModIs(x: int, w: int)
    requires 0 <= w <= 6
    ensures CMod(x, 7) == w <==> x % 7 == w && (x >= 0 || w == 0)
  {}

  /**
   * The weekday is right exactly when the skipped leap days make whole weeks and the number reduced is not negative,
   * as it can be before 1701, or the day is a Sunday.
   */
  lemma WeekdayExactly(y: nat, m: int, d: int)
    requires 1 <= m <= 12
    ensures WeekdayNbr(y, m, d) == Weekday(y, m, d) <==>
            Skipped(y, m) % 7 == 0 && (DayNumber(y, m, d) >= 0 || Weekday(y, m, d) == 0)
  {
    DayNumberIs(y, m, d);
    SevenShift(DayCount(y, m, d), Skipped(y, m));
    CModIs(DayNumber(y, m, d), Weekday(y, m, d));
  }

  /** From 1701 on the number is not negative. */
  lemma NotNegative(y: nat, m: int, d: int)
    requires y >= 1701 && 1 <= m <= 12 && 1 <= d
    ensures DayNumber(y, m, d) >= 0
  {
    assert 36525 * 1700 / 100 == 620925;
  }

  /** From March 1900 to February 2100 it is right, and in the rest of 1900 to 2199 it is wrong. */
  lemma WeekdayRange(y: nat, m: int, d: int)
    requires 1900 <= y < 2200 && 1 <= m <= 12 && 1 <= d
    ensures WeekdayNbr(y, m, d) == Weekday(y, m, d) <==>
            (1900 < y || m >= 3) && (y < 2100 || (y == 2100 && m < 3))
  {
    WeekdayExactly(y, m, d);
    NotNegative(y, m, d);
  }
}
