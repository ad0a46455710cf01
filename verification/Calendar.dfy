/** The calendar arithmetic of src/handler_util.rs: a constant-time conversion from seconds to a civil
    date, against a calendar that steps one day at a time. */
module Calendar {

  datatype Date = Date(year: int, month: int, day: int)

  // ----- The naive calendar, with the leap-year rule of Appendix C of RFC 3339 -----

  predicate IsLeap(year: int) {
    year % 4 == 0 && (year % 100 != 0 || year % 400 == 0)
  }

  function DaysIn(year: int, month: int): int {
    if month == 2 then (if IsLeap(year) then 29 else 28)
    else if month == 4 || month == 6 || month == 9 || month == 11 then 30
    else 31
  }

  predicate IsDate(d: Date) {
    1 <= d.month <= 12 && 1 <= d.day <= DaysIn(d.year, d.month)
  }

  function NextDay(d: Date): Date {
    if d.day < DaysIn(d.year, d.month) then d.(day := d.day + 1)
    else if d.month < 12 then Date(d.year, d.month + 1, 1)
    else Date(d.year + 1, 1, 1)
  }

  const EPOCH := Date(1970, 1, 1)

  /** The date `days` days after 1970-01-01. */
  function DateAfter(days: nat): Date {
    if days == 0 then EPOCH else NextDay(DateAfter(days - 1))
  }

  // ----- The constant-time conversion -----

  /** Days from 0000-03-01, the first day of an era, to 1970-01-01. */
  const ERA_SHIFT := 719_468
  const ERA_DAYS := 146_097

  function YearOfEra(doe: int): int {
    (doe - doe / 1460 + doe / 36_524 - doe / 146_096) / 365
  }

  /** Days of an era before its year `yoe`; years start in March. */
  function YearStart(yoe: int): int {
    365 * yoe + yoe / 4 - yoe / 100 + yoe / 400
  }

  function MonthOfYear(doy: int): int {
    (5 * doy + 2) / 153
  }

  /** Days of a year before its month `mp`, March being month 0. */
  function MonthStart(mp: int): int {
    (153 * mp + 2) / 5
  }

  /** The civil date of day `doy` of year `yoe` of an era. */
  function DateIn(era: int, yoe: int, doy: int): Date {
    var y := yoe + era * 400;
    var mp := MonthOfYear(doy);
    var d := doy - MonthStart(mp) + 1;
    var mo := if mp < 10 then mp + 3 else mp - 9;
    Date(if mo <= 2 then y + 1 else y, mo, d)
  }

  function CivilDate(days: nat): Date {
    var z := days + ERA_SHIFT;
    var era := z / ERA_DAYS;
    var doe := z - era * ERA_DAYS;
    var yoe := YearOfEra(doe);
    DateIn(era, yoe, doe - (365 * yoe + yoe / 4 - yoe / 100))
  }

  datatype Civil = Civil(date: Date, hour: int, minute: int, second: int)

  function CivilFromUnix(secs: nat): Civil {
    var rem := secs % 86_400;
    Civil(CivilDate(secs / 86_400), rem / 3600, (rem % 3600) / 60, rem % 60)
  }

  // ----- The arithmetic of an era -----

  /** A day of an era by century, group of four years, and day of the group. */
  lemma DayParts(doe: int) returns (c: int, q: int, t: int)
    requires 0 <= doe < ERA_DAYS
    ensures 0 <= c <= 3 && 0 <= q <= 24 && 0 <= t <= 1460 && doe == 36_524 * c + 1461 * q + t
    ensures q == 24 && t == 1460 ==> c == 3
    ensures doe / 36_524 - doe / 146_096 == c
  {
    c := if doe == 146_096 then 3 else doe / 36_524;
    var r := doe - 36_524 * c;
    q := if r == 36_524 then 24 else r / 1461;
    t := r - 1461 * q;
  }

  /** The division formula finds the year that contains the day. */
  lemma YearContainsDay(doe: int)
    requires 0 <= doe < ERA_DAYS
    ensures var yoe := YearOfEra(doe); 0 <= yoe < 400 && YearStart(yoe) <= doe < YearStart(yoe + 1)
  {
    hide YearOfEra, YearStart;
    var c, q, t := DayParts(doe);
    var y := (t - (24 * c + q + t) / 1460) / 365;
    FormulaByParts(doe, c, q, t);
    YearOfGroup(c, q, t);
    CenturyYear(c, q, y);
  }

  lemma FormulaByParts(doe: int, c: int, q: int, t: int)
    requires doe == 36_524 * c + 1461 * q + t && doe / 36_524 - doe / 146_096 == c
    ensures YearOfEra(doe) == 100 * c + 4 * q + (t - (24 * c + q + t) / 1460) / 365
  {
    var e := (24 * c + q + t) / 1460;
    QuotientBy1460(25 * c + q, 24 * c + q + t);
    assert doe - doe / 1460 + doe / 36_524 - doe / 146_096 == 365 * (100 * c + 4 * q) + (t - e);
    QuotientBy365(100 * c + 4 * q, t - e);
  }

  lemma QuotientBy1460(k: int, r: int)
    ensures (1460 * k + r) / 1460 == k + r / 1460
  {
  }

  lemma QuotientBy365(k: int, r: int)
    ensures (365 * k + r) / 365 == k + r / 365
  {
  }

  /** The year of a group of four that contains a day of the group. */
  lemma YearOfGroup(c: int, q: int, t: int)
    requires 0 <= c <= 3 && 0 <= q <= 24 && 0 <= t <= 1460
    requires q == 24 && t == 1460 ==> c == 3
    ensures var y := (t - (24 * c + q + t) / 1460) / 365;
            0 <= y <= 3 && 365 * y <= t && (t < 365 * (y + 1) || (y == 3 && t == 1460))
  {
    var e := (24 * c + q + t) / 1460;
    assert e == if 24 * c + q + t >= 1460 then 1 else 0;
  }

  lemma CenturyStart(c: int, q: int, y: int)
    requires 0 <= c <= 3 && 0 <= q <= 24 && 0 <= y <= 3
    ensures YearStart(100 * c + 4 * q + y) == 36_524 * c + 1461 * q + 365 * y
  {
    var year := 100 * c + 4 * q + y;
    assert year / 4 == 25 * c + q;
    assert year / 100 == c;
    assert year / 400 == 0;
  }

  lemma CenturyYear(c: int, q: int, y: int)
    requires 0 <= c <= 3 && 0 <= q <= 24 && 0 <= y <= 3
    ensures YearStart(100 * c + 4 * q + y) == 36_524 * c + 1461 * q + 365 * y
    ensures y < 3 ==> YearStart(100 * c + 4 * q + y + 1) == 36_524 * c + 1461 * q + 365 * (y + 1)
    ensures y == 3 && q < 24 ==> YearStart(100 * c + 4 * q + y + 1) == 36_524 * c + 1461 * (q + 1)
    ensures y == 3 && q == 24 ==> YearStart(100 * c + 4 * q + y + 1) == 36_524 * (c + 1) + (if c == 3 then 1 else 0)
  {
    assert YearStart(400) == 146_097;
    hide YearStart;
    CenturyStart(c, q, y);
    if y < 3 {
      CenturyStart(c, q, y + 1);
    } else if q < 24 {
      CenturyStart(c, q + 1, 0);
    } else if c < 3 {
      CenturyStart(c + 1, 0, 0);
    }
  }

  lemma MonthContainsDay(doy: int)
    requires 0 <= doy <= 365
    ensures var mp := MonthOfYear(doy); 0 <= mp <= 11 && MonthStart(mp) <= doy < MonthStart(mp + 1)
  {
  }

  function YearLength(yoe: int): int {
    YearStart(yoe + 1) - YearStart(yoe)
  }

  lemma RemainderBy4(x: int, k: int)
    ensures (x + 4 * k) % 4 == x % 4
  {
  }

  lemma RemainderBy100(x: int, k: int)
    ensures (x + 100 * k) % 100 == x % 100
  {
  }

  lemma RemainderBy400(x: int, k: int)
    ensures (x + 400 * k) % 400 == x % 400
  {
  }

  lemma LeapRepeats(year: int, era: int)
    ensures IsLeap(year + era * 400) == IsLeap(year)
  {
    RemainderBy4(year, 100 * era);
    RemainderBy100(year, 4 * era);
    RemainderBy400(year, era);
  }

  lemma QuotientsBy4(y: int)
    ensures y / 4 - (y - 1) / 4 == if y % 4 == 0 then 1 else 0
  {
  }

  lemma QuotientsBy100(y: int)
    ensures y / 100 - (y - 1) / 100 == if y % 100 == 0 then 1 else 0
    ensures y % 100 == 0 ==> y % 4 == 0
  {
    RemainderBy4(y % 100, 25 * (y / 100));
  }

  lemma QuotientsBy400(y: int)
    ensures y / 400 - (y - 1) / 400 == if y % 400 == 0 then 1 else 0
    ensures y % 400 == 0 ==> y % 100 == 0
  {
    RemainderBy100(y % 400, 4 * (y / 400));
  }

  lemma LeapByQuotients(year: int)
    ensures YearLength(year - 1) == if IsLeap(year) then 366 else 365
  {
    QuotientsBy4(year);
    QuotientsBy100(year);
    QuotientsBy400(year);
  }

  lemma YearLengths(era: int, yoe: int)
    ensures YearLength(yoe) == if IsLeap(yoe + era * 400 + 1) then 366 else 365
  {
    hide YearLength, IsLeap;
    LeapByQuotients(yoe + 1);
    LeapRepeats(yoe + 1, era);
  }

  lemma YearStartGrows(a: int, b: int)
    requires 0 <= a <= b
    ensures YearStart(a) <= YearStart(b)
  {
  }

  /** At most one year contains a day. */
  lemma YearIsUnique(doe: int, a: int, b: int)
    requires 0 <= a && 0 <= b
    requires YearStart(a) <= doe < YearStart(a + 1) && YearStart(b) <= doe < YearStart(b + 1)
    ensures a == b
  {
    if a < b {
      YearStartGrows(a + 1, b);
    } else if b < a {
      YearStartGrows(b + 1, a);
    }
  }

  /** The months of a year that starts in March have the lengths of the naive calendar. */
  lemma MonthLengths(year: int, mp: int)
    requires 0 <= mp < 11
    ensures MonthStart(mp + 1) - MonthStart(mp) == DaysIn(year, if mp < 10 then mp + 3 else mp - 9)
  {
  }

  lemma NextInYear(era: int, yoe: int, doy: int)
    requires 0 <= doy && doy + 1 < YearLength(yoe)
    ensures NextDay(DateIn(era, yoe, doy)) == DateIn(era, yoe, doy + 1)
  {
    YearLengths(era, yoe);
    MonthContainsDay(doy);
    MonthContainsDay(doy + 1);
    var mp := MonthOfYear(doy);
    if mp < 11 {
      MonthLengths(yoe + era * 400 + 1, mp);
      MonthLengths(yoe + era * 400, mp);
    }
    assert MonthOfYear(doy + 1) == if doy + 1 < MonthStart(mp + 1) then mp else mp + 1;
  }

  lemma NextYear(era: int, yoe: int, doy: int)
    requires doy + 1 == YearLength(yoe)
    ensures NextDay(DateIn(era, yoe, doy)) == DateIn(era, yoe + 1, 0)
  {
    YearLengths(era, yoe);
    MonthContainsDay(doy);
    assert MonthStart(11) == 337;
    assert MonthOfYear(doy) == 11;
  }

  /** Where a day falls: the year of the era and the day of the year. */
  lemma Placed(days: nat)
    ensures var z := days + ERA_SHIFT;
            var era, doe := z / ERA_DAYS, z % ERA_DAYS;
            var yoe := YearOfEra(doe);
            && 0 <= yoe < 400 && YearStart(yoe) <= doe < YearStart(yoe + 1)
            && CivilDate(days) == DateIn(era, yoe, doe - YearStart(yoe))
  {
    hide YearOfEra, DateIn;
    var z := days + ERA_SHIFT;
    YearContainsDay(z % ERA_DAYS);
    assert z - z / ERA_DAYS * ERA_DAYS == z % ERA_DAYS;
    assert YearOfEra(z % ERA_DAYS) / 400 == 0;
  }

  lemma NextCivil(days: nat)
    ensures CivilDate(days + 1) == NextDay(CivilDate(days))
  {
    hide DateIn, NextDay, CivilDate, YearOfEra;
    var z := days + ERA_SHIFT;
    var era, doe := z / ERA_DAYS, z % ERA_DAYS;
    var yoe := YearOfEra(doe);
    Placed(days);
    Placed(days + 1);
    NextInEra(z);
    hide YearStart;
    var doy := doe - YearStart(yoe);
    if doe + 1 == ERA_DAYS {
      EraEnds(yoe);
      NextYear(era, yoe, doy);
      SameMarch(era);
    } else if doy + 1 < YearLength(yoe) {
      YearIsUnique(doe + 1, YearOfEra(doe + 1), yoe);
      NextInYear(era, yoe, doy);
    } else {
      YearsAreLong(yoe + 1);
      YearIsUnique(doe + 1, YearOfEra(doe + 1), yoe + 1);
      NextYear(era, yoe, doy);
    }
  }

  lemma NextInEra(z: nat)
    ensures z % ERA_DAYS + 1 == ERA_DAYS ==> (z + 1) / ERA_DAYS == z / ERA_DAYS + 1 && (z + 1) % ERA_DAYS == 0
    ensures z % ERA_DAYS + 1 < ERA_DAYS ==>
              (z + 1) / ERA_DAYS == z / ERA_DAYS && (z + 1) % ERA_DAYS == z % ERA_DAYS + 1
  {
  }

  lemma YearsAreLong(yoe: nat)
    ensures YearStart(yoe) < YearStart(yoe + 1)
  {
    YearStartGrows(yoe, yoe + 1);
  }

  /** The last day of an era is the last of its year 399, and the first is the first of year 0. */
  lemma EraEnds(yoe: int)
    requires 0 <= yoe && YearStart(yoe) <= ERA_DAYS - 1 < YearStart(yoe + 1)
    ensures yoe == 399 && YearStart(yoe + 1) == ERA_DAYS && YearOfEra(0) == 0 && YearStart(0) == 0
  {
    assert YearStart(400) == ERA_DAYS && YearStart(399) < ERA_DAYS;
    YearIsUnique(ERA_DAYS - 1, yoe, 399);
  }

  /** The year after the last of an era is the first of the next. */
  lemma SameMarch(era: int)
    ensures DateIn(era, 400, 0) == DateIn(era + 1, 0, 0)
  {
  }

  /** For every number of days, the constant-time conversion gives the date that stepping one day at a
      time from 1970-01-01 gives. */
  lemma {:induction false} CivilIsNaive(days: nat)
    ensures CivilDate(days) == DateAfter(days)
    ensures IsDate(CivilDate(days))
  {
    hide CivilDate, NextDay, IsDate;
    if days == 0 {
      EpochIsCivil();
    } else {
      CivilIsNaive(days - 1);
      NextCivil(days - 1);
      NextIsDate(CivilDate(days - 1));
    }
  }

  lemma EpochIsCivil()
    ensures CivilDate(0) == EPOCH && IsDate(EPOCH)
  {
    assert ERA_SHIFT / ERA_DAYS == 4;
    assert YearOfEra(135_080) == 369;
    assert MonthOfYear(306) == 10;
  }

  lemma NextIsDate(d: Date)
    requires IsDate(d)
    ensures IsDate(NextDay(d))
  {
  }

  // ----- The inverse -----

  function DaysBeforeMonth(year: int, month: int): int
    requires 1 <= month <= 12
    decreases month
  {
    if month == 1 then 0 else DaysBeforeMonth(year, month - 1) + DaysIn(year, month - 1)
  }

  function DaysBeforeYear(year: int): int {
    365 * (year - 1) + (year - 1) / 4 - (year - 1) / 100 + (year - 1) / 400
  }

  /** Days from 1970-01-01 to a date. */
  function DayNumber(d: Date): int
    requires IsDate(d)
  {
    DaysBeforeYear(d.year) + DaysBeforeMonth(d.year, d.month) + d.day - 1 - 719_162
  }

  lemma YearDays(year: int)
    ensures DaysBeforeYear(year + 1) == DaysBeforeYear(year) + DaysBeforeMonth(year, 12) + DaysIn(year, 12)
  {
    LeapByQuotients(year);
    assert DaysBeforeYear(year + 1) - DaysBeforeYear(year) == YearLength(year - 1);
    assert DaysBeforeMonth(year, 3) == 31 + DaysIn(year, 2);
    assert DaysBeforeMonth(year, 5) == DaysBeforeMonth(year, 3) + 61;
    assert DaysBeforeMonth(year, 7) == DaysBeforeMonth(year, 5) + 61;
    assert DaysBeforeMonth(year, 9) == DaysBeforeMonth(year, 7) + 62;
    assert DaysBeforeMonth(year, 11) == DaysBeforeMonth(year, 9) + 61;
    assert DaysBeforeMonth(year, 12) == DaysBeforeMonth(year, 11) + 30;
  }

  lemma NextDayNumber(d: Date)
    requires IsDate(d)
    ensures IsDate(NextDay(d)) && DayNumber(NextDay(d)) == DayNumber(d) + 1
  {
    hide DaysBeforeYear;
    NextIsDate(d);
    if d.month == 12 {
      YearDays(d.year);
    }
  }

  /** Counting the days to the date that the conversion gives recovers the days it was given. */
  lemma {:induction false} DayNumberOfCivil(days: nat)
    ensures IsDate(CivilDate(days)) && DayNumber(CivilDate(days)) == days
  {
    hide CivilDate, NextDay, IsDate, DayNumber;
    CivilIsNaive(days);
    if days == 0 {
      EpochIsCivil();
      EpochIsDayZero();
    } else {
      DayNumberOfCivil(days - 1);
      NextCivil(days - 1);
      NextDayNumber(CivilDate(days - 1));
    }
  }

  lemma EpochIsDayZero()
    ensures IsDate(EPOCH) && DayNumber(EPOCH) == 0
  {
  }

  // ----- Order -----

  predicate Earlier(a: Date, b: Date) {
    a.year < b.year || (a.year == b.year && (a.month < b.month || (a.month == b.month && a.day < b.day)))
  }

  predicate EarlierCivil(a: Civil, b: Civil) {
    Earlier(a.date, b.date)
    || (a.date == b.date
        && (a.hour < b.hour || (a.hour == b.hour && (a.minute < b.minute || (a.minute == b.minute && a.second < b.second)))))
  }

  lemma {:induction false} DatesAdvance(a: nat, b: nat)
    requires a < b
    ensures Earlier(CivilDate(a), CivilDate(b))
    decreases b
  {
    hide CivilDate;
    NextCivil(b - 1);
    CivilIsNaive(b - 1);
    if a < b - 1 {
      DatesAdvance(a, b - 1);
    }
  }

  /** Later seconds are later civil times, so no two seconds share one. */
  lemma CivilAdvances(a: nat, b: nat)
    requires a < b
    ensures EarlierCivil(CivilFromUnix(a), CivilFromUnix(b))
  {
    hide CivilDate;
    var da, db, ra, rb := a / 86_400, b / 86_400, a % 86_400, b % 86_400;
    assert da <= db;
    if da < db {
      DatesAdvance(da, db);
    } else {
      assert ra < rb;
      TimeOfDay(ra);
      TimeOfDay(rb);
    }
  }

  lemma TimeOfDay(rem: nat)
    requires rem < 86_400
    ensures rem / 3600 < 24 && (rem % 3600) / 60 < 60
    ensures rem == 3600 * (rem / 3600) + 60 * ((rem % 3600) / 60) + rem % 60
  {
  }

  /** The civil time is a valid one and says which second it was. */
  lemma CivilIsExact(secs: nat)
    ensures var c := CivilFromUnix(secs);
            && IsDate(c.date) && 0 <= c.hour < 24 && 0 <= c.minute < 60 && 0 <= c.second < 60
            && secs == 86_400 * DayNumber(c.date) + 3600 * c.hour + 60 * c.minute + c.second
            && c.date == DateAfter(secs / 86_400)
  {
    hide CivilDate;
    CivilIsNaive(secs / 86_400);
    DayNumberOfCivil(secs / 86_400);
    TimeOfDay(secs % 86_400);
  }

  lemma YearBounds(secs: nat)
    ensures 1970 <= CivilFromUnix(secs).date.year <= 1970 + secs / 86_400
  {
    DatesStartAtEpoch(secs / 86_400);
  }

  lemma {:induction false} DatesStartAtEpoch(days: nat)
    ensures 1970 <= CivilDate(days).year <= 1970 + days
  {
    hide CivilDate;
    if days == 0 {
      EpochIsCivil();
    } else {
      DatesStartAtEpoch(days - 1);
      NextCivil(days - 1);
    }
  }
}
