/** The proleptic Gregorian calendar arithmetic of the command-line tool: a day
    number is turned into a civil date and back with integer divisions only.

    The reference definition is the calendar itself: `IsLeapYear`,
    `DaysInMonth` and the successor of a date, `NextDay`. */
module Calendar {

  datatype Date = Date(year: int, month: int, day: int)

  // ----- The calendar ------------------------------------------------------

  predicate IsLeapYear(year: int) {
    (year % 4 == 0 && year % 100 != 0) || year % 400 == 0
  }

  function DaysInMonth(year: int, month: int): int
    requires 1 <= month <= 12
  {
    if month == 2 then (if IsLeapYear(year) then 29 else 28)
    else if month in {4, 6, 9, 11} then 30
    else 31
  }

  predicate Valid(d: Date) {
    1 <= d.month <= 12 && 1 <= d.day <= DaysInMonth(d.year, d.month)
  }

  /** The day after `d`, read off the calendar. */
  function NextDay(d: Date): Date
    requires Valid(d)
  {
    if d.day < DaysInMonth(d.year, d.month) then d.(day := d.day + 1)
    else if d.month < 12 then Date(d.year, d.month + 1, 1)
    else Date(d.year + 1, 1, 1)
  }

  /** Chronological order: year, then month, then day. */
  predicate Before(a: Date, b: Date) {
    || a.year < b.year
    || (a.year == b.year && a.month < b.month)
    || (a.year == b.year && a.month == b.month && a.day < b.day)
  }

  // ----- The conversions ---------------------------------------------------

  /** Division truncating towards zero, as the original's `/` on `i64`. */
  function TruncDiv(a: int, b: int): int
    requires b > 0
  {
    if a >= 0 then a / b else -((-a) / b)
  }

  const DAYS_PER_ERA := 146_097
  const EPOCH_SHIFT := 719_468

  function EraOfDay(z: int): int {
    TruncDiv(if z >= 0 then z else z - 146_096, DAYS_PER_ERA)
  }

  function EraOfYear(y: int): int {
    TruncDiv(if y >= 0 then y else y - 399, 400)
  }

  function YearOfEra(doe: int): int {
    (doe - doe / 1460 + doe / 36_524 - doe / 146_096) / 365
  }

  /** Days of an era that precede its March-based year `yoe`. */
  function DaysBeforeYear(yoe: int): int {
    365 * yoe + yoe / 4 - yoe / 100
  }

  /** Days of a March-based year that precede its month `mp`. */
  function DaysBeforeMonth(mp: int): int {
    (153 * mp + 2) / 5
  }

  function MonthOfDay(doy: int): int {
    (5 * doy + 2) / 153
  }

  function CivilFromDays(days: int): Date {
    var z := days + EPOCH_SHIFT;
    var era := EraOfDay(z);
    var doe := z - era * DAYS_PER_ERA;
    var yoe := YearOfEra(doe);
    var y := yoe + era * 400;
    var doy := doe - DaysBeforeYear(yoe);
    var mp := MonthOfDay(doy);
    var d := doy - DaysBeforeMonth(mp) + 1;
    var m := if mp < 10 then mp + 3 else mp - 9;
    Date(y + if m <= 2 then 1 else 0, m, d)
  }

  function DaysFromCivil(date: Date): int {
    var y := date.year - if date.month <= 2 then 1 else 0;
    var era := EraOfYear(y);
    var yoe := y - era * 400;
    var mp := if date.month > 2 then date.month - 3 else date.month + 9;
    var doy := DaysBeforeMonth(mp) + date.day - 1;
    var doe := DaysBeforeYear(yoe) + doy;
    era * DAYS_PER_ERA + doe - EPOCH_SHIFT
  }

  // ----- Eras, years and months of the computation -------------------------

  /** The truncating division with its shifted numerator is a floor. */
  lemma ErasAreFloors(z: int)
    ensures EraOfDay(z) == z / DAYS_PER_ERA
    ensures EraOfYear(z) == z / 400
  {
  }

  /** Length of the March-based year `yoe` of an era: it ends with the February
      of the civil year `yoe + 1`. */
  function YearLength(yoe: int): int {
    if IsLeapYear(yoe + 1) then 366 else 365
  }

  /** A year of an era is a century, a leap cycle and a year of that cycle. */
  lemma YearParts(c: int, q: int, r: int)
    requires 0 <= c <= 3 && 0 <= q <= 24 && 0 <= r <= 3
    ensures DaysBeforeYear(100 * c + 4 * q + r) == 36_524 * c + 1461 * q + 365 * r
    ensures YearLength(100 * c + 4 * q + r) == if r == 3 && (q < 24 || c == 3) then 366 else 365
  {
    var y := 100 * c + 4 * q + r;
    assert y / 100 == c && y / 4 == 25 * c + q;
    assert (y + 1) % 4 == if r == 3 then 0 else r + 1;
    if r == 3 && q == 24 {
      assert y + 1 == 100 * (c + 1);
      assert (y + 1) % 100 == 0;
    } else {
      assert (y + 1) % 100 == 4 * q + r + 1;
    }
  }

  lemma {:induction false} YearOfEraOfParts(c: int, q: int, r: int, doy: int)
    requires 0 <= c <= 3 && 0 <= q <= 24 && 0 <= r <= 3
    requires 0 <= doy < if r == 3 && (q < 24 || c == 3) then 366 else 365
    ensures YearOfEra(36_524 * c + 1461 * q + 365 * r + doy) == 100 * c + 4 * q + r
  {
    var doe := 36_524 * c + 1461 * q + 365 * r + doy;
    var low := 24 * c + q + 365 * r + doy;
    assert doe == 1460 * (25 * c + q) + low && 0 <= low < 2 * 1460;
    assert doe / 1460 == 25 * c + q + (if low < 1460 then 0 else 1);
    var rest := 1461 * q + 365 * r + doy;
    assert doe == 36_524 * c + rest && 0 <= rest <= 36_524;
    assert doe / 36_524 == c + (if rest < 36_524 then 0 else 1);
    assert doe / 146_096 == if doe < 146_096 then 0 else 1;
  }

  lemma {:induction false} YearOfEraExact(yoe: int, doy: int)
    requires 0 <= yoe <= 399 && 0 <= doy < YearLength(yoe)
    ensures YearOfEra(DaysBeforeYear(yoe) + doy) == yoe
    ensures 0 <= DaysBeforeYear(yoe) + doy < DAYS_PER_ERA
  {
    var c, q, r := yoe / 100, yoe % 100 / 4, yoe % 4;
    assert yoe == 100 * c + 4 * q + r;
    YearParts(c, q, r);
    YearOfEraOfParts(c, q, r, doy);
  }

  /** Every day of an era lies in exactly the year the formula names. */
  lemma {:induction false} YearOfEraSplits(doe: int)
    requires 0 <= doe < DAYS_PER_ERA
    ensures var yoe := YearOfEra(doe);
            0 <= yoe <= 399 && 0 <= doe - DaysBeforeYear(yoe) < YearLength(yoe)
  {
    var c := if doe == 146_096 then 3 else doe / 36_524;
    var inCentury := doe - 36_524 * c;
    var q := inCentury / 1461;
    var inCycle := inCentury - 1461 * q;
    var r := if inCycle == 1460 then 3 else inCycle / 365;
    YearParts(c, q, r);
    YearOfEraOfParts(c, q, r, inCycle - 365 * r);
  }

  function CivilMonth(mp: int): int {
    if mp < 10 then mp + 3 else mp - 9
  }

  lemma MonthOfDayExact(mp: int, d: int, yoe: int)
    requires 0 <= mp <= 11 && 1 <= d <= DaysInMonth(yoe + (if mp < 10 then 0 else 1), CivilMonth(mp))
    ensures MonthOfDay(DaysBeforeMonth(mp) + d - 1) == mp
    ensures 0 <= DaysBeforeMonth(mp) + d - 1 < YearLength(yoe)
  {
  }

  lemma MonthOfDaySplits(doy: int, yoe: int)
    requires 0 <= doy < YearLength(yoe)
    ensures var mp := MonthOfDay(doy);
            0 <= mp <= 11 &&
            1 <= doy - DaysBeforeMonth(mp) + 1 <= DaysInMonth(yoe + (if mp < 10 then 0 else 1), CivilMonth(mp))
  {
  }

  // ----- Main results ------------------------------------------------------

  lemma Mod4Repeats(a: int, k: int)
    ensures (a + 4 * k) % 4 == a % 4
  {
  }

  lemma Mod100Repeats(a: int, k: int)
    ensures (a + 100 * k) % 100 == a % 100
  {
  }

  lemma Mod400Repeats(a: int, k: int)
    ensures (a + 400 * k) % 400 == a % 400
  {
  }

  lemma {:induction false} LeapYearsRepeat(year: int, era: int)
    ensures IsLeapYear(year + 400 * era) == IsLeapYear(year)
  {
    Mod4Repeats(year, 100 * era);
    Mod100Repeats(year, 4 * era);
    Mod400Repeats(year, era);
  }

  /** A date by its parts: era, March-based year of the era, month of that year
      and day of that month. */
  function DateOfParts(era: int, yoe: int, mp: int, d: int): Date {
    Date(400 * era + yoe + (if mp < 10 then 0 else 1), CivilMonth(mp), d)
  }

  function DayOfParts(era: int, yoe: int, mp: int, d: int): int {
    era * DAYS_PER_ERA + DaysBeforeYear(yoe) + DaysBeforeMonth(mp) + d - 1 - EPOCH_SHIFT
  }

  predicate ValidParts(yoe: int, mp: int, d: int) {
    0 <= yoe <= 399 && 0 <= mp <= 11 &&
    1 <= d <= DaysInMonth(yoe + (if mp < 10 then 0 else 1), CivilMonth(mp))
  }

  lemma {:induction false} ValidOfParts(era: int, yoe: int, mp: int, d: int)
    ensures 0 <= mp <= 11 && 0 <= yoe <= 399 ==>
              (ValidParts(yoe, mp, d) <==> Valid(DateOfParts(era, yoe, mp, d)))
  {
    LeapYearsRepeat(yoe + (if mp < 10 then 0 else 1), era);
  }

  /** Both conversions go through the same parts. */
  lemma {:induction false} ConversionsOfParts(era: int, yoe: int, mp: int, d: int)
    requires ValidParts(yoe, mp, d)
    ensures CivilFromDays(DayOfParts(era, yoe, mp, d)) == DateOfParts(era, yoe, mp, d)
    ensures DaysFromCivil(DateOfParts(era, yoe, mp, d)) == DayOfParts(era, yoe, mp, d)
  {
    hide YearOfEra, DaysBeforeYear, DaysBeforeMonth, MonthOfDay, EraOfDay, EraOfYear, DaysInMonth, YearLength;
    MonthOfDayExact(mp, d, yoe);
    var doy := DaysBeforeMonth(mp) + d - 1;
    YearOfEraExact(yoe, doy);
    var doe := DaysBeforeYear(yoe) + doy;
    EraOfParts(era, doe, yoe);
  }

  lemma EraOfParts(era: int, doe: int, yoe: int)
    requires 0 <= doe < DAYS_PER_ERA && 0 <= yoe < 400
    ensures EraOfDay(era * DAYS_PER_ERA + doe) == era && EraOfYear(era * 400 + yoe) == era
  {
  }

  lemma PartsOfDay(days: int) returns (era: int, yoe: int, mp: int, d: int)
    ensures ValidParts(yoe, mp, d) && days == DayOfParts(era, yoe, mp, d)
    ensures var z := days + EPOCH_SHIFT;
            var doe := z - EraOfDay(z) * DAYS_PER_ERA;
            0 <= doe <= 146_096 && yoe == YearOfEra(doe) && mp == MonthOfDay(doe - DaysBeforeYear(yoe)) &&
            0 <= doe - DaysBeforeYear(yoe) <= 365
  {
    var z := days + EPOCH_SHIFT;
    ErasAreFloors(z);
    era := EraOfDay(z);
    var doe := z - era * DAYS_PER_ERA;
    YearOfEraSplits(doe);
    yoe := YearOfEra(doe);
    var doy := doe - DaysBeforeYear(yoe);
    MonthOfDaySplits(doy, yoe);
    mp := MonthOfDay(doy);
    d := doy - DaysBeforeMonth(mp) + 1;
  }

  lemma PartsOfDate(date: Date) returns (era: int, yoe: int, mp: int, d: int)
    requires Valid(date)
    ensures ValidParts(yoe, mp, d) && date == DateOfParts(era, yoe, mp, d)
  {
    var y := date.year - if date.month <= 2 then 1 else 0;
    era, yoe := y / 400, y % 400;
    mp := if date.month > 2 then date.month - 3 else date.month + 9;
    d := date.day;
    assert date == DateOfParts(era, yoe, mp, d);
    ValidOfParts(era, yoe, mp, d);
  }

  /** Every integer day, before the epoch or after it, is a date of the calendar
      whose intermediate values stay in the ranges the source announces, and the
      date leads back to the day. */
  lemma {:induction false} CivilFromDaysInverse(days: int)
    ensures var z := days + EPOCH_SHIFT;
            var doe := z - EraOfDay(z) * DAYS_PER_ERA;
            var yoe := YearOfEra(doe);
            var doy := doe - DaysBeforeYear(yoe);
            0 <= doe <= 146_096 && 0 <= yoe <= 399 && 0 <= doy <= 365 && 0 <= MonthOfDay(doy) <= 11
    ensures Valid(CivilFromDays(days))
    ensures DaysFromCivil(CivilFromDays(days)) == days
  {
    var era, yoe, mp, d := PartsOfDay(days);
    ConversionsOfParts(era, yoe, mp, d);
    ValidOfParts(era, yoe, mp, d);
  }

  /** Every date of the calendar is recovered from its day number. */
  lemma {:induction false} DaysFromCivilInverse(date: Date)
    requires Valid(date)
    ensures CivilFromDays(DaysFromCivil(date)) == date
  {
    var era, yoe, mp, d := PartsOfDate(date);
    ConversionsOfParts(era, yoe, mp, d);
  }

  /** The day number counts calendar days, from 1970-01-01. */
  lemma {:induction false} NextDayCounts(date: Date)
    requires Valid(date)
    ensures Valid(NextDay(date))
    ensures DaysFromCivil(NextDay(date)) == DaysFromCivil(date) + 1
    ensures DaysFromCivil(Date(1970, 1, 1)) == 0
  {
    hide CivilFromDays, DaysFromCivil, ValidParts;
    var era, yoe, mp, d := PartsOfDate(date);
    ConversionsOfParts(era, yoe, mp, d);
    LeapYearsRepeat(yoe + (if mp < 10 then 0 else 1), era);
    NextDayOfParts(era, yoe, mp, d);
    EpochIsDayZero();
  }

  lemma EpochIsDayZero()
    ensures DaysFromCivil(Date(1970, 1, 1)) == 0
  {
  }

  lemma {:induction false} NextDayOfParts(era: int, yoe: int, mp: int, d: int)
    requires ValidParts(yoe, mp, d) && Valid(DateOfParts(era, yoe, mp, d))
    requires IsLeapYear(400 * era + yoe + (if mp < 10 then 0 else 1)) == IsLeapYear(yoe + (if mp < 10 then 0 else 1))
    ensures DaysFromCivil(NextDay(DateOfParts(era, yoe, mp, d))) == DayOfParts(era, yoe, mp, d) + 1
  {
    hide CivilFromDays, DaysFromCivil, DaysBeforeYear, DaysBeforeMonth, IsLeapYear;
    if d < DaysInMonth(yoe + (if mp < 10 then 0 else 1), CivilMonth(mp)) {
      ConversionsOfParts(era, yoe, mp, d + 1);
    } else if mp < 11 {
      MonthStep(mp);
      ConversionsOfParts(era, yoe, mp + 1, 1);
    } else {
      YearStep(yoe);
      MonthStep(mp);
      if yoe < 399 {
        ConversionsOfParts(era, yoe + 1, 0, 1);
      } else {
        ConversionsOfParts(era + 1, 0, 0, 1);
      }
    }
  }

  /** A month is as long as the distance to the next one; February ends the year. */
  lemma MonthStep(mp: int)
    requires 0 <= mp <= 11
    ensures DaysBeforeMonth(0) == 0 && DaysBeforeMonth(11) == 337
    ensures mp < 11 ==>
              forall year :: DaysBeforeMonth(mp + 1) == DaysBeforeMonth(mp) + DaysInMonth(year, CivilMonth(mp))
  {
  }

  /** A March-based year is as long as the distance to the next one. */
  lemma YearStep(yoe: int)
    requires 0 <= yoe <= 399
    ensures DaysBeforeYear(0) == 0
    ensures (if yoe == 399 then DAYS_PER_ERA else DaysBeforeYear(yoe + 1)) == DaysBeforeYear(yoe) + YearLength(yoe)
  {
    hide DaysBeforeYear, YearLength;
    var c, q, r := yoe / 100, yoe % 100 / 4, yoe % 4;
    assert yoe == 100 * c + 4 * q + r;
    YearParts(c, q, r);
    YearParts(0, 0, 0);
    NextYearParts(c, q, r);
  }

  lemma NextYearParts(c: int, q: int, r: int)
    requires 0 <= c <= 3 && 0 <= q <= 24 && 0 <= r <= 3
    ensures 100 * c + 4 * q + r < 399 ==>
              DaysBeforeYear(100 * c + 4 * q + r + 1) ==
              36_524 * c + 1461 * q + 365 * r + (if r == 3 && q < 24 then 366 else 365)
  {
    hide DaysBeforeYear, YearLength;
    if r < 3 {
      YearParts(c, q, r + 1);
    } else if q < 24 {
      YearParts(c, q + 1, 0);
    } else if c < 3 {
      YearParts(c + 1, 0, 0);
    }
  }

  lemma {:induction false} LaterDayLaterDate(days: int, n: nat)
    requires n > 0
    ensures Before(CivilFromDays(days), CivilFromDays(days + n))
  {
    hide CivilFromDays, DaysFromCivil, DaysInMonth;
    var mid := CivilFromDays(days + n - 1);
    CivilFromDaysInverse(days + n - 1);
    NextDayCounts(mid);
    DaysFromCivilInverse(NextDay(mid));
    if n > 1 {
      LaterDayLaterDate(days, n - 1);
    }
  }

  /** Day numbers order dates exactly as the calendar does. */
  lemma {:induction false} DaysAreMonotone(a: Date, b: Date)
    requires Valid(a) && Valid(b)
    ensures Before(a, b) <==> DaysFromCivil(a) < DaysFromCivil(b)
  {
    hide CivilFromDays, DaysFromCivil, DaysInMonth;
    var da, db := DaysFromCivil(a), DaysFromCivil(b);
    DaysFromCivilInverse(a);
    DaysFromCivilInverse(b);
    if da < db {
      LaterDayLaterDate(da, db - da);
    } else if db < da {
      LaterDayLaterDate(db, da - db);
    }
  }

  lemma I32Bounds()
    ensures DaysFromCivil(Date(-0x8000_0000, 1, 1)) == -784_353_015_833
    ensures DaysFromCivil(Date(0x7fff_ffff, 12, 31)) == 784_351_576_776
  {
    hide DaysFromCivil, CivilFromDays;
    ConversionsOfParts(-5_368_710, 351, 10, 1);
    ConversionsOfParts(5_368_709, 47, 9, 31);
    assert DaysBeforeYear(351) == 128_199 && DaysBeforeYear(47) == 17_166;
    assert DaysBeforeMonth(10) == 306 && DaysBeforeMonth(9) == 275;
  }

  /** The narrowing of the year to 32 bits is harmless on exactly the days from
      -2147483648-01-01 to 2147483647-12-31. */
  lemma {:induction false} YearFitsI32(days: int)
    ensures -0x8000_0000 <= CivilFromDays(days).year < 0x8000_0000
            <==> -784_353_015_833 <= days <= 784_351_576_776
  {
    hide CivilFromDays, DaysFromCivil;
    var first, last := Date(-0x8000_0000, 1, 1), Date(0x7fff_ffff, 12, 31);
    I32Bounds();
    CivilFromDaysInverse(days);
    DaysAreMonotone(CivilFromDays(days), first);
    DaysAreMonotone(last, CivilFromDays(days));
  }
}
