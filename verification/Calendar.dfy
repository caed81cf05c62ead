/** The date arithmetic of the service log, against day-by-day counting under the Gregorian leap rule
    (Appendix C of RFC 3339). */
module Calendar {

  datatype Date = Date(year: int, month: int, day: int)

  // ---- counting day by day ----------------------------------------------------------------

  predicate LeapYear(year: int) { year % 4 == 0 && (year % 100 != 0 || year % 400 == 0) }

  function MonthLength(year: int, month: int): nat {
    if month in {4, 6, 9, 11} then 30
    else if month == 2 then (if LeapYear(year) then 29 else 28)
    else 31
  }

  function NextDay(d: Date): Date {
    if d.day < MonthLength(d.year, d.month) then d.(day := d.day + 1)
    else if d.month < 12 then Date(d.year, d.month + 1, 1)
    else Date(d.year + 1, 1, 1)
  }

  /** The date `days` days after 1970-01-01. */
  function DateAfter(days: nat): Date {
    if days == 0 then Date(1970, 1, 1) else NextDay(DateAfter(days - 1))
  }

  // ---- the closed form --------------------------------------------------------------------

  const DAYS_PER_ERA: nat := 146_097

  /** Days from 1 March of an era's first year to 1 March of its year `y`. */
  function YearStart(y: nat): nat { 365 * y + y / 4 - y / 100 }

  function YearOfEra(dayOfEra: nat): int {
    (dayOfEra - dayOfEra / 1_460 + dayOfEra / 36_524 - dayOfEra / 146_096) / 365
  }

  /** Years run from March to February, so that a leap day is the last day of its year. */
  predicate LongYear(y: nat) { LeapYear(y + 1) }

  function YearLength(y: nat): nat { if LongYear(y) then 366 else 365 }

  lemma NextYearStart(y: nat)
    requires y < 399
    ensures YearStart(y + 1) == YearStart(y) + YearLength(y)
  {
    var a, b := y / 4, y / 100;
    assert (y + 1) / 4 == a + (if (y + 1) % 4 == 0 then 1 else 0);
    assert (y + 1) / 100 == b + (if (y + 1) % 100 == 0 then 1 else 0);
    assert (y + 1) % 100 == 0 ==> (y + 1) % 4 == 0;
  }

  lemma Quotients(n: nat, a: nat, b: nat, c: nat)
    ensures 1_460 * a <= n < 1_460 * a + 1_460 ==> n / 1_460 == a
    ensures 36_524 * b <= n < 36_524 * b + 36_524 ==> n / 36_524 == b
    ensures 365 * c <= n < 365 * c + 365 ==> n / 365 == c
  {}

  /** Centuries, four-year cycles and years of an era. */
  lemma YearStartByCycles(century: nat, cycle: nat, rest: nat)
    requires century < 4 && cycle < 25 && rest < 4
    ensures YearStart(100 * century + 4 * cycle + rest) == 36_524 * century + 1_461 * cycle + 365 * rest
    ensures LongYear(100 * century + 4 * cycle + rest) <==> rest == 3 && (cycle == 24 ==> century == 3)
  {
    var y := 100 * century + 4 * cycle + rest;
    assert y / 4 == 25 * century + cycle && y / 100 == century;
    assert (y + 1) % 4 == 0 <==> rest == 3;
    assert (y + 1) % 100 == 0 <==> rest == 3 && cycle == 24;
    assert (y + 1) % 400 == 0 <==> rest == 3 && cycle == 24 && century == 3;
  }

  lemma YearByCycles(y: nat) returns (century: nat, cycle: nat, rest: nat)
    requires y < 400
    ensures century < 4 && cycle < 25 && rest < 4 && y == 100 * century + 4 * cycle + rest
  {
    century, cycle, rest := y / 100, y % 100 / 4, y % 100 % 4;
  }

  /** The corrections in the formula of `YearOfEra` for a day given by its cycles. */
  lemma Corrections(century: nat, cycle: nat, rest: nat, dayOfYear: nat, doe: nat)
    requires century < 4 && cycle < 25 && rest < 4
    requires dayOfYear < (if rest == 3 && (cycle == 24 ==> century == 3) then 366 else 365)
    requires doe == 36_524 * century + 1_461 * cycle + 365 * rest + dayOfYear
    ensures doe < DAYS_PER_ERA
    ensures var corrected := doe - doe / 1_460 + doe / 36_524 - doe / 146_096;
      0 <= corrected - 365 * (100 * century + 4 * cycle + rest) < 365
  {
    var late := if 24 * century + cycle + 365 * rest + dayOfYear >= 1_460 then 1 else 0;
    var last := if 1_461 * cycle + 365 * rest + dayOfYear == 36_524 then 1 else 0;
    Quotients(doe, 25 * century + cycle + late, century + last, 0);
    assert doe / 146_096 == last;
  }

  /** `YearOfEra` inverts `YearStart`: every day of the year `y` is given back `y`. */
  lemma YearOfEraFinds(y: nat, dayOfYear: nat)
    requires y < 400 && dayOfYear < YearLength(y)
    ensures YearStart(y) + dayOfYear < DAYS_PER_ERA
    ensures YearOfEra(YearStart(y) + dayOfYear) == y
  {
    var century, cycle, rest := YearByCycles(y);
    YearStartByCycles(century, cycle, rest);
    var doe := YearStart(y) + dayOfYear;
    Corrections(century, cycle, rest, dayOfYear, doe);
    Quotients(doe - doe / 1_460 + doe / 36_524 - doe / 146_096, 0, 0, y);
  }

  /** `civil_from_days`. */
  function CivilFromDays(days: nat): Date {
    var shifted := days + 719_468;
    CivilInEra(shifted / 146_097, shifted % 146_097)
  }

  function CivilInEra(era: nat, dayOfEra: nat): Date {
    var yearOfEra := YearOfEra(dayOfEra);
    var dayOfYear := dayOfEra - (365 * yearOfEra + yearOfEra / 4 - yearOfEra / 100);
    var monthIndex := (5 * dayOfYear + 2) / 153;
    var day := dayOfYear - (153 * monthIndex + 2) / 5 + 1;
    var month := if monthIndex < 10 then monthIndex + 3 else monthIndex - 9;
    var year := yearOfEra + era * 400 + (if month <= 2 then 1 else 0);
    Date(year, month, day)
  }

  /** A day by its era, its year from March on and its number in that year. */
  datatype Position = Position(era: nat, year: nat, dayOfYear: nat) {
    predicate Valid() { year < 400 && dayOfYear < YearLength(year) }

    function DayCount(): nat { era * DAYS_PER_ERA + YearStart(year) + dayOfYear }

    function Next(): Position {
      if dayOfYear + 1 < YearLength(year) then this.(dayOfYear := dayOfYear + 1)
      else if year < 399 then Position(era, year + 1, 0)
      else Position(era + 1, 0, 0)
    }

    function ToDate(): Date {
      var month := MonthAt(dayOfYear);
      Date(year + era * 400 + (if month >= 10 then 1 else 0), if month < 10 then month + 3 else month - 9,
           dayOfYear - FirstDay(month) + 1)
    }
  }

  /** The first day of each month, months and days counted from March on. */
  function FirstDay(month: nat): nat {
    if month == 0 then 0 else if month == 1 then 31 else if month == 2 then 61 else if month == 3 then 92
    else if month == 4 then 122 else if month == 5 then 153 else if month == 6 then 184 else if month == 7 then 214
    else if month == 8 then 245 else if month == 9 then 275 else if month == 10 then 306 else if month == 11 then 337
    else 366
  }

  /** The month that a day lies in. */
  function MonthAt(day: nat): (month: nat)
    ensures month < 12 && FirstDay(month) <= day && (day < 366 ==> day < FirstDay(month + 1))
  {
    if day < 31 then 0 else if day < 61 then 1 else if day < 92 then 2 else if day < 122 then 3
    else if day < 153 then 4 else if day < 184 then 5 else if day < 214 then 6 else if day < 245 then 7
    else if day < 275 then 8 else if day < 306 then 9 else if day < 337 then 10 else 11
  }

  lemma MonthFormula(day: nat, month: nat)
    requires day < 366 && month == MonthAt(day)
    ensures (5 * day + 2) / 153 == month
  {}

  lemma FirstDayFormula(month: nat)
    requires month < 12
    ensures (153 * month + 2) / 5 == FirstDay(month)
  {}

  lemma NextCounts(p: Position)
    requires p.Valid()
    ensures p.Next().Valid() && p.Next().DayCount() == p.DayCount() + 1
  {
    if p.dayOfYear + 1 == YearLength(p.year) {
      if p.year < 399 {
        NextYearStart(p.year);
      } else {
        assert YearStart(399) == 145_731 && LongYear(399);
      }
    }
  }

  lemma EraAndDay(n: nat, era: nat, dayOfEra: nat)
    requires n == 146_097 * era + dayOfEra && dayOfEra < 146_097
    ensures n / 146_097 == era && n % 146_097 == dayOfEra
  {}

  lemma CivilInEraOfPosition(p: Position, dayOfEra: nat)
    requires p.Valid() && YearOfEra(dayOfEra) == p.year && dayOfEra == YearStart(p.year) + p.dayOfYear
    ensures CivilInEra(p.era, dayOfEra) == p.ToDate()
  {
    MonthFormula(p.dayOfYear, MonthAt(p.dayOfYear));
    FirstDayFormula(MonthAt(p.dayOfYear));
  }

  /** The closed form reads the position off the day count. */
  lemma CivilOfPosition(p: Position, days: nat)
    requires p.Valid() && days + 719_468 == p.DayCount()
    ensures CivilFromDays(days) == p.ToDate()
  {
    var dayOfEra := YearStart(p.year) + p.dayOfYear;
    YearOfEraFinds(p.year, p.dayOfYear);
    EraAndDay(days + 719_468, p.era, dayOfEra);
    CivilInEraOfPosition(p, dayOfEra);
  }

  lemma Modulo400(n: nat, k: nat)
    ensures (n + 400 * k) % 400 == n % 400
  {}

  lemma Modulo100(n: nat, k: nat)
    ensures (n + 100 * k) % 100 == n % 100
  {}

  lemma Modulo4(n: nat, k: nat)
    ensures (n + 4 * k) % 4 == n % 4
  {}

  lemma LeapDaysMatch(era: nat, year: nat)
    ensures LeapYear(year + era * 400 + 1) <==> LongYear(year)
  {
    Modulo400(year + 1, era);
    Modulo100(year + 1, 4 * era);
    Modulo4(year + 1, 100 * era);
  }

  /** Within a year from March on the next day is in the same month, or the first of the next one. `leap`
      says that February has 29 days. */
  lemma NextDateWithinYear(p: Position, leap: bool)
    requires p.dayOfYear + 1 < (if leap then 366 else 365)
    requires leap == LeapYear(p.year + p.era * 400 + 1)
    ensures Position(p.era, p.year, p.dayOfYear + 1).ToDate() == NextDay(p.ToDate())
  {}

  lemma NextYear(p: Position)
    requires p.dayOfYear + 1 == YearLength(p.year) && p.year < 400
    ensures p.Next().dayOfYear == 0 && p.Next().year + p.Next().era * 400 == p.year + p.era * 400 + 1
  {}

  lemma NextDateAtYearEnd(p: Position, leap: bool, next: Position)
    requires p.dayOfYear + 1 == (if leap then 366 else 365)
    requires leap == LeapYear(p.year + p.era * 400 + 1)
    requires next.dayOfYear == 0 && next.year + next.era * 400 == p.year + p.era * 400 + 1
    ensures next.ToDate() == NextDay(p.ToDate())
  {}

  /** The date of the next position is the next day. */
  lemma NextDate(p: Position)
    requires p.Valid()
    ensures p.Next().ToDate() == NextDay(p.ToDate())
  {
    LeapDaysMatch(p.era, p.year);
    if p.dayOfYear + 1 < YearLength(p.year) {
      NextDateWithinYear(p, LongYear(p.year));
    } else {
      NextYear(p);
      NextDateAtYearEnd(p, LongYear(p.year), p.Next());
    }
  }

  function PositionAfter(days: nat): Position {
    if days == 0 then Position(4, 369, 306) else PositionAfter(days - 1).Next()
  }

  lemma {:induction false} PositionsCount(days: nat)
    ensures PositionAfter(days).Valid() && PositionAfter(days).DayCount() == days + 719_468
    ensures PositionAfter(days).ToDate() == DateAfter(days)
  {
    if days > 0 {
      PositionsCount(days - 1);
      NextCounts(PositionAfter(days - 1));
      NextDate(PositionAfter(days - 1));
    } else {
      assert YearStart(369) == 134_774;
    }
  }

  /** `civil_from_days` is the date reached by counting that many days from 1970-01-01. */
  lemma CivilFromDaysCountsDays(days: nat)
    ensures CivilFromDays(days) == DateAfter(days)
  {
    PositionsCount(days);
    CivilOfPosition(PositionAfter(days), days);
  }

  // ---- order ------------------------------------------------------------------------------

  predicate Earlier(a: Date, b: Date) {
    || a.year < b.year
    || (a.year == b.year && a.month < b.month)
    || (a.year == b.year && a.month == b.month && a.day < b.day)
  }

  predicate RealDate(d: Date) { d.year >= 1970 && 1 <= d.month <= 12 && 1 <= d.day <= MonthLength(d.year, d.month) }

  lemma {:induction false} DatesAreReal(days: nat)
    ensures RealDate(DateAfter(days))
  {
    if days > 0 { DatesAreReal(days - 1); }
  }

  lemma NextDayIsLater(d: Date)
    requires RealDate(d)
    ensures Earlier(d, NextDay(d))
  {}

  lemma EarlierIsTransitive(a: Date, b: Date, c: Date)
    requires Earlier(a, b) && Earlier(b, c)
    ensures Earlier(a, c) && a != c
  {}

  lemma {:induction false} LaterDaysHaveLaterDates(a: nat, b: nat)
    requires a < b
    ensures Earlier(DateAfter(a), DateAfter(b))
    decreases b
  {
    DatesAreReal(b - 1);
    NextDayIsLater(DateAfter(b - 1));
    if a < b - 1 {
      LaterDaysHaveLaterDates(a, b - 1);
      EarlierIsTransitive(DateAfter(a), DateAfter(b - 1), DateAfter(b));
    }
  }

  /** Later days have later dates. */
  lemma DatesIncrease(a: nat, b: nat)
    requires a < b
    ensures Earlier(CivilFromDays(a), CivilFromDays(b))
  {
    CivilFromDaysCountsDays(a);
    CivilFromDaysCountsDays(b);
    LaterDaysHaveLaterDates(a, b);
  }

  /** No two days share a date. */
  lemma DateDeterminesDay(a: nat, b: nat)
    requires CivilFromDays(a) == CivilFromDays(b)
    ensures a == b
  {
    if a < b { DatesIncrease(a, b); }
    if b < a { DatesIncrease(b, a); }
  }
}
