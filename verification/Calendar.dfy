/** Conversion of a day count since 1970-01-01 to a Gregorian date, proved against the calendar
    itself: a date is the one reached by stepping day by day from the epoch. */
module Calendar {

  datatype Date = Date(year: int, month: int, day: int)

  // ---- The Gregorian calendar ---------------------------------------------------------

  predicate IsLeap(y: int) {
    y % 4 == 0 && (y % 100 != 0 || y % 400 == 0)
  }

  function DaysInMonth(y: int, m: int): int {
    if m == 2 then (if IsLeap(y) then 29 else 28)
    else if m == 4 || m == 6 || m == 9 || m == 11 then 30
    else 31
  }

  predicate ValidDate(d: Date) {
    1 <= d.month <= 12 && 1 <= d.day <= DaysInMonth(d.year, d.month)
  }

  function NextDay(d: Date): Date {
    if d.day < DaysInMonth(d.year, d.month) then d.(day := d.day + 1)
    else if d.month < 12 then Date(d.year, d.month + 1, 1)
    else Date(d.year + 1, 1, 1)
  }

  const EPOCH := Date(1970, 1, 1)

  /** The date `n` days after the epoch, by counting. */
  function DateAfter(n: nat): Date {
    if n == 0 then EPOCH else NextDay(DateAfter(n - 1))
  }

  // ---- The conversion -----------------------------------------------------------------

  const MAX_DAYS := 0x7FFF_FFFF

  // The intermediate values of the conversion, named as in the source.
  function Era(z: nat): nat { (z + 719468) / 146097 }
  function DayOfEra(z: nat): nat { (z + 719468) - Era(z) * 146097 }
  function YearOfEra(doe: nat): int { (doe - doe / 1460 + doe / 36524 - doe / 146096) / 365 }
  function DaysBefore(yoe: int): int { 365 * yoe + yoe / 4 - yoe / 100 }
  function ShiftedMonth(doy: int): int { (5 * doy + 2) / 153 }
  function DaysBeforeMonth(mp: int): int { (153 * mp + 2) / 5 }

  /** The date at year-of-era `yoe` of era `era` and day `doy` of a year that starts in March. */
  function Assemble(era: int, yoe: int, doy: int): Date {
    var mp := ShiftedMonth(doy);
    var d := doy - DaysBeforeMonth(mp) + 1;
    var m := if mp < 10 then mp + 3 else mp - 9;
    var y := yoe + era * 400;
    Date(if m <= 2 then y + 1 else y, m, d)
  }

  /** `civil_from_days`, for a day count that is not negative. */
  function CivilFromDays(z: nat): Date {
    var doe := DayOfEra(z);
    var yoe := YearOfEra(doe);
    Assemble(Era(z), yoe, doe - DaysBefore(yoe))
  }

  // ---- Years of an era: 4 centuries of 25 four-year cycles of 4 years ---------------------

  /** The index of the last day of a year that starts in March: the leap day ends it. */
  function LastDay(yoe: int): int {
    if IsLeap(yoe + 1) then 365 else 364
  }

  lemma YearDigits(c: int, q: int, r: int)
    requires 0 <= c < 4 && 0 <= q < 25 && 0 <= r < 4
    ensures var yoe := 100 * c + 4 * q + r;
            && DaysBefore(yoe) == 36524 * c + 1461 * q + 365 * r
            && LastDay(yoe) == if r == 3 && (q < 24 || c == 3) then 365 else 364
  {
    var yoe := 100 * c + 4 * q + r;
    assert yoe / 4 == 25 * c + q;
    assert yoe / 100 == c;
    LeapDigits(c, q, r);
  }

  lemma LeapDigits(c: int, q: int, r: int)
    requires 0 <= c < 4 && 0 <= q < 25 && 0 <= r < 4
    ensures IsLeap(100 * c + 4 * q + r + 1) <==> r == 3 && (q < 24 || c == 3)
  {
    var y := 100 * c + 4 * q + r + 1;
    assert y % 4 == (r + 1) % 4;
    if r == 3 {
      assert y % 100 == if q == 24 then 0 else 4 * q + 4;
    }
  }

  /** The division chain finds the year of the era from any of its days. */
  lemma YearOfEraAt(yoe: int, doy: int)
    requires 0 <= yoe < 400 && 0 <= doy <= LastDay(yoe)
    ensures 0 <= DaysBefore(yoe) + doy < 146097
    ensures YearOfEra(DaysBefore(yoe) + doy) == yoe
  {
    var c, q, r := yoe / 100, yoe % 100 / 4, yoe % 4;
    assert yoe == 100 * c + 4 * q + r;
    YearDigits(c, q, r);
    DivisionChain(c, q, r, doy);
  }

  lemma DivisionChain(c: int, q: int, r: int, d: int)
    requires 0 <= c < 4 && 0 <= q < 25 && 0 <= r < 4
    requires 0 <= d <= if r == 3 && (q < 24 || c == 3) then 365 else 364
    ensures 0 <= 36524 * c + 1461 * q + 365 * r + d < 146097
    ensures YearOfEra(36524 * c + 1461 * q + 365 * r + d) == 100 * c + 4 * q + r
  {
    var doe := 36524 * c + 1461 * q + 365 * r + d;
    assert doe / 36524 - doe / 146096 == c;
    var extra := if 24 * c + q + 365 * r + d >= 1460 then 1 else 0;
    assert doe / 1460 == 25 * c + q + extra by {
      assert doe == 1460 * (25 * c + q) + (24 * c + q + 365 * r + d);
    }
    assert 0 <= d - extra < 365;
    assert (365 * (100 * c + 4 * q + r) + (d - extra)) / 365 == 100 * c + 4 * q + r;
  }

  /** Every day of an era belongs to one of its years. */
  lemma DayOfEraSplits(doe: nat) returns (yoe: int, doy: int)
    requires doe < 146097
    ensures 0 <= yoe < 400 && 0 <= doy <= LastDay(yoe) && doe == DaysBefore(yoe) + doy
  {
    var c := if doe == 146096 then 3 else doe / 36524;
    var inCentury := doe - 36524 * c;
    var q := inCentury / 1461;
    var inCycle := inCentury - 1461 * q;
    var r := if inCycle == 1460 then 3 else inCycle / 365;
    yoe, doy := 100 * c + 4 * q + r, inCycle - 365 * r;
    YearDigits(c, q, r);
  }

  lemma NextYearStarts(yoe: int)
    requires 0 <= yoe < 400
    ensures yoe < 399 ==> DaysBefore(yoe) + LastDay(yoe) + 1 == DaysBefore(yoe + 1)
    ensures yoe == 399 ==> DaysBefore(yoe) + LastDay(yoe) + 1 == 146097
  {
    var c, q, r := yoe / 100, yoe % 100 / 4, yoe % 4;
    assert yoe == 100 * c + 4 * q + r;
    YearDigits(c, q, r);
    if r < 3 {
      YearDigits(c, q, r + 1);
    } else if q < 24 {
      YearDigits(c, q + 1, 0);
    } else if c < 3 {
      YearDigits(c + 1, 0, 0);
    }
  }

  // ---- Days of a year --------------------------------------------------------------------

  lemma LeapRepeats(y: int, era: int)
    ensures IsLeap(y + 400 * era) == IsLeap(y)
  {
    Remainder4(y / 4 + 100 * era, y % 4);
    Remainder100(y / 100 + 4 * era, y % 100);
    Remainder400(y / 400 + era, y % 400);
    assert y + 400 * era == 4 * (y / 4 + 100 * era) + y % 4;
    assert y + 400 * era == 100 * (y / 100 + 4 * era) + y % 100;
    assert y + 400 * era == 400 * (y / 400 + era) + y % 400;
  }

  lemma Remainder4(q: int, r: int)
    requires 0 <= r < 4
    ensures (4 * q + r) % 4 == r
  {
  }

  lemma Remainder100(q: int, r: int)
    requires 0 <= r < 100
    ensures (100 * q + r) % 100 == r
  {
  }

  lemma Remainder400(q: int, r: int)
    requires 0 <= r < 400
    ensures (400 * q + r) % 400 == r
  {
  }

  /** A day of the year gives a valid date, and none of the unsigned subtractions underflows. */
  lemma AssembledIsValid(era: int, yoe: int, doy: int)
    requires 0 <= doy <= LastDay(yoe)
    ensures ValidDate(Assemble(era, yoe, doy))
    ensures 0 <= ShiftedMonth(doy) <= 11 && DaysBeforeMonth(ShiftedMonth(doy)) <= doy
  {
    LeapRepeats(yoe + 1, era);
  }

  /** A shifted month starts at its own day of the year and ends before the next one's. */
  lemma MonthOfDay(doy: int)
    requires 0 <= doy <= 365
    ensures var mp := ShiftedMonth(doy);
            0 <= mp <= 11 && DaysBeforeMonth(mp) <= doy < DaysBeforeMonth(mp + 1)
    ensures var mp := ShiftedMonth(doy);
            doy < 365 ==> ShiftedMonth(doy + 1) == if doy + 1 < DaysBeforeMonth(mp + 1) then mp else mp + 1
  {
  }

  /** The lengths that the month formula gives are the calendar's, February being last. */
  lemma MonthLengths(y: int, mp: int)
    requires 0 <= mp < 11
    ensures DaysInMonth(y, if mp < 10 then mp + 3 else mp - 9) == DaysBeforeMonth(mp + 1) - DaysBeforeMonth(mp)
  {
  }

  lemma NextDayInYear(era: int, yoe: int, doy: int)
    requires 0 <= doy < LastDay(yoe)
    ensures NextDay(Assemble(era, yoe, doy)) == Assemble(era, yoe, doy + 1)
  {
    var mp := ShiftedMonth(doy);
    MonthOfDay(doy);
    if mp < 11 {
      MonthLengths(Assemble(era, yoe, doy).year, mp);
    } else {
      LeapRepeats(yoe + 1, era);
    }
  }

  lemma LastDayIsFebruary(era: int, yoe: int)
    ensures NextDay(Assemble(era, yoe, LastDay(yoe))) == Date(yoe + 400 * era + 1, 3, 1)
  {
    LeapRepeats(yoe + 1, era);
  }

  // ---- The theorems ----------------------------------------------------------------------

  /** The conversion in terms of the era, the year of the era and the day of that year. */
  lemma CivilOf(z: nat, yoe: int, doy: int)
    requires 0 <= yoe < 400 && 0 <= doy <= LastDay(yoe)
    requires DayOfEra(z) == DaysBefore(yoe) + doy
    ensures CivilFromDays(z) == Assemble(Era(z), yoe, doy)
  {
    YearOfEraAt(yoe, doy);
  }

  lemma EraStep(z: nat)
    ensures 0 <= DayOfEra(z) < 146097
    ensures DayOfEra(z) + 1 < 146097 ==> Era(z + 1) == Era(z) && DayOfEra(z + 1) == DayOfEra(z) + 1
  {
  }

  lemma FirstOfMarch(era: int, yoe: int)
    ensures Assemble(era, yoe, 0) == Date(yoe + 400 * era, 3, 1)
  {
  }

  lemma NextInYear(z: nat, yoe: int, doy: int)
    requires 0 <= yoe < 400 && 0 <= doy < LastDay(yoe)
    requires DayOfEra(z) == DaysBefore(yoe) + doy
    ensures CivilFromDays(z + 1) == Assemble(Era(z), yoe, doy + 1)
  {
    assert DayOfEra(z) + 1 < 146097 by { YearOfEraAt(yoe, doy + 1); }
    EraStep(z);
    CivilOf(z + 1, yoe, doy + 1);
  }

  lemma NextAfterYear(z: nat, yoe: int)
    requires 0 <= yoe < 399 && DayOfEra(z) == DaysBefore(yoe) + LastDay(yoe)
    ensures CivilFromDays(z + 1) == Date(yoe + 400 * Era(z) + 1, 3, 1)
  {
    assert DayOfEra(z) + 1 == DaysBefore(yoe + 1) < 146097 by {
      NextYearStarts(yoe);
      YearOfEraAt(yoe + 1, 0);
    }
    EraStep(z);
    FirstDayOf(z + 1, Era(z), yoe + 1);
  }

  lemma EraRollsOver(z: nat)
    requires DayOfEra(z) == 146096
    ensures Era(z + 1) == Era(z) + 1 && DayOfEra(z + 1) == DaysBefore(0)
  {
  }

  lemma FirstDayOfEra(z: nat, era: int)
    requires Era(z) == era && DayOfEra(z) == DaysBefore(0)
    ensures CivilFromDays(z) == Date(400 * era, 3, 1)
  {
    FirstDayOf(z, era, 0);
  }

  lemma FirstDayOf(z: nat, era: int, yoe: int)
    requires 0 <= yoe < 400 && Era(z) == era && DayOfEra(z) == DaysBefore(yoe)
    ensures CivilFromDays(z) == Date(yoe + 400 * era, 3, 1)
  {
    CivilOf(z, yoe, 0);
    FirstOfMarch(era, yoe);
  }

  /** Consecutive day counts are consecutive days of the calendar. */
  lemma SuccessorDays(z: nat)
    ensures CivilFromDays(z + 1) == NextDay(CivilFromDays(z))
  {
    var yoe, doy := DayOfEraSplits(DayOfEra(z));
    CivilOf(z, yoe, doy);
    if doy < LastDay(yoe) {
      NextInYear(z, yoe, doy);
      NextDayInYear(Era(z), yoe, doy);
    } else {
      if yoe < 399 {
        NextAfterYear(z, yoe);
      } else {
        NextYearStarts(yoe);
        EraRollsOver(z);
        FirstDayOfEra(z + 1, Era(z) + 1);
      }
      LastDayIsFebruary(Era(z), yoe);
    }
  }

  lemma DayZero()
    ensures CivilFromDays(0) == EPOCH
  {
    CivilOf(0, 369, 306);
  }

  /** Whatever starts at the epoch and steps day by day is the calendar. */
  lemma {:induction false} SteppingIsTheCalendar(f: nat -> Date, z: nat)
    requires f(0) == EPOCH
    requires forall n: nat :: f(n + 1) == NextDay(f(n))
    ensures f(z) == DateAfter(z)
  {
    if z > 0 {
      SteppingIsTheCalendar(f, z - 1);
      var n: nat := z - 1;
      assert f(n + 1) == NextDay(f(n));
    }
  }

  /** The division-only conversion is the calendar: it gives the date reached by counting days. */
  lemma CivilIsTheCalendar(z: nat)
    ensures CivilFromDays(z) == DateAfter(z)
  {
    var f := (n: nat) => CivilFromDays(n);
    DayZero();
    forall n: nat ensures f(n + 1) == NextDay(f(n)) {
      SuccessorDays(n);
    }
    SteppingIsTheCalendar(f, z);
  }

  /** Every date it gives is valid; on the whole range of the argument type no unsigned
      subtraction underflows and the year fits a signed 32-bit number. */
  lemma ConversionInRange(z: nat)
    ensures ValidDate(CivilFromDays(z))
    ensures var doe := DayOfEra(z); var yoe := YearOfEra(doe); var doy := doe - DaysBefore(yoe);
            && 0 <= doe < 146097 && doe / 1460 <= doe && doe / 146096 <= doe - doe / 1460 + doe / 36524
            && 0 <= yoe < 400 && yoe / 100 <= 365 * yoe + yoe / 4 && 0 <= doy <= 365
            && 0 <= ShiftedMonth(doy) <= 11 && DaysBeforeMonth(ShiftedMonth(doy)) <= doy
    ensures 1970 <= CivilFromDays(z).year && (z <= MAX_DAYS ==> CivilFromDays(z).year <= MAX_DAYS)
  {
    var yoe, doy := DayOfEraSplits(DayOfEra(z));
    CivilOf(z, yoe, doy);
    YearOfEraAt(yoe, doy);
    AssembledIsValid(Era(z), yoe, doy);
    YearFromEpoch(z, yoe, doy);
  }

  lemma YearFromEpoch(z: nat, yoe: int, doy: int)
    requires 0 <= yoe < 400 && 0 <= doy <= LastDay(yoe)
    requires DayOfEra(z) == DaysBefore(yoe) + doy
    ensures 1970 <= Assemble(Era(z), yoe, doy).year
    ensures z <= MAX_DAYS ==> Assemble(Era(z), yoe, doy).year <= MAX_DAYS
  {
    var c, q, r := yoe / 100, yoe % 100 / 4, yoe % 4;
    YearDigits(c, q, r);
  }

  /** The day count of a date: the inverse conversion. */
  function DaysFromCivil(d: Date): int {
    var y := if d.month <= 2 then d.year - 1 else d.year;
    var mp := if d.month > 2 then d.month - 3 else d.month + 9;
    y / 400 * 146097 + DaysBefore(y % 400) + DaysBeforeMonth(mp) + d.day - 1 - 719468
  }

  lemma DaysOfAssembled(era: int, yoe: int, doy: int)
    requires 0 <= yoe < 400 && 0 <= doy <= LastDay(yoe)
    ensures DaysFromCivil(Assemble(era, yoe, doy)) == era * 146097 + DaysBefore(yoe) + doy - 719468
  {
    assert (yoe + era * 400) / 400 == era && (yoe + era * 400) % 400 == yoe;
  }

  /** Converting a day count to a date and back returns it. */
  lemma DaysRoundTrip(z: nat)
    ensures DaysFromCivil(CivilFromDays(z)) == z
  {
    var yoe, doy := DayOfEraSplits(DayOfEra(z));
    CivilOf(z, yoe, doy);
    DaysOfAssembled(Era(z), yoe, doy);
  }

  // ---- The order of dates ----------------------------------------------------------------

  predicate Earlier(d: Date, e: Date) {
    || d.year < e.year
    || (d.year == e.year && d.month < e.month)
    || (d.year == e.year && d.month == e.month && d.day < e.day)
  }

  /** Later days have later dates. */
  lemma {:induction false} DateOrder(a: nat, b: nat)
    requires a < b
    ensures Earlier(DateAfter(a), DateAfter(b))
    decreases b
  {
    CivilIsTheCalendar(b - 1);
    ConversionInRange(b - 1);
    if a < b - 1 {
      DateOrder(a, b - 1);
    }
  }
}
