/** The civil-date arithmetic behind the query log's timestamps: a closed-form
    era/year/day computation, a calendar stepped one day at a time that it has to
    agree with, and the inverse day count. */
module Calendar {

  datatype Date = Date(year: int, month: int, day: int)

  const DAYS_TO_EPOCH := 719468  // 0000-03-01 to 1970-01-01
  const DAYS_PER_ERA := 146097   // one 400-year cycle
  const I32_MAX := 0x7fff_ffff
  const U32_SPAN := 0x1_0000_0000
  const I64_LIMIT := 0x8000_0000_0000_0000

  /* ---- The calendar as a person would count it ---- */

  // Leap years are those of Appendix C of RFC 3339.
  predicate IsLeap(y: int) {
    y % 4 == 0 && (y % 100 != 0 || y % 400 == 0)
  }

  function DaysInMonth(y: int, m: int): int
    requires 1 <= m <= 12
  {
    if m == 2 then (if IsLeap(y) then 29 else 28)
    else if m == 4 || m == 6 || m == 9 || m == 11 then 30
    else 31
  }

  predicate ValidDate(d: Date) {
    1 <= d.month <= 12 && 1 <= d.day <= DaysInMonth(d.year, d.month)
  }

  function NextDay(d: Date): (r: Date)
    requires ValidDate(d)
    ensures ValidDate(r)
  {
    if d.day < DaysInMonth(d.year, d.month) then d.(day := d.day + 1)
    else if d.month < 12 then Date(d.year, d.month + 1, 1)
    else Date(d.year + 1, 1, 1)
  }

  // The date reached by stepping n days from 1970-01-01.
  function Stepped(n: nat): (d: Date)
    ensures ValidDate(d)
  {
    if n == 0 then Date(1970, 1, 1) else NextDay(Stepped(n - 1))
  }

  /* ---- The closed form ---- */

  // `as i32` keeps the low 32 bits.
  function AsI32(n: int): (r: int)
    ensures -I32_MAX - 1 <= r <= I32_MAX
    ensures (r - n) % U32_SPAN == 0
  {
    (n + I32_MAX + 1) % U32_SPAN - I32_MAX - 1
  }

  // Year within the era, for the day of the era.
  function YearOfEra(doe: nat): int {
    (doe - doe / 1460 + doe / 36524 - doe / 146096) / 365
  }

  // First day, within an era, of the year yoe that starts on 1 March.
  function YearStart(yoe: int): int {
    365 * yoe + yoe / 4 - yoe / 100
  }

  // The date of a day of a year that starts on 1 March.
  function MarchDate(y: int, doy: int): Date {
    var mp := (5 * doy + 2) / 153;
    var d := doy - (153 * mp + 2) / 5 + 1;
    var m := if mp < 10 then mp + 3 else mp - 9;
    Date(if m <= 2 then y + 1 else y, m, d)
  }

  // The date of a day of an era, its year not yet narrowed to 32 bits.
  function DateInEra(era: int, doe: nat): Date {
    var yoe := YearOfEra(doe);
    MarchDate(yoe + era * 400, doe - YearStart(yoe))
  }

  function WideDate(days: nat): Date {
    var z := days + DAYS_TO_EPOCH;
    var era := z / DAYS_PER_ERA;
    DateInEra(era, z - era * DAYS_PER_ERA)
  }

  /* ---- The inverse: days since 1970-01-01 of a date ---- */

  function DaysBeforeYear(y: int): int {
    365 * (y - 1) + (y - 1) / 4 - (y - 1) / 100 + (y - 1) / 400
  }

  function DaysBeforeMonth(y: int, m: int): int
    requires 1 <= m <= 12
  {
    if m == 1 then 0 else DaysBeforeMonth(y, m - 1) + DaysInMonth(y, m - 1)
  }

  function DaysFromDate(d: Date): int
    requires ValidDate(d)
  {
    DaysBeforeYear(d.year) + DaysBeforeMonth(d.year, d.month) + d.day - 1 - 719162
  }

  lemma MonthTable(y: int)
    ensures DaysBeforeMonth(y, 1) == 0
    ensures DaysBeforeMonth(y, 2) == 31
    ensures var l := if IsLeap(y) then 1 else 0;
            && DaysBeforeMonth(y, 3) == 59 + l
            && DaysBeforeMonth(y, 4) == 90 + l
            && DaysBeforeMonth(y, 5) == 120 + l
            && DaysBeforeMonth(y, 6) == 151 + l
            && DaysBeforeMonth(y, 7) == 181 + l
            && DaysBeforeMonth(y, 8) == 212 + l
            && DaysBeforeMonth(y, 9) == 243 + l
            && DaysBeforeMonth(y, 10) == 273 + l
            && DaysBeforeMonth(y, 11) == 304 + l
            && DaysBeforeMonth(y, 12) == 334 + l
  {
    assert DaysBeforeMonth(y, 3) == DaysBeforeMonth(y, 2) + DaysInMonth(y, 2);
    assert DaysBeforeMonth(y, 5) == DaysBeforeMonth(y, 4) + DaysInMonth(y, 4);
    assert DaysBeforeMonth(y, 7) == DaysBeforeMonth(y, 6) + DaysInMonth(y, 6);
    assert DaysBeforeMonth(y, 9) == DaysBeforeMonth(y, 8) + DaysInMonth(y, 8);
    assert DaysBeforeMonth(y, 11) == DaysBeforeMonth(y, 10) + DaysInMonth(y, 10);
  }

  lemma FloorSteps(y: int)
    ensures y / 4 - (y - 1) / 4 == if y % 4 == 0 then 1 else 0
    ensures y / 100 - (y - 1) / 100 == if y % 100 == 0 then 1 else 0
    ensures y / 400 - (y - 1) / 400 == if y % 400 == 0 then 1 else 0
    ensures y % 400 == 0 ==> y % 100 == 0
    ensures y % 100 == 0 ==> y % 4 == 0
  {
  }

  lemma YearLength(y: int)
    ensures DaysBeforeYear(y + 1) - DaysBeforeYear(y) == if IsLeap(y) then 366 else 365
  {
    FloorSteps(y);
  }

  // Split of a day of the era into centuries, four-year groups, years and days.
  lemma EraSplit(doe: nat) returns (c: int, q: int, e: int, doy: int)
    requires doe < DAYS_PER_ERA
    ensures 0 <= c <= 3 && 0 <= q <= 24 && 0 <= e <= 3 && 0 <= doy <= 365
    ensures doe == 36524 * c + 1461 * q + 365 * e + doy
    ensures doy == 365 ==> e == 3 && (q < 24 || c == 3)
  {
    c := if doe == 146096 then 3 else doe / 36524;
    var r := doe - 36524 * c;
    q := r / 1461;
    var s := r - 1461 * q;
    e := if s == 1460 then 3 else s / 365;
    doy := s - 365 * e;
  }

  lemma YearOfSplit(doe: nat, c: int, q: int, e: int, doy: int)
    requires 0 <= c <= 3 && 0 <= q <= 24 && 0 <= e <= 3 && 0 <= doy <= 365 && (doy == 365 ==> e == 3)
    requires doe == 36524 * c + 1461 * q + 365 * e + doy && doe < DAYS_PER_ERA
    requires doy == 365 ==> q < 24 || c == 3
    ensures YearOfEra(doe) == 100 * c + 4 * q + e
  {
    var s := 365 * e + doy;
    var delta := if 24 * c + q + s >= 1460 then 1 else 0;
    assert doe == 1460 * (25 * c + q) + (24 * c + q + s);
    assert doe / 1460 == 25 * c + q + delta;
    assert doe / 36524 - doe / 146096 == c;
    assert doe - doe / 1460 + doe / 36524 - doe / 146096 == 365 * (100 * c + 4 * q) + (s - delta);
    assert 365 * e <= s - delta < 365 * (e + 1);
  }

  lemma StartOfSplit(c: int, q: int, e: int)
    requires 0 <= c <= 3 && 0 <= q <= 24 && 0 <= e <= 3
    ensures var y := 100 * c + 4 * q + e;
            YearStart(y) == 36524 * c + 1461 * q + 365 * e && y % 4 == e && (y % 100 == 99 <==> q == 24 && e == 3)
  {
    var y := 100 * c + 4 * q + e;
    assert y / 4 == 25 * c + q && y / 100 == c;
  }

  // The closed form finds the year the day of the era falls in: its first day is
  // not after doe, and the last day of a 365- or 366-day year not before it.
  lemma YearOfEraIsRight(doe: nat)
    requires doe < DAYS_PER_ERA
    ensures var yoe := YearOfEra(doe);
            && 0 <= yoe <= 399
            && 0 <= doe - YearStart(yoe) <= 365
            && (doe - YearStart(yoe) == 365 ==> yoe % 4 == 3 && (yoe % 100 == 99 ==> yoe == 399))
  {
    var c, q, e, doy := EraSplit(doe);
    YearOfSplit(doe, c, q, e, doy);
    StartOfSplit(c, q, e);
  }

  // Days from 1 March to the first of the month mp months later.
  function MonthStart(mp: nat): int {
    (153 * mp + 2) / 5
  }

  // The closed form finds the month, counted from March, of the day of the year.
  lemma MonthIsRight(doy: nat)
    requires doy <= 365
    ensures var mp := (5 * doy + 2) / 153;
            0 <= mp <= 11 && MonthStart(mp) <= doy && (mp < 11 ==> doy < MonthStart(mp + 1))
  {
  }

  // DaysFromDate, for dates given by a year that starts in March.
  lemma MarchYear(y: int, mp: nat, day: int)
    requires mp <= 11 && 1 <= day
    requires mp < 11 ==> MonthStart(mp) + day <= MonthStart(mp + 1)
    requires mp == 11 ==> day <= 28 || (day == 29 && IsLeap(y + 1))
    ensures var m := if mp < 10 then mp + 3 else mp - 9;
            var d := Date(if m <= 2 then y + 1 else y, m, day);
            && ValidDate(d)
            && DaysFromDate(d) == DaysBeforeYear(y + 1) - 306 + MonthStart(mp) + day - 1 - 719162
  {
    MonthTable(y);
    MonthTable(y + 1);
    YearLength(y);
  }

  lemma MarchDateIsRight(y: int, doy: int)
    requires 0 <= doy <= 365 && (doy == 365 ==> IsLeap(y + 1))
    ensures ValidDate(MarchDate(y, doy))
    ensures DaysFromDate(MarchDate(y, doy)) == DaysBeforeYear(y + 1) - 306 + doy - 719162
  {
    MonthIsRight(doy);
    var mp := (5 * doy + 2) / 153;
    MarchYear(y, mp, doy - MonthStart(mp) + 1);
  }

  lemma ModFour(a: int, x: int)
    ensures (4 * a + x) % 4 == x % 4
  {
  }

  lemma ModHundred(a: int, x: int)
    ensures (100 * a + x) % 100 == x % 100
  {
  }

  lemma ModFourHundred(a: int, x: int)
    ensures (400 * a + x) % 400 == x % 400
  {
  }

  // Leap years repeat with the era.
  lemma LeapShift(era: int, y: int)
    ensures IsLeap(400 * era + y) <==> IsLeap(y)
  {
    ModFour(100 * era, y);
    ModHundred(4 * era, y);
    ModFourHundred(era, y);
    assert 400 * era + y == 4 * (100 * era) + y == 100 * (4 * era) + y;
  }

  lemma EraLeap(era: int, yoe: int)
    requires 0 <= yoe <= 399
    ensures IsLeap(400 * era + yoe + 1) <==> (yoe % 4 == 3 && (yoe % 100 == 99 ==> yoe == 399))
  {
    LeapShift(era, yoe + 1);
    assert 400 * era + yoe + 1 == 400 * era + (yoe + 1);
  }

  lemma EraStart(era: int, yoe: int)
    requires 0 <= yoe <= 399
    ensures DaysBeforeYear(400 * era + yoe + 1) == DAYS_PER_ERA * era + YearStart(yoe)
  {
    var y := 400 * era + yoe;
    assert y / 4 == 100 * era + yoe / 4;
    assert y / 100 == 4 * era + yoe / 100;
    assert y / 400 == era;
  }

  lemma DateInYearInverts(era: int, yoe: int, doy: int)
    requires 0 <= yoe <= 399 && 0 <= doy <= 365
    requires doy == 365 ==> yoe % 4 == 3 && (yoe % 100 == 99 ==> yoe == 399)
    ensures ValidDate(MarchDate(yoe + era * 400, doy))
    ensures DaysFromDate(MarchDate(yoe + era * 400, doy)) == DAYS_PER_ERA * era + YearStart(yoe) + doy - DAYS_TO_EPOCH
  {
    EraStart(era, yoe);
    EraLeap(era, yoe);
    assert yoe + era * 400 + 1 == 400 * era + yoe + 1;
    MarchDateIsRight(yoe + era * 400, doy);
  }

  lemma DateInEraInverts(era: int, doe: nat)
    requires doe < DAYS_PER_ERA
    ensures ValidDate(DateInEra(era, doe))
    ensures DaysFromDate(DateInEra(era, doe)) == DAYS_PER_ERA * era + doe - DAYS_TO_EPOCH
  {
    YearOfEraIsRight(doe);
    var yoe := YearOfEra(doe);
    DateInYearInverts(era, yoe, doe - YearStart(yoe));
  }

  // The closed form yields a valid date, and the day count of that date is the
  // number it was given.
  lemma WideDateInverts(days: nat)
    ensures ValidDate(WideDate(days))
    ensures DaysFromDate(WideDate(days)) == days
  {
    var z := days + DAYS_TO_EPOCH;
    DateInEraInverts(z / DAYS_PER_ERA, z % DAYS_PER_ERA);
  }

  // days_to_date: beyond the bound, `days as i64 + 719468` overflows.
  function DaysToDate(days: nat): (r: Date)
    requires days + DAYS_TO_EPOCH < I64_LIMIT
    ensures 1 <= r.month <= 12 && 1 <= r.day <= 31
    ensures -I32_MAX - 1 <= r.year <= I32_MAX
  {
    var w := WideDate(days);
    WideDateInverts(days);
    w.(year := AsI32(w.year))
  }

  /* ---- Dates and day counts are in order-preserving correspondence ---- */

  predicate Before(a: Date, b: Date) {
    || a.year < b.year
    || (a.year == b.year && (a.month < b.month || (a.month == b.month && a.day < b.day)))
  }

  lemma {:induction false} YearsGrow(y: int, y': int)
    requires y <= y'
    ensures DaysBeforeYear(y) + 365 * (y' - y) <= DaysBeforeYear(y')
    decreases y' - y
  {
    if y < y' {
      YearsGrow(y + 1, y');
      YearLength(y);
    }
  }

  lemma {:induction false} MonthsGrow(y: int, m: int, m': int)
    requires 1 <= m < m' <= 12
    ensures DaysBeforeMonth(y, m) + DaysInMonth(y, m) <= DaysBeforeMonth(y, m')
    decreases m'
  {
    if m < m' - 1 {
      MonthsGrow(y, m, m' - 1);
    }
  }

  lemma DayOfYearBound(d: Date)
    requires ValidDate(d)
    ensures 1 <= DaysBeforeMonth(d.year, d.month) + d.day <= if IsLeap(d.year) then 366 else 365
  {
    MonthTable(d.year);
  }

  lemma EarlierCountsLess(a: Date, b: Date)
    requires ValidDate(a) && ValidDate(b) && Before(a, b)
    ensures DaysFromDate(a) < DaysFromDate(b)
  {
    if a.year < b.year {
      DayOfYearBound(a);
      DayOfYearBound(b);
      YearLength(a.year);
      YearsGrow(a.year + 1, b.year);
    } else if a.month < b.month {
      MonthsGrow(a.year, a.month, b.month);
    }
  }

  lemma DayCountIsMonotone(a: Date, b: Date)
    requires ValidDate(a) && ValidDate(b)
    ensures Before(a, b) <==> DaysFromDate(a) < DaysFromDate(b)
    ensures a == b <==> DaysFromDate(a) == DaysFromDate(b)
  {
    if Before(a, b) {
      EarlierCountsLess(a, b);
    } else if Before(b, a) {
      EarlierCountsLess(b, a);
    } else {
      assert a == b;
    }
  }

  lemma NextDayCounts(d: Date)
    requires ValidDate(d)
    ensures DaysFromDate(NextDay(d)) == DaysFromDate(d) + 1
  {
    MonthTable(d.year);
    YearLength(d.year);
  }

  /* ---- Main results ---- */

  // Consecutive day counts give successor dates.
  lemma SuccessorDate(days: nat)
    ensures ValidDate(WideDate(days))
    ensures WideDate(days + 1) == NextDay(WideDate(days))
  {
    WideDateInverts(days);
    WideDateInverts(days + 1);
    NextDayCounts(WideDate(days));
    DayCountIsMonotone(WideDate(days + 1), NextDay(WideDate(days)));
  }

  lemma {:induction false} SteppedYear(days: nat)
    ensures Stepped(days).year >= 1970
    ensures DaysFromDate(Stepped(days)) == days
  {
    if days > 0 {
      SteppedYear(days - 1);
      NextDayCounts(Stepped(days - 1));
    } else {
      MonthTable(1970);
    }
  }

  // The closed form is the calendar stepped one day at a time.
  lemma ClosedFormIsStepped(days: nat)
    ensures WideDate(days) == Stepped(days)
  {
    WideDateInverts(days);
    SteppedYear(days);
    DayCountIsMonotone(WideDate(days), Stepped(days));
  }

  lemma NarrowingIsExact(y: nat)
    ensures AsI32(y) == y <==> y <= I32_MAX
  {
  }

  // For every day count: month and day are those of the stepped calendar, the year
  // is its year modulo 2^32, and the whole date agrees exactly when that year fits
  // in an i32.
  lemma DaysToDateIsStepped(days: nat)
    requires days + DAYS_TO_EPOCH < I64_LIMIT
    ensures DaysToDate(days).month == Stepped(days).month
    ensures DaysToDate(days).day == Stepped(days).day
    ensures (DaysToDate(days).year - Stepped(days).year) % U32_SPAN == 0
    ensures DaysToDate(days) == Stepped(days) <==> Stepped(days).year <= I32_MAX
  {
    ClosedFormIsStepped(days);
    SteppedYear(days);
    NarrowingIsExact(Stepped(days).year);
  }

  // days-from-date and the closed form invert each other.
  lemma DateRoundTrip(d: Date)
    requires ValidDate(d) && d.year >= 1970
    ensures DaysFromDate(d) >= 0
    ensures WideDate(DaysFromDate(d)) == d
  {
    MonthTable(1970);
    var epoch := Date(1970, 1, 1);
    DayCountIsMonotone(d, epoch);
    WideDateInverts(DaysFromDate(d));
    DayCountIsMonotone(WideDate(DaysFromDate(d)), d);
  }
}
