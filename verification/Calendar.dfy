/** Civil dates of the proleptic Gregorian calendar (section 3.2.1 of ISO 8601:2004), their day
    numbers relative to 1970-01-01, and weekdays.  Integers are unbounded; every width that
    matters is written out. */
module Calendar {

  const MIN_YEAR := -32767
  const MAX_YEAR := 32767

  datatype Date = Date(year: int, month: int, day: int)

  /** Integer division of C++, which truncates toward zero. */
  function TruncDiv(a: int, b: int): int
    requires b > 0
  {
    if a >= 0 then a / b else -((-a) / b)
  }

  predicate IsLeap(y: int) {
    y % 4 == 0 && (y % 100 != 0 || y % 400 == 0)
  }

  /** The last day of a month; 29 for a month number outside 1..12. */
  function LastDay(y: int, m: int): int {
    if (m != 2 || !IsLeap(y)) && 1 <= m <= 12 then
      [31, 28, 31, 30, 31, 30, 31, 31, 30, 31, 30, 31][m - 1]
    else
      29
  }

  /** A year fits when it is between year::min() and year::max(). */
  predicate YearFits(y: int) {
    MIN_YEAR <= y <= MAX_YEAR
  }

  /** A day that exists in the calendar, whatever its year. */
  predicate Exists(d: Date) {
    1 <= d.month <= 12 && 1 <= d.day <= LastDay(d.year, d.month)
  }

  predicate Ok(d: Date) {
    YearFits(d.year) && Exists(d)
  }

  predicate Before(x: Date, y: Date) {
    if x.year < y.year then true
    else if x.year > y.year then false
    else if x.month < y.month then true
    else if x.month > y.month then false
    else x.day < y.day
  }

  /** Days from March 1 to the given day, for a month counted from January. */
  function DayOfYear(m: int, d: int): int {
    (153 * (if m > 2 then m - 3 else m + 9) + 2) / 5 + d - 1
  }

  function LeapDays(yoe: int): int {
    yoe / 4 - yoe / 100
  }

  function ToDays(date: Date): int {
    var y := date.year - (if date.month <= 2 then 1 else 0);
    var era := TruncDiv(if y >= 0 then y else y - 399, 400);
    var yoe := y - era * 400;
    var doy := DayOfYear(date.month, date.day);
    var doe := yoe * 365 + LeapDays(yoe) + doy;
    era * 146097 + doe - 719468
  }

  function YearOfEra(doe: int): int {
    (doe - doe / 1460 + doe / 36524 - doe / 146096) / 365
  }

  function MonthOf(doy: int): int {
    var mp := (5 * doy + 2) / 153;
    if mp < 10 then mp + 3 else mp - 9
  }

  function DayOf(doy: int): int {
    var mp := (5 * doy + 2) / 153;
    doy - (153 * mp + 2) / 5 + 1
  }

  /** The date `doe` days into an era. */
  function FromDayOfEra(era: int, doe: int): Date {
    var yoe := YearOfEra(doe);
    var y := yoe + era * 400;
    var doy := doe - (365 * yoe + LeapDays(yoe));
    var m := MonthOf(doy);
    Date(y + (if m <= 2 then 1 else 0), m, DayOf(doy))
  }

  function EraOf(z: int): int {
    TruncDiv(if z >= 0 then z else z - 146096, 146097)
  }

  /** The date of a day number, before its year is stored. */
  function WideFromDays(dp: int): Date {
    var z := dp + 719468;
    var era := EraOf(z);
    FromDayOfEra(era, z - era * 146097)
  }

  /** A year is stored in 16 bits, which wraps. */
  function StoredYear(y: int): int {
    (y + 0x8000) % 0x1_0000 - 0x8000
  }

  function FromDays(dp: int): Date {
    var d := WideFromDays(dp);
    d.(year := StoredYear(d.year))
  }

  /** The calendar successor of a date, by month lengths alone. */
  function NextDay(d: Date): Date {
    if d.day < LastDay(d.year, d.month) then d.(day := d.day + 1)
    else if d.month < 12 then Date(d.year, d.month + 1, 1)
    else Date(d.year + 1, 1, 1)
  }

  // ---- A reading of both conversions in a year that starts in March ----

  /** A year starting in March is 100c + 4q + s years into its 400-year era, and the day is
      `doy` days into that year.  Day 365 exists only before a leap February 29 has passed. */
  datatype EraDay = EraDay(era: int, c: int, q: int, s: int, doy: int) {
    ghost predicate Valid() {
      && 0 <= c <= 3 && 0 <= q <= 24 && 0 <= s <= 3 && 0 <= doy <= 365
      && (doy == 365 ==> s == 3 && (q == 24 ==> c == 3))
    }
    ghost function Year(): int { 400 * era + 100 * c + 4 * q + s }
    ghost function DayOfEra(): int { 36524 * c + 1461 * q + 365 * s + doy }
    ghost function Days(): int { 146097 * era + DayOfEra() - 719468 }
  }

  lemma MulLe(d: int, x: int, y: int)
    requires d > 0 && x <= y
    ensures d * x <= d * y
  {
  }

  lemma DivIs(n: int, d: int, k: int, r: int)
    requires d > 0 && 0 <= r < d && n == d * k + r
    ensures n / d == k
  {
    var q := n / d;
    assert n == d * q + n % d && 0 <= n % d < d;
    if q > k {
      MulLe(d, k + 1, q);
    } else if q < k {
      MulLe(d, q + 1, k);
    }
  }

  /** The era of the source's truncating division with an offset is the floor. */
  lemma EraIs(z: int, d: int, era: int, r: int)
    requires d > 0 && 0 <= r < d && z == d * era + r
    ensures TruncDiv(if z >= 0 then z else z - (d - 1), d) == era
  {
    DivIs(z, d, era, r);
    if z < 0 {
      DivIs(d - 1 - z, d, -era, d - 1 - r);
    }
  }

  lemma YearOfEraIs(e: EraDay)
    requires e.Valid()
    ensures var doe := e.DayOfEra();
            0 <= doe <= 146096 &&
            YearOfEra(doe) == 100 * e.c + 4 * e.q + e.s
  {
    var EraDay(_, c, q, s, doy) := e;
    var doe := e.DayOfEra();
    var rest := 24 * c + q + 365 * s + doy;
    var f := if rest < 1460 then 0 else 1;
    DivIs(doe, 1460, 25 * c + q + f, rest - 1460 * f);
    var last := if doe == 146096 then 1 else 0;
    DivIs(doe, 146096, last, doe - 146096 * last);
    DivIs(doe, 36524, c + last, 1461 * q + 365 * s + doy - 36524 * last);
    DivIs(doe - doe / 1460 + doe / 36524 - doe / 146096, 365, 100 * c + 4 * q + s, doy - f);
  }

  lemma LeapDaysOfEra(e: EraDay)
    requires e.Valid()
    ensures var yoe := 100 * e.c + 4 * e.q + e.s;
            0 <= yoe <= 399 && yoe * 365 + LeapDays(yoe) + e.doy == e.DayOfEra()
  {
    var EraDay(_, c, q, s, _) := e;
    DivIs(100 * c + 4 * q + s, 4, 25 * c + q, s);
    DivIs(100 * c + 4 * q + s, 100, c, 4 * q + s);
  }

  lemma MonthAndDayOf(m: int, d: int)
    requires 1 <= m <= 12 && 1 <= d <= LastDay(0, m)
    ensures 0 <= DayOfYear(m, d) <= 365
    ensures MonthOf(DayOfYear(m, d)) == m && DayOf(DayOfYear(m, d)) == d
  {
    var mp := if m > 2 then m - 3 else m + 9;
    var start := [0, 31, 61, 92, 122, 153, 184, 214, 245, 275, 306, 337][mp];
    assert (153 * mp + 2) / 5 == start;
    DivIs(5 * (start + d - 1) + 2, 153, mp, 5 * (start + d - 1) + 2 - 153 * mp);
  }

  lemma DayOfYearOf(doy: int)
    requires 0 <= doy <= 365
    ensures var m, d := MonthOf(doy), DayOf(doy);
            1 <= m <= 12 && 1 <= d <= LastDay(0, m) && DayOfYear(m, d) == doy
    ensures doy == 365 <==> MonthOf(doy) == 2 && DayOf(doy) == 29
  {
    var mp := (5 * doy + 2) / 153;
    assert 153 * mp <= 5 * doy + 2 < 153 * mp + 153;
    assert 0 <= mp <= 11;
    var start := [0, 31, 61, 92, 122, 153, 184, 214, 245, 275, 306, 337][mp];
    assert (153 * mp + 2) / 5 == start;
  }

  /** The March-based reading of a date. */
  ghost function EraDayOf(d: Date): EraDay {
    var y := d.year - (if d.month <= 2 then 1 else 0);
    EraDay(y / 400, y % 400 / 100, y % 100 / 4, y % 4, DayOfYear(d.month, d.day))
  }

  ghost function DateOf(e: EraDay): Date {
    var m := MonthOf(e.doy);
    Date(e.Year() + (if m <= 2 then 1 else 0), m, DayOf(e.doy))
  }

  /** The March-based reading of a day number. */
  ghost function EraDayAt(dp: int): EraDay {
    var z := dp + 719468;
    var era, doe := z / 146097, z % 146097;
    var c := if doe == 146096 then 3 else doe / 36524;
    var inCentury := doe - 36524 * c;
    var q := inCentury / 1461;
    var inCycle := inCentury - 1461 * q;
    var s := if inCycle == 1460 then 3 else inCycle / 365;
    EraDay(era, c, q, s, inCycle - 365 * s)
  }

  lemma YearParts(y: int)
    ensures var c, q, s := y % 400 / 100, y % 100 / 4, y % 4;
            0 <= c <= 3 && 0 <= q <= 24 && 0 <= s <= 3 && y == 400 * (y / 400) + 100 * c + 4 * q + s
  {
    var a, b := y % 400, y % 100;
    assert y == 400 * (y / 400) + a;
    assert y == 100 * (y / 100) + b;
    DivIs(y, 100, 4 * (y / 400) + a / 100, a % 100);
    assert b == a % 100;
    assert b == 4 * (b / 4) + b % 4;
    DivIs(y, 4, 25 * (y / 100) + b / 4, b % 4);
  }

  lemma LeapParts(e: EraDay)
    requires e.Valid()
    ensures IsLeap(e.Year() + 1) <==> e.s == 3 && (e.q == 24 ==> e.c == 3)
  {
    var y := e.Year() + 1;
    var EraDay(era, c, q, s, _) := e;
    var carry4 := if s == 3 then 1 else 0;
    DivIs(y, 4, 100 * era + 25 * c + q + carry4, s + 1 - 4 * carry4);
    var carry100 := if 4 * q + s == 99 then 1 else 0;
    DivIs(y, 100, 4 * era + c + carry100, 4 * q + s + 1 - 100 * carry100);
    var carry400 := if 100 * c + 4 * q + s == 399 then 1 else 0;
    DivIs(y, 400, era + carry400, 100 * c + 4 * q + s + 1 - 400 * carry400);
  }

  lemma EraDayIsOfDate(d: Date, e: EraDay)
    requires Exists(d) && e == EraDayOf(d)
    ensures e.Valid() && DateOf(e) == d && e.Year() == d.year - (if d.month <= 2 then 1 else 0)
  {
    var y := d.year - (if d.month <= 2 then 1 else 0);
    MonthAndDayOf(d.month, d.day);
    YearParts(y);
    LeapParts(e.(doy := 0));
    assert e.Year() == y;
    DayOfYearOf(e.doy);
  }

  lemma EraDayOfDate(d: Date)
    requires Exists(d)
    ensures EraDayOf(d).Valid() && DateOf(EraDayOf(d)) == d
    ensures ToDays(d) == EraDayOf(d).Days()
  {
    var e := EraDayOf(d);
    EraDayIsOfDate(d, e);
    DaysOfEraDay(d, e, 100 * e.c + 4 * e.q + e.s);
  }

  lemma DaysOfEraDay(d: Date, e: EraDay, yoe: int)
    requires e.Valid() && e.doy == DayOfYear(d.month, d.day) && yoe == 100 * e.c + 4 * e.q + e.s
    requires e.Year() == d.year - (if d.month <= 2 then 1 else 0)
    ensures ToDays(d) == e.Days()
  {
    LeapDaysOfEra(e);
    EraIs(e.Year(), 400, e.era, yoe);
  }

  lemma EraDayAtIsValid(dp: int, e: EraDay)
    requires e == EraDayAt(dp)
    ensures e.Valid() && e.Days() == dp
  {
    assert dp + 719468 == 146097 * e.era + e.DayOfEra();
  }

  lemma DateOfIsRead(e: EraDay)
    requires e.Valid()
    ensures Exists(DateOf(e)) && EraDayOf(DateOf(e)) == e
  {
    DayOfYearOf(e.doy);
    assert Exists(DateOf(e)) by { LeapParts(e); }
    PartsOfYear(e, e.Year());
  }

  lemma PartsOfYear(e: EraDay, y: int)
    requires e.Valid() && y == e.Year()
    ensures y / 400 == e.era && y % 400 / 100 == e.c && y % 100 / 4 == e.q && y % 4 == e.s
  {
    YearParts(y);
    DivIs(y, 400, e.era, 100 * e.c + 4 * e.q + e.s);
    DivIs(y, 100, 4 * e.era + e.c, 4 * e.q + e.s);
    DivIs(y, 4, 100 * e.era + 25 * e.c + e.q, e.s);
  }

  lemma EraDayOfDays(dp: int)
    ensures var e := EraDayAt(dp);
            e.Valid() && e.Days() == dp && Exists(DateOf(e)) && EraDayOf(DateOf(e)) == e
  {
    EraDayAtIsValid(dp, EraDayAt(dp));
    DateOfIsRead(EraDayAt(dp));
  }

  lemma FromDayOfEraIs(e: EraDay)
    requires e.Valid()
    ensures FromDayOfEra(e.era, e.DayOfEra()) == DateOf(e)
  {
    YearOfEraIs(e);
    LeapDaysOfEra(e);
  }

  lemma WideFromDaysAt(dp: int, era: int, doe: int)
    requires EraOf(dp + 719468) == era
    requires dp + 719468 == 146097 * era + doe
    ensures WideFromDays(dp) == FromDayOfEra(era, doe)
  {
  }

  lemma EraOfDays(e: EraDay)
    requires e.Valid()
    ensures EraOf(e.Days() + 719468) == e.era
  {
    assert 0 <= e.DayOfEra() <= 146096 by { YearOfEraIs(e); }
    EraIs(e.Days() + 719468, 146097, e.era, e.DayOfEra());
  }

  lemma WideFromDaysIs(e: EraDay)
    requires e.Valid()
    ensures WideFromDays(e.Days()) == DateOf(e)
  {
    EraOfDays(e);
    WideFromDaysAt(e.Days(), e.era, e.DayOfEra());
    FromDayOfEraIs(e);
  }

  // ---- Round trips and order ----

  lemma WideFromToDays(d: Date)
    requires Exists(d)
    ensures WideFromDays(ToDays(d)) == d
  {
    EraDayOfDate(d);
    WideFromDaysIs(EraDayOf(d));
  }

  lemma WideDateOf(dp: int) returns (d: Date)
    ensures d == WideFromDays(dp)
    ensures Exists(d) && ToDays(d) == dp
  {
    EraDayOfDays(dp);
    var e := EraDayAt(dp);
    WideFromDaysIs(e);
    EraDayOfDate(DateOf(e));
    d := DateOf(e);
  }

  lemma FromDaysOfFitting(dp: int, d: Date)
    requires WideFromDays(dp) == d && YearFits(d.year)
    ensures FromDays(dp) == d
  {
    FittingYearIsStored(d.year);
  }

  lemma FittingYearIsStored(y: int)
    requires YearFits(y)
    ensures StoredYear(y) == y
  {
  }

  /** Every valid date survives the trip through its day number. */
  lemma FromToDays(d: Date)
    requires Ok(d)
    ensures FromDays(ToDays(d)) == d
  {
    WideFromToDays(d);
    FromDaysOfFitting(ToDays(d), d);
  }

  /** Reading order of March-based days. */
  ghost predicate EarlierIn(a: EraDay, b: EraDay) {
    if a.era != b.era then a.era < b.era
    else if a.c != b.c then a.c < b.c
    else if a.q != b.q then a.q < b.q
    else if a.s != b.s then a.s < b.s
    else a.doy < b.doy
  }

  lemma EarlierHasFewerDays(a: EraDay, b: EraDay)
    requires a.Valid() && b.Valid() && EarlierIn(a, b)
    ensures a.Days() < b.Days()
  {
    YearOfEraIs(a);
    YearOfEraIs(b);
  }

  ghost function MarchMonth(m: int): int {
    if m > 2 then m - 3 else m + 9
  }

  lemma DayOfYearGrows(m: int, d: int, m': int, d': int)
    requires 1 <= m <= 12 && 1 <= m' <= 12 && 1 <= d <= LastDay(0, m) && 1 <= d'
    requires MarchMonth(m) < MarchMonth(m') || (m == m' && d < d')
    ensures DayOfYear(m, d) < DayOfYear(m', d')
  {
    var starts := [306, 337, 0, 31, 61, 92, 122, 153, 184, 214, 245, 275];
    assert DayOfYear(m, d) == starts[m - 1] + d - 1;
    assert DayOfYear(m', d') == starts[m' - 1] + d' - 1;
  }

  lemma EarlierByYear(a: EraDay, b: EraDay)
    requires a.Valid() && b.Valid()
    requires a.Year() < b.Year() || (a.Year() == b.Year() && a.doy < b.doy)
    ensures EarlierIn(a, b)
  {
  }

  ghost function MarchYear(d: Date): int {
    d.year - (if d.month <= 2 then 1 else 0)
  }

  lemma BeforeInMarchYears(x: Date, y: Date)
    requires Exists(x) && Exists(y) && Before(x, y)
    ensures MarchYear(x) < MarchYear(y)
         || (MarchYear(x) == MarchYear(y) && DayOfYear(x.month, x.day) < DayOfYear(y.month, y.day))
  {
    if MarchYear(x) >= MarchYear(y) {
      DayOfYearGrows(x.month, x.day, y.month, y.day);
    }
  }

  lemma YearOfDate(d: Date)
    ensures EraDayOf(d).Year() == MarchYear(d)
  {
    YearParts(MarchYear(d));
  }

  /** ToDays keeps the order of dates. */
  lemma ToDaysGrows(x: Date, y: Date)
    requires Exists(x) && Exists(y) && Before(x, y)
    ensures ToDays(x) < ToDays(y)
  {
    EraDayOfDate(x);
    EraDayOfDate(y);
    assert EarlierIn(EraDayOf(x), EraDayOf(y)) by {
      BeforeInMarchYears(x, y);
      YearOfDate(x);
      YearOfDate(y);
      EarlierByYear(EraDayOf(x), EraDayOf(y));
    }
    EarlierHasFewerDays(EraDayOf(x), EraDayOf(y));
  }

  /** ToDays is an order isomorphism between existing dates and day numbers. */
  lemma ToDaysOrder(x: Date, y: Date)
    requires Exists(x) && Exists(y)
    ensures Before(x, y) <==> ToDays(x) < ToDays(y)
    ensures x == y <==> ToDays(x) == ToDays(y)
  {
    if Before(x, y) {
      ToDaysGrows(x, y);
    } else if Before(y, x) {
      ToDaysGrows(y, x);
    }
  }

  lemma NextDayIsLeast(d: Date, f: Date)
    requires Exists(d) && Exists(f) && Before(d, f)
    ensures Exists(NextDay(d)) && Before(d, NextDay(d))
    ensures f == NextDay(d) || Before(NextDay(d), f)
  {
  }

  /** The calendar successor, defined by month lengths, has the next day number. */
  lemma NextDayIsNext(d: Date)
    requires Exists(d)
    ensures Exists(NextDay(d)) && ToDays(NextDay(d)) == ToDays(d) + 1
  {
    var f := WideDateOf(ToDays(d) + 1);
    ToDaysOrder(d, f);
    NextDayIsLeast(d, f);
    if f != NextDay(d) {
      ToDaysGrows(d, NextDay(d));
      ToDaysGrows(NextDay(d), f);
    }
  }

  /** The same month and day of another year is another day, even when it does not exist there. */
  lemma OtherYearIsOtherDay(d: Date, y: int)
    requires Exists(d) && y != d.year
    ensures ToDays(d.(year := y)) != ToDays(d)
  {
    var x := d.(year := y);
    if Exists(x) {
      ToDaysOrder(x, d);
    } else {
      assert x == Date(y, 2, 29);
      NextDayIsNext(Date(y, 2, 28));
      ToDaysOrder(Date(y, 3, 1), d);
    }
  }

  /** The date of a day number has its month and day, and its year by the low 16 bits: it is that date
      exactly when the year is one of -32768 to 32767. */
  lemma FromDaysWraps(d: Date)
    requires Exists(d)
    ensures var e := FromDays(ToDays(d));
            && e.month == d.month && e.day == d.day
            && -0x8000 <= e.year < 0x8000 && (e.year - d.year) % 0x1_0000 == 0
            && (e == d <==> -0x8000 <= d.year < 0x8000)
  {
    WideFromToDays(d);
    YearWraps(d.year);
  }

  lemma YearWraps(y: int)
    ensures -0x8000 <= StoredYear(y) < 0x8000 && (StoredYear(y) - y) % 0x1_0000 == 0
    ensures StoredYear(y) == y <==> -0x8000 <= y < 0x8000
  {
  }

  /** Day 0, and a day whose date tells the 400-year rule from the others. */
  lemma KnownDays()
    ensures ToDays(Date(1970, 1, 1)) == 0 && ToDays(Date(2000, 2, 29)) == 11016
  {
  }

  const FIRST_DATE := Date(-0x8000, 1, 1)
  const FIRST_OK_DATE := Date(-0x7fff, 1, 1)
  const LAST_DATE := Date(0x7fff, 12, 31)

  lemma StoredYearIsSame(d: Date)
    requires Exists(d)
    ensures StoredYear(d.year) == d.year <==> ToDays(FIRST_DATE) <= ToDays(d) <= ToDays(LAST_DATE)
  {
    ToDaysOrder(d, FIRST_DATE);
    ToDaysOrder(d, LAST_DATE);
  }

  /** A day number survives the trip through its date exactly when its year can be stored. */
  lemma ToFromDays(dp: int)
    ensures ToDays(FromDays(dp)) == dp <==> ToDays(FIRST_DATE) <= dp <= ToDays(LAST_DATE)
    ensures ToDays(FIRST_DATE) <= dp <= ToDays(LAST_DATE) ==> Exists(FromDays(dp))
    ensures Ok(FromDays(dp)) && ToDays(FromDays(dp)) == dp <==> ToDays(FIRST_OK_DATE) <= dp <= ToDays(LAST_DATE)
  {
    var d := WideDateOf(dp);
    StoredYearIsSame(d);
    ToDaysOrder(d, FIRST_OK_DATE);
    ToDaysOrder(FIRST_DATE, FIRST_OK_DATE);
    if StoredYear(d.year) != d.year {
      OtherYearIsOtherDay(d, StoredYear(d.year));
    }
  }

  // ---- Weekdays, Sunday being 0 ----

  const TWO32 := 0x1_0000_0000

  /** The source converts z to a 32-bit unsigned number, which wraps. */
  function WeekdayFromDays(z: int): int {
    var u := z % TWO32;
    if z >= -4 then (u + 4) % TWO32 % 7 else u % 7
  }

  /** Day 0 is a Thursday. */
  function FloorWeekday(z: int): int {
    (z + 4) % 7
  }

  /** The wrapped form counts weekdays in both directions, for every 32-bit day number. */
  lemma WeekdayIsModular(z: int)
    requires -0x8000_0000 <= z < 0x8000_0000
    ensures WeekdayFromDays(z) == FloorWeekday(z)
  {
    if z < -4 {
      assert z % TWO32 == z + TWO32;
      assert TWO32 == 7 * 613566756 + 4;
    } else if z < 0 {
      assert z % TWO32 == z + TWO32;
      assert (z + TWO32 + 4) % TWO32 == z + 4;
    }
  }

  lemma FloorWeekdayTurns(z: int)
    ensures FloorWeekday(z + 1) == (FloorWeekday(z) + 1) % 7
  {
  }

  lemma DayZeroIsThursday()
    ensures WeekdayFromDays(0) == 4
  {
  }

  /** Day 0 is a Thursday, and every 32-bit day number but the last is followed by the next weekday. */
  lemma WeekdaysTurn(z: int)
    requires -0x8000_0000 <= z < 0x7FFF_FFFF
    ensures WeekdayFromDays(0) == 4 && WeekdayFromDays(z + 1) == (WeekdayFromDays(z) + 1) % 7
  {
    DayZeroIsThursday();
    assert WeekdayFromDays(z) == FloorWeekday(z) by { WeekdayIsModular(z); }
    assert WeekdayFromDays(z + 1) == FloorWeekday(z + 1) by { WeekdayIsModular(z + 1); }
    FloorWeekdayTurns(z);
  }

  /** Days from weekday y forward to weekday x. */
  function WeekdayMinus(x: int, y: int): (r: int)
    requires 0 <= x < 7 && 0 <= y < 7
    ensures 0 <= r < 7 && (y + r) % 7 == x
  {
    var wdu := x - y;
    var wk := TruncDiv(if wdu >= 0 then wdu else wdu - 6, 7);
    wdu - wk * 7
  }

  function WeekdayPlus(x: int, n: int): (r: int)
    requires 0 <= x < 7
    ensures r == (x + n) % 7
  {
    var wdu := x + n;
    var wk := TruncDiv(if wdu >= 0 then wdu else wdu - 6, 7);
    var wd := wdu - wk * 7;
    EraIs(wdu, 7, wdu / 7, wdu % 7);
    if wd != 7 then wd else 0
  }
}
