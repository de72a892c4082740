/** The day and time of year at which a time-zone rule starts, in the four forms of the tz source
    files: a fixed day, the last weekday of a month, and the weekday on or before, or on or after,
    a day. */
module MonthDayTimes {
  import opened Calendar

  datatype Zone = Utc | Local | Standard

  datatype When =
    | MonthDay(m: int, d: int)
    | LastWeekday(m: int, wd: int)
    | OnOrBefore(m: int, d: int, wd: int)
    | OnOrAfter(m: int, d: int, wd: int)
  {
    /** What the parser of the tz source files produces. */
    predicate Valid() {
      && 1 <= m <= 12
      && (!LastWeekday? ==> 1 <= d <= 31)
      && (!MonthDay? ==> 0 <= wd < 7)
    }
  }

  /** A day and a time of that day in seconds. */
  datatype MonthDayTime = MonthDayTime(day: When, seconds: int, zone: Zone)

  function MonthKey(w: When): int {
    w.m
  }

  function DayKey(w: When): int {
    if w.LastWeekday? then 31 else w.d
  }

  function ToSysDays(w: When, y: int): int
    requires w.Valid()
  {
    match w
    case MonthDay(m, d) => ToDays(Date(y, m, d))
    case LastWeekday(m, wd) =>
      var last := ToDays(Date(y, m, LastDay(y, m)));
      last - WeekdayMinus(WeekdayOf(last), wd)
    case OnOrBefore(m, d, wd) =>
      var x := ToDays(Date(y, m, d));
      x - WeekdayMinus(WeekdayOf(x), wd)
    case OnOrAfter(m, d, wd) =>
      var x := ToDays(Date(y, m, d));
      x + WeekdayMinus(wd, WeekdayOf(x))
  }

  function WeekdayOf(z: int): (wd: int)
    ensures 0 <= wd < 7
  {
    WeekdayFromDays(z)
  }

  /** The fixed day that a form stands for in year y. */
  function Canonical(w: When, y: int): When
    requires w.Valid()
  {
    if w.MonthDay? then w
    else
      var ymd := FromDays(ToSysDays(w, y));
      MonthDay(ymd.month, ymd.day)
  }

  lemma DaysOfYearFit(y: int, m: int, d: int)
    requires -0x8001 <= y <= 0x8000 && 1 <= m <= 12 && 1 <= d <= 31
    ensures -13_000_000 <= ToDays(Date(y, m, d)) <= 13_000_000
  {
    var first := Date(y, m, 1);
    assert -12_900_000 <= ToDays(first) <= 12_900_000 by {
      EraDayOfDate(first);
      YearOfDate(first);
      DaysOfEraFit(EraDayOf(first));
    }
    DaysIntoMonth(y, m, d);
  }

  lemma DaysOfEraFit(e: EraDay)
    requires e.Valid() && -0x8002 <= e.Year() <= 0x8000
    ensures -12_900_000 <= e.Days() <= 12_900_000
  {
  }

  lemma DaysIntoMonth(y: int, m: int, d: int)
    ensures ToDays(Date(y, m, d)) == ToDays(Date(y, m, 1)) + d - 1
  {
  }

  /** The day of year y that a form is counted from. */
  ghost function Anchor(w: When, y: int): int {
    if w.LastWeekday? then ToDays(Date(y, w.m, LastDay(y, w.m))) else ToDays(Date(y, w.m, w.d))
  }

  // The arithmetic of the nearest weekday, residues being those of WeekdayIsModular.

  lemma NearestAfter(x: int, r: int, wd: int)
    requires 0 <= wd < 7 && x <= r < x + 7 && (FloorWeekday(x) + (r - x)) % 7 == wd
    ensures FloorWeekday(r) == wd && forall z :: x <= z < r ==> FloorWeekday(z) != wd
  {
    WeekdayAfter(x, r - x);
    forall z | x <= z < r
      ensures FloorWeekday(z) != wd
    {
      WeekdayAfter(x, z - x);
    }
  }

  lemma NearestBefore(x: int, r: int, wd: int)
    requires 0 <= wd < 7 && x - 7 < r <= x && (wd + (x - r)) % 7 == FloorWeekday(x)
    ensures FloorWeekday(r) == wd && forall z :: r < z <= x ==> FloorWeekday(z) != wd
  {
    WeekdayAfter(r, x - r);
    forall z | r < z <= x
      ensures FloorWeekday(z) != wd
    {
      WeekdayAfter(r, z - r);
    }
  }

  lemma WeekdayAfter(x: int, n: int)
    requires 0 <= n < 7
    ensures FloorWeekday(x + n) == if FloorWeekday(x) + n < 7 then FloorWeekday(x) + n else FloorWeekday(x) + n - 7
  {
  }

  lemma WeekdaysAround(x: int)
    requires -13_000_000 <= x <= 13_000_000
    ensures forall z :: x - 7 < z < x + 7 ==> WeekdayOf(z) == FloorWeekday(z)
  {
    forall z | x - 7 < z < x + 7
      ensures WeekdayOf(z) == FloorWeekday(z)
    {
      WeekdayIsModular(z);
    }
  }

  lemma FirstOnOrAfter(x: int, r: int, wd: int)
    requires -13_000_000 <= x <= 13_000_000 && 0 <= wd < 7 && r == x + WeekdayMinus(wd, WeekdayOf(x))
    ensures WeekdayOf(r) == wd && x <= r && forall z :: x <= z < r ==> WeekdayOf(z) != wd
  {
    WeekdaysAround(x);
    NearestAfter(x, r, wd);
  }

  lemma LastOnOrBefore(x: int, r: int, wd: int)
    requires -13_000_000 <= x <= 13_000_000 && 0 <= wd < 7 && r == x - WeekdayMinus(WeekdayOf(x), wd)
    ensures WeekdayOf(r) == wd && r <= x && forall z :: r < z <= x ==> WeekdayOf(z) != wd
  {
    WeekdaysAround(x);
    NearestBefore(x, r, wd);
  }

  /** A weekday form resolves to the nearest day with that weekday on its side of the anchor. */
  lemma ResolvedDayIsNearest(w: When, y: int)
    requires w.Valid() && !w.MonthDay? && YearFits(y)
    ensures var x, r := Anchor(w, y), ToSysDays(w, y);
            && WeekdayOf(r) == w.wd
            && (w.OnOrAfter? ==> x <= r && forall z :: x <= z < r ==> WeekdayOf(z) != w.wd)
            && (!w.OnOrAfter? ==> r <= x && forall z :: r < z <= x ==> WeekdayOf(z) != w.wd)
  {
    var x := Anchor(w, y);
    assert -13_000_000 <= x <= 13_000_000 by {
      if w.LastWeekday? { DaysOfYearFit(y, w.m, LastDay(y, w.m)); } else { DaysOfYearFit(y, w.m, w.d); }
    }
    if w.OnOrAfter? {
      FirstOnOrAfter(x, ToSysDays(w, y), w.wd);
    } else {
      LastOnOrBefore(x, ToSysDays(w, y), w.wd);
    }
  }

  lemma CanonicalIs(w: When, y: int, d: Date)
    requires w.Valid() && !w.MonthDay?
    requires WideFromDays(ToSysDays(w, y)) == d
    ensures Canonical(w, y) == MonthDay(d.month, d.day)
  {
  }

  /** Canonicalizing keeps the resolved day of year y exactly when that day is in year y. */
  lemma CanonicalKeepsDay(w: When, y: int)
    requires w.Valid() && YearFits(y)
    ensures Canonical(w, y).Valid()
    ensures ToSysDays(Canonical(w, y), y) == ToSysDays(w, y)
       <==> w.MonthDay? || WideFromDays(ToSysDays(w, y)).year == y
  {
    if !w.MonthDay? {
      var d := WideDateOf(ToSysDays(w, y));
      CanonicalIs(w, y, d);
      if d.year != y { OtherYearIsOtherDay(d, y); }
    }
  }

  /** The last weekday of a month never leaves its year. */
  lemma LastWeekdayStaysInYear(w: When, y: int)
    requires w.Valid() && w.LastWeekday? && YearFits(y)
    ensures WideFromDays(ToSysDays(w, y)).year == y
  {
    var k := LastDay(y, w.m);
    var last := ToDays(Date(y, w.m, k));
    StaysInMonth(y, w.m, k, WeekdayMinus(WeekdayOf(last), w.wd), ToSysDays(w, y));
  }

  lemma StaysInMonth(y: int, m: int, k: int, n: int, dp: int)
    requires Exists(Date(y, m, k)) && 0 <= n < k && dp == ToDays(Date(y, m, k)) - n
    ensures WideFromDays(dp).year == y
  {
    assert ToDays(Date(y, m, k - n)) == dp by {
      DaysIntoMonth(y, m, k);
      DaysIntoMonth(y, m, k - n);
    }
    WideFromToDays(Date(y, m, k - n));
  }

  /** The week in which a form resolves: the one that starts with its day, ends with its day, or ends with
      its month; a fixed day is itself. */
  lemma ResolvedInItsWeek(w: When, y: int)
    requires w.Valid() && YearFits(y)
    ensures !w.MonthDay? ==> WeekdayOf(ToSysDays(w, y)) == w.wd
    ensures w.MonthDay? ==> ToSysDays(w, y) == ToDays(Date(y, w.m, w.d))
    ensures w.OnOrAfter? ==> 0 <= ToSysDays(w, y) - ToDays(Date(y, w.m, w.d)) < 7
    ensures w.OnOrBefore? ==> 0 <= ToDays(Date(y, w.m, w.d)) - ToSysDays(w, y) < 7
    ensures var next := if w.m < 12 then Date(y, w.m + 1, 1) else Date(y + 1, 1, 1);
            w.LastWeekday? ==> 1 <= ToDays(next) - ToSysDays(w, y) <= 7
  {
    if !w.MonthDay? {
      ResolvedDayIsNearest(w, y);
    }
    if w.LastWeekday? {
      MonthEnds(y, w.m, LastDay(y, w.m));
    }
  }

  lemma MonthEnds(y: int, m: int, k: int)
    requires 1 <= m <= 12 && k == LastDay(y, m)
    ensures ToDays(if m < 12 then Date(y, m + 1, 1) else Date(y + 1, 1, 1)) == ToDays(Date(y, m, k)) + 1
  {
    NextDayIsNext(Date(y, m, k));
  }

  // ---- Instants ----

  const DAY := 86400

  function ToTimePoint(t: MonthDayTime, y: int): int
    requires t.day.Valid()
  {
    ToSysDays(t.day, y) * DAY + t.seconds
  }

  /** The instant in UTC, given the offset of standard time and the saving in effect. */
  function ToSys(t: MonthDayTime, y: int, offset: int, save: int): int
    requires t.day.Valid()
  {
    match t.zone
    case Utc => ToTimePoint(t, y)
    case Standard => ToTimePoint(t, y) - offset
    case Local => ToTimePoint(t, y) - (offset + save)
  }

  /** Midnight at the end of a day is midnight at the start of the next. */
  lemma MidnightIsBetweenDays(d: Date, zone: Zone)
    requires Exists(d)
    ensures var n := NextDay(d);
            && MonthDay(d.month, d.day).Valid() && MonthDay(n.month, n.day).Valid()
            && ToTimePoint(MonthDayTime(MonthDay(d.month, d.day), 24 * 3600, zone), d.year)
            == ToTimePoint(MonthDayTime(MonthDay(n.month, n.day), 0, zone), n.year)
  {
    NextDayIsNext(d);
    DayInSeconds(d, MonthDay(d.month, d.day), zone);
    DayInSeconds(NextDay(d), MonthDay(NextDay(d).month, NextDay(d).day), zone);
  }

  lemma DayInSeconds(d: Date, w: When, zone: Zone)
    requires Exists(d) && w == MonthDay(d.month, d.day)
    ensures w.Valid()
    ensures forall seconds :: ToTimePoint(MonthDayTime(w, seconds, zone), d.year) == ToDays(d) * DAY + seconds
  {
  }

  /** Seconds are counted from the start of 1970, and a second later is one more. */
  lemma SecondsAreCounted(t: MonthDayTime, y: int, n: int, zone: Zone)
    requires t.day.Valid()
    ensures ToTimePoint(t.(seconds := t.seconds + n), y) == ToTimePoint(t, y) + n
    ensures ToTimePoint(MonthDayTime(MonthDay(1, 1), 0, zone), 1970) == 0
  {
    Epoch(zone);
  }

  lemma Epoch(zone: Zone)
    ensures ToTimePoint(MonthDayTime(MonthDay(1, 1), 0, zone), 1970) == 0
  {
    assert ToDays(Date(1970, 1, 1)) == 0;
  }

  function Order(a: int, b: int): int {
    if a < b then -1 else if a == b then 0 else 1
  }

  /** -1, 0 or 1 as t in year y comes before, with or after x in year yx. */
  function Compare(t: MonthDayTime, y: int, x: MonthDayTime, yx: int, offset: int, prevSave: int): int
    requires t.day.Valid() && x.day.Valid()
  {
    if t.zone != x.zone then
      var dp0, dp1 := ToSysDays(t.day, y), ToSysDays(x.day, yx);
      if dp0 - dp1 > 1 || dp1 - dp0 > 1 then (if dp0 < dp1 then -1 else 1)
      else if t.zone == Local then
        var tp0 := ToTimePoint(t, y) - prevSave;
        Order(if x.zone == Utc then tp0 - offset else tp0, ToTimePoint(x, yx))
      else if t.zone == Standard then
        if x.zone == Local then Order(ToTimePoint(t, y), ToTimePoint(x, yx) - prevSave)
        else Order(ToTimePoint(t, y) - offset, ToTimePoint(x, yx))
      else
        Order(ToTimePoint(t, y), ToTimePoint(x, yx) - (if x.zone == Local then offset + prevSave else offset))
    else
      Order(ToTimePoint(t, y), ToTimePoint(x, yx))
  }

  /** The part of an instant that is not its day: the time of day, and what its zone is off UTC. */
  function Clock(t: MonthDayTime, offset: int, save: int): int {
    match t.zone
    case Utc => t.seconds
    case Standard => t.seconds - offset
    case Local => t.seconds - (offset + save)
  }

  /** Comparing is comparing instants in UTC, except that days more than one apart decide alone; they
      decide rightly exactly when the clocks do not make up for the days. */
  lemma CompareOrdersInstants(t: MonthDayTime, y: int, x: MonthDayTime, yx: int, offset: int, prevSave: int)
    requires t.day.Valid() && x.day.Valid()
    ensures var days := ToSysDays(t.day, y) - ToSysDays(x.day, yx);
            var ahead := Clock(t, offset, prevSave) - Clock(x, offset, prevSave);
            Compare(t, y, x, yx, offset, prevSave)
            == Order(ToSys(t, y, offset, prevSave), ToSys(x, yx, offset, prevSave)) <==>
              t.zone == x.zone || ((days > 1 ==> -ahead < days * DAY) && (days < -1 ==> ahead < -days * DAY))
  {
  }

  /** With clocks less than two days apart, comparing is comparing instants. */
  lemma CompareWithinTwoDays(t: MonthDayTime, y: int, x: MonthDayTime, yx: int, offset: int, prevSave: int)
    requires t.day.Valid() && x.day.Valid()
    requires -2 * DAY < Clock(t, offset, prevSave) - Clock(x, offset, prevSave) < 2 * DAY
    ensures Compare(t, y, x, yx, offset, prevSave)
         == Order(ToSys(t, y, offset, prevSave), ToSys(x, yx, offset, prevSave))
  {
    CompareOrdersInstants(t, y, x, yx, offset, prevSave);
  }

  /** Seventy-two hours into January 1, UTC, is after January 3, standard time, but compares before. */
  lemma CompareCanFail(t: MonthDayTime, x: MonthDayTime)
    requires t == MonthDayTime(MonthDay(1, 1), 72 * 3600, Utc) && x == MonthDayTime(MonthDay(1, 3), 0, Standard)
    ensures Compare(t, 2020, x, 2020, 0, 0) == -1 && Order(ToSys(t, 2020, 0, 0), ToSys(x, 2020, 0, 0)) == 1
  {
    assert ToDays(Date(2020, 1, 1)) == 18262 && ToDays(Date(2020, 1, 3)) == 18264;
  }
}
