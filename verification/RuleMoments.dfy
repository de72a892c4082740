/** The days on which rules take effect, and what canonicalizing single-year rules does to them. */
module RuleMoments {
  import opened Calendar
  import opened MonthDayTimes
  import opened Rules
  import opened RuleCuts
  import opened RuleScan

  /** A rule of a single year gets a fixed day. */
  function CanonicalRule(r: Rule): Rule
    requires r.Valid()
  {
    if r.start == r.stop then
      var at := r.payload.at;
      r.(payload := r.payload.(at := at.(day := Canonical(at.day, r.start))))
    else r
  }

  /** Canonicalizing changes the form of single-year rules and nothing else: it becomes the month and day
      of the date on which the rule takes effect. */
  lemma CanonicalRuleIs(r: Rule)
    requires r.Valid() && YearFits(r.start)
    ensures r.start < r.stop ==> CanonicalRule(r) == r
    ensures var c, day := CanonicalRule(r), r.payload.at.day;
            && c.start == r.start && c.stop == r.stop && c.payload.name == r.payload.name
            && c.payload.save == r.payload.save && c.payload.abbrev == r.payload.abbrev
            && c.payload.at.seconds == r.payload.at.seconds && c.payload.at.zone == r.payload.at.zone
            && (r.start == r.stop && !day.MonthDay? ==>
                  var d := WideFromDays(ToSysDays(day, r.start)); c.payload.at.day == MonthDay(d.month, d.day))
            && (day.MonthDay? ==> c.payload.at.day == day)
  {
  }

  ghost predicate CanonicalOf(s: seq<Rule>, t: seq<Rule>) {
    AllValid(s) && |t| == |s| && forall i :: 0 <= i < |s| ==> s[i].Valid() && t[i] == CanonicalRule(s[i])
  }

  /** What a rule does in one of its years: on that day and at that time the offset changes. */
  datatype Moment = Moment(name: string, day: int, seconds: int, zone: Zone, save: int, abbrev: string)

  ghost function MomentOf(p: Payload, y: int): Moment
    requires p.at.day.Valid()
  {
    Moment(p.name, ToSysDays(p.at.day, y), p.at.seconds, p.at.zone, p.save, p.abbrev)
  }

  /** Counts the rules that take effect at the given moment of year y. */
  ghost function TakesEffect(y: int, m: Moment): Rule -> int {
    (r: Rule) => if r.Covers(y) && r.payload.at.day.Valid() && MomentOf(r.payload, y) == m then 1 else 0
  }

  ghost predicate SameMoments(s: seq<Rule>, t: seq<Rule>) {
    forall y: int, m: Moment :: Sum(TakesEffect(y, m), s) == Sum(TakesEffect(y, m), t)
  }

  lemma SameMeaningSameMoments(s: seq<Rule>, t: seq<Rule>)
    requires SameMeaning(s, t)
    ensures SameMoments(s, t)
  {
    forall y: int, m: Moment
      ensures Sum(TakesEffect(y, m), s) == Sum(TakesEffect(y, m), t)
    {
      assert Additive(TakesEffect(y, m));
    }
  }

  /** The form stands for a day outside the year. */
  ghost predicate ResolvesOutside(w: When, y: int)
    requires w.Valid()
  {
    !w.MonthDay? && WideFromDays(ToSysDays(w, y)).year != y
  }

  /** A single-year rule whose weekday form leaves the year. */
  ghost predicate LeavesYear(r: Rule)
    requires r.Valid()
  {
    r.start == r.stop && ResolvesOutside(r.payload.at.day, r.start)
  }

  ghost predicate YearsFit(s: seq<Rule>) {
    forall r :: r in s ==> YearFits(r.start) && YearFits(r.stop)
  }

  lemma CanonicalRuleIsValid(r: Rule)
    requires r.Valid() && YearFits(r.start)
    ensures var c := CanonicalRule(r);
            c.Valid() && c.Name() == r.Name() && c.start == r.start && c.stop == r.stop
  {
    CanonicalKeepsDay(r.payload.at.day, r.start);
  }

  /** A rule that stays in its years keeps its moments. */
  lemma CanonicalKeepsMoment(r: Rule, y: int, m: Moment)
    requires r.Valid() && YearFits(r.start) && !LeavesYear(r)
    ensures TakesEffect(y, m)(CanonicalRule(r)) == TakesEffect(y, m)(r)
  {
    CanonicalRuleIsValid(r);
    if r.Covers(y) {
      SameResolvedDay(r, CanonicalRule(r), y);
      SameMoment(r.payload, CanonicalRule(r).payload, y);
    }
  }

  lemma SameResolvedDay(r: Rule, c: Rule, y: int)
    requires r.Valid() && YearFits(r.start) && !LeavesYear(r) && c == CanonicalRule(r) && r.Covers(y)
    ensures c.payload.at.day.Valid() && ToSysDays(c.payload.at.day, y) == ToSysDays(r.payload.at.day, y)
  {
    if r.start == r.stop {
      assert y == r.start;
      StaysPut(r.payload.at.day, r.start);
    }
  }

  lemma StaysPut(w: When, y: int)
    requires w.Valid() && YearFits(y) && !ResolvesOutside(w, y)
    ensures Canonical(w, y).Valid() && ToSysDays(Canonical(w, y), y) == ToSysDays(w, y)
  {
    CanonicalKeepsDay(w, y);
  }

  lemma SameMoment(p: Payload, q: Payload, y: int)
    requires p.at.day.Valid() && q.at.day.Valid() && q == p.(at := p.at.(day := q.at.day))
    requires ToSysDays(q.at.day, y) == ToSysDays(p.at.day, y)
    ensures MomentOf(q, y) == MomentOf(p, y)
  {
  }

  /** A month and day resolve inside the year they are given. */
  lemma MonthDayStaysInYear(d: Date, y: int)
    requires Exists(d)
    ensures WideFromDays(ToDays(d.(year := y))).year == y
  {
    var x := d.(year := y);
    if Exists(x) {
      WideFromToDays(x);
    } else {
      assert x == Date(y, 2, 29);
      assert ToDays(x) == ToDays(Date(y, 3, 1)) by {
        NextDayIsNext(Date(y, 2, 28));
        DaysIntoMonth(y, 2, 28);
        DaysIntoMonth(y, 2, 29);
      }
      WideFromToDays(Date(y, 3, 1));
    }
  }

  lemma CanonicalDayInYear(w: When, y: int)
    requires w.Valid() && !w.MonthDay? && YearFits(y)
    ensures Canonical(w, y).Valid() && WideFromDays(ToSysDays(Canonical(w, y), y)).year == y
  {
    var d := WideDateOf(ToSysDays(w, y));
    CanonicalIs(w, y, d);
    MonthDayStaysInYear(d, y);
  }

  /** A canonicalized rule takes effect at no moment outside its year that it did not have before. */
  lemma CanonicalAddsNoMoment(r: Rule, y: int, m: Moment)
    requires r.Valid() && YearFits(r.start) && WideFromDays(m.day).year != y
    ensures TakesEffect(y, m)(CanonicalRule(r)) <= TakesEffect(y, m)(r)
  {
    CanonicalRuleIsValid(r);
    assert r.start == r.stop == y && !r.payload.at.day.MonthDay? ==>
             ToSysDays(Canonical(r.payload.at.day, y), y) != m.day by {
      if r.start == r.stop == y && !r.payload.at.day.MonthDay? { CanonicalDayInYear(r.payload.at.day, y); }
    }
  }

  /** A rule that leaves its year loses its moment. */
  lemma LeavingLosesMoment(r: Rule)
    requires r.Valid() && YearFits(r.start) && LeavesYear(r)
    ensures var m := MomentOf(r.payload, r.start);
            WideFromDays(m.day).year != r.start
            && TakesEffect(r.start, m)(r) == 1 && TakesEffect(r.start, m)(CanonicalRule(r)) == 0
  {
    CanonicalRuleIsValid(r);
    CanonicalDayInYear(r.payload.at.day, r.start);
  }

  lemma CanonicalOfTail(s: seq<Rule>, t: seq<Rule>)
    requires CanonicalOf(s, t) && s != []
    ensures CanonicalOf(s[1..], t[1..])
  {
    forall i | 0 <= i < |s| - 1
      ensures s[1..][i].Valid() && t[1..][i] == CanonicalRule(s[1..][i])
    {
      assert s[1 + i].Valid() && t[1 + i] == CanonicalRule(s[1 + i]);
    }
  }

  lemma {:induction false} SumKept(f: Rule -> int, s: seq<Rule>, t: seq<Rule>, y: int, m: Moment)
    requires f == TakesEffect(y, m) && CanonicalOf(s, t) && YearsFit(s)
    requires forall r :: r in s ==> r.Valid() && !LeavesYear(r)
    ensures Sum(f, s) == Sum(f, t)
  {
    if s != [] {
      assert s[0] in s;
      CanonicalKeepsMoment(s[0], y, m);
      CanonicalOfTail(s, t);
      SumKept(f, s[1..], t[1..], y, m);
    }
  }

  lemma {:induction false} SumShrinks(f: Rule -> int, s: seq<Rule>, t: seq<Rule>, y: int, m: Moment)
    requires f == TakesEffect(y, m) && CanonicalOf(s, t) && YearsFit(s)
    requires WideFromDays(m.day).year != y
    ensures Sum(f, t) <= Sum(f, s)
    ensures (exists r :: r in s && r.Valid() && f(CanonicalRule(r)) < f(r)) ==> Sum(f, t) < Sum(f, s)
  {
    if s != [] {
      assert s[0] in s;
      CanonicalAddsNoMoment(s[0], y, m);
      CanonicalOfTail(s, t);
      SumShrinks(f, s[1..], t[1..], y, m);
      assert forall r :: r in s ==> r == s[0] || r in s[1..];
    }
  }

  /** Canonicalizing the single-year rules keeps every moment exactly when none of them leaves its
      year. */
  lemma CanonicalKeepsMoments(s: seq<Rule>, t: seq<Rule>)
    requires CanonicalOf(s, t) && YearsFit(s)
    ensures SameMoments(s, t) <==> forall r :: r in s ==> r.Valid() && !LeavesYear(r)
  {
    if r :| r in s && LeavesYear(r) {
      var m := MomentOf(r.payload, r.start);
      LeavingLosesMoment(r);
      SumShrinks(TakesEffect(r.start, m), s, t, r.start, m);
      assert Sum(TakesEffect(r.start, m), s) != Sum(TakesEffect(r.start, m), t);
    } else {
      forall y: int, m: Moment
        ensures Sum(TakesEffect(y, m), s) == Sum(TakesEffect(y, m), t)
      {
        SumKept(TakesEffect(y, m), s, t, y, m);
      }
    }
  }

  lemma DayInYear(d: Date, first: Date, last: Date, dp: int)
    requires Exists(d) && ToDays(d) == dp && first == Date(first.year, 1, 1) && last == Date(first.year, 12, 31)
    ensures ToDays(first) <= dp <= ToDays(last) <==> d.year == first.year
  {
    ToDaysOrder(d, first);
    ToDaysOrder(last, d);
  }

  /** The only rules that leave their year count forward from December 26..31, or back from January
      1..6. */
  lemma OnlyYearEndsLeave(r: Rule)
    requires r.Valid() && YearFits(r.start) && LeavesYear(r)
    ensures var w := r.payload.at.day;
            (w.OnOrAfter? && w.m == 12 && w.d >= 26) || (w.OnOrBefore? && w.m == 1 && w.d <= 6)
  {
    var w, y := r.payload.at.day, r.start;
    var dp := ToSysDays(w, y);
    var d := WideDateOf(dp);
    if w.LastWeekday? {
      LastWeekdayStaysInYear(w, y);
    } else {
      DayInYear(d, Date(y, 1, 1), Date(y, 12, 31), dp);
      AnchorInYear(y, w.m, w.d);
    }
  }

  lemma MonthInYear(y: int, m: int)
    requires 1 <= m <= 12
    ensures ToDays(Date(y, 1, 1)) <= ToDays(Date(y, m, 1)) <= ToDays(Date(y, 12, 1))
    ensures m > 1 ==> ToDays(Date(y, 1, 31)) < ToDays(Date(y, m, 1))
    ensures m < 12 ==> ToDays(Date(y, m, 1)) <= ToDays(Date(y, 11, 1)) < ToDays(Date(y, 11, 30))
    ensures ToDays(Date(y, 11, 30)) < ToDays(Date(y, 12, 1))
  {
    ToDaysOrder(Date(y, 1, 1), Date(y, m, 1));
    ToDaysOrder(Date(y, m, 1), Date(y, 12, 1));
    ToDaysOrder(Date(y, 1, 31), Date(y, m, 1));
    ToDaysOrder(Date(y, m, 1), Date(y, 11, 1));
    ToDaysOrder(Date(y, 11, 1), Date(y, 11, 30));
    ToDaysOrder(Date(y, 11, 30), Date(y, 12, 1));
  }

  /** All days before December 26 are six days or more before the end of the year, and all after
      January 6 six days or more after its beginning. */
  lemma AnchorInYear(y: int, m: int, d: int)
    requires 1 <= m <= 12 && 1 <= d <= 31
    ensures ToDays(Date(y, 1, 1)) <= ToDays(Date(y, m, d)) <= ToDays(Date(y, 12, 31))
    ensures m < 12 || d < 26 ==> ToDays(Date(y, m, d)) + 6 <= ToDays(Date(y, 12, 31))
    ensures m > 1 || d > 6 ==> ToDays(Date(y, 1, 1)) + 6 <= ToDays(Date(y, m, d))
  {
    MonthInYear(y, m);
    DaysIntoMonth(y, m, d);
    DaysIntoMonth(y, 1, 31);
    DaysIntoMonth(y, 11, 30);
    DaysIntoMonth(y, 12, 31);
    YearLater(ToDays(Date(y, 1, 1)), ToDays(Date(y, m, 1)), ToDays(Date(y, 12, 1)), ToDays(Date(y, 11, 1)), m, d);
  }

  lemma YearLater(jan: int, first: int, dec: int, nov: int, m: int, d: int)
    requires 1 <= m <= 12 && 1 <= d <= 31 && jan <= first <= dec && nov + 29 < dec
    requires (m > 1 ==> jan + 30 < first) && (m < 12 ==> first <= nov)
    ensures jan <= first + d - 1 <= dec + 30
    ensures m < 12 || d < 26 ==> first + d - 1 + 6 <= dec + 30
    ensures m > 1 || d > 6 ==> jan + 6 <= first + d - 1
  {
  }

  /** Friday on or after December 31, 2020 is January 1, 2021: a rule for it loses its moment. */
  lemma YearEndLosesMoment(r: Rule)
    requires r.payload.at.day == OnOrAfter(12, 31, 5) && r.start == r.stop == 2020
    ensures ToSysDays(r.payload.at.day, 2020) == ToDays(Date(2021, 1, 1)) && LeavesYear(r)
    ensures TakesEffect(2020, MomentOf(r.payload, 2020))(r) == 1
    ensures TakesEffect(2020, MomentOf(r.payload, 2020))(CanonicalRule(r)) == 0
  {
    assert ToDays(Date(2020, 12, 31)) == 18627 && WeekdayOf(18627) == 4;
    assert ToDays(Date(2021, 1, 1)) == 18628;
    WideFromToDays(Date(2021, 1, 1));
    LeavingLosesMoment(r);
  }

  lemma LastSundayOfOctober2020()
    ensures Canonical(LastWeekday(10, 0), 2020) == MonthDay(10, 25)
  {
    assert ToDays(Date(2020, 10, 31)) == 18566;
    assert WeekdayOf(18566) == 6;
    assert ToDays(Date(2020, 10, 25)) == 18560;
    assert ToSysDays(LastWeekday(10, 0), 2020) == 18560;
    WideFromToDays(Date(2020, 10, 25));
    CanonicalIs(LastWeekday(10, 0), 2020, Date(2020, 10, 25));
  }

  /** Canonicalizing can undo the order of the database: October 28 and the last Sunday of October
      stand in this order, but in 2020 that Sunday is October 25. */
  lemma CanonicalCanUndoOrder(s: seq<Rule>, t: seq<Rule>, at: MonthDayTime)
    requires s == [Rule(Payload("US", at.(day := MonthDay(10, 28)), 0, "S"), 2020, 2020),
                   Rule(Payload("US", at.(day := LastWeekday(10, 0)), 0, "S"), 2020, 2020)]
    requires CanonicalOf(s, t)
    ensures Partitioned(s) && KeySorted(s) && !KeySorted(t)
    ensures t == [s[0], Rule(Payload("US", at.(day := MonthDay(10, 25)), 0, "S"), 2020, 2020)]
  {
    LastSundayOfOctober2020();
    assert t[0] == CanonicalRule(s[0]) && t[1] == CanonicalRule(s[1]);
    assert t[0].Day() == 28 && t[1].Day() == 25;
    assert !KeyNotAfter(t[0], t[1]);
  }

  /** The fixed day, if it is one, exists in the rule's only year. */
  ghost predicate FixedDayExists(r: Rule) {
    var w := r.payload.at.day;
    r.start == r.stop && w.MonthDay? ==> Exists(Date(r.start, w.m, w.d))
  }

  /** The resolved day of a single-year rule that stays in its year: its canonical month and day. */
  lemma ResolvedDate(r: Rule) returns (d: Date)
    requires r.Valid() && YearFits(r.start) && r.start == r.stop && !LeavesYear(r) && FixedDayExists(r)
    ensures Exists(d) && d.year == r.start && ToDays(d) == ToSysDays(r.payload.at.day, r.start)
    ensures CanonicalRule(r).Month() == d.month && CanonicalRule(r).Day() == d.day
  {
    var w := r.payload.at.day;
    if w.MonthDay? {
      d := Date(r.start, w.m, w.d);
    } else {
      d := WideDateOf(ToSysDays(w, r.start));
      CanonicalIs(w, r.start, d);
    }
  }

  lemma CanonicalOrder(x: Rule, y: Rule)
    requires x.Valid() && y.Valid() && YearFits(x.start) && x.start == x.stop == y.start == y.stop
    requires !LeavesYear(x) && !LeavesYear(y) && FixedDayExists(x) && FixedDayExists(y)
    ensures MonthDayNotAfter(CanonicalRule(x), CanonicalRule(y)) <==>
            ToSysDays(x.payload.at.day, x.start) <= ToSysDays(y.payload.at.day, y.start)
  {
    var d := ResolvedDate(x);
    var e := ResolvedDate(y);
    ToDaysOrder(d, e);
    ToDaysOrder(e, d);
  }

  /** When rules stay in their years and fixed days exist, a cut block is still sorted after
      canonicalizing exactly when in every single year its rules stand in the order of their days. */
  lemma CanonicalKeepsOrder(s: seq<Rule>, t: seq<Rule>)
    requires CanonicalOf(s, t) && YearsFit(s) && Partitioned(s)
    requires forall r :: r in s ==> r.Valid() && !LeavesYear(r) && FixedDayExists(r)
    ensures KeySorted(t) <==>
              forall i, j :: 0 <= i < j < |s| && s[i].start == s[i].stop == s[j].start ==>
                ToSysDays(s[i].payload.at.day, s[i].start) <= ToSysDays(s[j].payload.at.day, s[j].start)
  {
    forall i, j | 0 <= i < j < |s|
      ensures KeyNotAfter(t[i], t[j]) <==>
                (s[i].start == s[i].stop == s[j].start ==>
                   ToSysDays(s[i].payload.at.day, s[i].start) <= ToSysDays(s[j].payload.at.day, s[j].start))
    {
      assert s[i] in s && s[j] in s && SameOrBefore(s[i], s[j]);
      CanonicalRuleIsValid(s[i]);
      CanonicalRuleIsValid(s[j]);
      if s[i].start == s[i].stop == s[j].start {
        CanonicalOrder(s[i], s[j]);
      }
    }
  }
}
