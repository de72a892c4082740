/** What the order of rules means: within a name and first year, rules stand in the order in which they
    take effect, as far as their forms tell it. */
module RuleOrder {
  import opened Calendar
  import opened MonthDayTimes
  import opened Rules

  /** a and b first differ at k, where a is smaller or has ended. */
  ghost predicate SmallerAt(a: string, b: string, k: nat) {
    k <= |a| && k < |b| && a[..k] == b[..k] && (k == |a| || a[k] < b[k])
  }

  lemma SmallerAtNext(a: string, b: string, k: nat)
    requires a != [] && b != []
    ensures SmallerAt(a, b, k + 1) <==> a[0] == b[0] && SmallerAt(a[1..], b[1..], k)
  {
    if k < |a| && k < |b| {
      assert a[..k + 1] == [a[0]] + a[1..][..k] && b[..k + 1] == [b[0]] + b[1..][..k];
      SameFront(a[0], b[0], a[1..][..k], b[1..][..k]);
    }
  }

  lemma SameFront(c: char, d: char, a: string, b: string)
    ensures [c] + a == [d] + b <==> c == d && a == b
  {
    if [c] + a == [d] + b {
      assert ([c] + a)[0] == c && ([d] + b)[0] == d && ([c] + a)[1..] == a && ([d] + b)[1..] == b;
    }
  }

  /** Strings are compared at the first place where they differ. */
  lemma {:induction false} StringLessAt(a: string, b: string)
    ensures StringLess(a, b) <==> exists k: nat :: SmallerAt(a, b, k)
    decreases |a|
  {
    if a == [] || b == [] {
      assert b != [] ==> SmallerAt(a, b, 0);
    } else {
      StringLessAt(a[1..], b[1..]);
      assert SmallerAt(a, b, 0) <==> a[0] < b[0];
      forall k: nat
        ensures SmallerAt(a, b, k + 1) <==> a[0] == b[0] && SmallerAt(a[1..], b[1..], k)
      {
        SmallerAtNext(a, b, k);
      }
      assert forall k: nat :: k > 0 ==> (SmallerAt(a, b, k) <==> a[0] == b[0] && SmallerAt(a[1..], b[1..], k - 1));
      if k: nat :| SmallerAt(a[1..], b[1..], k) {
        assert a[0] == b[0] ==> SmallerAt(a, b, k + 1);
      }
    }
  }

  /** Within a month, forms stand by the day written in them; the last weekday counts as day 31. */
  lemma OrderInMonth(x: Rule, y: Rule)
    requires x.Valid() && y.Valid() && x.Name() == y.Name() && x.start == y.start && x.stop == y.stop
    requires x.payload.at.day.m == y.payload.at.day.m
    ensures var v, w := x.payload.at.day, y.payload.at.day;
            && (!v.LastWeekday? && !w.LastWeekday? ==> (NotAfter(x, y) <==> v.d <= w.d))
            && (w.LastWeekday? ==> NotAfter(x, y))
            && (v.LastWeekday? && !w.LastWeekday? ==> (NotAfter(x, y) <==> w.d == 31))
  {
    NotAfterByNameThenKey(x, y);
  }

  /** Rules of one form and weekday that start and end in the same years, in the same month, take effect in
      their order. */
  lemma SameFormsInOrder(x: Rule, y: Rule, year: int)
    requires x.Valid() && y.Valid() && x.Name() == y.Name() && x.start == y.start && x.stop == y.stop
    requires var v, w := x.payload.at.day, y.payload.at.day;
             && v.m == w.m && YearFits(year)
             && ((v.MonthDay? && w.MonthDay?)
                 || (v.LastWeekday? && w.LastWeekday? && v.wd == w.wd)
                 || (v.OnOrBefore? && w.OnOrBefore? && v.wd == w.wd)
                 || (v.OnOrAfter? && w.OnOrAfter? && v.wd == w.wd))
    requires NotAfter(x, y)
    ensures ToSysDays(x.payload.at.day, year) <= ToSysDays(y.payload.at.day, year)
  {
    var v, w := x.payload.at.day, y.payload.at.day;
    OrderInMonth(x, y);
    if !v.LastWeekday? {
      LaterDay(year, v.m, v.d, w.d);
    }
    if v.OnOrBefore? {
      NearestBeforeGrows(v, w, year);
    } else if v.OnOrAfter? {
      NearestAfterGrows(v, w, year);
    }
  }

  lemma LaterDay(y: int, m: int, d: int, e: int)
    requires d <= e
    ensures ToDays(Date(y, m, d)) <= ToDays(Date(y, m, e))
  {
    DaysIntoMonth(y, m, d);
    DaysIntoMonth(y, m, e);
  }

  lemma NearestBeforeGrows(v: When, w: When, y: int)
    requires v.Valid() && w.Valid() && v.OnOrBefore? && w.OnOrBefore? && v.wd == w.wd && YearFits(y)
    requires ToDays(Date(y, v.m, v.d)) <= ToDays(Date(y, w.m, w.d))
    ensures ToSysDays(v, y) <= ToSysDays(w, y)
  {
    ResolvedDayIsNearest(v, y);
    ResolvedDayIsNearest(w, y);
  }

  lemma NearestAfterGrows(v: When, w: When, y: int)
    requires v.Valid() && w.Valid() && v.OnOrAfter? && w.OnOrAfter? && v.wd == w.wd && YearFits(y)
    requires ToDays(Date(y, v.m, v.d)) <= ToDays(Date(y, w.m, w.d))
    ensures ToSysDays(v, y) <= ToSysDays(w, y)
  {
    ResolvedDayIsNearest(v, y);
    ResolvedDayIsNearest(w, y);
  }

  /** The form resolves in the year and in the month that is written in it. */
  ghost predicate InItsMonth(w: When, y: int)
    requires w.Valid()
  {
    WideFromDays(ToSysDays(w, y)).year == y && WideFromDays(ToSysDays(w, y)).month == w.m
  }

  /** Rules of one name and first year that take effect in different months stand in the order in which
      they take effect that year, whatever their forms. */
  lemma MonthsInOrder(x: Rule, y: Rule)
    requires x.Valid() && y.Valid() && x.Name() == y.Name() && x.start == y.start
    requires InItsMonth(x.payload.at.day, x.start) && InItsMonth(y.payload.at.day, x.start)
    requires WideFromDays(ToSysDays(x.payload.at.day, x.start)).month
          != WideFromDays(ToSysDays(y.payload.at.day, x.start)).month
    ensures NotAfter(x, y) <==> ToSysDays(x.payload.at.day, x.start) < ToSysDays(y.payload.at.day, x.start)
  {
    NotAfterByNameThenKey(x, y);
    var d := WideDateOf(ToSysDays(x.payload.at.day, x.start));
    var e := WideDateOf(ToSysDays(y.payload.at.day, x.start));
    ToDaysOrder(d, e);
  }

  /** Names come first, then first years, then months, then last years, and only then days. */
  lemma OrderByYears(x: Rule, y: Rule)
    requires x.Valid() && y.Valid()
    ensures x.Name() != y.Name() ==> (NotAfter(x, y) <==> StringLess(x.Name(), y.Name()))
    ensures x.Name() == y.Name() && x.start != y.start ==> (NotAfter(x, y) <==> x.start < y.start)
    ensures (&& x.Name() == y.Name() && x.start == y.start && x.stop != y.stop
             && x.payload.at.day.m == y.payload.at.day.m) ==> (NotAfter(x, y) <==> x.stop < y.stop)
  {
    NotAfterByNameThenKey(x, y);
  }
}
