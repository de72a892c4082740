/** Where split_overlaps cuts: only where a rule of the same name begins or ends, and there always.  So
    the cut table is determined by the table before, and so is whether it keeps its moments. */
module RuleBounds {
  import opened Rules
  import opened RuleCuts
  import opened RuleScan
  import opened RuleMoments
  import opened RuleRounds

  /** r begins and ends at bounds of a block, and has none inside. */
  ghost predicate Undivided(b: seq<Rule>, r: Rule) {
    Bound(b, r.start) && Bound(b, r.stop + 1) && forall y :: r.start < y <= r.stop ==> !Bound(b, y)
  }

  /** The same in a table, for the bounds of its name. */
  ghost predicate UndividedByName(s: seq<Rule>, r: Rule) {
    && NamedBound(s, r.Name(), r.start) && NamedBound(s, r.Name(), r.stop + 1)
    && forall y :: r.start < y <= r.stop ==> !NamedBound(s, r.Name(), y)
  }

  ghost predicate AllUndivided(was: seq<Rule>, cut: seq<Rule>) {
    forall r :: r in cut ==> UndividedByName(was, r)
  }

  lemma NotInside(x: Rule, r: Rule, y: int)
    requires x.Valid() && r.Valid() && (x == r || SameOrBefore(x, r) || SameOrBefore(r, x))
    requires r.start < y <= r.stop
    ensures !Touches(x, y)
  {
  }

  lemma CutAtBounds(b: seq<Rule>, c: seq<Rule>)
    requires AllValid(c) && Partitioned(c) && SameBounds(b, c)
    ensures forall r :: r in c ==> Undivided(b, r)
  {
    forall r | r in c
      ensures Undivided(b, r)
    {
      assert Touches(r, r.start) && Touches(r, r.stop + 1);
      forall x, y | x in c && r.start < y <= r.stop
        ensures !Touches(x, y)
      {
        var i :| 0 <= i < |c| && c[i] == r;
        var j :| 0 <= j < |c| && c[j] == x;
        assert i < j ==> SameOrBefore(r, x);
        assert j < i ==> SameOrBefore(x, r);
        NotInside(x, r, y);
      }
    }
  }

  lemma CutAtNamedBounds(was: seq<Rule>, cut: seq<Rule>)
    requires AllValid(cut) && WellCut(cut) && SameNamedBounds(was, cut)
    ensures AllUndivided(was, cut)
  {
    forall r | r in cut
      ensures UndividedByName(was, r)
    {
      assert Touches(r, r.start) && Touches(r, r.stop + 1);
      forall x, y | x in cut && x.Name() == r.Name() && r.start < y <= r.stop
        ensures !Touches(x, y)
      {
        StringLessTotal(r.Name(), r.Name());
        var i :| 0 <= i < |cut| && cut[i] == r;
        var j :| 0 <= j < |cut| && cut[j] == x;
        assert i < j ==> SameOrBefore(r, x);
        assert j < i ==> SameOrBefore(x, r);
        NotInside(x, r, y);
      }
    }
  }

  // ---- The cut table is determined ----

  lemma {:induction false} CountIsMultiplicity(s: seq<Rule>, r: Rule, y: int)
    requires r.Covers(y) && forall q :: q in s && q.Covers(y) && q.payload == r.payload ==> q == r
    ensures Count(s, y, r.payload) == multiset(s)[r]
  {
    if s != [] {
      assert s == [s[0]] + s[1..];
      assert s[0] in s;
      CountIsMultiplicity(s[1..], r, y);
    }
  }

  lemma {:induction false} CountIsPositive(s: seq<Rule>, y: int, p: Payload)
    ensures Count(s, y, p) >= 0
    ensures Count(s, y, p) > 0 <==> exists r :: r in s && r.Covers(y) && r.payload == p
  {
    if s != [] {
      assert s == [s[0]] + s[1..];
      CountIsPositive(s[1..], y, p);
      if r :| r in s[1..] && r.Covers(y) && r.payload == p {
        assert r in s;
      }
      assert s[0] in s;
    }
  }

  lemma NoBoundInside(s: seq<Rule>, r: Rule, y: int)
    requires UndividedByName(s, r) && NamedBound(s, r.Name(), y)
    ensures !(r.start < y <= r.stop)
  {
  }

  /** Undivided rules of one name that share a year have the same years. */
  lemma SameYears(s: seq<Rule>, q: Rule, r: Rule)
    requires UndividedByName(s, q) && UndividedByName(s, r) && q.Name() == r.Name() && r.Valid()
    requires q.Covers(r.start)
    ensures q.start == r.start && q.stop == r.stop
  {
    NoBoundInside(s, q, r.start);
    NoBoundInside(s, q, r.stop + 1);
    NoBoundInside(s, r, q.stop + 1);
  }

  lemma MultiplicityInCut(was: seq<Rule>, cut: seq<Rule>, r: Rule)
    requires AllValid(cut) && AllUndivided(was, cut)
    ensures multiset(cut)[r] == if r.Valid() && UndividedByName(was, r) then Count(cut, r.start, r.payload) else 0
  {
    if r.Valid() && UndividedByName(was, r) {
      forall q | q in cut && q.Covers(r.start) && q.payload == r.payload
        ensures q == r
      {
        SameYears(was, q, r);
      }
      CountIsMultiplicity(cut, r, r.start);
    }
  }

  lemma DeterminedByCounts(was: seq<Rule>, cut: seq<Rule>, r: Rule, n: int)
    requires AllValid(cut) && AllUndivided(was, cut) && SameMeaning(was, cut) && n == Count(was, r.start, r.payload)
    ensures multiset(cut)[r] == if r.Valid() && UndividedByName(was, r) then n else 0
  {
    MultiplicityInCut(was, cut, r);
    assert n == Count(cut, r.start, r.payload) by { SameCounts(was, cut); }
  }

  /** How often a rule stands in the cut table: as often as its payload holds in its first year, if it
      spans from one bound of its name to the next, and not at all otherwise. */
  lemma CutIsDetermined(was: seq<Rule>, cut: seq<Rule>, r: Rule)
    requires AllValid(cut) && WellCut(cut) && SameMeaning(was, cut) && SameNamedBounds(was, cut)
    ensures multiset(cut)[r] == if r.Valid() && UndividedByName(was, r) then Count(was, r.start, r.payload) else 0
  {
    CutAtNamedBounds(was, cut);
    DeterminedByCounts(was, cut, r, Count(was, r.start, r.payload));
  }

  // ---- The moments of the table ----

  /** A rule of the table that resolves outside one of its years, where that year will stand alone: it
      begins and ends at bounds of the rule's name. */
  ghost predicate WillLeave(was: seq<Rule>, r: Rule, y: int) {
    && r in was && r.Covers(y) && r.payload.at.day.Valid() && ResolvesOutside(r.payload.at.day, y)
    && NamedBound(was, r.Name(), y) && NamedBound(was, r.Name(), y + 1)
  }

  lemma LeavingComesFrom(was: seq<Rule>, cut: seq<Rule>, q: Rule)
    requires AllValid(cut) && SameMeaning(was, cut) && SameNamedBounds(was, cut) && q in cut && LeavesYear(q)
    ensures exists r :: WillLeave(was, r, q.start)
  {
    var y := q.start;
    CountIsPositive(cut, y, q.payload);
    SameCounts(was, cut);
    CountIsPositive(was, y, q.payload);
    var r :| r in was && r.Covers(y) && r.payload == q.payload;
    assert Touches(q, y) && Touches(q, y + 1);
    assert WillLeave(was, r, y);
  }

  lemma HeldAlone(was: seq<Rule>, cut: seq<Rule>, r: Rule, y: int) returns (q: Rule)
    requires AllUndivided(was, cut) && Count(cut, y, r.payload) > 0
    requires NamedBound(was, r.Name(), y) && NamedBound(was, r.Name(), y + 1)
    ensures q in cut && q.payload == r.payload && q.start == q.stop == y
  {
    CountIsPositive(cut, y, r.payload);
    q :| q in cut && q.Covers(y) && q.payload == r.payload;
    NoBoundInside(was, q, y);
    NoBoundInside(was, q, y + 1);
  }

  lemma AloneLeaves(q: Rule, r: Rule, y: int)
    requires q.payload == r.payload && q.start == q.stop == y && r.payload.at.day.Valid()
    requires ResolvesOutside(r.payload.at.day, y)
    ensures q.Valid() && LeavesYear(q)
  {
  }

  lemma StillHeld(was: seq<Rule>, cut: seq<Rule>, r: Rule, y: int)
    requires SameMeaning(was, cut) && r in was && r.Covers(y)
    ensures Count(cut, y, r.payload) > 0
  {
    CountIsPositive(was, y, r.payload);
    SameCounts(was, cut);
  }

  lemma WillLeaveLeaves(was: seq<Rule>, cut: seq<Rule>, r: Rule, y: int)
    requires AllUndivided(was, cut) && Count(cut, y, r.payload) > 0 && WillLeave(was, r, y)
    ensures exists q :: q in cut && q.Valid() && LeavesYear(q)
  {
    var q := HeldAlone(was, cut, r, y);
    AloneLeaves(q, r, y);
  }

  /** split_overlaps keeps the moments of every year exactly when no rule of the table resolves outside
      one of its years that stands alone between bounds of its name. */
  lemma SplitKeepsMoments(was: seq<Rule>, cut: seq<Rule>, now: seq<Rule>)
    requires AllValid(cut) && YearsFit(cut) && WellCut(cut) && SameMeaning(was, cut) && SameNamedBounds(was, cut)
    requires CanonicalOf(cut, now)
    ensures SameMoments(was, now) <==> forall r, y :: !WillLeave(was, r, y)
  {
    SameMeaningSameMoments(was, cut);
    assert SameMoments(was, now) <==> SameMoments(cut, now);
    CanonicalKeepsMoments(cut, now);
    if r, y :| WillLeave(was, r, y) {
      StillHeld(was, cut, r, y);
      CutAtNamedBounds(was, cut);
      WillLeaveLeaves(was, cut, r, y);
    } else if q :| q in cut && LeavesYear(q) {
      LeavingComesFrom(was, cut, q);
    }
  }
}
