/** Walking the (rule, year) pairs of cut rules by year and, within a year, by position. */
module RuleWalk {
  import opened Rules
  import opened RuleScan
  import opened RuleMoments
  import opened RuleRounds

  datatype Option<T> = None | Some(value: T)

  /** A position in the rule vector and one of that rule's years. */
  datatype Step = Step(r: nat, y: int)

  /** The order of the walk: by year, and by position within a year. */
  predicate Earlier(a: Step, b: Step) {
    a.y < b.y || (a.y == b.y && a.r < b.r)
  }

  /** Non-empty rules of which any two have equal or disjoint years, in the order of years. */
  ghost predicate CutYears(rules: seq<Rule>, first: nat, last: nat) {
    && first < last <= |rules|
    && (forall i :: first <= i < last ==> rules[i].start <= rules[i].stop)
    && (forall i, j :: first <= i < j < last ==>
          rules[i].stop < rules[j].start || (rules[i].start == rules[j].start && rules[i].stop == rules[j].stop))
  }

  predicate InWalk(rules: seq<Rule>, first: nat, last: nat, s: Step) {
    first <= s.r < last <= |rules| && rules[s.r].Covers(s.y)
  }

  /** next is the step right after s, or there is none. */
  ghost predicate IsNext(rules: seq<Rule>, first: nat, last: nat, s: Step, next: Option<Step>) {
    match next
    case None => forall t: Step :: InWalk(rules, first, last, t) ==> !Earlier(s, t)
    case Some(n) =>
      && InWalk(rules, first, last, n) && Earlier(s, n)
      && forall t: Step :: InWalk(rules, first, last, t) && Earlier(s, t) ==> t == n || Earlier(n, t)
  }

  /** prev is the step right before s, or there is none. */
  ghost predicate IsPrevious(rules: seq<Rule>, first: nat, last: nat, s: Step, prev: Option<Step>) {
    match prev
    case None => forall t: Step :: InWalk(rules, first, last, t) ==> !Earlier(t, s)
    case Some(n) =>
      && InWalk(rules, first, last, n) && Earlier(n, s)
      && forall t: Step :: InWalk(rules, first, last, t) && Earlier(t, s) ==> t == n || Earlier(t, n)
  }

  // ---- The neighbours of a step ----

  lemma NextSameYear(rules: seq<Rule>, first: nat, last: nat, s: Step)
    requires CutYears(rules, first, last) && InWalk(rules, first, last, s)
    requires InWalk(rules, first, last, Step(s.r + 1, s.y))
    ensures IsNext(rules, first, last, s, Some(Step(s.r + 1, s.y)))
    ensures IsPrevious(rules, first, last, Step(s.r + 1, s.y), Some(s))
  {
  }

  /** g and h are the first and the last rule with the years of rule r. */
  ghost predicate Group(rules: seq<Rule>, first: nat, last: nat, r: nat, g: nat, h: nat) {
    && first <= g <= r <= h < last <= |rules|
    && rules[g].start == rules[r].start == rules[h].start
    && (g == first || rules[g - 1].start < rules[g].start)
    && (h == last - 1 || rules[h].start < rules[h + 1].start)
  }

  lemma NextYear(rules: seq<Rule>, first: nat, last: nat, g: nat, h: nat, y: int)
    requires CutYears(rules, first, last) && Group(rules, first, last, h, g, h)
    requires rules[g].start <= y < rules[g].stop
    ensures IsNext(rules, first, last, Step(h, y), Some(Step(g, y + 1)))
    ensures IsPrevious(rules, first, last, Step(g, y + 1), Some(Step(h, y)))
  {
  }

  lemma PreviousYear(rules: seq<Rule>, first: nat, last: nat, g: nat, h: nat, y: int)
    requires CutYears(rules, first, last) && Group(rules, first, last, h, g, h)
    requires rules[g].start < y <= rules[g].stop
    ensures IsPrevious(rules, first, last, Step(g, y), Some(Step(h, y - 1)))
  {
    NextYear(rules, first, last, g, h, y - 1);
  }

  lemma NextGroup(rules: seq<Rule>, first: nat, last: nat, r: nat)
    requires CutYears(rules, first, last) && first <= r < r + 1 < last && rules[r].stop < rules[r + 1].start
    ensures var s, n := Step(r, rules[r].stop), Step(r + 1, rules[r + 1].start);
            IsNext(rules, first, last, s, Some(n)) && IsPrevious(rules, first, last, n, Some(s))
  {
  }

  lemma WalkEnds(rules: seq<Rule>, first: nat, last: nat)
    requires CutYears(rules, first, last)
    ensures IsPrevious(rules, first, last, Step(first, rules[first].start), None)
    ensures IsNext(rules, first, last, Step(last - 1, rules[last - 1].stop), None)
  {
  }

  /** After the last year of a rule that is not the last: the next rule, in the same year or its first. */
  method NextAfterStop(rules: seq<Rule>, ghost first: nat, ghost last: nat, s: Step) returns (next: Step)
    requires CutYears(rules, first, last) && InWalk(rules, first, last, s)
    requires s.y == rules[s.r].stop && s.r < last - 1
    ensures IsNext(rules, first, last, s, Some(next))
  {
    var r := s.r + 1;
    if s.y == rules[r].stop {
      NextSameYear(rules, first, last, s);
      return Step(r, s.y);
    }
    NextGroup(rules, first, last, s.r);
    return Step(r, rules[r].start);
  }

  /** Before the first year of a rule that is not the first. */
  method PreviousBeforeStart(rules: seq<Rule>, ghost first: nat, ghost last: nat, s: Step) returns (prev: Step)
    requires CutYears(rules, first, last) && InWalk(rules, first, last, s)
    requires s.y == rules[s.r].start && s.r > first
    ensures IsPrevious(rules, first, last, s, Some(prev))
  {
    var r := s.r - 1;
    if s.y == rules[r].start {
      NextSameYear(rules, first, last, Step(r, s.y));
      return Step(r, s.y);
    }
    NextGroup(rules, first, last, r);
    return Step(r, rules[r].stop);
  }

  /** Within a block: None stands for the null pointer. */
  method FindNextRule(rules: seq<Rule>, first: nat, last: nat, s: Step) returns (next: Option<Step>)
    requires CutYears(rules, first, last) && InWalk(rules, first, last, s)
    ensures IsNext(rules, first, last, s, next)
  {
    var r, y := s.r, s.y;
    if y == rules[r].stop {
      if r == last - 1 {
        WalkEnds(rules, first, last);
        return None;
      }
      var n := NextAfterStop(rules, first, last, s);
      return Some(n);
    }
    if r == last - 1 || rules[r].stop < rules[r + 1].stop {
      while r > first && rules[r].start == rules[r - 1].start
        invariant first <= r <= s.r && rules[r].start == rules[s.r].start
      {
        r := r - 1;
      }
      NextYear(rules, first, last, r, s.r, y);
      return Some(Step(r, y + 1));
    }
    r := r + 1;
    NextSameYear(rules, first, last, s);
    return Some(Step(r, y));
  }

  /** first..last are all the rules of one name. */
  ghost predicate NameBlock(rules: seq<Rule>, first: nat, last: nat) {
    && first < last <= |rules|
    && (forall i :: first <= i < last ==> rules[i].Name() == rules[first].Name())
    && (forall i :: 0 <= i < |rules| && rules[i].Name() == rules[first].Name() ==> first <= i < last)
  }

  /** The ends of a block, as the walk over the whole table finds them. */
  lemma BlockEnds(rules: seq<Rule>, first: nat, last: nat, r: nat)
    requires NameBlock(rules, first, last) && first <= r < last
    ensures r == |rules| - 1 || rules[r].Name() != rules[r + 1].Name() <==> r == last - 1
    ensures r == 0 || rules[r].Name() != rules[r - 1].Name() <==> r == first
  {
  }

  method IsLastOfName(rules: seq<Rule>, ghost first: nat, ghost last: nat, r: nat) returns (b: bool)
    requires NameBlock(rules, first, last) && first <= r < last
    ensures b <==> r == last - 1
  {
    BlockEnds(rules, first, last, r);
    b := r == |rules| - 1 || rules[r].Name() != rules[r + 1].Name();
  }

  method IsFirstOfName(rules: seq<Rule>, ghost first: nat, ghost last: nat, r: nat) returns (b: bool)
    requires NameBlock(rules, first, last) && first <= r < last
    ensures b <==> r == first
  {
    BlockEnds(rules, first, last, r);
    b := r == 0 || rules[r].Name() != rules[r - 1].Name();
  }

  /** The first rule of a group: the test of the source stops at the start of the block too. */
  method GroupStart(rules: seq<Rule>, ghost first: nat, ghost last: nat, r0: nat) returns (r: nat)
    requires NameBlock(rules, first, last) && first <= r0 < last
    ensures first <= r <= r0 && rules[r].start == rules[r0].start
    ensures r == first || rules[r].start != rules[r - 1].start
  {
    r := r0;
    BlockEnds(rules, first, last, r);
    while r > 0 && rules[r].Name() == rules[r - 1].Name() && rules[r].start == rules[r - 1].start
      invariant first <= r <= r0 && rules[r].start == rules[r0].start
      invariant r == 0 || rules[r].Name() != rules[r - 1].Name() <==> r == first
    {
      r := r - 1;
      BlockEnds(rules, first, last, r);
    }
  }

  method GroupStop(rules: seq<Rule>, ghost first: nat, ghost last: nat, r0: nat) returns (r: nat)
    requires NameBlock(rules, first, last) && first <= r0 < last
    ensures r0 <= r < last && rules[r].start == rules[r0].start
    ensures r == last - 1 || rules[r].start != rules[r + 1].start
  {
    r := r0;
    BlockEnds(rules, first, last, r);
    while r < |rules| - 1 && rules[r].Name() == rules[r + 1].Name() && rules[r].start == rules[r + 1].start
      invariant r0 <= r < last && rules[r].start == rules[r0].start
      invariant r == |rules| - 1 || rules[r].Name() != rules[r + 1].Name() <==> r == last - 1
    {
      r := r + 1;
      BlockEnds(rules, first, last, r);
    }
  }

  /** In the whole table, of which the block of the rule's name is first..last.  None stands for
      the null pointer. */
  method FindNextInTable(rules: seq<Rule>, ghost first: nat, ghost last: nat, s: Step) returns (next: Option<Step>)
    requires CutYears(rules, first, last) && NameBlock(rules, first, last) && InWalk(rules, first, last, s)
    ensures IsNext(rules, first, last, s, next)
  {
    var r, y := s.r, s.y;
    var atEnd := IsLastOfName(rules, first, last, r);
    if y == rules[r].stop {
      if atEnd {
        WalkEnds(rules, first, last);
        return None;
      }
      var n := NextAfterStop(rules, first, last, s);
      return Some(n);
    }
    if atEnd || rules[r].stop < rules[r + 1].stop {
      r := GroupStart(rules, first, last, r);
      NextYear(rules, first, last, r, s.r, y);
      return Some(Step(r, y + 1));
    }
    r := r + 1;
    NextSameYear(rules, first, last, s);
    return Some(Step(r, y));
  }

  /** In the whole table.  None stands for std::terminate. */
  method FindPreviousRule(rules: seq<Rule>, ghost first: nat, ghost last: nat, s: Step) returns (prev: Option<Step>)
    requires CutYears(rules, first, last) && NameBlock(rules, first, last) && InWalk(rules, first, last, s)
    ensures IsPrevious(rules, first, last, s, prev)
  {
    var r, y := s.r, s.y;
    var atStart := IsFirstOfName(rules, first, last, r);
    if y == rules[r].start {
      if atStart {
        WalkEnds(rules, first, last);
        return None;
      }
      var p := PreviousBeforeStart(rules, first, last, s);
      return Some(p);
    }
    if atStart || rules[r - 1].start < rules[r].start {
      r := GroupStop(rules, first, last, r);
      PreviousYear(rules, first, last, s.r, r, y);
      return Some(Step(r, y - 1));
    }
    r := r - 1;
    NextSameYear(rules, first, last, Step(r, y));
    return Some(Step(r, y));
  }

  /** The two directions undo each other. */
  lemma NextAndPrevious(rules: seq<Rule>, first: nat, last: nat, s: Step, t: Step)
    requires InWalk(rules, first, last, s) && InWalk(rules, first, last, t)
    ensures IsNext(rules, first, last, s, Some(t)) <==> IsPrevious(rules, first, last, t, Some(s))
  {
    if IsNext(rules, first, last, s, Some(t)) {
      forall u: Step | InWalk(rules, first, last, u) && Earlier(u, t)
        ensures u == s || Earlier(u, s)
      {
        assert Earlier(s, u) ==> u == t || Earlier(t, u);
      }
    }
    if IsPrevious(rules, first, last, t, Some(s)) {
      forall u: Step | InWalk(rules, first, last, u) && Earlier(s, u)
        ensures u == t || Earlier(t, u)
      {
        assert Earlier(u, t) ==> u == s || Earlier(u, s);
      }
    }
  }

  /** A step has one neighbour on either side, if any; the step before the step after it is the step. */
  lemma NeighboursAreUnique(rules: seq<Rule>, first: nat, last: nat, s: Step, n: Option<Step>, n': Option<Step>)
    ensures IsNext(rules, first, last, s, n) && IsNext(rules, first, last, s, n') ==> n == n'
    ensures IsPrevious(rules, first, last, s, n) && IsPrevious(rules, first, last, s, n') ==> n == n'
  {
  }

  lemma PreviousUndoesNext(rules: seq<Rule>, first: nat, last: nat, s: Step, t: Step, p: Option<Step>)
    requires InWalk(rules, first, last, s) && InWalk(rules, first, last, t)
    ensures IsNext(rules, first, last, s, Some(t)) && IsPrevious(rules, first, last, t, p) ==> p == Some(s)
    ensures IsPrevious(rules, first, last, t, Some(s)) && IsNext(rules, first, last, s, p) ==> p == Some(t)
  {
    NextAndPrevious(rules, first, last, s, t);
    NeighboursAreUnique(rules, first, last, t, p, Some(s));
    NeighboursAreUnique(rules, first, last, s, p, Some(t));
  }

  // ---- The whole walk ----

  ghost predicate InOrder(w: seq<Step>) {
    forall i, j :: 0 <= i < j < |w| ==> Earlier(w[i], w[j])
  }

  /** w is the beginning of the walk: its steps are in order and no earlier step is left out. */
  ghost predicate WalkUpTo(rules: seq<Rule>, first: nat, last: nat, w: seq<Step>) {
    && InOrder(w)
    && (forall i :: 0 <= i < |w| ==> InWalk(rules, first, last, w[i]))
    && (forall i, t :: 0 <= i < |w| && InWalk(rules, first, last, t) && Earlier(t, w[i]) ==> t in w)
  }

  /** s is the step to visit after w; None when w is the whole walk. */
  ghost predicate Follows(rules: seq<Rule>, first: nat, last: nat, w: seq<Step>, s: Option<Step>) {
    && (s.Some? ==> InWalk(rules, first, last, s.value))
    && if w == [] then s.Some? && IsPrevious(rules, first, last, s.value, None)
       else IsNext(rules, first, last, w[|w| - 1], s)
  }

  lemma WalkStarts(rules: seq<Rule>, first: nat, last: nat)
    requires CutYears(rules, first, last)
    ensures WalkUpTo(rules, first, last, [])
    ensures Follows(rules, first, last, [], Some(Step(first, rules[first].start)))
  {
    WalkEnds(rules, first, last);
  }

  lemma WalkExtended(rules: seq<Rule>, first: nat, last: nat, w: seq<Step>, n: Step)
    requires WalkUpTo(rules, first, last, w) && Follows(rules, first, last, w, Some(n))
    ensures WalkUpTo(rules, first, last, w + [n])
  {
    var v := w + [n];
    forall i, t | 0 <= i < |v| && InWalk(rules, first, last, t) && Earlier(t, v[i])
      ensures t in v
    {
      if i == |w| && w != [] {
        var l := w[|w| - 1];
        assert Earlier(l, t) ==> t == n || Earlier(n, t);
        assert t == l || Earlier(t, l);
      }
    }
    forall i, j | 0 <= i < j < |v|
      ensures Earlier(v[i], v[j])
    {
      assert j == |w| && i < |w| - 1 ==> Earlier(v[i], w[|w| - 1]);
    }
  }

  lemma WalkComplete(rules: seq<Rule>, first: nat, last: nat, w: seq<Step>)
    requires WalkUpTo(rules, first, last, w) && Follows(rules, first, last, w, None)
    ensures forall t: Step :: t in w <==> InWalk(rules, first, last, t)
  {
    forall t: Step | InWalk(rules, first, last, t)
      ensures t in w
    {
      assert !Earlier(w[|w| - 1], t);
    }
  }

  /** A walk can be extended by one step at most. */
  lemma OnlyOneNext(rules: seq<Rule>, first: nat, last: nat, w: seq<Step>, s: Option<Step>, u: Step)
    requires WalkUpTo(rules, first, last, w) && WalkUpTo(rules, first, last, w + [u])
    requires Follows(rules, first, last, w, s)
    ensures s == Some(u)
  {
    var v := w + [u];
    assert v[|w|] == u && InWalk(rules, first, last, v[|w|]);
    if w != [] {
      assert Earlier(v[|w| - 1], v[|w|]);
    }
    if s.Some? && Earlier(s.value, u) {
      assert s.value in v;
    }
  }

  /** The loop that follows FindNextRule from the first rule's first year to the null pointer visits
      every year of every rule exactly once, in order, and ends. */
  method Walk(rules: seq<Rule>, first: nat, last: nat) returns (w: seq<Step>)
    requires CutYears(rules, first, last)
    ensures InOrder(w) && forall t: Step :: t in w <==> InWalk(rules, first, last, t)
  {
    w := [];
    var s := Some(Step(first, rules[first].start));
    WalkStarts(rules, first, last);
    while s.Some?
      invariant WalkUpTo(rules, first, last, w) && Follows(rules, first, last, w, s)
      decreases s.Some?, if s.Some? then rules[last - 1].stop - s.value.y else 0,
                if s.Some? then last - s.value.r else 0
    {
      WalkExtended(rules, first, last, w, s.value);
      w := w + [s.value];
      s := FindNextRule(rules, first, last, s.value);
    }
    WalkComplete(rules, first, last, w);
  }

  // ---- From cutting to walking ----

  /** What cutting leaves can be walked, although canonicalizing may undo the order of days. */
  lemma CutBlocksCanBeWalked(cut: seq<Rule>, rules: seq<Rule>, first: nat, last: nat)
    requires CanonicalOf(cut, rules) && YearsFit(cut) && WellCut(cut)
    requires NameBlock(rules, first, last)
    ensures CutYears(rules, first, last)
    ensures forall i :: first <= i < last ==> rules[i].Valid()
  {
    forall i | first <= i < last
      ensures rules[i].Valid() && rules[i].Name() == cut[i].Name()
      ensures rules[i].start == cut[i].start && rules[i].stop == cut[i].stop
    {
      Member(cut, i);
      CanonicalRuleIsValid(cut[i]);
    }
    forall i, j | first <= i < j < last
      ensures SameOrBefore(cut[i], cut[j])
    {
      StringLessTotal(cut[i].Name(), cut[j].Name());
    }
  }
}
