/** The two searches for the rule in effect at a time.  Both follow the walk and stop at the first step
    that starts late enough, so they find the latest step only when times rise along the walk. */
module RuleLookups {
  import opened Calendar
  import opened MonthDayTimes
  import opened Rules
  import opened RuleWalk

  // ---- The search loop ----

  /** The saving in effect, in minutes, before step n of a walk: that of the step before, or none. */
  ghost function SaveBefore(rules: seq<Rule>, w: seq<Step>, n: nat): int {
    if 0 < n <= |w| && w[n - 1].r < |rules| then rules[w[n - 1].r].payload.save else 0
  }

  /** Decides where a search stops, from a step and the saving in effect before it. */
  type Stop = (Step, int) -> bool

  /** The search passes all of w, each step under the saving of the step before it. */
  ghost predicate Passes(rules: seq<Rule>, w: seq<Step>, stop: Stop) {
    forall n :: 0 <= n < |w| ==> !stop(w[n], SaveBefore(rules, w, n))
  }

  lemma PassesExtended(rules: seq<Rule>, w: seq<Step>, s: Step, stop: Stop)
    requires Passes(rules, w, stop) && !stop(s, SaveBefore(rules, w, |w|))
    ensures Passes(rules, w + [s], stop)
  {
    forall n | 0 <= n < |w| + 1
      ensures !stop((w + [s])[n], SaveBefore(rules, w + [s], n))
    {
      assert SaveBefore(rules, w + [s], n) == SaveBefore(rules, w, n);
    }
  }

  /** The result of a search: the last step before the first one at which it stops.  w is what has
      been passed, next what follows; None stands for the null pointer. */
  ghost predicate FoundBefore(rules: seq<Rule>, first: nat, last: nat, stop: Stop, prev: Option<Step>,
                              w: seq<Step>, next: Option<Step>)
  {
    && WalkUpTo(rules, first, last, w) && Passes(rules, w, stop)
    && prev == (if w == [] then None else Some(w[|w| - 1]))
    && Follows(rules, first, last, w, next) && (next.Some? ==> stop(next.value, SaveBefore(rules, w, |w|)))
  }

  ghost predicate Found(rules: seq<Rule>, first: nat, last: nat, stop: Stop, prev: Option<Step>) {
    exists w: seq<Step>, next: Option<Step> :: FoundBefore(rules, first, last, stop, prev, w, next)
  }

  lemma WalkPrefix(rules: seq<Rule>, first: nat, last: nat, w: seq<Step>, n: nat)
    requires WalkUpTo(rules, first, last, w) && n <= |w|
    ensures WalkUpTo(rules, first, last, w[..n])
  {
    forall i, t | 0 <= i < n && InWalk(rules, first, last, t) && Earlier(t, w[i])
      ensures t in w[..n]
    {
      var j :| 0 <= j < |w| && w[j] == t;
      assert j < i && w[..n][j] == t;
    }
  }

  /** There is one walk of each length. */
  lemma {:induction false} WalksAgree(rules: seq<Rule>, first: nat, last: nat, w: seq<Step>, v: seq<Step>)
    requires WalkUpTo(rules, first, last, w) && WalkUpTo(rules, first, last, v) && |w| == |v|
    ensures w == v
    decreases |w|
  {
    if w != [] {
      var n := |w| - 1;
      WalkPrefix(rules, first, last, w, n);
      WalkPrefix(rules, first, last, v, n);
      WalksAgree(rules, first, last, w[..n], v[..n]);
      NotSkipped(rules, first, last, w, v, n);
      NotSkipped(rules, first, last, v, w, n);
    }
  }

  lemma NotSkipped(rules: seq<Rule>, first: nat, last: nat, w: seq<Step>, v: seq<Step>, n: nat)
    requires WalkUpTo(rules, first, last, w) && WalkUpTo(rules, first, last, v) && n < |w| && n < |v|
    requires w[..n] == v[..n]
    ensures !Earlier(w[n], v[n])
  {
    forall j | 0 <= j < n
      ensures v[j] != w[n]
    {
      assert v[j] == v[..n][j] && w[j] == w[..n][j] && Earlier(w[j], w[n]);
    }
  }

  /** A search has one result. */
  lemma FoundIsUnique(rules: seq<Rule>, first: nat, last: nat, stop: Stop, prev: Option<Step>, prev': Option<Step>)
    requires Found(rules, first, last, stop, prev) && Found(rules, first, last, stop, prev')
    ensures prev == prev'
  {
    var w: seq<Step>, n: Option<Step> :| FoundBefore(rules, first, last, stop, prev, w, n);
    var v: seq<Step>, k: Option<Step> :| FoundBefore(rules, first, last, stop, prev', v, k);
    if |w| <= |v| {
      FoundNoLater(rules, first, last, stop, prev, w, n, v);
    } else {
      FoundNoLater(rules, first, last, stop, prev', v, k, w);
    }
  }

  lemma FollowsInLonger(rules: seq<Rule>, first: nat, last: nat, w: seq<Step>, next: Option<Step>, v: seq<Step>)
    requires WalkUpTo(rules, first, last, w) && Follows(rules, first, last, w, next)
    requires WalkUpTo(rules, first, last, v) && |w| < |v| && w == v[..|w|]
    ensures next == Some(v[|w|]) && SaveBefore(rules, w, |w|) == SaveBefore(rules, v, |w|)
  {
    WalkPrefix(rules, first, last, v, |w| + 1);
    assert w + [v[|w|]] == v[..|w| + 1];
    OnlyOneNext(rules, first, last, w, next, v[|w|]);
  }

  lemma FoundNoLater(rules: seq<Rule>, first: nat, last: nat, stop: Stop, prev: Option<Step>, w: seq<Step>,
                     next: Option<Step>, v: seq<Step>)
    requires FoundBefore(rules, first, last, stop, prev, w, next)
    requires WalkUpTo(rules, first, last, v) && Passes(rules, v, stop) && |w| <= |v|
    ensures w == v
  {
    assert w == v[..|w|] by {
      WalkPrefix(rules, first, last, v, |w|);
      WalksAgree(rules, first, last, w, v[..|w|]);
    }
    if |w| < |v| {
      FollowsInLonger(rules, first, last, w, next, v);
    }
  }

  /** The loop of both searches. */
  method FindBefore(rules: seq<Rule>, first: nat, last: nat, stop: Stop) returns (prev: Option<Step>)
    requires CutYears(rules, first, last)
    ensures Found(rules, first, last, stop, prev)
  {
    ghost var w := [];
    prev := None;
    var s := Some(Step(first, rules[first].start));
    var prevSave := 0;
    WalkStarts(rules, first, last);
    while s.Some?
      invariant WalkUpTo(rules, first, last, w) && Follows(rules, first, last, w, s)
      invariant Passes(rules, w, stop)
      invariant prev == if w == [] then None else Some(w[|w| - 1])
      invariant prevSave == SaveBefore(rules, w, |w|)
      decreases s.Some?, if s.Some? then rules[last - 1].stop - s.value.y else 0,
                if s.Some? then last - s.value.r else 0
    {
      if stop(s.value, prevSave) {
        break;
      }
      WalkExtended(rules, first, last, w, s.value);
      PassesExtended(rules, w, s.value, stop);
      prev := s;
      w := w + [s.value];
      prevSave := rules[s.value.r].payload.save;
      s := FindNextRule(rules, first, last, s.value);
    }
    assert FoundBefore(rules, first, last, stop, prev, w, s);
  }

  // ---- The step before, in terms of the block ----

  /** The last rule with the years of rule r. */
  function LastOfGroup(rules: seq<Rule>, last: nat, r: nat): (h: nat)
    requires r < last <= |rules|
    ensures r <= h < last && rules[h].start == rules[r].start
    ensures h == last - 1 || rules[h].start != rules[h + 1].start
    decreases last - r
  {
    if r + 1 < last && rules[r + 1].start == rules[r].start then LastOfGroup(rules, last, r + 1) else r
  }

  function PreviousOf(rules: seq<Rule>, first: nat, last: nat, s: Step): Option<Step>
    requires InWalk(rules, first, last, s)
  {
    if s.r > first && rules[s.r - 1].start == rules[s.r].start then Some(Step(s.r - 1, s.y))
    else if s.y > rules[s.r].start then Some(Step(LastOfGroup(rules, last, s.r), s.y - 1))
    else if s.r > first then Some(Step(s.r - 1, rules[s.r - 1].stop))
    else None
  }

  lemma PreviousInYear(rules: seq<Rule>, first: nat, last: nat, s: Step)
    requires CutYears(rules, first, last) && InWalk(rules, first, last, s)
    requires s.r > first && rules[s.r - 1].start == rules[s.r].start
    ensures IsPrevious(rules, first, last, s, PreviousOf(rules, first, last, s))
  {
    NextSameYear(rules, first, last, Step(s.r - 1, s.y));
  }

  lemma GroupOf(rules: seq<Rule>, first: nat, last: nat, g: nat, h: nat)
    requires CutYears(rules, first, last) && first <= g <= h < last && rules[g].start == rules[h].start
    requires g == first || rules[g - 1].start != rules[g].start
    requires h == last - 1 || rules[h].start != rules[h + 1].start
    ensures Group(rules, first, last, h, g, h)
  {
  }

  lemma PreviousYearOf(rules: seq<Rule>, first: nat, last: nat, s: Step, h: nat)
    requires CutYears(rules, first, last) && InWalk(rules, first, last, s) && rules[s.r].start < s.y
    requires s.r == first || rules[s.r - 1].start != rules[s.r].start
    requires s.r <= h < last && rules[h].start == rules[s.r].start
    requires h == last - 1 || rules[h].start != rules[h + 1].start
    ensures IsPrevious(rules, first, last, s, Some(Step(h, s.y - 1)))
  {
    GroupOf(rules, first, last, s.r, h);
    PreviousYear(rules, first, last, s.r, h, s.y);
  }

  lemma NextYearOf(rules: seq<Rule>, first: nat, last: nat, s: Step, g: nat)
    requires CutYears(rules, first, last) && InWalk(rules, first, last, s) && s.y < rules[s.r].stop
    requires s.r == last - 1 || rules[s.r].start != rules[s.r + 1].start
    requires first <= g <= s.r && rules[g].start == rules[s.r].start
    requires g == first || rules[g - 1].start != rules[g].start
    ensures IsNext(rules, first, last, s, Some(Step(g, s.y + 1)))
  {
    GroupOf(rules, first, last, g, s.r);
    NextYear(rules, first, last, g, s.r, s.y);
  }

  lemma PreviousInGroup(rules: seq<Rule>, first: nat, last: nat, s: Step)
    requires CutYears(rules, first, last) && InWalk(rules, first, last, s) && rules[s.r].start < s.y
    requires s.r == first || rules[s.r - 1].start != rules[s.r].start
    ensures IsPrevious(rules, first, last, s, PreviousOf(rules, first, last, s))
  {
    PreviousYearOf(rules, first, last, s, LastOfGroup(rules, last, s.r));
  }

  lemma PreviousOutOfGroup(rules: seq<Rule>, first: nat, last: nat, s: Step)
    requires CutYears(rules, first, last) && InWalk(rules, first, last, s) && rules[s.r].start == s.y
    requires s.r == first || rules[s.r - 1].start != rules[s.r].start
    ensures IsPrevious(rules, first, last, s, PreviousOf(rules, first, last, s))
  {
    if s.r > first {
      NextGroup(rules, first, last, s.r - 1);
    } else {
      WalkEnds(rules, first, last);
    }
  }

  lemma PreviousOfIsPrevious(rules: seq<Rule>, first: nat, last: nat, s: Step)
    requires CutYears(rules, first, last) && InWalk(rules, first, last, s)
    ensures IsPrevious(rules, first, last, s, PreviousOf(rules, first, last, s))
  {
    if s.r > first && rules[s.r - 1].start == rules[s.r].start {
      PreviousInYear(rules, first, last, s);
    } else if s.y > rules[s.r].start {
      PreviousInGroup(rules, first, last, s);
    } else {
      PreviousOutOfGroup(rules, first, last, s);
    }
  }

  /** The saving in effect before a step. */
  function SaveInto(rules: seq<Rule>, first: nat, last: nat, s: Step): int
    requires InWalk(rules, first, last, s)
  {
    match PreviousOf(rules, first, last, s)
    case None => 0
    case Some(p) => rules[p.r].payload.save
  }

  lemma WalkGivesPrevious(rules: seq<Rule>, first: nat, last: nat, w: seq<Step>, n: nat)
    requires WalkUpTo(rules, first, last, w) && n < |w|
    ensures IsPrevious(rules, first, last, w[n], if n == 0 then None else Some(w[n - 1]))
  {
    forall t | InWalk(rules, first, last, t) && Earlier(t, w[n])
      ensures n > 0 && (t == w[n - 1] || Earlier(t, w[n - 1]))
    {
      assert t in w;
      var j :| 0 <= j < |w| && w[j] == t;
      assert j < n;
    }
  }

  lemma SaveBeforeIsSaveInto(rules: seq<Rule>, first: nat, last: nat, w: seq<Step>, n: nat)
    requires CutYears(rules, first, last) && WalkUpTo(rules, first, last, w) && n < |w|
    ensures SaveBefore(rules, w, n) == SaveInto(rules, first, last, w[n])
  {
    assert PreviousOf(rules, first, last, w[n]) == if n == 0 then None else Some(w[n - 1]) by {
      WalkGivesPrevious(rules, first, last, w, n);
      PreviousOfIsPrevious(rules, first, last, w[n]);
      NeighboursAreUnique(rules, first, last, w[n], PreviousOf(rules, first, last, w[n]),
                          if n == 0 then None else Some(w[n - 1]));
    }
  }

  // ---- When times rise along a walk ----

  /** When a step takes effect, given the saving in effect before it. */
  type Key = (Step, int) -> int

  ghost function TimeOf(rules: seq<Rule>, first: nat, last: nat, key: Key, s: Step): int
    requires InWalk(rules, first, last, s)
  {
    key(s, SaveInto(rules, first, last, s))
  }

  /** Later steps of the walk never take effect earlier. */
  ghost predicate TimesRise(rules: seq<Rule>, first: nat, last: nat, key: Key) {
    forall a: Step, b: Step :: InWalk(rules, first, last, a) && InWalk(rules, first, last, b) && Earlier(a, b) ==>
      TimeOf(rules, first, last, key, a) <= TimeOf(rules, first, last, key, b)
  }

  /** A step does not take effect earlier than the rule before it in the same year, than the last rule
      of its group in the year before, or than the last year of the group before. */
  ghost predicate NoEarlierThanPrevious(rules: seq<Rule>, first: nat, last: nat, key: Key, s: Step)
    requires InWalk(rules, first, last, s)
  {
    var p := PreviousOf(rules, first, last, s);
    p.Some? && InWalk(rules, first, last, p.value) ==>
      TimeOf(rules, first, last, key, p.value) <= TimeOf(rules, first, last, key, s)
  }

  lemma {:induction false} RisesFrom(rules: seq<Rule>, first: nat, last: nat, key: Key, a: Step, b: Step)
    requires CutYears(rules, first, last)
    requires InWalk(rules, first, last, a) && InWalk(rules, first, last, b) && Earlier(a, b)
    requires forall s: Step :: InWalk(rules, first, last, s) ==> NoEarlierThanPrevious(rules, first, last, key, s)
    ensures TimeOf(rules, first, last, key, a) <= TimeOf(rules, first, last, key, b)
    decreases b.y - a.y, b.r
  {
    PreviousOfIsPrevious(rules, first, last, b);
    var p := PreviousOf(rules, first, last, b).value;
    assert NoEarlierThanPrevious(rules, first, last, key, b);
    if a != p {
      RisesFrom(rules, first, last, key, a, p);
    }
  }

  /** Times rise along a walk exactly when they rise between neighbours. */
  lemma RiseBetweenNeighbours(rules: seq<Rule>, first: nat, last: nat, key: Key)
    requires CutYears(rules, first, last)
    ensures TimesRise(rules, first, last, key) <==>
              forall s: Step :: InWalk(rules, first, last, s) ==> NoEarlierThanPrevious(rules, first, last, key, s)
  {
    if TimesRise(rules, first, last, key) {
      forall s: Step | InWalk(rules, first, last, s)
        ensures NoEarlierThanPrevious(rules, first, last, key, s)
      {
        PreviousOfIsPrevious(rules, first, last, s);
      }
    } else {
      var a: Step, b: Step :| InWalk(rules, first, last, a) && InWalk(rules, first, last, b) && Earlier(a, b)
                              && TimeOf(rules, first, last, key, a) > TimeOf(rules, first, last, key, b);
      if forall s: Step :: InWalk(rules, first, last, s) ==> NoEarlierThanPrevious(rules, first, last, key, s) {
        RisesFrom(rules, first, last, key, a, b);
      }
    }
  }

  /** Where year y begins in seconds. */
  function YearStart(y: int): int {
    ToDays(Date(y, 1, 1)) * DAY
  }

  lemma YearStartsRise(y: int, z: int)
    requires y <= z
    ensures YearStart(y) <= YearStart(z)
  {
    ToDaysOrder(Date(y, 1, 1), Date(z, 1, 1));
  }

  /** Steps take effect within their years, on a clock that is ahead by a constant. */
  ghost predicate KeepsYears(rules: seq<Rule>, first: nat, last: nat, key: Key, ahead: int) {
    forall s: Step :: InWalk(rules, first, last, s) ==>
      YearStart(s.y) <= TimeOf(rules, first, last, key, s) + ahead < YearStart(s.y + 1)
  }

  lemma YearApart(rules: seq<Rule>, first: nat, last: nat, key: Key, ahead: int, p: Step, s: Step)
    requires KeepsYears(rules, first, last, key, ahead)
    requires InWalk(rules, first, last, p) && InWalk(rules, first, last, s) && p.y < s.y
    ensures TimeOf(rules, first, last, key, p) <= TimeOf(rules, first, last, key, s)
  {
    var a, b := YearStart(p.y + 1), YearStart(s.y);
    assert a <= b by { YearStartsRise(p.y + 1, s.y); }
    assert TimeOf(rules, first, last, key, p) + ahead < a by { InItsYear(rules, first, last, key, ahead, p); }
    assert b <= TimeOf(rules, first, last, key, s) + ahead by { InItsYear(rules, first, last, key, ahead, s); }
  }

  lemma LaterYearIsLater(rules: seq<Rule>, first: nat, last: nat, key: Key, ahead: int, s: Step)
    requires CutYears(rules, first, last) && KeepsYears(rules, first, last, key, ahead)
    requires InWalk(rules, first, last, s) && !(s.r > first && rules[s.r - 1].start == rules[s.r].start)
    ensures NoEarlierThanPrevious(rules, first, last, key, s)
  {
    var prev := PreviousOf(rules, first, last, s);
    if prev.Some? && InWalk(rules, first, last, prev.value) {
      EarlierYear(rules, first, last, s);
      YearApart(rules, first, last, key, ahead, prev.value, s);
    }
  }

  lemma EarlierYear(rules: seq<Rule>, first: nat, last: nat, s: Step)
    requires CutYears(rules, first, last)
    requires InWalk(rules, first, last, s) && !(s.r > first && rules[s.r - 1].start == rules[s.r].start)
    ensures PreviousOf(rules, first, last, s).Some? ==> PreviousOf(rules, first, last, s).value.y < s.y
  {
  }

  lemma InItsYear(rules: seq<Rule>, first: nat, last: nat, key: Key, ahead: int, s: Step)
    requires KeepsYears(rules, first, last, key, ahead) && InWalk(rules, first, last, s)
    ensures YearStart(s.y) <= TimeOf(rules, first, last, key, s) + ahead < YearStart(s.y + 1)
  {
  }

  /** When steps take effect within their years, times rise along a walk exactly when, in every single
      year, no rule takes effect earlier than the rule of that year that stands before it. */
  lemma RiseWithinYears(rules: seq<Rule>, first: nat, last: nat, key: Key, ahead: int)
    requires CutYears(rules, first, last) && KeepsYears(rules, first, last, key, ahead)
    ensures TimesRise(rules, first, last, key) <==>
              forall s: Step ::
                InWalk(rules, first, last, s) && s.r > first && rules[s.r - 1].start == rules[s.r].start ==>
                  NoEarlierThanPrevious(rules, first, last, key, s)
  {
    RiseBetweenNeighbours(rules, first, last, key);
    forall s: Step | InWalk(rules, first, last, s) && !(s.r > first && rules[s.r - 1].start == rules[s.r].start)
      ensures NoEarlierThanPrevious(rules, first, last, key, s)
    {
      LaterYearIsLater(rules, first, last, key, ahead, s);
    }
  }

  // ---- What the searches find ----

  /** prev is the last step of the walk that takes effect before the given time, or there is none. */
  ghost predicate LastBefore(rules: seq<Rule>, first: nat, last: nat, key: Key, at: int, prev: Option<Step>) {
    match prev
    case None => forall s: Step :: InWalk(rules, first, last, s) ==> at <= TimeOf(rules, first, last, key, s)
    case Some(p) =>
      && InWalk(rules, first, last, p) && TimeOf(rules, first, last, key, p) < at
      && forall s: Step :: InWalk(rules, first, last, s) && TimeOf(rules, first, last, key, s) < at ==>
           s == p || Earlier(s, p)
  }

  /** A search stops where a step takes effect at the given time or after. */
  ghost predicate StopsFrom(rules: seq<Rule>, first: nat, last: nat, key: Key, at: int, stop: Stop) {
    forall s: Step :: InWalk(rules, first, last, s) ==>
      (stop(s, SaveInto(rules, first, last, s)) <==> at <= TimeOf(rules, first, last, key, s))
  }

  lemma NotPassedStops(rules: seq<Rule>, first: nat, last: nat, stop: Stop, prev: Option<Step>, w: seq<Step>,
                       next: Option<Step>, s: Step)
    requires FoundBefore(rules, first, last, stop, prev, w, next)
    requires InWalk(rules, first, last, s) && s !in w
    ensures next.Some? && (s == next.value || Earlier(next.value, s))
    ensures prev.Some? ==> Earlier(prev.value, s)
  {
    if w != [] {
      assert !Earlier(s, w[|w| - 1]);
    }
  }

  /** A step that was passed does not stop the search, and is not after the result. */
  lemma PassedDoesNotStop(rules: seq<Rule>, first: nat, last: nat, stop: Stop, prev: Option<Step>, w: seq<Step>,
                          next: Option<Step>, s: Step)
    requires CutYears(rules, first, last) && FoundBefore(rules, first, last, stop, prev, w, next) && s in w
    ensures InWalk(rules, first, last, s) && !stop(s, SaveInto(rules, first, last, s))
    ensures prev.Some? && (s == prev.value || Earlier(s, prev.value))
  {
    var n :| 0 <= n < |w| && w[n] == s;
    SaveBeforeIsSaveInto(rules, first, last, w, n);
  }

  lemma NextStops(rules: seq<Rule>, first: nat, last: nat, stop: Stop, prev: Option<Step>, w: seq<Step>, n: Step)
    requires CutYears(rules, first, last) && FoundBefore(rules, first, last, stop, prev, w, Some(n))
    ensures InWalk(rules, first, last, n) && stop(n, SaveInto(rules, first, last, n))
  {
    WalkExtended(rules, first, last, w, n);
    SaveBeforeIsSaveInto(rules, first, last, w + [n], |w|);
    assert SaveBefore(rules, w + [n], |w|) == SaveBefore(rules, w, |w|);
  }

  /** When times rise along the walk, a search finds the last step that takes effect before the given
      time, and no step before that time takes effect later. */
  lemma FoundIsLast(rules: seq<Rule>, first: nat, last: nat, key: Key, at: int, stop: Stop, prev: Option<Step>)
    requires CutYears(rules, first, last) && StopsFrom(rules, first, last, key, at, stop)
    requires Found(rules, first, last, stop, prev) && TimesRise(rules, first, last, key)
    ensures LastBefore(rules, first, last, key, at, prev)
    ensures prev.Some? ==>
              forall s: Step :: InWalk(rules, first, last, s) && TimeOf(rules, first, last, key, s) < at ==>
                TimeOf(rules, first, last, key, s) <= TimeOf(rules, first, last, key, prev.value)
  {
    var w: seq<Step>, next: Option<Step> :| FoundBefore(rules, first, last, stop, prev, w, next);
    forall s: Step | InWalk(rules, first, last, s)
      ensures TimeOf(rules, first, last, key, s) < at <==> s in w
      ensures s in w ==> prev.Some? && (s == prev.value || Earlier(s, prev.value))
    {
      if s in w {
        PassedDoesNotStop(rules, first, last, stop, prev, w, next, s);
      } else {
        NotPassedStops(rules, first, last, stop, prev, w, next, s);
        NextStops(rules, first, last, stop, prev, w, next.value);
      }
    }
  }

  lemma FoundBeforeStop(rules: seq<Rule>, first: nat, last: nat, stop: Stop, prev: Option<Step>, a: Step)
    requires CutYears(rules, first, last) && Found(rules, first, last, stop, prev)
    requires InWalk(rules, first, last, a) && stop(a, SaveInto(rules, first, last, a))
    ensures prev.Some? ==> Earlier(prev.value, a)
  {
    var w: seq<Step>, next: Option<Step> :| FoundBefore(rules, first, last, stop, prev, w, next);
    if a in w {
      PassedDoesNotStop(rules, first, last, stop, prev, w, next, a);
    } else {
      NotPassedStops(rules, first, last, stop, prev, w, next, a);
    }
  }

  lemma LaterIsMissed(rules: seq<Rule>, first: nat, last: nat, key: Key, at: int, prev: Option<Step>, b: Step)
    requires InWalk(rules, first, last, b) && TimeOf(rules, first, last, key, b) < at
    requires prev.Some? ==> Earlier(prev.value, b)
    ensures !LastBefore(rules, first, last, key, at, prev)
  {
  }

  /** When some step takes effect earlier than one before it, the search for the time of the latter
      misses it. */
  lemma FallIsMissed(rules: seq<Rule>, first: nat, last: nat, key: Key, a: Step, b: Step, stop: Stop,
                     prev: Option<Step>)
    requires CutYears(rules, first, last)
    requires InWalk(rules, first, last, a) && InWalk(rules, first, last, b) && Earlier(a, b)
    requires TimeOf(rules, first, last, key, b) < TimeOf(rules, first, last, key, a)
    requires StopsFrom(rules, first, last, key, TimeOf(rules, first, last, key, a), stop)
    requires Found(rules, first, last, stop, prev)
    ensures !LastBefore(rules, first, last, key, TimeOf(rules, first, last, key, a), prev)
  {
    assert prev.Some? ==> Earlier(prev.value, a) by {
      FoundBeforeStop(rules, first, last, stop, prev, a);
    }
    LaterIsMissed(rules, first, last, key, TimeOf(rules, first, last, key, a), prev, b);
  }

  ghost predicate AllRulesValid(rules: seq<Rule>, first: nat, last: nat) {
    last <= |rules| && forall i :: first <= i < last ==> rules[i].Valid()
  }

  // ---- The search for a time of a year ----

  /** What the first search looks for: t in year y, where standard time has an offset. */
  datatype Search = Search(y: int, offset: int, t: MonthDayTime)

  /** The first search stops before this step: its time is not after it. */
  predicate StopsAt(rules: seq<Rule>, q: Search, s: Step, prevSave: int) {
    && s.r < |rules| && rules[s.r].Valid() && q.t.day.Valid()
    && Compare(q.t, q.y, rules[s.r].payload.at, s.y, q.offset, 60 * prevSave) <= 0
  }

  function StopFor(rules: seq<Rule>, q: Search): Stop {
    (s, save) => StopsAt(rules, q, s, save)
  }

  /** When a step takes effect, in the scale of the time looked for. */
  ghost function StartFor(rules: seq<Rule>, q: Search): Key {
    (s: Step, save: int) =>
      if s.r < |rules| && rules[s.r].Valid() then
        ToSys(rules[s.r].payload.at, s.y, q.offset, 60 * save) + (if q.t.zone == Local then 60 * save else 0)
      else 0
  }

  /** The clock of the time looked for is less than two days off that of any step. */
  ghost predicate ClocksClose(rules: seq<Rule>, first: nat, last: nat, q: Search) {
    forall s: Step :: InWalk(rules, first, last, s) ==>
      var save := 60 * SaveInto(rules, first, last, s);
      -2 * DAY < Clock(q.t, q.offset, save) - Clock(rules[s.r].payload.at, q.offset, save) < 2 * DAY
  }

  lemma StopForStops(rules: seq<Rule>, first: nat, last: nat, q: Search)
    requires AllRulesValid(rules, first, last) && q.t.day.Valid() && ClocksClose(rules, first, last, q)
    ensures StopsFrom(rules, first, last, StartFor(rules, q), ToSys(q.t, q.y, q.offset, 0), StopFor(rules, q))
  {
    forall s: Step | InWalk(rules, first, last, s)
      ensures StopFor(rules, q)(s, SaveInto(rules, first, last, s)) <==>
              ToSys(q.t, q.y, q.offset, 0) <= TimeOf(rules, first, last, StartFor(rules, q), s)
    {
      CompareWithinTwoDays(q.t, q.y, rules[s.r].payload.at, s.y, q.offset, 60 * SaveInto(rules, first, last, s));
    }
  }

  /** The last step before a time of a year, when times rise along the walk and clocks are close. */
  method FindRuleForZone(rules: seq<Rule>, first: nat, last: nat, q: Search) returns (prev: Option<Step>)
    requires CutYears(rules, first, last) && AllRulesValid(rules, first, last) && q.t.day.Valid()
    ensures Found(rules, first, last, StopFor(rules, q), prev)
    ensures TimesRise(rules, first, last, StartFor(rules, q)) && ClocksClose(rules, first, last, q) ==>
              LastBefore(rules, first, last, StartFor(rules, q), ToSys(q.t, q.y, q.offset, 0), prev)
  {
    prev := FindBefore(rules, first, last, StopFor(rules, q));
    if TimesRise(rules, first, last, StartFor(rules, q)) && ClocksClose(rules, first, last, q) {
      StopForStops(rules, first, last, q);
      FoundIsLast(rules, first, last, StartFor(rules, q), ToSys(q.t, q.y, q.offset, 0), StopFor(rules, q), prev);
    }
  }

  // ---- The search for a time point ----

  /** The second search stops before this step: it starts after the time point of its zone. */
  predicate StartsAfter(rules: seq<Rule>, utc: int, standard: int, local: int, s: Step) {
    && s.r < |rules| && rules[s.r].Valid()
    && var at := rules[s.r].payload.at;
       match at.zone
       case Utc => utc < ToTimePoint(at, s.y)
       case Standard => standard < ToTimePoint(at, s.y)
       case Local => local < ToTimePoint(at, s.y)
  }

  function StopAfter(rules: seq<Rule>, utc: int, standard: int, local: int): Stop {
    (s, _) => StartsAfter(rules, utc, standard, local, s)
  }

  /** When a step takes effect in UTC, under one offset and one saving. */
  ghost function StartInUtc(rules: seq<Rule>, offset: int, save: int): Key {
    (s: Step, _) => if s.r < |rules| && rules[s.r].Valid() then ToSys(rules[s.r].payload.at, s.y, offset, save) else 0
  }

  lemma StopAfterStops(rules: seq<Rule>, first: nat, last: nat, utc: int, standard: int, local: int)
    requires AllRulesValid(rules, first, last)
    ensures StopsFrom(rules, first, last, StartInUtc(rules, standard - utc, local - standard), utc + 1,
                      StopAfter(rules, utc, standard, local))
  {
    forall s: Step | InWalk(rules, first, last, s)
      ensures StopAfter(rules, utc, standard, local)(s, SaveInto(rules, first, last, s)) <==>
              utc + 1 <= TimeOf(rules, first, last, StartInUtc(rules, standard - utc, local - standard), s)
    {
    }
  }

  /** The last step that has started at a time point, given in the three time scales, when times rise
      along the walk. */
  method FindRuleAt(rules: seq<Rule>, first: nat, last: nat, utc: int, standard: int, local: int)
    returns (prev: Option<Step>)
    requires CutYears(rules, first, last) && AllRulesValid(rules, first, last)
    ensures Found(rules, first, last, StopAfter(rules, utc, standard, local), prev)
    ensures var key := StartInUtc(rules, standard - utc, local - standard);
            TimesRise(rules, first, last, key) ==> LastBefore(rules, first, last, key, utc + 1, prev)
  {
    prev := FindBefore(rules, first, last, StopAfter(rules, utc, standard, local));
    ghost var key := StartInUtc(rules, standard - utc, local - standard);
    if TimesRise(rules, first, last, key) {
      StopAfterStops(rules, first, last, utc, standard, local);
      FoundIsLast(rules, first, last, key, utc + 1, StopAfter(rules, utc, standard, local), prev);
    }
  }

  // ---- The condition is exact ----

  /** The first rule with the years of rule r. */
  function FirstOfGroup(rules: seq<Rule>, first: nat, r: nat): (g: nat)
    requires first <= r < |rules|
    ensures first <= g <= r && rules[g].start == rules[r].start
    ensures g == first || rules[g - 1].start != rules[g].start
  {
    if r > first && rules[r - 1].start == rules[r].start then FirstOfGroup(rules, first, r - 1) else r
  }

  lemma NextInGroup(rules: seq<Rule>, first: nat, last: nat, s: Step, next: Option<Step>)
    requires CutYears(rules, first, last) && InWalk(rules, first, last, s) && s.y < rules[s.r].stop
    requires s.r == last - 1 || rules[s.r].start != rules[s.r + 1].start
    requires next == Some(Step(FirstOfGroup(rules, first, s.r), s.y + 1))
    ensures IsNext(rules, first, last, s, next)
  {
    NextYearOf(rules, first, last, s, FirstOfGroup(rules, first, s.r));
  }

  lemma NextOutOfGroup(rules: seq<Rule>, first: nat, last: nat, s: Step, next: Option<Step>)
    requires CutYears(rules, first, last) && InWalk(rules, first, last, s) && s.y == rules[s.r].stop
    requires s.r == last - 1 || rules[s.r].start != rules[s.r + 1].start
    requires next == if s.r < last - 1 then Some(Step(s.r + 1, rules[s.r + 1].start)) else None
    ensures IsNext(rules, first, last, s, next)
  {
    if s.r < last - 1 {
      NextGroup(rules, first, last, s.r);
    } else {
      WalkEnds(rules, first, last);
    }
  }

  lemma NextInYears(rules: seq<Rule>, first: nat, last: nat, s: Step) returns (next: Option<Step>)
    requires CutYears(rules, first, last) && InWalk(rules, first, last, s)
    requires s.r == last - 1 || rules[s.r].start != rules[s.r + 1].start
    ensures IsNext(rules, first, last, s, next)
  {
    if s.y < rules[s.r].stop {
      next := Some(Step(FirstOfGroup(rules, first, s.r), s.y + 1));
      NextInGroup(rules, first, last, s, next);
    } else {
      next := if s.r < last - 1 then Some(Step(s.r + 1, rules[s.r + 1].start)) else None;
      NextOutOfGroup(rules, first, last, s, next);
    }
  }

  lemma NextExists(rules: seq<Rule>, first: nat, last: nat, s: Step) returns (next: Option<Step>)
    requires CutYears(rules, first, last) && InWalk(rules, first, last, s)
    ensures IsNext(rules, first, last, s, next)
  {
    if s.r < last - 1 && rules[s.r].start == rules[s.r + 1].start {
      NextSameYear(rules, first, last, s);
      next := Some(Step(s.r + 1, s.y));
    } else {
      next := NextInYears(rules, first, last, s);
    }
  }

  /** Every search has a result. */
  lemma {:induction false} SearchEnds(rules: seq<Rule>, first: nat, last: nat, stop: Stop, w: seq<Step>,
                                      next: Option<Step>) returns (prev: Option<Step>)
    requires CutYears(rules, first, last) && WalkUpTo(rules, first, last, w) && Passes(rules, w, stop)
    requires Follows(rules, first, last, w, next)
    ensures Found(rules, first, last, stop, prev)
    decreases next.Some?, if next.Some? then rules[last - 1].stop - next.value.y else 0,
              if next.Some? then last - next.value.r else 0
  {
    if next.Some? && !stop(next.value, SaveBefore(rules, w, |w|)) {
      var n := next.value;
      WalkExtended(rules, first, last, w, n);
      PassesExtended(rules, w, n, stop);
      var after := NextExists(rules, first, last, n);
      prev := SearchEnds(rules, first, last, stop, w + [n], after);
    } else {
      prev := if w == [] then None else Some(w[|w| - 1]);
      assert FoundBefore(rules, first, last, stop, prev, w, next);
    }
  }

  lemma SearchHasResult(rules: seq<Rule>, first: nat, last: nat, stop: Stop) returns (prev: Option<Step>)
    requires CutYears(rules, first, last)
    ensures Found(rules, first, last, stop, prev)
  {
    WalkStarts(rules, first, last);
    prev := SearchEnds(rules, first, last, stop, [], Some(Step(first, rules[first].start)));
  }

  /** The second search at a time point, under one offset and one saving. */
  function StopUnder(rules: seq<Rule>, offset: int, save: int, utc: int): Stop {
    StopAfter(rules, utc, utc + offset, utc + offset + save)
  }

  /** The second search answers every time point rightly, under one offset and saving, exactly when times
      rise along the walk. */
  lemma SearchIsRight(rules: seq<Rule>, first: nat, last: nat, offset: int, save: int)
    requires CutYears(rules, first, last) && AllRulesValid(rules, first, last)
    ensures TimesRise(rules, first, last, StartInUtc(rules, offset, save)) <==>
              forall utc: int, prev: Option<Step> ::
                Found(rules, first, last, StopUnder(rules, offset, save, utc), prev) ==>
                  LastBefore(rules, first, last, StartInUtc(rules, offset, save), utc + 1, prev)
  {
    var key := StartInUtc(rules, offset, save);
    forall utc: int
      ensures StopsFrom(rules, first, last, key, utc + 1, StopUnder(rules, offset, save, utc))
    {
      StopAfterStops(rules, first, last, utc, utc + offset, utc + offset + save);
    }
    if TimesRise(rules, first, last, key) {
      forall utc: int, prev: Option<Step> | Found(rules, first, last, StopUnder(rules, offset, save, utc), prev)
        ensures LastBefore(rules, first, last, key, utc + 1, prev)
      {
        FoundIsLast(rules, first, last, key, utc + 1, StopUnder(rules, offset, save, utc), prev);
      }
    } else {
      var a: Step, b: Step :| InWalk(rules, first, last, a) && InWalk(rules, first, last, b) && Earlier(a, b)
                              && TimeOf(rules, first, last, key, a) > TimeOf(rules, first, last, key, b);
      var utc := TimeOf(rules, first, last, key, a) - 1;
      var prev := SearchHasResult(rules, first, last, StopUnder(rules, offset, save, utc));
      FallIsMissed(rules, first, last, key, a, b, StopUnder(rules, offset, save, utc), prev);
    }
  }

  // ---- A block in which a search misses a step ----

  lemma FirstOfWalk(rules: seq<Rule>, first: nat, last: nat, w: seq<Step>)
    requires CutYears(rules, first, last) && WalkUpTo(rules, first, last, w) && w != []
    ensures w[0] == Step(first, rules[first].start)
  {
    WalkPrefix(rules, first, last, w, 1);
    WalkStarts(rules, first, last);
    assert [] + [w[0]] == w[..1];
    OnlyOneNext(rules, first, last, [], Some(Step(first, rules[first].start)), w[0]);
  }

  lemma StopsAtOnce(rules: seq<Rule>, first: nat, last: nat, stop: Stop, prev: Option<Step>)
    requires CutYears(rules, first, last) && Found(rules, first, last, stop, prev)
    requires stop(Step(first, rules[first].start), 0)
    ensures prev == None
  {
    var w: seq<Step>, next: Option<Step> :| FoundBefore(rules, first, last, stop, prev, w, next);
    if w != [] {
      FirstOfWalk(rules, first, last, w);
    }
  }

  /** Two rules of 2020 in the order in which canonicalizing can leave them. */
  ghost predicate OutOfOrder(rules: seq<Rule>, zone: Zone) {
    rules == [Rule(Payload("US", MonthDayTime(MonthDay(10, 28), 0, zone), 0, "S"), 2020, 2020),
              Rule(Payload("US", MonthDayTime(MonthDay(10, 25), 0, zone), 0, "S"), 2020, 2020)]
  }

  lemma DaysOfOctober2020()
    ensures ToDays(Date(2020, 10, 25)) == 18560 && ToDays(Date(2020, 10, 26)) == 18561
    ensures ToDays(Date(2020, 10, 28)) == 18563
  {
  }

  lemma OnlySecondHasStarted(rules: seq<Rule>, zone: Zone, at: int)
    requires OutOfOrder(rules, zone) && at == 18561 * DAY
    ensures StartsAfter(rules, at, at, at, Step(0, 2020)) && !StartsAfter(rules, at, at, at, Step(1, 2020))
  {
    DaysOfOctober2020();
  }

  lemma SecondIsMissed(rules: seq<Rule>, zone: Zone, at: int)
    requires OutOfOrder(rules, zone) && !StartsAfter(rules, at, at, at, Step(1, 2020))
    ensures !LastBefore(rules, 0, 2, StartInUtc(rules, 0, 0), at + 1, None)
  {
    StopAfterStops(rules, 0, 2, at, at, at);
    assert !StopAfter(rules, at, at, at)(Step(1, 2020), SaveInto(rules, 0, 2, Step(1, 2020)));
    LaterIsMissed(rules, 0, 2, StartInUtc(rules, 0, 0), at + 1, None, Step(1, 2020));
  }

  /** Canonicalizing can leave October 28 before October 25: then a search for October 26, 2020 finds
      nothing, although the rule of October 25 has started. */
  lemma SearchCanMiss(rules: seq<Rule>, zone: Zone, at: int, prev: Option<Step>)
    requires OutOfOrder(rules, zone) && at == ToDays(Date(2020, 10, 26)) * DAY
    requires Found(rules, 0, 2, StopAfter(rules, at, at, at), prev)
    ensures prev == None && InWalk(rules, 0, 2, Step(1, 2020)) && !StartsAfter(rules, at, at, at, Step(1, 2020))
    ensures !LastBefore(rules, 0, 2, StartInUtc(rules, 0, 0), at + 1, prev)
  {
    assert at == 18561 * DAY by { DaysOfOctober2020(); }
    OnlySecondHasStarted(rules, zone, at);
    StopsAtOnce(rules, 0, 2, StopAfter(rules, at, at, at), prev);
    SecondIsMissed(rules, zone, at);
  }
}
