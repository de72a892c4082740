/** What the two lookups answer among one or two rules, in seconds: when a rule counts as started, and
    under which saving. */
module RuleAnswers {
  import opened MonthDayTimes
  import opened Rules
  import opened RuleWalk
  import opened RuleLookups

  // ---- The walk of two rules ----

  /** Two rules with the same years take turns: the second follows the first in each year, and the first of
      the next year follows the second. */
  lemma TwoTakeTurns(rules: seq<Rule>, first: nat, y: int)
    requires first + 2 <= |rules| && rules[first].start <= y <= rules[first].stop
    requires rules[first].start == rules[first + 1].start && rules[first].stop == rules[first + 1].stop
    ensures IsNext(rules, first, first + 2, Step(first, y), Some(Step(first + 1, y)))
    ensures IsNext(rules, first, first + 2, Step(first + 1, y),
                   if y < rules[first].stop then Some(Step(first, y + 1)) else None)
  {
  }

  // ---- Searches among them ----

  /** Two rules of the same single year make up a block. */
  ghost predicate TwoOfYear(rules: seq<Rule>, first: nat, last: nat, y: int) {
    && last == first + 2 <= |rules| && rules[first].Valid() && rules[first + 1].Valid()
    && rules[first].start == rules[first].stop == rules[first + 1].start == rules[first + 1].stop == y
  }

  lemma TwoSteps(rules: seq<Rule>, first: nat, last: nat, y: int)
    requires TwoOfYear(rules, first, last, y)
    ensures CutYears(rules, first, last)
    ensures forall s: Step :: InWalk(rules, first, last, s) <==> s == Step(first, y) || s == Step(first + 1, y)
    ensures SaveInto(rules, first, last, Step(first, y)) == 0
    ensures SaveInto(rules, first, last, Step(first + 1, y)) == rules[first].payload.save
  {
  }

  lemma FoundAndNext(rules: seq<Rule>, first: nat, last: nat, stop: Stop, prev: Option<Step>)
    returns (w: seq<Step>, next: Option<Step>)
    requires CutYears(rules, first, last) && Found(rules, first, last, stop, prev)
    ensures prev.Some? ==> InWalk(rules, first, last, prev.value)
    ensures next.Some? ==>
              InWalk(rules, first, last, next.value) && stop(next.value, SaveInto(rules, first, last, next.value))
    ensures forall s: Step :: InWalk(rules, first, last, s) && s in w ==>
              !stop(s, SaveInto(rules, first, last, s)) && prev.Some? && (s == prev.value || Earlier(s, prev.value))
    ensures forall s: Step :: InWalk(rules, first, last, s) && s !in w ==>
              next.Some? && (s == next.value || Earlier(next.value, s)) && (prev.Some? ==> Earlier(prev.value, s))
  {
    w, next :| FoundBefore(rules, first, last, stop, prev, w, next);
    forall s: Step | InWalk(rules, first, last, s)
      ensures s in w ==> !stop(s, SaveInto(rules, first, last, s)) && prev.Some?
      ensures s in w ==> s == prev.value || Earlier(s, prev.value)
      ensures s !in w ==> next.Some? && (s == next.value || Earlier(next.value, s))
      ensures s !in w && prev.Some? ==> Earlier(prev.value, s)
    {
      if s in w {
        PassedDoesNotStop(rules, first, last, stop, prev, w, next, s);
      } else {
        NotPassedStops(rules, first, last, stop, prev, w, next, s);
      }
    }
    if next.Some? {
      NextStops(rules, first, last, stop, prev, w, next.value);
    }
  }

  /** A search among two rules of a year passes the first without a saving, and the second under the saving
      of the first. */
  lemma FoundAmongTwo(rules: seq<Rule>, first: nat, last: nat, y: int, stop: Stop, prev: Option<Step>)
    requires TwoOfYear(rules, first, last, y) && Found(rules, first, last, stop, prev)
    ensures prev == if stop(Step(first, y), 0) then None
                    else if stop(Step(first + 1, y), rules[first].payload.save) then Some(Step(first, y))
                    else Some(Step(first + 1, y))
  {
    TwoSteps(rules, first, last, y);
    var w, next := FoundAndNext(rules, first, last, stop, prev);
    var a, b := Step(first, y), Step(first + 1, y);
    assert InWalk(rules, first, last, a) && InWalk(rules, first, last, b) && Earlier(a, b);
    assert a in w <==> !stop(a, 0);
    assert b in w <==> a in w && !stop(b, rules[first].payload.save);
  }

  /** Seconds from the start of 1970 to a time of year y, on the clock that the time is told by. */
  function Seconds(t: MonthDayTime, y: int): int
    requires t.day.Valid()
  {
    24 * 60 * 60 * ToSysDays(t.day, y) + t.seconds
  }

  lemma SecondsAre(t: MonthDayTime, y: int)
    requires t.day.Valid()
    ensures Seconds(t, y) == ToTimePoint(t, y)
  {
  }

  /** A rule has started in year y when its clock, of the three, has reached its time. */
  ghost predicate HasStarted(r: Rule, y: int, utc: int, standard: int, local: int)
    requires r.Valid()
  {
    Seconds(r.payload.at, y) <= match r.payload.at.zone case Utc => utc case Standard => standard case Local => local
  }

  lemma StopsWhenNotStarted(rules: seq<Rule>, utc: int, standard: int, local: int, s: Step, minutes: int)
    requires s.r < |rules| && rules[s.r].Valid()
    ensures StopAfter(rules, utc, standard, local)(s, minutes)
       <==> !HasStarted(rules[s.r], s.y, utc, standard, local)
  {
    SecondsAre(rules[s.r].payload.at, s.y);
  }

  /** The second lookup among two rules of a year: the last that has started, if the first has. */
  lemma TwoRulesAt(rules: seq<Rule>, first: nat, last: nat, y: int, utc: int, standard: int, local: int,
                   prev: Option<Step>)
    requires TwoOfYear(rules, first, last, y)
    requires Found(rules, first, last, StopAfter(rules, utc, standard, local), prev)
    ensures prev == if !HasStarted(rules[first], y, utc, standard, local) then None
                    else if !HasStarted(rules[first + 1], y, utc, standard, local) then Some(Step(first, y))
                    else Some(Step(first + 1, y))
  {
    FoundAmongTwo(rules, first, last, y, StopAfter(rules, utc, standard, local), prev);
    StopsWhenNotStarted(rules, utc, standard, local, Step(first, y), 0);
    StopsWhenNotStarted(rules, utc, standard, local, Step(first + 1, y), rules[first].payload.save);
  }

  /** The instant of a time in UTC, with the offset in seconds and the saving in minutes. */
  function Instant(t: MonthDayTime, y: int, offset: int, minutes: int): int
    requires t.day.Valid()
  {
    Seconds(t, y) - match t.zone case Utc => 0 case Standard => offset case Local => offset + 60 * minutes
  }

  /** The clocks of two times are less than two days apart. */
  ghost predicate Close(t: MonthDayTime, x: MonthDayTime, offset: int, minutes: int) {
    -2 * 24 * 60 * 60 < Clock(t, offset, 60 * minutes) - Clock(x, offset, 60 * minutes) < 2 * 24 * 60 * 60
  }

  lemma InstantIs(t: MonthDayTime, y: int, offset: int, minutes: int)
    requires t.day.Valid()
    ensures Instant(t, y, offset, minutes) == ToSys(t, y, offset, 60 * minutes)
  {
    SecondsAre(t, y);
  }

  lemma StopsByInstants(rules: seq<Rule>, q: Search, s: Step, minutes: int)
    requires s.r < |rules| && rules[s.r].Valid() && q.t.day.Valid()
    requires Close(q.t, rules[s.r].payload.at, q.offset, minutes)
    ensures StopFor(rules, q)(s, minutes)
       <==> Instant(q.t, q.y, q.offset, minutes) <= Instant(rules[s.r].payload.at, s.y, q.offset, minutes)
  {
    InstantIs(q.t, q.y, q.offset, minutes);
    InstantIs(rules[s.r].payload.at, s.y, q.offset, minutes);
    CompareWithinTwoDays(q.t, q.y, rules[s.r].payload.at, s.y, q.offset, 60 * minutes);
  }

  /** The first lookup among two rules of a year: the last that starts before the time looked for, the second
      being judged under the saving of the first. */
  lemma TwoRulesForZone(rules: seq<Rule>, first: nat, last: nat, y: int, q: Search, prev: Option<Step>)
    requires TwoOfYear(rules, first, last, y) && q.t.day.Valid()
    requires Close(q.t, rules[first].payload.at, q.offset, 0)
    requires Close(q.t, rules[first + 1].payload.at, q.offset, rules[first].payload.save)
    requires Found(rules, first, last, StopFor(rules, q), prev)
    ensures var save := rules[first].payload.save;
            prev == if Instant(q.t, q.y, q.offset, 0) <= Instant(rules[first].payload.at, y, q.offset, 0) then None
                    else if Instant(q.t, q.y, q.offset, save)
                         <= Instant(rules[first + 1].payload.at, y, q.offset, save) then Some(Step(first, y))
                    else Some(Step(first + 1, y))
  {
    FoundAmongTwo(rules, first, last, y, StopFor(rules, q), prev);
    StopsByInstants(rules, q, Step(first, y), 0);
    StopsByInstants(rules, q, Step(first + 1, y), rules[first].payload.save);
  }
}
