/** From cutting to walking: the walk over a cut table takes every rule as often as it was there. */
module RuleCoverage {
  import opened Rules
  import opened RuleCuts
  import opened RuleScan
  import opened RuleMoments
  import opened RuleWalk

  /** The step takes payload p in year y. */
  ghost predicate Takes(cut: seq<Rule>, s: Step, y: int, p: Payload) {
    s.r < |cut| && s.y == y && cut[s.r].payload == p
  }

  /** How often a walk takes payload p in year y. */
  ghost function TimesTaken(cut: seq<Rule>, w: seq<Step>, y: int, p: Payload): nat {
    if w == [] then 0
    else TimesTaken(cut, w[..|w| - 1], y, p) + (if Takes(cut, w[|w| - 1], y, p) then 1 else 0)
  }

  /** The steps that do, as a set. */
  lemma {:induction false} StepsTaken(cut: seq<Rule>, w: seq<Step>, y: int, p: Payload) returns (taken: set<Step>)
    requires InOrder(w)
    ensures |taken| == TimesTaken(cut, w, y, p)
    ensures forall s: Step :: s in taken <==> s in w && Takes(cut, s, y, p)
  {
    taken := {};
    if w != [] {
      var init, l := w[..|w| - 1], w[|w| - 1];
      assert w == init + [l];
      assert l !in init;
      taken := StepsTaken(cut, init, y, p);
      if Takes(cut, l, y, p) { taken := taken + {l}; }
    }
  }

  /** The rules of positions first..k that hold payload p in year y, as steps. */
  lemma {:induction false} StepsHeld(cut: seq<Rule>, first: nat, k: nat, y: int, p: Payload)
    returns (held: set<Step>)
    requires first <= k <= |cut|
    ensures |held| == Count(cut[first..k], y, p)
    ensures forall s: Step :: s in held <==> first <= s.r < k && cut[s.r].Covers(s.y) && Takes(cut, s, y, p)
    decreases k
  {
    held := {};
    if first < k {
      held := StepsHeld(cut, first, k - 1, y, p);
      var l := cut[k - 1];
      assert cut[first..k] == cut[first..k - 1] + [l];
      SumOfConcat(HoldsIn(y, p), cut[first..k - 1], [l]);
      if l.Covers(y) && l.payload == p { held := held + {Step(k - 1, y)}; }
    }
  }

  lemma {:induction false} NotHeld(s: seq<Rule>, y: int, p: Payload)
    requires forall r :: r in s ==> r.payload != p
    ensures Count(s, y, p) == 0
  {
    if s != [] {
      assert s[0] in s;
      NotHeld(s[1..], y, p);
    }
  }

  lemma HeldInBlock(cut: seq<Rule>, first: nat, last: nat, y: int, p: Payload)
    requires first <= last <= |cut|
    requires forall i :: 0 <= i < |cut| && cut[i].payload == p ==> first <= i < last
    ensures Count(cut, y, p) == Count(cut[first..last], y, p)
  {
    assert cut == cut[..first] + (cut[first..last] + cut[last..]);
    SumOfConcat(HoldsIn(y, p), cut[..first], cut[first..last] + cut[last..]);
    SumOfConcat(HoldsIn(y, p), cut[first..last], cut[last..]);
    NotHeld(cut[..first], y, p);
    NotHeld(cut[last..], y, p);
  }

  lemma CanonicalKeepsYears(cut: seq<Rule>, rules: seq<Rule>, i: nat)
    requires CanonicalOf(cut, rules) && YearsFit(cut) && i < |cut|
    ensures rules[i].Name() == cut[i].Name() && rules[i].start == cut[i].start && rules[i].stop == cut[i].stop
  {
    Member(cut, i);
    CanonicalRuleIsValid(cut[i]);
  }

  /** The walk over the block of a name takes every payload in every year exactly as often as the table
      before the cut held it: nothing is lost, repeated or moved to another year. */
  lemma WalkTakesWhatHeld(was: seq<Rule>, cut: seq<Rule>, rules: seq<Rule>, first: nat, last: nat, w: seq<Step>,
                          y: int, p: Payload)
    requires SameMeaning(was, cut) && CanonicalOf(cut, rules) && YearsFit(cut)
    requires NameBlock(rules, first, last) && p.name == rules[first].Name()
    requires InOrder(w) && forall t: Step :: t in w <==> InWalk(rules, first, last, t)
    ensures TimesTaken(cut, w, y, p) == Count(was, y, p)
  {
    forall i | 0 <= i < |cut|
      ensures rules[i].Name() == cut[i].Name() && rules[i].start == cut[i].start && rules[i].stop == cut[i].stop
    {
      CanonicalKeepsYears(cut, rules, i);
    }
    var taken := StepsTaken(cut, w, y, p);
    var held := StepsHeld(cut, first, last, y, p);
    assert taken == held;
    HeldInBlock(cut, first, last, y, p);
    SameCounts(was, cut);
  }
}
