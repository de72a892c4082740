/** The rule vector of the database, cut in place. */
module RuleTables {
  import opened Calendar
  import opened MonthDayTimes
  import opened Rules
  import opened RuleCuts
  import opened RuleScan
  import opened RuleRounds
  import opened RuleMoments
  import opened RuleBounds

  /** t is s with r inserted at a position. */
  ghost predicate Inserted(s: seq<Rule>, at: nat, r: Rule, t: seq<Rule>) {
    && at <= |s| && |t| == |s| + 1 && t[at] == r
    && (forall j :: 0 <= j < at ==> t[j] == s[j])
    && (forall j :: at < j < |t| ==> t[j] == s[j - 1])
  }

  /** r is the vector `was` with p[0] for rule i and the other pieces for rule k. */
  ghost predicate Replaced(was: seq<Rule>, i: nat, k: nat, p: seq<Rule>, r: seq<Rule>) {
    && i < k < |was| && |p| > 0 && |r| == |was| + |p| - 2 && r[i] == p[0]
    && (forall j :: 0 <= j < k && j != i ==> r[j] == was[j])
    && (forall j :: 1 <= j < |p| ==> r[k + j - 1] == p[j])
    && (forall j :: k + |p| - 1 <= j < |r| ==> r[j] == was[j - |p| + 2])
  }

  lemma RearrangedBlock(p: seq<Rule>, q: seq<Rule>, s: seq<Rule>)
    requires |p| > 0
    ensures multiset(p[..1] + q + p[1..] + s) == multiset(p) + multiset(q + s)
  {
    assert p == p[..1] + p[1..];
  }

  lemma ReplacedBlock(was: seq<Rule>, i: nat, k: nat, e: nat, p: seq<Rule>, r: seq<Rule>)
    requires Replaced(was, i, k, p, r) && k < e <= |was| && |p| >= 2
    ensures var e' := e + |p| - 2;
            && r[..i] == was[..i] && r[e'..] == was[e..]
            && r[i..e'] == p[..1] + was[i..e][1..k - i] + p[1..] + was[i..e][k - i + 1..]
  {
    var e' := e + |p| - 2;
    var q, s := was[i..e][1..k - i], was[i..e][k - i + 1..];
    var block := p[..1] + q + p[1..] + s;
    assert |block| == e' - i;
    forall j | 0 <= j < |block|
      ensures r[i + j] == block[j]
    {
      if 0 < j < k - i {
        assert block[j] == q[j - 1] && q[j - 1] == was[i + j];
      } else if k - i <= j < k - i + |p| - 1 {
        assert block[j] == p[j - (k - i) + 1];
      } else if k - i + |p| - 1 <= j {
        assert block[j] == s[j - (k - i) - |p| + 1];
      }
    }
  }

  /** What a cut of rules i and k does to the vector whose block i..e0 now ends at e. */
  ghost predicate SplitOf(was: seq<Rule>, i: nat, k: nat, e0: nat, p: seq<Rule>, r: seq<Rule>, e: nat)
    requires i < k < e0 <= |was|
  {
    && e0 < e <= |r| && r[..i] == was[..i] && r[e..] == was[e0..]
    && SplitStep(was[i..e0], k - i, p, r[i..e])
  }

  lemma ReplacedIsSplit(was: seq<Rule>, i: nat, k: nat, e: nat, p: seq<Rule>, r: seq<Rule>)
    requires Replaced(was, i, k, p, r) && k < e <= |was| && |p| > 2 && PiecesOf(was[i], was[k], p)
    ensures SplitOf(was, i, k, e, p, r, e + |p| - 2)
  {
    ReplacedBlock(was, i, k, e, p, r);
    PiecesOfBlock(was[i..e], k - i, p, r[i..e + |p| - 2]);
  }

  lemma PiecesOfBlock(b: seq<Rule>, k: nat, p: seq<Rule>, c: seq<Rule>)
    requires 1 <= k < |b| && |p| > 0 && PiecesOf(b[0], b[k], p) && c == p[..1] + b[1..k] + p[1..] + b[k + 1..]
    ensures SplitStep(b, k, p, c)
  {
    RearrangedBlock(p, b[1..k], b[k + 1..]);
  }

  // The three cases of a rule k that starts after rule i: it ends before it, after it, or with it.

  lemma LaterInside(was: seq<Rule>, i: nat, k: nat, mid: seq<Rule>, mid2: seq<Rule>, now: seq<Rule>)
    returns (p: seq<Rule>)
    requires i < k < |was| && was[i].start < was[k].start && was[k].stop < was[i].stop
    requires Inserted(was, k, was[i].(start := was[k].start, stop := was[k].stop), mid)
    requires Inserted(mid, k + 2, was[i].(start := was[k].stop + 1), mid2)
    requires now == mid2[i := mid2[i].(stop := was[k].start - 1)]
    ensures PiecesOf(was[i], was[k], p) && Replaced(was, i, k, p, now) && |p| == 4
  {
    var x, y := was[i], was[k];
    p := [UpTo(x, y.start), UpTo(Since(x, y.start), y.stop + 1), y, Since(x, y.stop + 1)];
  }

  lemma LaterBeyond(was: seq<Rule>, i: nat, k: nat, mid: seq<Rule>, mid2: seq<Rule>, now: seq<Rule>)
    returns (p: seq<Rule>)
    requires i < k < |was| && was[i].start < was[k].start && was[i].stop < was[k].stop
    requires Inserted(was, k, was[i].(start := was[k].start), mid)
    requires Inserted(mid, k + 2, was[k].(start := was[i].stop + 1), mid2)
    requires now == mid2[k + 1 := mid2[k + 1].(stop := was[i].stop)][i := mid2[i].(stop := was[k].start - 1)]
    ensures PiecesOf(was[i], was[k], p) && Replaced(was, i, k, p, now) && |p| == 4
  {
    var x, y := was[i], was[k];
    p := [UpTo(x, y.start), Since(x, y.start), UpTo(y, x.stop + 1), Since(y, x.stop + 1)];
  }

  lemma LaterAlike(was: seq<Rule>, i: nat, k: nat, mid: seq<Rule>, now: seq<Rule>) returns (p: seq<Rule>)
    requires i < k < |was| && was[i].start < was[k].start && was[i].stop == was[k].stop
    requires Inserted(was, k, was[i].(start := was[k].start), mid)
    requires now == mid[i := mid[i].(stop := was[k].start - 1)]
    ensures PiecesOf(was[i], was[k], p) && Replaced(was, i, k, p, now) && |p| == 3
  {
    var x, y := was[i], was[k];
    p := [UpTo(x, y.start), Since(x, y.start), y];
  }

  class RuleTable {
    var rules: seq<Rule>

    method Insert(at: nat, r: Rule)
      requires at <= |rules|
      modifies this
      ensures Inserted(old(rules), at, r, rules)
    {
      rules := rules[..at] + [r] + rules[at..];
    }

    method SetEndingYear(at: nat, stop: int)
      requires at < |rules|
      modifies this
      ensures rules == old(rules)[at := old(rules)[at].(stop := stop)]
    {
      rules := rules[at := rules[at].(stop := stop)];
    }

    /** std::sort of positions i..e. */
    method Sort(i: nat, e: nat)
      requires i <= e <= |rules|
      modifies this
      ensures |rules| == |old(rules)| && rules[..i] == old(rules)[..i] && rules[e..] == old(rules)[e..]
      ensures multiset(rules[i..e]) == multiset(old(rules)[i..e]) && Sorted(rules[i..e])
    {
      var s := SortRules(rules[i..e]);
      assert |multiset(s)| == |multiset(rules[i..e])|;
      rules := rules[..i] + s + rules[e..];
      assert rules[i..e] == s;
    }

    /** Cuts rules i and k against each other.  e is the end of their block. */
    method Split(i: nat, k: nat, e0: nat) returns (e: nat, ghost p: seq<Rule>)
      requires i < k < e0 <= |rules|
      requires rules[i].start <= rules[k].start <= rules[k].stop && Overlaps(rules[i], rules[k])
      modifies this
      ensures PiecesOf(old(rules)[i], old(rules)[k], p) && e == e0 + |p| - 2
      ensures Replaced(old(rules), i, k, p, rules)
    {
      if rules[i].start == rules[k].start {
        e, p := SplitSameStart(i, k, e0);
      } else {
        e, p := SplitLaterStart(i, k, e0);
      }
    }

    /** The branch for two rules that start in the same year. */
    method SplitSameStart(i: nat, k: nat, e0: nat) returns (e: nat, ghost p: seq<Rule>)
      requires i < k < e0 <= |rules|
      requires rules[i].start == rules[k].start <= rules[k].stop && Overlaps(rules[i], rules[k])
      modifies this
      ensures PiecesOf(old(rules)[i], old(rules)[k], p) && e == e0 + |p| - 2
      ensures Replaced(old(rules), i, k, p, rules)
    {
      e := e0;
      ghost var x, y := rules[i], rules[k];
      if rules[k].stop < rules[i].stop {
        Insert(k + 1, rules[i].(start := rules[k].stop + 1));
        e := e + 1;
        SetEndingYear(i, rules[k].stop);
        p := [UpTo(x, y.stop + 1), y, Since(x, y.stop + 1)];
      } else {
        Insert(k + 1, rules[k].(start := rules[i].stop + 1));
        e := e + 1;
        SetEndingYear(k, rules[i].stop);
        p := [x, UpTo(y, x.stop + 1), Since(y, x.stop + 1)];
      }
    }

    /** The branch for a second rule that starts later. */
    method SplitLaterStart(i: nat, k0: nat, e0: nat) returns (e: nat, ghost p: seq<Rule>)
      requires i < k0 < e0 <= |rules|
      requires rules[i].start < rules[k0].start <= rules[k0].stop && Overlaps(rules[i], rules[k0])
      modifies this
      ensures PiecesOf(old(rules)[i], old(rules)[k0], p) && e == e0 + |p| - 2
      ensures Replaced(old(rules), i, k0, p, rules)
    {
      var k := k0;
      e := e0;
      ghost var was := rules;
      if rules[k].stop < rules[i].stop {
        Insert(k, rules[i].(start := rules[k].start, stop := rules[k].stop));
        ghost var mid := rules;
        k := k + 1;
        Insert(k + 1, rules[i].(start := rules[k].stop + 1));
        ghost var mid2 := rules;
        SetEndingYear(i, rules[k].start - 1);
        e := e + 2;
        p := LaterInside(was, i, k0, mid, mid2, rules);
      } else if rules[k].stop > rules[i].stop {
        Insert(k, rules[i].(start := rules[k].start));
        ghost var mid := rules;
        k := k + 1;
        Insert(k + 1, rules[k].(start := rules[i].stop + 1));
        ghost var mid2 := rules;
        e := e + 2;
        SetEndingYear(k, rules[i].stop);
        SetEndingYear(i, rules[k].start - 1);
        p := LaterBeyond(was, i, k0, mid, mid2, rules);
      } else {
        Insert(k, rules[i].(start := rules[k].start));
        ghost var mid := rules;
        k := k + 1;
        e := e + 1;
        SetEndingYear(i, rules[k].start - 1);
        p := LaterAlike(was, i, k0, mid, rules);
      }
    }

    /** Cuts every block of rules of one name.  `cut` is the result before canonicalizing. */
    method SplitOverlaps() returns (ghost cut: seq<Rule>)
      requires Sorted(rules) && AllValid(rules) && YearsFit(rules)
      modifies this
      ensures CanonicalOf(cut, rules) && AllValid(cut) && YearsFit(cut)
      ensures WellCut(cut) && Sorted(cut) && SameMeaning(old(rules), cut) && SameNamedBounds(old(rules), cut)
      ensures AllUndivided(old(rules), cut)
      ensures SameMoments(old(rules), rules) <==> forall r, y :: !WillLeave(old(rules), r, y)
    {
      ghost var was := rules;
      ghost var n := 0;
      cut := [];
      var i := 0;
      while i < |rules|
        invariant 0 <= n <= |was| && InProgress(was, n, cut, rules, i)
        decreases |rules| - i
      {
        ghost var r := rules;
        TailIsBlock(was, n);
        var e := UpperBound(i);
        ghost var n' := NextBlock(was, n, cut, r, i, e);
        ghost var c;
        e, c := SplitBlock(i, e, was[n..n'], was[n].Name());
        InProgressNext(was, n, n', cut, c, r, i, rules, e);
        cut, n, i := cut + c, n', e;
      }
      assert rules[..i] == rules && was[..n] == was;
      WellCutIsSorted(cut);
      CutAtNamedBounds(was, cut);
      SplitKeepsMoments(was, cut, rules);
    }

    /** std::upper_bound by name: the end of the block that starts at i. */
    method UpperBound(i: nat) returns (e: nat)
      requires i < |rules| && Sorted(rules[i..])
      ensures i < e <= |rules| && OneName(rules[i..e], rules[i].Name())
      ensures e < |rules| ==> StringLess(rules[i].Name(), rules[e].Name())
    {
      e := i + 1;
      while e < |rules| && !StringLess(rules[i].Name(), rules[e].Name())
        invariant i < e <= |rules|
        invariant forall j :: i <= j < e ==> rules[j].Name() == rules[i].Name()
      {
        assert NotAfter(rules[i..][0], rules[i..][e - i]);
        NotAfterByNameThenKey(rules[i], rules[e]);
        e := e + 1;
      }
    }

    /** Cuts the block i0..e0 and gives its single-year rules fixed days. */
    method SplitBlock(i0: nat, e0: nat, ghost b: seq<Rule>, ghost name: string) returns (e: nat, ghost cut: seq<Rule>)
      requires i0 <= e0 <= |rules| && b == rules[i0..e0]
      requires IsBlock(b, name, MIN_YEAR, MAX_YEAR) && Sorted(b)
      modifies this
      ensures i0 <= e <= |rules| && rules[..i0] == old(rules)[..i0] && rules[e..] == old(rules)[e0..]
      ensures CanonicalOf(cut, rules[i0..e]) && IsBlock(cut, name, MIN_YEAR, MAX_YEAR)
      ensures Partitioned(cut) && Sorted(cut) && SameMeaning(b, cut) && SameBounds(b, cut)
      ensures forall r :: r in cut ==> Undivided(b, r)
    {
      e := CutBlock(i0, e0, b, name, MIN_YEAR, MAX_YEAR);
      cut := rules[i0..e];
      CanonicalizeBlock(i0, e);
    }

    /** Gives the single-year rules of positions i0..e fixed days. */
    method CanonicalizeBlock(i0: nat, e: nat)
      requires i0 <= e <= |rules| && AllValid(rules[i0..e])
      modifies this
      ensures |rules| == |old(rules)| && rules[..i0] == old(rules)[..i0] && rules[e..] == old(rules)[e..]
      ensures CanonicalOf(old(rules)[i0..e], rules[i0..e])
    {
      ghost var was := rules;
      var j := i0;
      while j < e
        invariant i0 <= j <= e && CanonicalUpTo(was, rules, i0, j)
      {
        ghost var mid := rules;
        assert was[j].Valid() by { Member(was[i0..e], j - i0); }
        if rules[j].start == rules[j].stop {
          var p := rules[j].payload;
          rules := rules[j := rules[j].(payload := p.(at := p.at.(day := Canonical(p.at.day, rules[j].start))))];
        }
        CanonicalNext(was, mid, rules, i0, j);
        j := j + 1;
      }
      CanonicalSlices(was, rules, i0, e);
    }

    /** The double loop over the block i0..e0.  It ends although e grows: the rules of the block
        are never more than the years they covered at the start. */
    method CutBlock(i0: nat, e0: nat, ghost b: seq<Rule>, ghost name: string, ghost lo: int, ghost hi: int)
      returns (e: nat)
      requires i0 <= e0 <= |rules| && b == rules[i0..e0]
      requires IsBlock(b, name, lo, hi) && Sorted(b)
      modifies this
      ensures i0 <= e <= |rules| && rules[..i0] == old(rules)[..i0] && rules[e..] == old(rules)[e0..]
      ensures IsBlock(rules[i0..e], name, lo, hi) && Sorted(rules[i0..e])
      ensures Partitioned(rules[i0..e]) && SameMeaning(b, rules[i0..e]) && SameBounds(b, rules[i0..e])
      ensures forall r :: r in rules[i0..e] ==> Undivided(b, r)
    {
      var i := i0;
      e := e0;
      ghost var pre, done, rest, post := rules[..i0], [], b, rules[e0..];
      RoundsStart(b, name, lo, hi);
      while i + 1 < e
        invariant Parts(rules, i0, i, e, pre, done, rest, post)
        invariant Rounds(b, done, rest, name, lo, hi)
        decreases i0 + TotalYears(b) - i
      {
        ghost var s, m;
        e, rest, s, m := CutFirst(i, e, b, name, lo, hi, i0, pre, done, rest, post);
        RoundsNext(b, done, rest, name, lo, hi, s, m);
        PartsNext(rules, i0, i, e, pre, done, rest, post);
        i := i + 1;
        done, rest := done + [rest[0]], rest[1..];
      }
      PartsEnd(rules, i0, i, e, pre, done, rest, post);
      RoundsEnd(b, done, rest, name, lo, hi, rules[i0..e]);
      CutAtBounds(b, rules[i0..e]);
    }

    /** The inner loop: rule i against all that follow it in the block. */
    method CutFirst(i: nat, e0: nat, ghost b: seq<Rule>, ghost name: string, ghost lo: int, ghost hi: int,
                    ghost i0: nat, ghost pre: seq<Rule>, ghost done: seq<Rule>, ghost rest0: seq<Rule>,
                    ghost post: seq<Rule>)
      returns (e: nat, ghost rest: seq<Rule>, ghost s: int, ghost m: int)
      requires i + 1 < e0 && Parts(rules, i0, i, e0, pre, done, rest0, post)
      requires Rounds(b, done, rest0, name, lo, hi)
      modifies this
      ensures e0 <= e && Parts(rules, i0, i, e, pre, done, rest, post)
      ensures Rounds(b, done, rest, name, lo, hi) && Scanning(rest, |rest|, s, m)
    {
      e, rest := e0, rest0;
      m := ScanStart(rest);
      s := rest[0].start;
      var k := i + 1;
      ghost var n := 1;
      while k < e
        invariant k == i + n <= e && e0 <= e && Parts(rules, i0, i, e, pre, done, rest, post)
        invariant Rounds(b, done, rest, name, lo, hi) && Scanning(rest, n, s, m)
        decreases i0 + TotalYears(b) - e, e - k
      {
        e, rest := CutPair(i, k, e, n, b, name, lo, hi, i0, pre, done, rest, post, s, m);
        k, n := k + 1, n + 1;
      }
    }

    /** The body of the inner loop: rules i and k are cut when they overlap. */
    method CutPair(i: nat, k: nat, e0: nat, ghost n: nat,
                   ghost b: seq<Rule>, ghost name: string, ghost lo: int, ghost hi: int,
                   ghost i0: nat, ghost pre: seq<Rule>, ghost done: seq<Rule>, ghost rest0: seq<Rule>,
                   ghost post: seq<Rule>, ghost s: int, ghost m: int)
      returns (e: nat, ghost rest: seq<Rule>)
      requires i < k == i + n < e0 && Parts(rules, i0, i, e0, pre, done, rest0, post)
      requires Rounds(b, done, rest0, name, lo, hi) && Scanning(rest0, n, s, m)
      modifies this
      ensures e0 <= e && Parts(rules, i0, i, e, pre, done, rest, post)
      ensures Rounds(b, done, rest, name, lo, hi) && Scanning(rest, n + 1, s, m)
      ensures e == e0 || e0 < e <= i0 + TotalYears(b)
    {
      e, rest := e0, rest0;
      PartsAt(rules, i0, i, e, pre, done, rest, post, n);
      assert Overlaps(rules[i], rules[k]) ==> Cuttable(rest, n) by {
        RoundsPair(b, done, rest, name, lo, hi, n, s, m);
      }
      if Overlaps(rules[i], rules[k]) {
        ghost var p;
        e, p, rest := CutAndSort(i, k, e, n, i0, pre, done, rest, post);
        RoundsStep(b, done, rest0, name, lo, hi, n, p, rest, s, m);
      } else {
        RoundsPair(b, done, rest, name, lo, hi, n, s, m);
      }
    }

    /** Cuts rules i and k, in terms of their block. */
    method SplitInBlock(i: nat, k: nat, e0: nat) returns (e: nat, ghost p: seq<Rule>)
      requires i < k < e0 <= |rules|
      requires rules[i].start <= rules[k].start <= rules[k].stop && Overlaps(rules[i], rules[k])
      modifies this
      ensures SplitOf(old(rules), i, k, e0, p, rules, e)
    {
      ghost var was := rules;
      e, p := Split(i, k, e0);
      assert |p| > 2;
      ReplacedIsSplit(was, i, k, e0, p, rules);
    }

    /** The body of the inner loop when rules i and k overlap. */
    method CutAndSort(i: nat, k: nat, e0: nat, ghost n: nat,
                      ghost i0: nat, ghost pre: seq<Rule>, ghost done: seq<Rule>, ghost rest: seq<Rule>,
                      ghost post: seq<Rule>)
      returns (e: nat, ghost p: seq<Rule>, ghost c: seq<Rule>)
      requires i < k == i + n < e0 && Parts(rules, i0, i, e0, pre, done, rest, post)
      requires Cuttable(rest, n)
      modifies this
      ensures e0 < e && Parts(rules, i0, i, e, pre, done, c, post)
      ensures SplitStep(rest, n, p, c) && Sorted(c)
    {
      ghost var was := rules;
      PartsAt(rules, i0, i, e0, pre, done, rest, post, n);
      e, p := SplitInBlock(i, k, e0);
      ghost var t := rules;
      Sort(i, e);
      c := rules[i..e];
      PartsAfterSort(was, t, rules, n, p, i0, i, k, e0, e, pre, done, rest, post);
    }
  }

  /** The rules of positions i0..j are canonical, all others as they were. */
  ghost predicate CanonicalUpTo(was: seq<Rule>, now: seq<Rule>, i0: nat, j: nat) {
    && |now| == |was| && i0 <= j <= |was|
    && (forall q :: 0 <= q < |was| && !(i0 <= q < j) ==> now[q] == was[q])
    && (forall q :: i0 <= q < j ==> was[q].Valid() && now[q] == CanonicalRule(was[q]))
  }

  lemma CanonicalNext(was: seq<Rule>, mid: seq<Rule>, now: seq<Rule>, i0: nat, j: nat)
    requires CanonicalUpTo(was, mid, i0, j) && j < |was| && was[j].Valid()
    requires now == if was[j].start == was[j].stop then mid[j := CanonicalRule(was[j])] else mid
    ensures CanonicalUpTo(was, now, i0, j + 1)
  {
  }

  lemma CanonicalSlices(was: seq<Rule>, now: seq<Rule>, i0: nat, e: nat)
    requires CanonicalUpTo(was, now, i0, e) && AllValid(was[i0..e])
    ensures now[..i0] == was[..i0] && now[e..] == was[e..] && CanonicalOf(was[i0..e], now[i0..e])
  {
  }

  /** The table r while its blocks are cut: `was` up to n has become `cut`, which stands up to i. */
  ghost predicate InProgress(was: seq<Rule>, n: nat, cut: seq<Rule>, r: seq<Rule>, i: nat) {
    && Finished(was, n, cut) && i == |cut| <= |r|
    && CanonicalOf(cut, r[..i]) && r[i..] == was[n..]
  }

  lemma NextBlock(was: seq<Rule>, n: nat, cut: seq<Rule>, r: seq<Rule>, i: nat, e: nat) returns (n': nat)
    requires InProgress(was, n, cut, r, i) && i < e <= |r| && OneName(r[i..e], r[i].Name())
    requires e < |r| ==> StringLess(r[i].Name(), r[e].Name())
    ensures n < n' <= |was| && r[i..e] == was[n..n'] && r[e..] == was[n'..]
    ensures IsBlock(was[n..n'], was[n].Name(), MIN_YEAR, MAX_YEAR) && Sorted(was[n..n'])
    ensures n' < |was| ==> StringLess(was[n].Name(), was[n'].Name())
  {
    n' := n + (e - i);
    assert r[i..e] == r[i..][..e - i] && r[e..] == r[i..][e - i..];
    assert r[i] == r[i..][0];
    assert e < |r| ==> r[e] == r[e..][0];
    FirstBlock(was, n, n');
  }

  lemma InProgressNext(was: seq<Rule>, n: nat, n': nat, cut: seq<Rule>, c: seq<Rule>,
                       r: seq<Rule>, i: nat, r': seq<Rule>, e: nat)
    requires InProgress(was, n, cut, r, i) && n < n' <= |was|
    requires OneName(was[n..n'], was[n].Name()) && IsBlock(c, was[n].Name(), MIN_YEAR, MAX_YEAR) && Partitioned(c)
    requires SameMeaning(was[n..n'], c) && SameBounds(was[n..n'], c)
    requires n' < |was| ==> StringLess(was[n].Name(), was[n'].Name())
    requires i <= e <= |r'| && r'[..i] == r[..i] && CanonicalOf(c, r'[i..e]) && r'[e..] == was[n'..]
    ensures InProgress(was, n', cut + c, r', e)
  {
    FinishedNext(was, n, n', cut, was[n..n'], c, was[n].Name());
    CanonicalOfConcat(cut, r[..i], c, r'[i..e]);
    assert r'[..e] == r[..i] + r'[i..e];
  }

  lemma PartsAt(rules: seq<Rule>, i0: nat, i: nat, e: nat, pre: seq<Rule>, done: seq<Rule>, rest: seq<Rule>,
                post: seq<Rule>, n: nat)
    requires Parts(rules, i0, i, e, pre, done, rest, post) && i + n < e
    ensures |rest| == e - i && rest[0] == rules[i] && rest[n] == rules[i + n] && |done| == i - i0
  {
  }

  lemma PartsNext(rules: seq<Rule>, i0: nat, i: nat, e: nat, pre: seq<Rule>, done: seq<Rule>, rest: seq<Rule>,
                  post: seq<Rule>)
    requires Parts(rules, i0, i, e, pre, done, rest, post) && i < e
    ensures |rest| == e - i && |done| == i - i0
    ensures Parts(rules, i0, i + 1, e, pre, done + [rest[0]], rest[1..], post)
  {
    assert rules[i0..i + 1] == rules[i0..i] + [rules[i]];
  }

  lemma PartsEnd(rules: seq<Rule>, i0: nat, i: nat, e: nat, pre: seq<Rule>, done: seq<Rule>, rest: seq<Rule>,
                 post: seq<Rule>)
    requires Parts(rules, i0, i, e, pre, done, rest, post)
    ensures rules[i0..e] == done + rest && |rest| == e - i
  {
  }

  /** The parts after a cut has given t and a sort of its block r. */
  lemma PartsAfterSort(was: seq<Rule>, t: seq<Rule>, r: seq<Rule>, n: nat, p: seq<Rule>,
                       i0: nat, i: nat, k: nat, e0: nat, e: nat,
                       pre: seq<Rule>, done: seq<Rule>, rest: seq<Rule>, post: seq<Rule>)
    requires Parts(was, i0, i, e0, pre, done, rest, post)
    requires i < k == i + n < e0 && SplitOf(was, i, k, e0, p, t, e)
    requires |r| == |t| && r[..i] == t[..i] && r[e..] == t[e..] && multiset(r[i..e]) == multiset(t[i..e])
    ensures Parts(r, i0, i, e, pre, done, r[i..e], post) && SplitStep(rest, n, p, r[i..e])
  {
    assert r[..i][..i0] == was[..i][..i0] && r[..i][i0..] == was[..i][i0..];
  }

  /** The vector around the rules done with and those still to be cut. */
  ghost predicate Parts(rules: seq<Rule>, i0: nat, i: nat, e: nat,
                        pre: seq<Rule>, done: seq<Rule>, rest: seq<Rule>, post: seq<Rule>) {
    && i0 <= i <= e <= |rules|
    && rules[..i0] == pre && rules[i0..i] == done && rules[i..e] == rest && rules[e..] == post
  }
}
