/** What holds of a block of rules between two rounds of split_overlaps. */
module RuleRounds {
  import opened Rules
  import opened RuleCuts
  import opened RuleScan
  import opened RuleMoments
  import opened Calendar

  ghost predicate OneName(b: seq<Rule>, name: string) {
    forall r :: r in b ==> r.Name() == name
  }

  ghost predicate Within(b: seq<Rule>, lo: int, hi: int) {
    forall r :: r in b ==> lo <= r.start && r.stop <= hi
  }

  /** A block of rules as the database holds it: one name, no empty rule, years between lo and hi. */
  ghost predicate IsBlock(b: seq<Rule>, name: string, lo: int, hi: int) {
    AllValid(b) && OneName(b, name) && Within(b, lo, hi)
  }

  /** The rules of `done` are final; `rest` is still to be cut. */
  ghost predicate BetweenRounds(b: seq<Rule>, done: seq<Rule>, rest: seq<Rule>) {
    && SameMeaning(b, done + rest) && SameBounds(b, done + rest)
    && Partitioned(done)
    && (forall x :: x in done ==> Settled(x, rest))
  }

  lemma SortedByKey(b: seq<Rule>, name: string)
    requires OneName(b, name)
    ensures Sorted(b) <==> KeySorted(b)
  {
    forall i, j | 0 <= i < j < |b|
      ensures NotAfter(b[i], b[j]) <==> KeyNotAfter(b[i], b[j])
    {
      Member(b, i);
      Member(b, j);
      NotAfterByNameThenKey(b[i], b[j]);
    }
    if Sorted(b) {
      assert forall i, j :: 0 <= i < j < |b| ==> NotAfter(b[i], b[j]);
    }
  }

  lemma MeaningOfConcat(a: seq<Rule>, b: seq<Rule>, c: seq<Rule>, d: seq<Rule>)
    requires SameMeaning(a, b + c) && SameMeaning(c, d)
    ensures SameMeaning(a, b + d)
  {
    forall f: Rule -> int | Additive(f)
      ensures Sum(f, a) == Sum(f, b + d)
    {
      SumOfConcat(f, b, c);
      SumOfConcat(f, b, d);
    }
  }

  lemma BoundsOfConcats(a: seq<Rule>, b: seq<Rule>, c: seq<Rule>, d: seq<Rule>)
    requires SameBounds(a, b + c) && SameBounds(c, d)
    ensures SameBounds(a, b + d)
  {
    forall y: int
      ensures Bound(a, y) <==> Bound(b + d, y)
    {
      BoundsOfConcat(b, c, y);
      BoundsOfConcat(b, d, y);
    }
  }

  lemma BlockAfterSplit(b: seq<Rule>, k: nat, p: seq<Rule>, c: seq<Rule>, name: string, lo: int, hi: int)
    requires IsBlock(b, name, lo, hi) && Cuttable(b, k) && SplitStep(b, k, p, c)
    ensures IsBlock(c, name, lo, hi)
  {
    forall r | r in c
      ensures r.Valid() && r.Name() == name && lo <= r.start && r.stop <= hi
    {
      SplitMembers(b, k, p, c, r);
      Member(b, 0);
      Member(b, k);
      if r in p { PieceBounds(b[0], b[k], p, r); }
    }
  }

  /** One cut and sort. */
  lemma StepKeeps(b: seq<Rule>, done: seq<Rule>, rest: seq<Rule>, k: nat, p: seq<Rule>, rest': seq<Rule>)
    requires BetweenRounds(b, done, rest) && Cuttable(rest, k) && SplitStep(rest, k, p, rest')
    ensures BetweenRounds(b, done, rest')
  {
    SplitKeepsMeaning(rest, k, p, rest');
    MeaningOfConcat(b, done, rest, rest');
    BoundsAfterSplit(rest, k, p, rest');
    BoundsOfConcats(b, done, rest, rest');
    forall x | x in done
      ensures Settled(x, rest')
    {
      SettledAfterSplit(x, rest, k, p, rest');
    }
  }

  /** A finished round makes the first rule of the rest final. */
  lemma RoundKeeps(b: seq<Rule>, done: seq<Rule>, rest: seq<Rule>, s: int, m: int)
    requires BetweenRounds(b, done, rest) && Scanning(rest, |rest|, s, m)
    ensures BetweenRounds(b, done + [rest[0]], rest[1..])
  {
    ScanDone(rest, s, m);
    assert done + rest == (done + [rest[0]]) + rest[1..];
    forall x | x in done
      ensures SameOrBefore(x, rest[0]) && Settled(x, rest[1..])
    {
      SettledNext(x, rest);
    }
    AppendFinal(done, rest[0]);
  }

  lemma AppendFinal(done: seq<Rule>, r: Rule)
    requires Partitioned(done) && forall x :: x in done ==> SameOrBefore(x, r)
    ensures Partitioned(done + [r])
  {
  }

  /** At the end at most one rule is left. */
  lemma LastRound(b: seq<Rule>, done: seq<Rule>, rest: seq<Rule>)
    requires BetweenRounds(b, done, rest) && |rest| <= 1
    ensures Partitioned(done + rest)
  {
    if |rest| == 1 {
      forall x | x in done
        ensures SameOrBefore(x, rest[0])
      {
        SettledNext(x, rest);
      }
      AppendFinal(done, rest[0]);
      assert rest == [rest[0]];
    }
  }

  lemma FirstRound(b: seq<Rule>)
    ensures BetweenRounds(b, [], b)
  {
    assert [] + b == b;
  }

  /** The block never has more rules than the years it covered at the start. */
  lemma BlockFits(b: seq<Rule>, done: seq<Rule>, rest: seq<Rule>, name: string, lo: int, hi: int)
    requires BetweenRounds(b, done, rest) && IsBlock(done, name, lo, hi) && IsBlock(rest, name, lo, hi)
    ensures |done| + |rest| <= TotalYears(b)
  {
    TotalYearsAtLeast(done + rest);
    SameCounts(b, done + rest);
  }

  /** The invariant of the outer loop, for the rules before and from its position. */
  ghost predicate Rounds(b: seq<Rule>, done: seq<Rule>, rest: seq<Rule>, name: string, lo: int, hi: int) {
    && IsBlock(done, name, lo, hi) && IsBlock(rest, name, lo, hi)
    && KeySorted(rest) && BetweenRounds(b, done, rest)
  }

  lemma RoundsStart(b: seq<Rule>, name: string, lo: int, hi: int)
    requires IsBlock(b, name, lo, hi) && Sorted(b)
    ensures Rounds(b, [], b, name, lo, hi)
  {
    SortedByKey(b, name);
    FirstRound(b);
  }

  lemma RoundsStep(b: seq<Rule>, done: seq<Rule>, rest: seq<Rule>, name: string, lo: int, hi: int,
                   k: nat, p: seq<Rule>, c: seq<Rule>, s: int, m: int)
    requires Rounds(b, done, rest, name, lo, hi) && Scanning(rest, k, s, m)
    requires Cuttable(rest, k) && SplitStep(rest, k, p, c) && Sorted(c) && |rest| < |c|
    ensures Rounds(b, done, c, name, lo, hi) && Scanning(c, k + 1, s, m)
    ensures |done| + |c| <= TotalYears(b)
  {
    BlockAfterSplit(rest, k, p, c, name, lo, hi);
    SortedByKey(c, name);
    StepKeeps(b, done, rest, k, p, c);
    if rest[0].start == rest[k].start {
      ScanSplitSame(rest, k, p, c, s, m);
    } else {
      ScanSplitLater(rest, k, p, c, s, m);
    }
    BlockFits(b, done, c, name, lo, hi);
  }

  /** What the inner loop meets: the first rule of the block starts no later than any other. */
  lemma RoundsPair(b: seq<Rule>, done: seq<Rule>, rest: seq<Rule>, name: string, lo: int, hi: int,
                   k: nat, s: int, m: int)
    requires Rounds(b, done, rest, name, lo, hi) && Scanning(rest, k, s, m) && k < |rest|
    ensures rest[0].start <= rest[k].start <= rest[k].stop
    ensures Overlaps(rest[0], rest[k]) ==> Cuttable(rest, k)
    ensures !Overlaps(rest[0], rest[k]) ==> Scanning(rest, k + 1, s, m)
  {
    Member(rest, k);
    assert KeyNotAfter(rest[0], rest[k]);
    if !Overlaps(rest[0], rest[k]) { ScanPass(rest, k, s, m); }
  }

  lemma RoundsNext(b: seq<Rule>, done: seq<Rule>, rest: seq<Rule>, name: string, lo: int, hi: int, s: int, m: int)
    requires Rounds(b, done, rest, name, lo, hi) && Scanning(rest, |rest|, s, m)
    ensures Rounds(b, done + [rest[0]], rest[1..], name, lo, hi)
    ensures |done| + |rest| <= TotalYears(b)
  {
    BlockFits(b, done, rest, name, lo, hi);
    RoundKeeps(b, done, rest, s, m);
    Member(rest, 0);
  }

  lemma RoundsEnd(b: seq<Rule>, done: seq<Rule>, rest: seq<Rule>, name: string, lo: int, hi: int, c: seq<Rule>)
    requires Rounds(b, done, rest, name, lo, hi) && |rest| <= 1 && c == done + rest
    ensures IsBlock(c, name, lo, hi) && Partitioned(c) && Sorted(c) && SameMeaning(b, c) && SameBounds(b, c)
  {
    LastRound(b, done, rest);
    PartitionedIsSorted(c);
    SortedByKey(c, name);
  }

  // ---- The whole table ----

  /** Rules stand by name; those of one name have equal or disjoint years. */
  ghost predicate WellCut(s: seq<Rule>) {
    forall i, j :: 0 <= i < j < |s| ==>
      StringLess(s[i].Name(), s[j].Name()) || (s[i].Name() == s[j].Name() && SameOrBefore(s[i], s[j]))
  }

  lemma WellCutIsSorted(s: seq<Rule>)
    requires WellCut(s) && AllValid(s)
    ensures Sorted(s)
  {
    forall i, j | 0 <= i < j < |s|
      ensures NotAfter(s[i], s[j])
    {
      Member(s, i);
      Member(s, j);
      NotAfterByNameThenKey(s[i], s[j]);
      StringLessTotal(s[i].Name(), s[j].Name());
    }
  }

  /** A rule of this name begins in year y, or ends just before it. */
  ghost predicate NamedBound(s: seq<Rule>, name: string, y: int) {
    exists r :: r in s && r.Name() == name && Touches(r, y)
  }

  ghost predicate SameNamedBounds(s: seq<Rule>, t: seq<Rule>) {
    forall name: string, y: int :: NamedBound(s, name, y) <==> NamedBound(t, name, y)
  }

  lemma BoundsOfBlock(b: seq<Rule>, name: string, n: string, y: int)
    requires OneName(b, name)
    ensures NamedBound(b, n, y) <==> n == name && Bound(b, y)
  {
  }

  lemma NamedBoundsOfConcat(a: seq<Rule>, b: seq<Rule>, n: string, y: int)
    ensures NamedBound(a + b, n, y) <==> NamedBound(a, n, y) || NamedBound(b, n, y)
  {
    if NamedBound(a, n, y) {
      var r :| r in a && r.Name() == n && Touches(r, y);
      assert r in a + b;
    } else if NamedBound(b, n, y) {
      var r :| r in b && r.Name() == n && Touches(r, y);
      assert r in a + b;
    }
  }

  lemma SameNamedBoundsNext(a: seq<Rule>, cut: seq<Rule>, block: seq<Rule>, c: seq<Rule>, name: string)
    requires SameNamedBounds(a, cut) && OneName(block, name) && OneName(c, name) && SameBounds(block, c)
    ensures SameNamedBounds(a + block, cut + c)
  {
    forall n: string, y: int
      ensures NamedBound(a + block, n, y) <==> NamedBound(cut + c, n, y)
    {
      NamedBoundsOfConcat(a, block, n, y);
      NamedBoundsOfConcat(cut, c, n, y);
      BoundsOfBlock(block, name, n, y);
      BoundsOfBlock(c, name, n, y);
    }
  }

  /** The blocks before position n of the table have become `cut`. */
  ghost predicate Finished(was: seq<Rule>, n: nat, cut: seq<Rule>) {
    && n <= |was| && Sorted(was) && AllValid(was) && YearsFit(was)
    && AllValid(cut) && YearsFit(cut) && WellCut(cut) && SameMeaning(was[..n], cut) && SameNamedBounds(was[..n], cut)
    && (forall r, q :: r in cut && q in was[n..] ==> StringLess(r.Name(), q.Name()))
  }

  lemma TailIsBlock(was: seq<Rule>, n: nat)
    requires n <= |was| && Sorted(was)
    ensures Sorted(was[n..])
  {
  }

  /** The rules of the first name behind n. */
  lemma FirstBlock(was: seq<Rule>, n: nat, n': nat)
    requires n < n' <= |was| && Sorted(was) && AllValid(was) && YearsFit(was)
    requires OneName(was[n..n'], was[n].Name())
    ensures IsBlock(was[n..n'], was[n].Name(), MIN_YEAR, MAX_YEAR) && Sorted(was[n..n'])
  {
    forall r | r in was[n..n']
      ensures r in was
    {
    }
  }

  lemma BehindBlock(was: seq<Rule>, n': nat, name: string, q: Rule)
    requires n' < |was| && Sorted(was) && StringLess(name, was[n'].Name()) && q in was[n'..]
    ensures StringLess(name, q.Name())
  {
    var j :| n' <= j < |was| && was[j] == q;
    if n' < j {
      NotAfterByNameThenKey(was[n'], was[j]);
      if was[n'].Name() != q.Name() {
        StringLessTransitive(name, was[n'].Name(), q.Name());
      }
    }
  }

  lemma SameMeaningOfConcats(a: seq<Rule>, b: seq<Rule>, c: seq<Rule>, d: seq<Rule>)
    requires SameMeaning(a, b) && SameMeaning(c, d)
    ensures SameMeaning(a + c, b + d)
  {
    forall f: Rule -> int | Additive(f)
      ensures Sum(f, a + c) == Sum(f, b + d)
    {
      SumOfConcat(f, a, c);
      SumOfConcat(f, b, d);
    }
  }

  lemma FinishedNext(was: seq<Rule>, n: nat, n': nat, cut: seq<Rule>, block: seq<Rule>, c: seq<Rule>, name: string)
    requires Finished(was, n, cut) && n < n' <= |was| && name == was[n].Name() && block == was[n..n']
    requires OneName(block, name) && IsBlock(c, name, MIN_YEAR, MAX_YEAR) && Partitioned(c)
    requires SameMeaning(block, c) && SameBounds(block, c)
    requires n' < |was| ==> StringLess(name, was[n'].Name())
    ensures Finished(was, n', cut + c)
  {
    assert was[..n'] == was[..n] + was[n..n'];
    SameMeaningOfConcats(was[..n], cut, block, c);
    SameNamedBoundsNext(was[..n], cut, block, c, name);
    forall r, q | r in cut + c && q in was[n'..]
      ensures StringLess(r.Name(), q.Name())
    {
      if r in cut {
        assert q in was[n..];
      } else {
        BehindBlock(was, n', name, q);
      }
    }
    forall i, j | 0 <= i < j < |cut + c|
      ensures StringLess((cut + c)[i].Name(), (cut + c)[j].Name())
           || ((cut + c)[i].Name() == (cut + c)[j].Name() && SameOrBefore((cut + c)[i], (cut + c)[j]))
    {
      if |cut| <= i {
        Member(c, i - |cut|);
        Member(c, j - |cut|);
        assert SameOrBefore(c[i - |cut|], c[j - |cut|]);
      } else if |cut| <= j {
        Member(cut, i);
        Member(c, j - |cut|);
        assert was[n] in was[n..] && StringLess(cut[i].Name(), was[n].Name());
      }
    }
  }

  lemma CanonicalOfConcat(a: seq<Rule>, b: seq<Rule>, c: seq<Rule>, d: seq<Rule>)
    requires CanonicalOf(a, b) && CanonicalOf(c, d)
    ensures CanonicalOf(a + c, b + d)
  {
    forall i | 0 <= i < |a + c|
      ensures (a + c)[i].Valid() && (b + d)[i] == CanonicalRule((a + c)[i])
    {
      if i >= |a| {
        assert c[i - |a|].Valid() && d[i - |a|] == CanonicalRule(c[i - |a|]);
      }
    }
  }
}
