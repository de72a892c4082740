/** Cutting rules at year boundaries, and what a cut conserves. */
module RuleCuts {
  import opened Rules

  /** The years of r before p. */
  function UpTo(r: Rule, p: int): Rule {
    r.(stop := p - 1)
  }

  /** The years of r from p on. */
  function Since(r: Rule, p: int): Rule {
    r.(start := p)
  }

  /** p lists the pieces of two overlapping rules, each cut at the start and just past the end of
      the other: first what is left of x, then the rest by year. */
  ghost predicate PiecesOf(x: Rule, y: Rule, p: seq<Rule>) {
    if x.start == y.start then
      if y.stop < x.stop then
        |p| == 3 && p[0] == UpTo(x, y.stop + 1) && p[1] == y && p[2] == Since(x, y.stop + 1)
      else
        |p| == 3 && p[0] == x && p[1] == UpTo(y, x.stop + 1) && p[2] == Since(y, x.stop + 1)
    else if y.stop < x.stop then
      |p| == 4 && p[0] == UpTo(x, y.start) && p[1] == UpTo(Since(x, y.start), y.stop + 1)
      && p[2] == y && p[3] == Since(x, y.stop + 1)
    else if x.stop < y.stop then
      |p| == 4 && p[0] == UpTo(x, y.start) && p[1] == Since(x, y.start)
      && p[2] == UpTo(y, x.stop + 1) && p[3] == Since(y, x.stop + 1)
    else
      |p| == 3 && p[0] == UpTo(x, y.start) && p[1] == Since(x, y.start) && p[2] == y
  }

  predicate Overlaps(x: Rule, y: Rule)
    requires x.start <= y.start
  {
    if y.start > x.stop then false else !(x.start == y.start && x.stop == y.stop)
  }

  // ---- Conservation ----

  /** A quantity of rules that cutting a rule in two divides. */
  ghost predicate Additive(f: Rule -> int) {
    forall r: Rule, p: int :: r.start < p <= r.stop ==> f(r) == f(UpTo(r, p)) + f(Since(r, p))
  }

  ghost function Sum(f: Rule -> int, s: seq<Rule>): int {
    if s == [] then 0 else f(s[0]) + Sum(f, s[1..])
  }

  /** Every additive quantity of the two is the same.  SameCounts says it for the payloads that
      hold in a year. */
  ghost predicate SameMeaning(s: seq<Rule>, t: seq<Rule>) {
    forall f: Rule -> int :: Additive(f) ==> Sum(f, s) == Sum(f, t)
  }

  ghost function HoldsIn(y: int, p: Payload): Rule -> int {
    (r: Rule) => if r.Covers(y) && r.payload == p then 1 else 0
  }

  ghost function Years(): Rule -> int {
    (r: Rule) => r.stop - r.start + 1
  }

  /** How many of the rules give the year this payload. */
  ghost function Count(s: seq<Rule>, y: int, p: Payload): int {
    Sum(HoldsIn(y, p), s)
  }

  /** The covered years, with multiplicity. */
  ghost function TotalYears(s: seq<Rule>): int {
    Sum(Years(), s)
  }

  /** Rules of the same meaning give every year the same multiset of payloads. */
  lemma SameCounts(s: seq<Rule>, t: seq<Rule>)
    requires SameMeaning(s, t)
    ensures forall y: int, p: Payload :: Count(s, y, p) == Count(t, y, p)
    ensures TotalYears(s) == TotalYears(t)
  {
    forall y: int, p: Payload
      ensures Count(s, y, p) == Count(t, y, p)
    {
      assert Additive(HoldsIn(y, p));
    }
    assert Additive(Years());
  }

  lemma {:induction false} SumOfConcat(f: Rule -> int, s: seq<Rule>, t: seq<Rule>)
    ensures Sum(f, s + t) == Sum(f, s) + Sum(f, t)
  {
    if s == [] {
      assert s + t == t;
    } else {
      assert (s + t)[1..] == s[1..] + t;
      SumOfConcat(f, s[1..], t);
    }
  }

  /** Counting is counting the rules that cover the year with this payload, one by one. */
  lemma CountIs(s: seq<Rule>, t: seq<Rule>, r: Rule, y: int, p: Payload)
    ensures Count([], y, p) == 0 && Count(s + t, y, p) == Count(s, y, p) + Count(t, y, p)
    ensures Count([r], y, p) == if r.payload == p && r.start <= y <= r.stop then 1 else 0
  {
    SumOfConcat(HoldsIn(y, p), s, t);
    assert [r][1..] == [];
  }

  /** The first rule of s found in a permutation t. */
  lemma FirstInPermutation(s: seq<Rule>, t: seq<Rule>) returns (before: seq<Rule>, after: seq<Rule>)
    requires s != [] && multiset(s) == multiset(t)
    ensures t == before + ([s[0]] + after)
    ensures multiset(before + after) == multiset(s[1..])
  {
    assert s == [s[0]] + s[1..];
    assert s[0] in multiset(t);
    var j :| 0 <= j < |t| && t[j] == s[0];
    before, after := t[..j], t[j + 1..];
    assert t == before + ([s[0]] + after);
    SameRest(s[0], s[1..], before, after);
  }

  lemma SameRest(r: Rule, rest: seq<Rule>, before: seq<Rule>, after: seq<Rule>)
    requires multiset([r] + rest) == multiset(before + ([r] + after))
    ensures multiset(before + after) == multiset(rest)
  {
    assert multiset(rest) == multiset([r] + rest) - multiset{r};
    assert multiset(before + after) == multiset(before + ([r] + after)) - multiset{r};
  }

  lemma {:induction false} SumOfPermutation(f: Rule -> int, s: seq<Rule>, t: seq<Rule>)
    requires multiset(s) == multiset(t)
    ensures Sum(f, s) == Sum(f, t)
  {
    if s == [] {
      assert |multiset(t)| == 0;
    } else {
      var before, after := FirstInPermutation(s, t);
      SumOfPermutation(f, s[1..], before + after);
      SumOfConcat(f, before, after);
      SumOfConcat(f, before, [s[0]] + after);
    }
  }

  lemma SumOfPieces(f: Rule -> int, x: Rule, y: Rule, p: seq<Rule>)
    requires Additive(f) && x.start <= y.start <= y.stop && Overlaps(x, y) && PiecesOf(x, y, p)
    ensures Sum(f, p) == f(x) + f(y)
  {
    SumOfList(f, p);
    if x.start < y.start && y.stop < x.stop {
      assert Since(Since(x, y.start), y.stop + 1) == Since(x, y.stop + 1);
    }
  }

  lemma SumOfList(f: Rule -> int, p: seq<Rule>)
    requires 3 <= |p| <= 4
    ensures Sum(f, p) == f(p[0]) + f(p[1]) + f(p[2]) + (if |p| == 4 then f(p[3]) else 0)
  {
    assert Sum(f, p[1..]) == f(p[1]) + Sum(f, p[1..][1..]);
    assert p[1..][1..] == p[2..];
    assert Sum(f, p[2..]) == f(p[2]) + Sum(f, p[2..][1..]);
    assert p[2..][1..] == p[3..];
    if |p| == 4 {
      assert Sum(f, p[3..]) == f(p[3]) + Sum(f, p[3..][1..]);
      assert p[3..][1..] == [];
    }
  }

  ghost predicate AllValid(s: seq<Rule>) {
    forall r :: r in s ==> r.Valid()
  }

  /** Non-empty rules are no more than the years they cover. */
  lemma {:induction false} TotalYearsAtLeast(s: seq<Rule>)
    requires AllValid(s)
    ensures |s| <= TotalYears(s)
  {
    if s != [] {
      assert s[0] in s;
      TotalYearsAtLeast(s[1..]);
    }
  }

  // ---- One split inside a block ----

  /** The block without positions 0 and k. */
  ghost function Others(b: seq<Rule>, k: nat): seq<Rule>
    requires 1 <= k < |b|
  {
    b[1..k] + b[k + 1..]
  }

  /** The rules that a split looks at. */
  ghost predicate Cuttable(b: seq<Rule>, k: nat) {
    1 <= k < |b| && b[0].start <= b[k].start <= b[k].stop && Overlaps(b[0], b[k])
  }

  /** c is b with its first rule and rule k cut into the pieces p, in any order. */
  ghost predicate SplitStep(b: seq<Rule>, k: nat, p: seq<Rule>, c: seq<Rule>)
    requires 1 <= k < |b|
  {
    PiecesOf(b[0], b[k], p) && multiset(c) == multiset(p) + multiset(Others(b, k))
  }

  lemma BlockParts(b: seq<Rule>, k: nat)
    requires 1 <= k < |b|
    ensures multiset(b) == multiset{b[0], b[k]} + multiset(Others(b, k))
  {
    assert b == [b[0]] + b[1..k] + [b[k]] + b[k + 1..];
  }

  /** A split conserves every additive quantity. */
  lemma SplitConserves(f: Rule -> int, b: seq<Rule>, k: nat, p: seq<Rule>, c: seq<Rule>)
    requires Additive(f) && Cuttable(b, k) && SplitStep(b, k, p, c)
    ensures Sum(f, c) == Sum(f, b)
  {
    var others := Others(b, k);
    SumOfPieces(f, b[0], b[k], p);
    BlockParts(b, k);
    SumOfPermutation(f, b, [b[0], b[k]] + others);
    SumOfPermutation(f, c, p + others);
    SumOfConcat(f, [b[0], b[k]], others);
    SumOfConcat(f, p, others);
    assert [b[0], b[k]][1..] == [b[k]];
  }

  lemma SplitKeepsMeaning(b: seq<Rule>, k: nat, p: seq<Rule>, c: seq<Rule>)
    requires Cuttable(b, k) && SplitStep(b, k, p, c)
    ensures SameMeaning(b, c)
  {
    forall f: Rule -> int | Additive(f)
      ensures Sum(f, b) == Sum(f, c)
    {
      SplitConserves(f, b, k, p, c);
    }
  }

  /** What is in the block after a split. */
  lemma SplitMembers(b: seq<Rule>, k: nat, p: seq<Rule>, c: seq<Rule>, r: Rule)
    requires 1 <= k < |b| && SplitStep(b, k, p, c)
    ensures r in c <==> r in p || r in Others(b, k)
    ensures r in b <==> r == b[0] || r == b[k] || r in Others(b, k)
  {
    BlockParts(b, k);
    assert r in c <==> r in multiset(c);
    assert r in p <==> r in multiset(p);
    assert r in Others(b, k) <==> r in multiset(Others(b, k));
    assert r in b <==> r in multiset(b);
  }

  // ---- Where rules are cut ----

  /** A rule begins in year y, or ends just before it. */
  predicate Touches(r: Rule, y: int) {
    r.start == y || r.stop + 1 == y
  }

  ghost predicate Bound(b: seq<Rule>, y: int) {
    exists r :: r in b && Touches(r, y)
  }

  ghost predicate SameBounds(b: seq<Rule>, c: seq<Rule>) {
    forall y: int :: Bound(b, y) <==> Bound(c, y)
  }

  lemma BoundsOfPair(x: Rule, y: Rule, z: int)
    ensures Bound([x, y], z) <==> Touches(x, z) || Touches(y, z)
  {
    assert x in [x, y] && y in [x, y];
  }

  lemma BoundsOfList(p: seq<Rule>, y: int)
    requires 3 <= |p| <= 4
    ensures Bound(p, y) <==>
              Touches(p[0], y) || Touches(p[1], y) || Touches(p[2], y) || (|p| == 4 && Touches(p[3], y))
  {
    if Bound(p, y) {
      var i :| 0 <= i < |p| && Touches(p[i], y);
    } else {
      assert forall i :: 0 <= i < |p| ==> p[i] in p && !Touches(p[i], y);
    }
  }

  lemma BoundsOfPieces(x: Rule, y: Rule, p: seq<Rule>, z: int)
    requires x.start <= y.start <= y.stop && Overlaps(x, y) && PiecesOf(x, y, p)
    ensures Bound(p, z) <==> Touches(x, z) || Touches(y, z)
  {
    BoundsOfList(p, z);
  }

  lemma BoundsOfConcat(b: seq<Rule>, c: seq<Rule>, z: int)
    ensures Bound(b + c, z) <==> Bound(b, z) || Bound(c, z)
  {
    if Bound(b, z) {
      var r :| r in b && Touches(r, z);
      assert r in b + c;
    } else if Bound(c, z) {
      var r :| r in c && Touches(r, z);
      assert r in b + c;
    }
  }

  lemma SameMembersSameBounds(b: seq<Rule>, c: seq<Rule>, z: int)
    requires forall r :: r in b <==> r in c
    ensures Bound(b, z) <==> Bound(c, z)
  {
  }

  /** A split cuts only where a rule of the block begins or ends, and leaves all these bounds. */
  lemma BoundsAfterSplit(b: seq<Rule>, k: nat, p: seq<Rule>, c: seq<Rule>)
    requires Cuttable(b, k) && SplitStep(b, k, p, c)
    ensures SameBounds(b, c)
  {
    var two, others := [b[0], b[k]], Others(b, k);
    forall r
      ensures r in b <==> r in two + others
      ensures r in c <==> r in p + others
    {
      SplitMembers(b, k, p, c, r);
    }
    forall z: int
      ensures Bound(b, z) <==> Bound(c, z)
    {
      SameMembersSameBounds(b, two + others, z);
      SameMembersSameBounds(c, p + others, z);
      BoundsOfConcat(two, others, z);
      BoundsOfConcat(p, others, z);
      BoundsOfPieces(b[0], b[k], p, z);
      BoundsOfPair(b[0], b[k], z);
    }
  }
}
