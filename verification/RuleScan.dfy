/** Why one pass of the inner loop of split_overlaps settles the first rule of a block, although it
    never goes back: the theory of the scan, on the sequence of rules it works on. */
module RuleScan {
  import opened Rules
  import opened RuleCuts

  ghost predicate KeySorted(b: seq<Rule>) {
    forall i, j :: 0 <= i < j < |b| ==> KeyNotAfter(b[i], b[j])
  }

  ghost predicate KeyEqual(x: Rule, y: Rule) {
    x.start == y.start && x.Month() == y.Month() && x.stop == y.stop && x.Day() == y.Day()
  }

  ghost predicate MonthDayNotAfter(x: Rule, y: Rule) {
    x.Month() < y.Month() || (x.Month() == y.Month() && x.Day() <= y.Day())
  }

  /** No rule starts strictly between s and m, nor ends before m - 1. */
  ghost predicate Above(b: seq<Rule>, s: int, m: int) {
    forall r :: r in b ==> r.start <= r.stop && (r.start == s || r.start >= m) && r.stop + 1 >= m
  }

  /** The rule shows that m is a boundary of the block. */
  ghost predicate Marks(r: Rule, s: int, m: int) {
    r.start == m || (r.start == s && r.stop == m - 1)
  }

  ghost predicate Starts(b: seq<Rule>, m: int) {
    exists r :: r in b && r.start == m
  }

  /** The inner loop has reached k.  s is the first year of the block and m its next boundary. */
  ghost predicate Scanning(b: seq<Rule>, k: nat, s: int, m: int) {
    && 1 <= k <= |b| && s < m && KeySorted(b) && b[0].start == s && Above(b, s, m)
    && (b[0].stop == m - 1 || exists p :: k <= p < |b| && Marks(b[p], s, m))
    && (b[0].stop > m - 1 || Starts(b, m)
        || forall p :: 1 <= p < k && b[p].start == s ==> b[p].stop == m - 1)
    && (forall p :: 1 <= p < k && b[p].start == s ==> MonthDayNotAfter(b[0], b[p]))
  }

  // ---- Counting in sorted permutations ----

  lemma SubsetSize(a: multiset<Rule>, b: multiset<Rule>)
    requires a <= b
    ensures |a| <= |b|
  {
    assert b == a + (b - a);
  }

  /** Rules that do not fit into a prefix are found after it. */
  lemma FoundAfter(c: seq<Rule>, n: nat, w: multiset<Rule>) returns (j: nat)
    requires n <= |c| && w <= multiset(c) && !(w <= multiset(c[..n]))
    ensures n <= j < |c| && c[j] in w
  {
    assert c == c[..n] + c[n..];
    assert multiset(c) == multiset(c[..n]) + multiset(c[n..]);
    var r :| r in w && w[r] > multiset(c[..n])[r];
    assert r in multiset(c[n..]);
    var i :| 0 <= i < |c[n..]| && c[n..][i] == r;
    j := n + i;
  }

  /** The rules in front and one of the tail do not fit into as many positions as the front. */
  lemma TooMany(c: seq<Rule>, front: seq<Rule>, tail: seq<Rule>, r: Rule, n: nat)
    requires multiset(c) == multiset(front + tail) && r in tail && n <= |front|
    ensures |front| < |c| && multiset(front) + multiset{r} <= multiset(c)
    ensures !(multiset(front) + multiset{r} <= multiset(c[..n]))
  {
    assert |multiset(c)| == |multiset(front + tail)|;
    var t :| 0 <= t < |tail| && tail[t] == r;
    assert tail == tail[..t] + [r] + tail[t + 1..];
    var w := multiset(front) + multiset{r};
    if w <= multiset(c[..n]) {
      SubsetSize(w, multiset(c[..n]));
    }
  }

  /** A rule of the tail that nothing of the front exceeds: one of its key stands behind the front. */
  lemma BehindFront(c: seq<Rule>, front: seq<Rule>, tail: seq<Rule>, r: Rule)
    requires KeySorted(c) && multiset(c) == multiset(front + tail)
    requires r in tail && forall f :: f in front ==> KeyNotAfter(f, r)
    ensures exists j :: |front| <= j < |c| && KeyEqual(c[j], r)
  {
    TooMany(c, front, tail, r, |front|);
    var j := FoundAfter(c, |front|, multiset(front) + multiset{r});
    if c[j] == r {
      assert KeyEqual(c[j], r);
    } else {
      assert c[j] in front;
      assert r in multiset(c);
      var i :| 0 <= i < |c| && c[i] == r;
      assert i < j ==> KeyEqual(c[j], r);
      assert i >= j ==> KeyEqual(c[i], r);
    }
  }

  lemma FrontOrTail(c: seq<Rule>, front: seq<Rule>, tail: seq<Rule>, p: nat)
    requires multiset(c) == multiset(front + tail) && p < |c|
    ensures c[p] in front || c[p] in tail
  {
    assert c[p] in multiset(front + tail);
  }

  lemma OneMore(a: multiset<Rule>, r: Rule, b: multiset<Rule>)
    requires r !in a && r in b
    ensures a <= b ==> a + multiset{r} <= b
  {
  }

  /** Where such a rule stands in front, a front rule of the same key has made room. */
  lemma InFront(c: seq<Rule>, front: seq<Rule>, tail: seq<Rule>, p: nat)
    requires KeySorted(c) && multiset(c) == multiset(front + tail)
    requires p < |front| && p < |c| && c[p] in tail && forall f :: f in front ==> KeyNotAfter(f, c[p])
    ensures exists f :: f in front && KeyEqual(f, c[p])
  {
    var r := c[p];
    if r in front {
      assert KeyEqual(r, r);
    } else {
      TooMany(c, front, tail, r, p + 1);
      assert c[..p + 1][p] == r;
      OneMore(multiset(front), r, multiset(c[..p + 1]));
      var i := FoundAfter(c, p + 1, multiset(front));
      var f := c[i];
      assert f in front && KeyNotAfter(c[p], c[i]);
      assert KeyEqual(f, r);
    }
  }

  // ---- One step of the scan ----

  lemma Member(b: seq<Rule>, i: nat)
    requires i < |b|
    ensures b[i] in b
  {
  }

  ghost predicate PieceOf(r: Rule, x: Rule) {
    r.payload == x.payload && x.start <= r.start <= r.stop <= x.stop
  }

  /** Pieces are not empty, lie inside the rule they come from, and bring no new boundary. */
  lemma PieceBounds(x: Rule, y: Rule, p: seq<Rule>, r: Rule)
    requires x.start <= y.start <= y.stop && Overlaps(x, y) && PiecesOf(x, y, p) && r in p
    ensures || (PieceOf(r, x) && (r.start == x.start || r.start == y.stop + 1 || x.start < r.start == y.start))
            || (PieceOf(r, y) && (r.start == y.start || r.start == x.stop + 1))
    ensures r.stop == x.stop || r.stop == y.stop || (r.stop == y.start - 1 && x.start < y.start)
    ensures x.start < y.start && r.start == x.start ==> r == UpTo(x, y.start)
  {
  }

  /** The boundary next to s survives every cut. */
  lemma AboveAfterSplit(b: seq<Rule>, k: nat, p: seq<Rule>, c: seq<Rule>, s: int, m: int)
    requires Cuttable(b, k) && SplitStep(b, k, p, c)
    requires Above(b, s, m) && s < m
    ensures Above(c, s, m)
  {
    forall r | r in c
      ensures r.start <= r.stop && (r.start == s || r.start >= m) && r.stop + 1 >= m
    {
      SplitMembers(b, k, p, c, r);
      Member(b, 0);
      Member(b, k);
      if r in p { PieceBounds(b[0], b[k], p, r); }
    }
  }

  /** A year at which some rule starts stays one. */
  lemma StartsAfterSplit(b: seq<Rule>, k: nat, p: seq<Rule>, c: seq<Rule>, m: int)
    requires Cuttable(b, k) && SplitStep(b, k, p, c) && Starts(b, m)
    ensures Starts(c, m)
  {
    var r :| r in b && r.start == m;
    SplitMembers(b, k, p, c, r);
    SplitMembers(b, k, p, c, p[0]);
    SplitMembers(b, k, p, c, p[1]);
  }

  lemma Regroup(p: seq<Rule>, q: seq<Rule>, s: seq<Rule>)
    requires |p| == 3
    ensures multiset(p) + multiset(q + s) == multiset((p[..2] + q) + (p[2..] + s))
  {
    assert p == p[..2] + p[2..];
  }

  /** Rules that start together are cut at the smaller end; the rules up to k keep the first year. */
  lemma SameStartParts(b: seq<Rule>, k: nat, p: seq<Rule>, c: seq<Rule>)
    requires Cuttable(b, k) && b[0].start == b[k].start && SplitStep(b, k, p, c)
    ensures |p| == 3 && p[2].start == p[0].stop + 1 && p[0].stop == p[1].stop
    ensures multiset(c) == multiset((p[..2] + b[1..k]) + (p[2..] + b[k + 1..]))
  {
    Regroup(p, b[1..k], b[k + 1..]);
  }

  lemma KeyEqualOtherwise(x: Rule, y: Rule)
    requires KeyNotAfter(x, y) && KeyNotAfter(y, x)
    ensures KeyEqual(x, y)
  {
  }

  /** The first rule of a sorted permutation. */
  lemma FirstOf(c: seq<Rule>, r: Rule)
    requires KeySorted(c) && r in c
    ensures KeyNotAfter(c[0], r)
  {
    var j :| 0 <= j < |c| && c[j] == r;
  }

  /** The first rule of a sorted block. */
  lemma NothingBefore(b: seq<Rule>, k: nat, r: Rule)
    requires 1 <= k < |b| && KeySorted(b) && r in Others(b, k)
    ensures KeyNotAfter(b[0], r)
    ensures r in b[1..k] || (r in b[k + 1..] && KeyNotAfter(b[k], r))
  {
    if r in b[1..k] {
      var q :| 1 <= q < k && b[q] == r;
      assert KeyNotAfter(b[0], b[q]);
    } else {
      var q :| k < q < |b| && b[q] == r;
      assert KeyNotAfter(b[0], b[q]) && KeyNotAfter(b[k], b[q]);
    }
  }

  /** The first rule after a cut in the same year ends where the cut rules end, and is not later
      in the year than either. */
  lemma SameStartFirst(b: seq<Rule>, k: nat, p: seq<Rule>, c: seq<Rule>)
    requires Cuttable(b, k) && b[0].start == b[k].start && SplitStep(b, k, p, c)
    requires KeySorted(b) && KeySorted(c) && b[0].start <= p[0].stop
    ensures c != [] && c[0].start == p[0].start && c[0].stop == p[0].stop
    ensures MonthDayNotAfter(c[0], p[0]) && MonthDayNotAfter(c[0], p[1])
  {
    SplitMembers(b, k, p, c, p[0]);
    SplitMembers(b, k, p, c, p[1]);
    FirstOf(c, p[0]);
    FirstOf(c, p[1]);
    Member(c, 0);
    SplitMembers(b, k, p, c, c[0]);
    if c[0] in Others(b, k) { NothingBefore(b, k, c[0]); }
  }

  // ---- What one round of the inner loop keeps ----

  /** The next boundary after the first year of a block. */
  lemma {:induction false} NextBoundary(b: seq<Rule>, s: int) returns (m: int)
    requires b != [] && forall r :: r in b ==> s <= r.start <= r.stop
    ensures s < m && Above(b, s, m)
    ensures exists r :: r in b && (r.start == m || r.stop + 1 == m)
  {
    var r := b[0];
    m := if r.start > s then r.start else r.stop + 1;
    if |b| > 1 {
      var n := NextBoundary(b[1..], s);
      assert b == [r] + b[1..];
      if n < m { m := n; }
    }
  }

  lemma ScanStart(b: seq<Rule>) returns (m: int)
    requires b != [] && KeySorted(b) && AllValid(b)
    ensures Scanning(b, 1, b[0].start, m)
  {
    var s := b[0].start;
    forall r | r in b
      ensures s <= r.start <= r.stop
    {
      var i :| 0 <= i < |b| && b[i] == r;
      assert i > 0 ==> KeyNotAfter(b[0], b[i]);
    }
    m := NextBoundary(b, s);
    var r :| r in b && (r.start == m || r.stop + 1 == m);
    assert Marks(r, s, m);
    var i :| 0 <= i < |b| && b[i] == r;
  }

  /** Passing a rule that does not overlap. */
  lemma ScanPass(b: seq<Rule>, k: nat, s: int, m: int)
    requires Scanning(b, k, s, m) && k < |b|
    requires b[0].start <= b[k].start && !Overlaps(b[0], b[k])
    ensures Scanning(b, k + 1, s, m)
  {
    Member(b, 0);
    Member(b, k);
    if b[k].start == s {
      assert KeyNotAfter(b[0], b[k]);
    }
  }

  /** After a cut against a later rule, what starts with the block has been passed already. */
  lemma SplitLaterMember(b: seq<Rule>, k: nat, p: seq<Rule>, c: seq<Rule>, r: Rule)
    requires Cuttable(b, k) && b[0].start < b[k].start && SplitStep(b, k, p, c)
    requires KeySorted(b) && r in c
    ensures KeyNotAfter(UpTo(b[0], b[k].start), r)
    ensures r.start == b[0].start ==> r == UpTo(b[0], b[k].start) || r in b[1..k]
  {
    SplitMembers(b, k, p, c, r);
    if r in p {
      PieceBounds(b[0], b[k], p, r);
    } else {
      NothingBefore(b, k, r);
    }
  }

  /** Cutting against a rule that starts later. */
  lemma ScanSplitLater(b: seq<Rule>, k: nat, p: seq<Rule>, c: seq<Rule>, s: int, m: int)
    requires Scanning(b, k, s, m) && Cuttable(b, k) && b[0].start < b[k].start
    requires SplitStep(b, k, p, c) && KeySorted(c) && k < |c|
    ensures Scanning(c, k + 1, s, m)
  {
    Member(b, 0);
    Member(b, k);
    AboveAfterSplit(b, k, p, c, s, m);
    assert b[k].start == m by {
      if b[0].stop != m - 1 {
        var q :| k <= q < |b| && Marks(b[q], s, m);
        assert q > k ==> KeyNotAfter(b[k], b[q]);
      }
    }
    assert Starts(b, m);
    StartsAfterSplit(b, k, p, c, m);
    SplitMembers(b, k, p, c, p[0]);
    FirstOf(c, p[0]);
    Member(c, 0);
    SplitLaterMember(b, k, p, c, c[0]);
    KeyEqualOtherwise(c[0], p[0]);
    forall q | 1 <= q < k + 1 && c[q].start == s
      ensures MonthDayNotAfter(c[0], c[q])
    {
      Member(c, q);
      SplitLaterMember(b, k, p, c, c[q]);
      if c[q] in b[1..k] {
        var n :| 1 <= n < k && b[n] == c[q];
        assert MonthDayNotAfter(b[0], b[n]);
      }
    }
  }

  /** Nothing in front of k exceeds what is behind it. */
  lemma SameStartFront(b: seq<Rule>, k: nat, p: seq<Rule>, r: Rule)
    requires Cuttable(b, k) && b[0].start == b[k].start && PiecesOf(b[0], b[k], p)
    requires KeySorted(b) && r in b[k + 1..]
    ensures forall f :: f in p[..2] + b[1..k] ==> KeyNotAfter(f, r)
  {
    var n :| k < n < |b| && b[n] == r;
    assert KeyNotAfter(b[0], b[n]) && KeyNotAfter(b[k], b[n]);
  }

  /** After a cut in the same year, the sign of the next boundary is still ahead. */
  lemma SplitSameMarks(b: seq<Rule>, k: nat, p: seq<Rule>, c: seq<Rule>, s: int, m: int)
    requires Scanning(b, k, s, m) && Cuttable(b, k) && b[0].start == b[k].start
    requires SplitStep(b, k, p, c) && KeySorted(c)
    requires m <= p[0].stop
    ensures exists j :: k + 1 <= j < |c| && Marks(c[j], s, m)
  {
    SameStartParts(b, k, p, c);
    var front, tail := p[..2] + b[1..k], p[2..] + b[k + 1..];
    var q :| k <= q < |b| && Marks(b[q], s, m);
    assert q > k;
    assert b[k + 1..][q - k - 1] == b[q];
    SameStartFront(b, k, p, b[q]);
    BehindFront(c, front, tail, b[q]);
    var j :| k + 1 <= j < |c| && KeyEqual(c[j], b[q]);
    assert Marks(c[j], s, m);
  }

  lemma FrontMonthDay(b: seq<Rule>, k: nat, p: seq<Rule>, c: seq<Rule>, s: int, m: int, f: Rule)
    requires Scanning(b, k, s, m) && Cuttable(b, k) && b[0].start == b[k].start
    requires SplitStep(b, k, p, c) && KeySorted(c) && s <= p[0].stop
    requires f in p[..2] + b[1..k]
    ensures c != [] && MonthDayNotAfter(c[0], f)
  {
    SameStartFirst(b, k, p, c);
    if f in b[1..k] {
      var n :| 1 <= n < k && b[n] == f;
      assert KeyNotAfter(b[n], b[k]) && KeyNotAfter(b[0], b[n]);
      assert MonthDayNotAfter(b[0], b[n]);
    }
  }

  lemma SameStartMonthDay(b: seq<Rule>, k: nat, p: seq<Rule>, c: seq<Rule>, s: int, m: int, q: nat)
    requires Scanning(b, k, s, m) && Cuttable(b, k) && b[0].start == b[k].start
    requires SplitStep(b, k, p, c) && KeySorted(c) && s <= p[0].stop
    requires 1 <= q < k + 1 && q < |c| && c[q].start == s
    ensures MonthDayNotAfter(c[0], c[q])
  {
    SameStartParts(b, k, p, c);
    var front, tail := p[..2] + b[1..k], p[2..] + b[k + 1..];
    var r := c[q];
    FrontOrTail(c, front, tail, q);
    if r in front {
      FrontMonthDay(b, k, p, c, s, m, r);
    } else {
      assert r in b[k + 1..];
      SameStartFront(b, k, p, r);
      InFront(c, front, tail, q);
      var f :| f in front && KeyEqual(f, r);
      FrontMonthDay(b, k, p, c, s, m, f);
    }
  }

  /** Cutting against a rule that starts in the same year. */
  lemma ScanSplitSame(b: seq<Rule>, k: nat, p: seq<Rule>, c: seq<Rule>, s: int, m: int)
    requires Scanning(b, k, s, m) && Cuttable(b, k) && b[0].start == b[k].start
    requires SplitStep(b, k, p, c) && KeySorted(c) && k < |c|
    ensures Scanning(c, k + 1, s, m)
  {
    Member(b, 0);
    Member(b, k);
    AboveAfterSplit(b, k, p, c, s, m);
    SameStartParts(b, k, p, c);
    SameStartFirst(b, k, p, c);
    if p[0].stop == m - 1 {
      SplitMembers(b, k, p, c, p[2]);
      assert Starts(c, m);
    } else {
      SplitSameMarks(b, k, p, c, s, m);
    }
    forall q | 1 <= q < k + 1 && c[q].start == s
      ensures MonthDayNotAfter(c[0], c[q])
    {
      SameStartMonthDay(b, k, p, c, s, m, q);
    }
  }

  // ---- What the scan leaves behind ----

  /** x is final as far as the rules after it are concerned. */
  ghost predicate Settled(x: Rule, rest: seq<Rule>) {
    && x.start <= x.stop && Above(rest, x.start, x.stop + 1)
    && (forall r :: r in rest && r.start == x.start ==> MonthDayNotAfter(x, r))
    && (Starts(rest, x.stop + 1) || forall r :: r in rest && r.start == x.start ==> r.stop == x.stop)
  }

  lemma ScanDone(b: seq<Rule>, s: int, m: int)
    requires Scanning(b, |b|, s, m)
    ensures b[0].stop == m - 1 && Settled(b[0], b[1..])
  {
    Member(b, 0);
    assert b[0].stop == m - 1;
    forall r | r in b[1..]
      ensures r in b && (r.start == s ==> MonthDayNotAfter(b[0], r))
    {
      var p :| 1 <= p < |b| && b[p] == r;
    }
    if Starts(b, m) {
      var r :| r in b && r.start == m;
      assert r in b[1..] by { assert b == [b[0]] + b[1..]; }
    }
  }

  /** Two rules in final position: the same years, ordered by day, or earlier years altogether. */
  ghost predicate SameOrBefore(x: Rule, y: Rule) {
    x.stop < y.start || (x.start == y.start && x.stop == y.stop && MonthDayNotAfter(x, y))
  }

  /** Any two rules have equal or disjoint years, and they stand in the order of the database. */
  ghost predicate Partitioned(b: seq<Rule>) {
    forall i, j :: 0 <= i < j < |b| ==> SameOrBefore(b[i], b[j])
  }

  lemma PartitionedIsSorted(b: seq<Rule>)
    requires AllValid(b) && Partitioned(b)
    ensures KeySorted(b)
  {
    forall i, j | 0 <= i < j < |b|
      ensures KeyNotAfter(b[i], b[j])
    {
      Member(b, i);
      assert SameOrBefore(b[i], b[j]);
    }
  }

  /** A settled rule stays settled when the rules after it are cut. */
  lemma SettledAfterSplit(x: Rule, b: seq<Rule>, k: nat, p: seq<Rule>, c: seq<Rule>)
    requires Cuttable(b, k) && SplitStep(b, k, p, c) && Settled(x, b)
    ensures Settled(x, c)
  {
    Member(b, 0);
    Member(b, k);
    AboveAfterSplit(b, k, p, c, x.start, x.stop + 1);
    if Starts(b, x.stop + 1) { StartsAfterSplit(b, k, p, c, x.stop + 1); }
    forall r | r in c && r.start == x.start
      ensures MonthDayNotAfter(x, r)
      ensures Starts(b, x.stop + 1) || r.stop == x.stop
    {
      SplitMembers(b, k, p, c, r);
      if r in p { PieceBounds(b[0], b[k], p, r); }
    }
  }

  /** When the first rule of the rest becomes final, rules settled before stay so. */
  lemma SettledNext(x: Rule, b: seq<Rule>)
    requires b != [] && Settled(x, b)
    requires |b| > 1 ==> Above(b, b[0].start, b[0].stop + 1)
    ensures SameOrBefore(x, b[0]) && Settled(x, b[1..])
  {
    Member(b, 0);
    assert b == [b[0]] + b[1..];
    if b[0].start == x.start {
      if Starts(b, x.stop + 1) {
        var r :| r in b && r.start == x.stop + 1;
        assert b[0].stop == x.stop;
        assert r in b[1..];
      }
    } else {
      assert forall r :: r in b[1..] ==> r in b;
    }
  }
}
