/** UTC with leap seconds, against system time without. Times count ticks, of which there are T in a
    second; leap seconds are given by their dates in whole seconds of system time. */
module LeapSeconds {
  ghost predicate Increasing(leaps: seq<int>) {
    forall i, j :: 0 <= i < j < |leaps| ==> leaps[i] < leaps[j]
  }

  /** How many leap seconds have a date not after t: what std::upper_bound finds. */
  function Upper(leaps: seq<int>, T: nat, t: int): (k: nat)
    ensures k <= |leaps|
  {
    if leaps == [] then 0
    else if leaps[|leaps| - 1] * T <= t then |leaps|
    else Upper(leaps[..|leaps| - 1], T, t)
  }

  function FromSys(leaps: seq<int>, T: nat, t: int): int {
    t + Upper(leaps, T, t) * T
  }

  datatype LeapInfo = LeapInfo(inserted: bool, elapsed: int)

  /** Whether u is taken to lie in an inserted second, and the number of leap seconds up to then. */
  function InfoOf(leaps: seq<int>, T: nat, u: int): LeapInfo {
    var k := Upper(leaps, T, u);
    var t := u - k * T;
    if k == 0 || t >= leaps[k - 1] * T then LeapInfo(false, k)
    else if t >= (leaps[k - 1] - 1) * T then LeapInfo(true, k)
    else LeapInfo(false, k - 1)
  }

  /** Rounding down to a whole second. */
  function Floor(T: nat, t: int): int
    requires T > 0
  {
    t / T * T
  }

  /** The last tick before the leap second's date stands for all of an inserted second. */
  function ToSys(leaps: seq<int>, T: nat, u: int): int
    requires T > 0
  {
    var info := InfoOf(leaps, T, u);
    var t := u - info.elapsed * T;
    if info.inserted then Floor(T, t) + T - 1 else t
  }

  /** is_leap_second, step by step. */
  method IsLeapSecond(leaps: seq<int>, T: nat, u: int) returns (info: LeapInfo)
    ensures info == InfoOf(leaps, T, u)
  {
    var tp := u;
    var lt := Upper(leaps, T, tp);
    var ds: int := lt;
    tp := tp - ds * T;
    var ls := false;
    if lt > 0 {
      if tp < leaps[lt - 1] * T {
        if tp >= leaps[lt - 1] * T - T {
          ls := true;
        } else {
          ds := ds - 1;
        }
      }
    }
    assert lt > 0 ==> leaps[lt - 1] * T - T == (leaps[lt - 1] - 1) * T;
    return LeapInfo(ls, ds);
  }

  method UtcToSys(leaps: seq<int>, T: nat, u: int) returns (tp: int)
    requires T > 0
    ensures tp == ToSys(leaps, T, u)
  {
    var ls := IsLeapSecond(leaps, T, u);
    tp := u - ls.elapsed * T;
    if ls.inserted {
      tp := Floor(T, tp) + T - 1;
    }
  }

  // ---- Bounds ----

  /** Between which dates t lies. */
  predicate LiesAfter(leaps: seq<int>, T: nat, t: int, k: nat)
    requires k <= |leaps|
  {
    (k == 0 || leaps[k - 1] * T <= t) && (k == |leaps| || t < leaps[k] * T)
  }

  lemma Scaled(a: int, b: int, T: nat)
    requires T > 0
    ensures a <= b <==> a * T <= b * T
    ensures a * T + T == (a + 1) * T
  {
    if a <= b {
      assert (b - a) * T >= 0;
    } else {
      assert (a - b - 1) * T >= 0;
    }
  }

  lemma SpreadDates(leaps: seq<int>, i: nat, j: nat)
    requires Increasing(leaps) && i <= j < |leaps|
    ensures leaps[i] + i <= leaps[j] + j && leaps[i] <= leaps[j]
  {
  }

  /** k seconds after a date, in ticks. */
  lemma Distributed(a: int, k: int, T: nat)
    ensures (a + k) * T == a * T + k * T && (a + k + 1) * T == a * T + k * T + T
    ensures (a - 1) * T == a * T - T && (k + 1) * T == k * T + T && (k >= 0 ==> k * T >= 0)
  {
  }

  lemma {:induction false} UpperBounds(leaps: seq<int>, T: nat, t: int)
    requires Increasing(leaps)
    ensures LiesAfter(leaps, T, t, Upper(leaps, T, t))
  {
    if leaps != [] && leaps[|leaps| - 1] * T > t {
      UpperBounds(leaps[..|leaps| - 1], T, t);
    }
  }

  lemma OnlyUpper(leaps: seq<int>, T: nat, t: int, k: nat)
    requires Increasing(leaps) && T > 0 && k <= |leaps| && LiesAfter(leaps, T, t, k)
    ensures Upper(leaps, T, t) == k
  {
    var m := Upper(leaps, T, t);
    UpperBounds(leaps, T, t);
    if m < k {
      SpreadDates(leaps, m, k - 1);
      Scaled(leaps[m], leaps[k - 1], T);
    } else if k < m {
      SpreadDates(leaps, k, m - 1);
      Scaled(leaps[k], leaps[m - 1], T);
    }
  }

  // ---- Inserted seconds ----

  /** u lies in the second inserted before the i-th date. */
  predicate InInserted(leaps: seq<int>, T: nat, u: int, i: nat)
    requires i < |leaps|
  {
    (leaps[i] + i) * T <= u < (leaps[i] + i + 1) * T
  }

  ghost predicate Inserted(leaps: seq<int>, T: nat, u: int) {
    exists i: nat :: i < |leaps| && InInserted(leaps, T, u, i)
  }

  /** System time passes over inserted seconds. */
  lemma FromSysIsNotInserted(leaps: seq<int>, T: nat, t: int)
    requires Increasing(leaps) && T > 0
    ensures !Inserted(leaps, T, FromSys(leaps, T, t))
  {
    var k := Upper(leaps, T, t);
    UpperBounds(leaps, T, t);
    forall i: nat | i < |leaps|
      ensures !InInserted(leaps, T, FromSys(leaps, T, t), i)
    {
      if i < k {
        SpreadDates(leaps, i, k - 1);
        Scaled(leaps[i] + i + 1, leaps[k - 1] + k, T);
        Distributed(leaps[k - 1], k, T);
      } else {
        SpreadDates(leaps, k, i);
        Scaled(leaps[k] + k, leaps[i] + i, T);
        Distributed(leaps[k], k, T);
      }
    }
  }

  /** How many inserted seconds have passed before u. */
  function Passed(leaps: seq<int>, T: nat, u: int): (k: nat)
    ensures k <= |leaps|
  {
    if leaps == [] then 0
    else if (leaps[|leaps| - 1] + |leaps|) * T <= u then |leaps|
    else Passed(leaps[..|leaps| - 1], T, u)
  }

  lemma {:induction false} PassedBounds(leaps: seq<int>, T: nat, u: int)
    ensures var k := Passed(leaps, T, u);
            && (k == 0 || (leaps[k - 1] + k) * T <= u) && (k == |leaps| || u < (leaps[k] + k + 1) * T)
  {
    if leaps != [] && (leaps[|leaps| - 1] + |leaps|) * T > u {
      PassedBounds(leaps[..|leaps| - 1], T, u);
    }
  }

  /** All other UTC comes from a system time. */
  lemma OthersComeFromSys(leaps: seq<int>, T: nat, u: int)
    requires Increasing(leaps) && T > 0 && !Inserted(leaps, T, u)
    ensures FromSys(leaps, T, u - Passed(leaps, T, u) * T) == u
  {
    var k := Passed(leaps, T, u);
    PassedBounds(leaps, T, u);
    if k > 0 {
      Distributed(leaps[k - 1], k, T);
    }
    if k < |leaps| {
      assert !InInserted(leaps, T, u, k);
      Distributed(leaps[k], k, T);
    }
    OnlyUpper(leaps, T, u - k * T, k);
  }

  lemma FromSysGrows(leaps: seq<int>, T: nat, t: int, t': int)
    requires Increasing(leaps) && T > 0 && t < t'
    ensures FromSys(leaps, T, t) < FromSys(leaps, T, t')
  {
    var k, k' := Upper(leaps, T, t), Upper(leaps, T, t');
    UpperBounds(leaps, T, t);
    UpperBounds(leaps, T, t');
    if k' < k {
      SpreadDates(leaps, k', k - 1);
      Scaled(leaps[k'], leaps[k - 1], T);
    } else {
      Scaled(k, k', T);
    }
  }

  // ---- There and back ----

  /** The i-th gap between leap seconds is at least n + i seconds. */
  ghost predicate Gaps(leaps: seq<int>, n: nat) {
    forall i :: 0 <= i < |leaps| - 1 ==> leaps[i + 1] - leaps[i] >= n + i
  }

  /** The second date after t is still ahead of its UTC. */
  lemma NextAhead(leaps: seq<int>, T: nat, t: int, k: nat)
    requires Increasing(leaps) && T > 0 && Gaps(leaps, 0) && k + 1 < |leaps| && t < leaps[k] * T
    ensures t + k * T < leaps[k + 1] * T
  {
    Scaled(leaps[k] + k, leaps[k + 1], T);
    Distributed(leaps[k], k, T);
  }

  lemma BackWhenPast(leaps: seq<int>, T: nat, t: int, k: nat, u: int)
    requires Increasing(leaps) && T > 0 && Gaps(leaps, 0) && k < |leaps|
    requires k == Upper(leaps, T, t) && u == t + k * T && t < leaps[k] * T <= u
    ensures InfoOf(leaps, T, u) == LeapInfo(false, k)
  {
    if k + 1 < |leaps| {
      NextAhead(leaps, T, t, k);
    }
    OnlyUpper(leaps, T, u, k + 1);
    Distributed(leaps[k], k, T);
  }

  lemma BackWhenBefore(leaps: seq<int>, T: nat, t: int, k: nat, u: int)
    requires Increasing(leaps) && T > 0 && k <= |leaps| && u == t + k * T
    requires LiesAfter(leaps, T, t, k) && (k == |leaps| || u < leaps[k] * T)
    ensures InfoOf(leaps, T, u) == LeapInfo(false, k)
  {
    Scaled(0, k, T);
    OnlyUpper(leaps, T, u, k);
  }

  lemma BackInfo(leaps: seq<int>, T: nat, t: int, k: nat, u: int)
    requires Increasing(leaps) && T > 0 && Gaps(leaps, 0) && k == Upper(leaps, T, t) && u == t + k * T
    ensures InfoOf(leaps, T, u) == LeapInfo(false, k)
  {
    UpperBounds(leaps, T, t);
    if k < |leaps| && u >= leaps[k] * T {
      BackWhenPast(leaps, T, t, k, u);
    } else {
      BackWhenBefore(leaps, T, t, k, u);
    }
  }

  lemma OutsideInserted(leaps: seq<int>, T: nat, u: int, k: int)
    requires T > 0 && InfoOf(leaps, T, u) == LeapInfo(false, k)
    ensures ToSys(leaps, T, u) == u - k * T
  {
  }

  lemma BackFrom(leaps: seq<int>, T: nat, t: int)
    requires Increasing(leaps) && T > 0 && Gaps(leaps, 0)
    ensures InfoOf(leaps, T, FromSys(leaps, T, t)) == LeapInfo(false, Upper(leaps, T, t))
    ensures ToSys(leaps, T, FromSys(leaps, T, t)) == t
  {
    BackInfo(leaps, T, t, Upper(leaps, T, t), FromSys(leaps, T, t));
    OutsideInserted(leaps, T, FromSys(leaps, T, t), Upper(leaps, T, t));
  }

  /** A gap that is too short for what has been inserted before. */
  lemma LateDate(leaps: seq<int>, T: nat, i: nat)
    requires Increasing(leaps) && T > 0 && i + 1 < |leaps| && leaps[i + 1] - leaps[i] < i
    ensures ToSys(leaps, T, FromSys(leaps, T, leaps[i] * T - 1)) != leaps[i] * T - 1
  {
    BeforeDate(leaps, T, i);
    LateSys(leaps, T, i, leaps[i] * T - 1 + i * T);
  }

  lemma LateSys(leaps: seq<int>, T: nat, i: nat, u: int)
    requires Increasing(leaps) && T > 0 && i + 1 < |leaps| && leaps[i + 1] - leaps[i] < i
    requires u == leaps[i] * T - 1 + i * T
    ensures ToSys(leaps, T, u) < leaps[i] * T - 1
  {
    var e := InfoOf(leaps, T, u).elapsed;
    UpperBounds(leaps, T, u);
    PastNext(leaps, T, i, u, Upper(leaps, T, u));
    Distributed(leaps[i], i, T);
    LastTickToSys(leaps, T, leaps[i] + i, u, e);
    Scaled(i + 1, e, T);
  }

  /** The last tick of a second stays one on the way to system time. */
  lemma LastTickToSys(leaps: seq<int>, T: nat, a: int, u: int, e: int)
    requires T > 0 && u == a * T - 1 && e == InfoOf(leaps, T, u).elapsed
    ensures ToSys(leaps, T, u) == u - e * T
  {
    WholeSeconds(a, e, T, u);
  }

  /** The last tick before a date. */
  lemma BeforeDate(leaps: seq<int>, T: nat, i: nat)
    requires Increasing(leaps) && T > 0 && i < |leaps|
    ensures Upper(leaps, T, leaps[i] * T - 1) == i
  {
    if i > 0 {
      Scaled(leaps[i - 1] + 1, leaps[i], T);
      Scaled(leaps[i - 1], leaps[i], T);
    }
    OnlyUpper(leaps, T, leaps[i] * T - 1, i);
  }

  lemma PastNext(leaps: seq<int>, T: nat, i: nat, u: int, m: nat)
    requires Increasing(leaps) && T > 0 && i + 1 < |leaps| && leaps[i + 1] - leaps[i] < i
    requires u == leaps[i] * T - 1 + i * T && m <= |leaps| && LiesAfter(leaps, T, u, m)
    ensures m >= i + 2
  {
    Distributed(leaps[i], i, T);
    Scaled(leaps[i + 1] + 1, leaps[i] + i, T);
    Scaled(leaps[i + 1], leaps[i] + i, T);
    if m <= i + 1 {
      SpreadDates(leaps, m, i + 1);
      Scaled(leaps[m], leaps[i + 1], T);
    }
  }

  /** The last tick of a second stays one when whole seconds are taken off. */
  lemma WholeSeconds(a: int, n: int, T: nat, u: int)
    requires T > 0 && u == a * T - 1
    ensures Floor(T, u - n * T) + T - 1 == u - n * T
  {
    assert u - n * T == (a - n - 1) * T + (T - 1);
    Divided(a - n - 1, T - 1, T);
  }

  lemma Divided(q: int, r: nat, T: nat)
    requires r < T
    ensures (q * T + r) / T == q
  {
    var d := (q * T + r) / T;
    assert (q * T + r) == d * T + (q * T + r) % T;
    if d < q {
      Scaled(d + 1, q, T);
    } else if d > q {
      Scaled(q + 1, d, T);
    }
  }

  /** System time survives the way to UTC and back exactly when each gap is at least as long as what
      has been inserted before it. */
  lemma BackFromSys(leaps: seq<int>, T: nat)
    requires Increasing(leaps) && T > 0
    ensures (forall t :: ToSys(leaps, T, FromSys(leaps, T, t)) == t) <==> Gaps(leaps, 0)
  {
    if Gaps(leaps, 0) {
      forall t
        ensures ToSys(leaps, T, FromSys(leaps, T, t)) == t
      {
        BackFrom(leaps, T, t);
      }
    } else {
      var i :| 0 <= i < |leaps| - 1 && leaps[i + 1] - leaps[i] < i;
      LateDate(leaps, T, i);
    }
  }

  /** UTC survives the way to system time and back exactly outside inserted seconds. */
  lemma BackToUtc(leaps: seq<int>, T: nat, u: int)
    requires Increasing(leaps) && T > 0 && Gaps(leaps, 0)
    ensures FromSys(leaps, T, ToSys(leaps, T, u)) == u <==> !Inserted(leaps, T, u)
  {
    FromSysIsNotInserted(leaps, T, ToSys(leaps, T, u));
    if !Inserted(leaps, T, u) {
      OthersComeFromSys(leaps, T, u);
      BackFrom(leaps, T, u - Passed(leaps, T, u) * T);
    }
  }

  // ---- During inserted seconds ----

  lemma RecognisedInfo(leaps: seq<int>, T: nat, u: int, i: nat)
    requires Increasing(leaps) && T > 0 && Gaps(leaps, 1) && i < |leaps| && InInserted(leaps, T, u, i)
    ensures InfoOf(leaps, T, u) == LeapInfo(true, i + 1)
  {
    Distributed(leaps[i], i, T);
    if i + 1 < |leaps| {
      Scaled(leaps[i] + i + 1, leaps[i + 1], T);
    }
    OnlyUpper(leaps, T, u, i + 1);
  }

  /** All of the second before a date rounds to its last tick. */
  lemma LastTick(a: int, r: nat, T: nat)
    requires r < T
    ensures Floor(T, (a - 1) * T + r) + T - 1 == a * T - 1
  {
    Divided(a - 1, r, T);
    Distributed(a, 0, T);
  }

  /** With room for its own second too, every inserted second is recognised, and ends just before its date. */
  lemma Recognised(leaps: seq<int>, T: nat, u: int, i: nat)
    requires Increasing(leaps) && T > 0 && Gaps(leaps, 1) && i < |leaps| && InInserted(leaps, T, u, i)
    ensures InfoOf(leaps, T, u) == LeapInfo(true, i + 1)
    ensures ToSys(leaps, T, u) == leaps[i] * T - 1
  {
    RecognisedInfo(leaps, T, u, i);
    Distributed(leaps[i], i, T);
    LastTick(leaps[i], u - (leaps[i] + i) * T, T);
  }

  /** A gap that leaves no room for its own inserted second. */
  lemma NotRecognised(leaps: seq<int>, T: nat, i: nat, u: int)
    requires Increasing(leaps) && T > 0 && i + 1 < |leaps| && leaps[i + 1] - leaps[i] == i && u == (leaps[i] + i) * T
    ensures InInserted(leaps, T, u, i)
    ensures InfoOf(leaps, T, u) == LeapInfo(false, i + 1) && ToSys(leaps, T, u) == leaps[i] * T - T
  {
    Distributed(leaps[i], i, T);
    Distributed(leaps[i + 1], i + 1, T);
    if i + 2 < |leaps| {
      Scaled(leaps[i + 1] + 1, leaps[i + 2], T);
      Scaled(leaps[i + 1], leaps[i + 2], T);
    }
    OnlyUpper(leaps, T, u, i + 2);
    Scaled(1, i, T);
  }

  lemma GapOfOneMore(leaps: seq<int>)
    requires Increasing(leaps) && Gaps(leaps, 0) && !Gaps(leaps, 1)
    ensures exists i: nat :: i + 1 < |leaps| && leaps[i + 1] - leaps[i] == i
  {
    var i :| 0 <= i < |leaps| - 1 && leaps[i + 1] - leaps[i] < 1 + i;
    assert i + 1 < |leaps| && leaps[i + 1] - leaps[i] == i;
  }

  /** Where system time survives, inserted seconds are recognised, and nothing else is, exactly when
      each gap leaves room for its own second. */
  lemma RecognisedExactly(leaps: seq<int>, T: nat)
    requires Increasing(leaps) && T > 0 && Gaps(leaps, 0)
    ensures (forall u :: InfoOf(leaps, T, u).inserted <==> Inserted(leaps, T, u)) <==> Gaps(leaps, 1)
  {
    if Gaps(leaps, 1) {
      forall u
        ensures InfoOf(leaps, T, u).inserted <==> Inserted(leaps, T, u)
      {
        if Inserted(leaps, T, u) {
          var i: nat :| i < |leaps| && InInserted(leaps, T, u, i);
          Recognised(leaps, T, u, i);
        } else {
          OthersComeFromSys(leaps, T, u);
          BackFrom(leaps, T, u - Passed(leaps, T, u) * T);
        }
      }
    } else {
      GapOfOneMore(leaps);
      var i: nat :| i + 1 < |leaps| && leaps[i + 1] - leaps[i] == i;
      NotRecognised(leaps, T, i, (leaps[i] + i) * T);
      assert Inserted(leaps, T, (leaps[i] + i) * T);
    }
  }

  // ---- The two clocks together ----

  lemma LatestAtSys(leaps: seq<int>, T: nat, t: int, t': int)
    requires Increasing(leaps) && T > 0
    ensures FromSys(leaps, T, t) <= FromSys(leaps, T, t') <==> t <= t'
  {
    if t < t' {
      FromSysGrows(leaps, T, t, t');
    } else if t' < t {
      FromSysGrows(leaps, T, t', t);
    }
  }

  /** The last tick before a date is the latest system time not after its inserted second. */
  lemma LatestAtInserted(leaps: seq<int>, T: nat, t: int, u: int, i: nat)
    requires Increasing(leaps) && T > 0 && i < |leaps| && InInserted(leaps, T, u, i)
    ensures FromSys(leaps, T, t) <= u <==> t < leaps[i] * T
  {
    var last := leaps[i] * T - 1;
    BeforeDate(leaps, T, i);
    AtDate(leaps, T, i);
    Distributed(leaps[i], i, T);
    LatestAtSys(leaps, T, t, last);
    LatestAtSys(leaps, T, last + 1, t);
  }

  lemma AtDate(leaps: seq<int>, T: nat, i: nat)
    requires Increasing(leaps) && T > 0 && i < |leaps|
    ensures FromSys(leaps, T, leaps[i] * T) == leaps[i] * T + i * T + T
  {
    if i + 1 < |leaps| {
      Scaled(leaps[i] + 1, leaps[i + 1], T);
      Scaled(leaps[i], leaps[i + 1], T);
    }
    OnlyUpper(leaps, T, leaps[i] * T, i + 1);
    Distributed(leaps[i], i, T);
  }

  /** At a date UTC passes over one second: the last tick before it and the date itself are a second and
      a tick apart. */
  lemma DateInUtc(leaps: seq<int>, T: nat, i: nat)
    requires Increasing(leaps) && T > 0 && i < |leaps|
    ensures FromSys(leaps, T, leaps[i] * T - 1) == (leaps[i] + i) * T - 1
    ensures FromSys(leaps, T, leaps[i] * T) == (leaps[i] + i + 1) * T
  {
    BeforeDate(leaps, T, i);
    AtDate(leaps, T, i);
    Distributed(leaps[i], i, T);
  }

  /** That second is recognised as inserted, whatever the tick, and ends just before the date. */
  lemma SecondAtDate(leaps: seq<int>, T: nat, i: nat, u: int)
    requires Increasing(leaps) && T > 0 && i < |leaps| && (leaps[i] + i) * T <= u < (leaps[i] + i + 1) * T
    requires forall j :: 0 <= j < |leaps| - 1 ==> leaps[j + 1] - leaps[j] > j
    ensures InfoOf(leaps, T, u) == LeapInfo(true, i + 1) && ToSys(leaps, T, u) == leaps[i] * T - 1
  {
    Recognised(leaps, T, u, i);
  }

  /** The system time of u is the latest whose UTC is not after u. */
  lemma ToSysIsLatest(leaps: seq<int>, T: nat, t: int, u: int)
    requires Increasing(leaps) && T > 0 && Gaps(leaps, 1)
    ensures FromSys(leaps, T, t) <= u <==> t <= ToSys(leaps, T, u)
  {
    if Inserted(leaps, T, u) {
      var i: nat :| i < |leaps| && InInserted(leaps, T, u, i);
      Recognised(leaps, T, u, i);
      LatestAtInserted(leaps, T, t, u, i);
    } else {
      OthersComeFromSys(leaps, T, u);
      BackFrom(leaps, T, u - Passed(leaps, T, u) * T);
      LatestAtSys(leaps, T, t, u - Passed(leaps, T, u) * T);
    }
  }

  /** System time never runs backwards while UTC runs. */
  lemma ToSysGrows(leaps: seq<int>, T: nat, u: int, u': int)
    requires Increasing(leaps) && T > 0 && Gaps(leaps, 1) && u <= u'
    ensures ToSys(leaps, T, u) <= ToSys(leaps, T, u')
  {
    ToSysIsLatest(leaps, T, ToSys(leaps, T, u), u);
    ToSysIsLatest(leaps, T, ToSys(leaps, T, u), u');
  }

  /** With several ticks to the second, a gap without room for its own second makes system time run backwards. */
  lemma ToSysFalls(leaps: seq<int>, T: nat)
    requires Increasing(leaps) && T > 1 && Gaps(leaps, 0)
    ensures (forall u :: ToSys(leaps, T, u) <= ToSys(leaps, T, u + 1)) <==> Gaps(leaps, 1)
  {
    if Gaps(leaps, 1) {
      forall u
        ensures ToSys(leaps, T, u) <= ToSys(leaps, T, u + 1)
      {
        ToSysGrows(leaps, T, u, u + 1);
      }
    } else {
      GapOfOneMore(leaps);
      var i: nat :| i + 1 < |leaps| && leaps[i + 1] - leaps[i] == i;
      FallsAt(leaps, T, i);
    }
  }

  lemma FallsAt(leaps: seq<int>, T: nat, i: nat)
    requires Increasing(leaps) && T > 1 && Gaps(leaps, 0) && i + 1 < |leaps| && leaps[i + 1] - leaps[i] == i
    ensures var u := (leaps[i] + i) * T - 1; ToSys(leaps, T, u + 1) < ToSys(leaps, T, u)
  {
    var u := (leaps[i] + i) * T;
    Distributed(leaps[i], i, T);
    BeforeDate(leaps, T, i);
    BackFrom(leaps, T, leaps[i] * T - 1);
    NotRecognised(leaps, T, i, u);
  }
}
