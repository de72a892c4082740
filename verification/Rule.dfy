/** Time-zone rules: a payload in effect over an interval of years, and the order in which the
    database keeps them. */
module Rules {
  import opened MonthDayTimes

  datatype Payload = Payload(name: string, at: MonthDayTime, save: int, abbrev: string)

  /** A rule holds in the years start..stop, both included. */
  datatype Rule = Rule(payload: Payload, start: int, stop: int) {
    function Name(): string { payload.name }
    function Month(): int { MonthKey(payload.at.day) }
    function Day(): int { DayKey(payload.at.day) }
    predicate Valid() { start <= stop && payload.at.day.Valid() }
    predicate Covers(y: int) { start <= y <= stop }
  }

  /** The order of std::string. */
  predicate StringLess(a: string, b: string) {
    if b == [] then false
    else if a == [] then true
    else if a[0] != b[0] then a[0] < b[0]
    else StringLess(a[1..], b[1..])
  }

  /** The order of std::tie(name, starting year, month, ending year). */
  predicate TieLess(x: Rule, y: Rule) {
    if x.Name() != y.Name() then StringLess(x.Name(), y.Name())
    else if x.start != y.start then x.start < y.start
    else if x.Month() != y.Month() then x.Month() < y.Month()
    else x.stop < y.stop
  }

  predicate Less(x: Rule, y: Rule) {
    if TieLess(x, y) then true
    else if TieLess(y, x) then false
    else x.Day() < y.Day()
  }

  predicate NotAfter(x: Rule, y: Rule) {
    !Less(y, x)
  }

  ghost predicate Sorted(s: seq<Rule>) {
    forall i, j :: 0 <= i < j < |s| ==> NotAfter(s[i], s[j])
  }

  lemma {:induction false} StringLessTotal(a: string, b: string)
    ensures !(StringLess(a, b) && StringLess(b, a))
    ensures a != b ==> StringLess(a, b) || StringLess(b, a)
    ensures !StringLess(a, a)
    decreases |a|
  {
    if a != [] {
      if b != [] && a[0] == b[0] {
        StringLessTotal(a[1..], b[1..]);
        assert a == [a[0]] + a[1..] && b == [b[0]] + b[1..];
      }
      StringLessTotal(a[1..], a[1..]);
    }
  }

  lemma {:induction false} StringLessTransitive(a: string, b: string, c: string)
    requires StringLess(a, b) && StringLess(b, c)
    ensures StringLess(a, c)
  {
    if a != [] && a[0] == b[0] == c[0] {
      StringLessTransitive(a[1..], b[1..], c[1..]);
    }
  }

  lemma NotAfterTotal(x: Rule, y: Rule)
    ensures NotAfter(x, y) || NotAfter(y, x)
    ensures NotAfter(x, x)
  {
    StringLessTotal(x.Name(), y.Name());
  }

  /** Among rules of one name the order compares starting year, month, ending year and day. */
  ghost predicate KeyNotAfter(x: Rule, y: Rule) {
    if x.start != y.start then x.start < y.start
    else if x.Month() != y.Month() then x.Month() < y.Month()
    else if x.stop != y.stop then x.stop < y.stop
    else x.Day() <= y.Day()
  }

  lemma NotAfterByNameThenKey(x: Rule, y: Rule)
    ensures NotAfter(x, y) <==> if x.Name() == y.Name() then KeyNotAfter(x, y) else StringLess(x.Name(), y.Name())
  {
    StringLessTotal(x.Name(), y.Name());
  }

  lemma NotAfterTransitive(x: Rule, y: Rule, z: Rule)
    requires NotAfter(x, y) && NotAfter(y, z)
    ensures NotAfter(x, z)
  {
    NotAfterByNameThenKey(x, y);
    NotAfterByNameThenKey(y, z);
    NotAfterByNameThenKey(x, z);
    if x.Name() != y.Name() && y.Name() != z.Name() {
      StringLessTransitive(x.Name(), y.Name(), z.Name());
      StringLessTotal(x.Name(), z.Name());
    }
  }

  /** A sorted permutation of s, the contract of std::sort. */
  function SortRules(s: seq<Rule>): (t: seq<Rule>)
    ensures Sorted(t) && multiset(t) == multiset(s)
  {
    if s == [] then []
    else
      assert s == [s[0]] + s[1..];
      Insert(s[0], SortRules(s[1..]))
  }

  function Insert(r: Rule, s: seq<Rule>): (t: seq<Rule>)
    requires Sorted(s)
    ensures Sorted(t) && multiset(t) == multiset{r} + multiset(s)
  {
    if s == [] then [r]
    else if NotAfter(r, s[0]) then
      assert Sorted([r] + s) by {
        forall j | 0 <= j < |s| ensures NotAfter(r, s[j]) {
          if j > 0 { NotAfterTransitive(r, s[0], s[j]); }
        }
      }
      [r] + s
    else
      var rest := Insert(r, s[1..]);
      assert s == [s[0]] + s[1..];
      assert Sorted([s[0]] + rest) by {
        NotAfterTotal(r, s[0]);
        forall j | 0 <= j < |rest| ensures NotAfter(s[0], rest[j]) {
          assert rest[j] in multiset(rest);
          assert rest[j] == r || rest[j] in s[1..];
        }
      }
      [s[0]] + rest
  }
}
