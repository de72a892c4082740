/** Big-endian words, lists of fixed-width items, and writing into a buffer. */
module Wire {
  import opened Bits

  type Word16 = x: int | 0 <= x < 0x1_0000
  type Word32 = x: int | 0 <= x < 0x1_0000_0000

  type Int32 = x: int | -0x8000_0000 <= x < 0x8000_0000

  /** Conversion to an 8-bit unsigned number. */
  function LowByte(n: nat): byte {
    n % 0x100
  }

  function Bytes2(n: nat): (s: seq<byte>)
    ensures |s| == 2
  {
    [LowByte(n / 0x100), LowByte(n)]
  }

  function Bytes3(n: nat): (s: seq<byte>)
    ensures |s| == 3
  {
    [LowByte(n / 0x1_0000), LowByte(n / 0x100), LowByte(n)]
  }

  function Bytes4(n: nat): (s: seq<byte>)
    ensures |s| == 4
  {
    [LowByte(n / 0x100_0000), LowByte(n / 0x1_0000), LowByte(n / 0x100), LowByte(n)]
  }

  function Word2(s: seq<byte>): Word16
    requires |s| == 2
  {
    (s[0] as int) * 0x100 + s[1]
  }

  function Word3(s: seq<byte>): (n: nat)
    requires |s| == 3
    ensures n < 0x100_0000
  {
    (s[0] as int) * 0x1_0000 + (s[1] as int) * 0x100 + s[2]
  }

  function Word4(s: seq<byte>): Word32
    requires |s| == 4
  {
    (s[0] as int) * 0x100_0000 + (s[1] as int) * 0x1_0000 + (s[2] as int) * 0x100 + s[3]
  }

  /** The first byte counts most; words of three and four bytes hold words of two. */
  lemma WordsInWords(s: seq<byte>, t: seq<byte>, u: seq<byte>)
    requires |s| == 2 && |t| == 3 && |u| == 4
    ensures Word2(s) == (s[0] as int) * 0x100 + s[1]
    ensures Word3(t) == (t[0] as int) * 0x1_0000 + Word2(t[1..])
    ensures Word4(u) == Word2(u[..2]) * 0x1_0000 + Word2(u[2..])
  {
  }

  lemma Word2OfBytes(n: Word16)
    ensures Word2(Bytes2(n)) == n
  {
  }

  lemma Bytes2OfWord(s: seq<byte>)
    requires |s| == 2
    ensures Bytes2(Word2(s)) == s
  {
  }

  lemma Bytes3OfWord(s: seq<byte>)
    requires |s| == 3
    ensures Bytes3(Word3(s)) == s
  {
    var n: int := Word3(s);
    var a: int := (s[0] as int) * 0x100 + s[1];
    assert n == a * 0x100 + s[2] && n / 0x100 == a;
    assert n / 0x1_0000 == a / 0x100;
  }

  lemma Word4OfBytes(n: Word32)
    ensures Word4(Bytes4(n)) == n
  {
    var a: int := n / 0x100;
    var b: int := a / 0x100;
    assert n / 0x1_0000 == b;
    assert n / 0x100_0000 == b / 0x100;
  }

  lemma Bytes4OfWord(s: seq<byte>)
    requires |s| == 4
    ensures Bytes4(Word4(s)) == s
  {
    var n: int := Word4(s);
    var a: int := (s[0] as int) * 0x100 + s[1];
    var b: int := a * 0x100 + s[2];
    assert n == b * 0x100 + s[3] && n / 0x100 == b && b / 0x100 == a;
    assert n / 0x1_0000 == a && n / 0x100_0000 == a / 0x100;
  }

  lemma SubSlice(s: seq<byte>, at: nat, n: nat, i: nat, j: nat)
    requires at + n <= |s| && i <= j <= n
    ensures s[at..at + n][i..j] == s[at + i..at + j]
  {
    var l, r := s[at..at + n][i..j], s[at + i..at + j];
    forall k | 0 <= k < j - i
      ensures l[k] == r[k]
    {
      assert l[k] == s[at..at + n][i + k] && r[k] == s[at + i + k];
    }
  }

  lemma SameLater(s: seq<byte>, t: seq<byte>, m: nat, i: nat, j: nat)
    requires |s| == |t| && m <= i <= j <= |s| && s[m..] == t[m..]
    ensures s[i..j] == t[i..j]
  {
    assert s[m..m + (|s| - m)] == s[m..] && t[m..m + (|t| - m)] == t[m..];
    SubSlice(s, m, |s| - m, i - m, j - m);
    SubSlice(t, m, |t| - m, i - m, j - m);
  }

  // ---- Lists of fixed-width items ----

  ghost predicate AllWide(items: seq<seq<byte>>, w: nat) {
    forall i :: 0 <= i < |items| ==> |items[i]| == w
  }

  function Flat(items: seq<seq<byte>>): seq<byte> {
    if items == [] then [] else Flat(items[..|items| - 1]) + items[|items| - 1]
  }

  /** The n items of width w in s. */
  function Chunks(s: seq<byte>, w: nat, n: nat): (items: seq<seq<byte>>)
    requires |s| == w * n
    ensures |items| == n && forall i :: 0 <= i < n ==> |items[i]| == w
  {
    if n == 0 then []
    else
      assert w * n - w == w * (n - 1);
      Chunks(s[..w * n - w], w, n - 1) + [s[w * n - w..]]
  }

  lemma {:induction false} FlatLength(items: seq<seq<byte>>, w: nat)
    requires AllWide(items, w)
    ensures |Flat(items)| == w * |items|
  {
    if items != [] {
      var n := |items|;
      FlatLength(items[..n - 1], w);
      assert w * n == w * (n - 1) + w;
    }
  }

  lemma {:induction false} ChunksOfFlat(items: seq<seq<byte>>, w: nat)
    requires AllWide(items, w)
    ensures |Flat(items)| == w * |items| && Chunks(Flat(items), w, |items|) == items
  {
    FlatLength(items, w);
    if items != [] {
      var n := |items|;
      var init := items[..n - 1];
      ChunksOfFlat(init, w);
      assert w * n - w == w * (n - 1);
      assert Flat(items)[..w * n - w] == Flat(init);
      assert Flat(items)[w * n - w..] == items[n - 1];
    }
  }

  lemma {:induction false} FlatOfChunks(s: seq<byte>, w: nat, n: nat)
    requires |s| == w * n
    ensures AllWide(Chunks(s, w, n), w) && Flat(Chunks(s, w, n)) == s
  {
    if n > 0 {
      assert w * n - w == w * (n - 1);
      FlatOfChunks(s[..w * n - w], w, n - 1);
      assert s == s[..w * n - w] + s[w * n - w..];
    }
  }

  lemma {:induction false} FlatConcat(xs: seq<seq<byte>>, ys: seq<seq<byte>>)
    ensures Flat(xs + ys) == Flat(xs) + Flat(ys)
  {
    if ys == [] {
      assert xs + ys == xs;
    } else {
      var zs, y := ys[..|ys| - 1], ys[|ys| - 1];
      assert Flat(xs + ys) == Flat(xs + zs) + y by {
        assert (xs + ys)[..|xs + ys| - 1] == xs + zs;
      }
      FlatConcat(xs, zs);
    }
  }

  lemma {:induction false} ChunksConcat(s: seq<byte>, t: seq<byte>, w: nat, m: nat, n: nat)
    requires |s| == w * m && |t| == w * n
    ensures |s + t| == w * (m + n) && Chunks(s + t, w, m + n) == Chunks(s, w, m) + Chunks(t, w, n)
    decreases n
  {
    Distribute(w, m, n);
    if n == 0 {
      assert s + t == s;
    } else {
      var k := w * n - w;
      MultipleBelow(w, 0, n);
      ChunksConcat(s, t[..k], w, m, n - 1);
      BehindConcat(s, t, k);
    }
  }

  lemma Distribute(w: nat, m: nat, n: nat)
    ensures w * (m + n) == w * m + w * n
  {
  }

  lemma BehindConcat(s: seq<byte>, t: seq<byte>, k: nat)
    requires k <= |t|
    ensures (s + t)[..|s| + k] == s + t[..k] && (s + t)[|s| + k..] == t[k..]
  {
  }

  /** The i-th item, which starts at k. */
  lemma {:induction false} ChunkAt(s: seq<byte>, w: nat, n: nat, i: nat, k: nat)
    requires |s| == w * n && i < n && k == w * i
    ensures k + w <= |s| && Chunks(s, w, n)[i] == s[k..k + w]
    decreases n
  {
    var m := w * n - w;
    MultipleBelow(w, i, n);
    if i < n - 1 {
      ChunkAt(s[..m], w, n - 1, i, k);
      SubSlice(s, 0, m, k, k + w);
    }
  }

  lemma MultipleBelow(w: nat, i: nat, n: nat)
    requires i < n
    ensures w * n - w == w * (n - 1) && w * i <= w * n - w && (i == n - 1 ==> w * i == w * n - w)
  {
    var d := n - 1 - i;
    assert w * d >= 0;
    assert w * (i + d) == w * i + w * d;
    assert w * (n - 1) + w == w * n;
  }

  lemma FlatExtended(items: seq<seq<byte>>, i: nat)
    requires i < |items|
    ensures Flat(items[..i + 1]) == Flat(items[..i]) + items[i]
  {
    assert items[..i + 1][..i] == items[..i];
  }

  // ---- Writing into a buffer ----

  function Replace(s: seq<byte>, at: nat, t: seq<byte>): (r: seq<byte>)
    requires at + |t| <= |s|
    ensures |r| == |s|
  {
    s[..at] + t + s[at + |t|..]
  }

  /** now is the buffer `was` with s written at a position. */
  ghost predicate Wrote(was: seq<byte>, now: seq<byte>, at: nat, s: seq<byte>) {
    at + |s| <= |was| && now == Replace(was, at, s)
  }

  lemma WroteNothing(was: seq<byte>, at: nat)
    requires at <= |was|
    ensures Wrote(was, was, at, [])
  {
  }

  lemma WroteMore(was: seq<byte>, mid: seq<byte>, now: seq<byte>, at: nat, s: seq<byte>, t: seq<byte>)
    requires Wrote(was, mid, at, s) && Wrote(mid, now, at + |s|, t)
    ensures Wrote(was, now, at, s + t)
  {
    assert mid[..at + |s|] == was[..at] + s;
    assert mid[at + |s| + |t|..] == was[at + |s| + |t|..];
  }

  lemma ThreeWritten(was: seq<byte>, m1: seq<byte>, m2: seq<byte>, now: seq<byte>, at: nat,
                     a: seq<byte>, b: seq<byte>, c: seq<byte>)
    requires Wrote(was, m1, at, a) && Wrote(m1, m2, at + |a|, b) && Wrote(m2, now, at + |a| + |b|, c)
    ensures Wrote(was, now, at, a + b + c)
  {
    WroteMore(was, m1, m2, at, a, b);
    WroteMore(was, m2, now, at, a + b, c);
  }

  lemma ThreeFlatsLength(x: seq<seq<byte>>, y: seq<seq<byte>>, z: seq<seq<byte>>)
    ensures |Flat(x + y + z)| == |Flat(x)| + |Flat(y)| + |Flat(z)|
  {
    FlatConcat(x, y);
    FlatConcat(x + y, z);
  }

  lemma ThreeFlatsWritten(was: seq<byte>, m1: seq<byte>, m2: seq<byte>, now: seq<byte>, at: nat,
                          x: seq<seq<byte>>, y: seq<seq<byte>>, z: seq<seq<byte>>, i: nat, j: nat)
    requires i == at + |Flat(x)| && j == i + |Flat(y)|
    requires Wrote(was, m1, at, Flat(x)) && Wrote(m1, m2, i, Flat(y)) && Wrote(m2, now, j, Flat(z))
    ensures Wrote(was, now, at, Flat(x + y + z))
  {
    FlatConcat(x, y);
    FlatConcat(x + y, z);
    ThreeWritten(was, m1, m2, now, at, Flat(x), Flat(y), Flat(z));
  }

  /** memcpy into a buffer. */
  method Put(data: array<byte>, at: nat, s: seq<byte>)
    requires at + |s| <= data.Length
    modifies data
    ensures Wrote(old(data[..]), data[..], at, s)
  {
    ghost var was := data[..];
    var i := 0;
    while i < |s|
      invariant 0 <= i <= |s|
      invariant forall j :: 0 <= j < data.Length ==> data[j] == if at <= j < at + i then s[j - at] else was[j]
    {
      data[at + i] := s[i];
      i := i + 1;
    }
  }
}
