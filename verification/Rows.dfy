/** Items of different sizes in a row. */
module Rows {
  import opened Bits
  import opened Wire

  function Total(sizes: seq<nat>): nat {
    if sizes == [] then 0 else Total(sizes[..|sizes| - 1]) + sizes[|sizes| - 1]
  }

  lemma {:induction false} PrefixTotal(sizes: seq<nat>, i: nat)
    requires i < |sizes|
    ensures Total(sizes[..i]) + sizes[i] == Total(sizes[..i + 1]) <= Total(sizes)
    decreases |sizes|
  {
    assert sizes[..i + 1][..i] == sizes[..i];
    if i < |sizes| - 1 {
      var init := sizes[..|sizes| - 1];
      PrefixTotal(init, i);
      assert init[..i] == sizes[..i] && init[..i + 1] == sizes[..i + 1];
    } else {
      assert sizes[..i + 1] == sizes;
    }
  }

  /** The i-th item of s. */
  function Part(sizes: seq<nat>, s: seq<byte>, i: nat): (item: seq<byte>)
    requires |s| == Total(sizes) && i < |sizes|
    ensures |item| == sizes[i]
  {
    PrefixTotal(sizes, i);
    s[Total(sizes[..i])..Total(sizes[..i + 1])]
  }

  lemma PartIs(sizes: seq<nat>, row: seq<byte>, i: nat, j: nat, k: nat)
    requires |row| == Total(sizes) && i < |sizes| && j == Total(sizes[..i]) && k == Total(sizes[..i + 1])
    ensures j <= k <= |row| && Part(sizes, row, i) == row[j..k]
  {
    PrefixTotal(sizes, i);
  }

  function Parts(sizes: seq<nat>, s: seq<byte>): (items: seq<seq<byte>>)
    requires |s| == Total(sizes)
    ensures Sized(sizes, items)
  {
    seq(|sizes|, i requires 0 <= i < |sizes| => Part(sizes, s, i))
  }

  ghost predicate Sized(sizes: seq<nat>, items: seq<seq<byte>>) {
    |items| == |sizes| && forall i :: 0 <= i < |items| ==> |items[i]| == sizes[i]
  }

  lemma {:induction false} FirstItems(sizes: seq<nat>, items: seq<seq<byte>>, i: nat)
    requires Sized(sizes, items) && i <= |sizes|
    ensures |Flat(items[..i])| == Total(sizes[..i])
  {
    if i > 0 {
      FirstItems(sizes, items, i - 1);
      FlatExtended(items, i - 1);
      PrefixTotal(sizes, i - 1);
    }
  }

  lemma ItemInFlat(sizes: seq<nat>, items: seq<seq<byte>>, i: nat)
    requires Sized(sizes, items) && i < |sizes| && |Flat(items)| == Total(sizes)
    ensures Part(sizes, Flat(items), i) == items[i]
  {
    var j, k := Total(sizes[..i]), Total(sizes[..i + 1]);
    FirstItems(sizes, items, i);
    PrefixTotal(sizes, i);
    FlatAround(items, i);
    MiddlePart(Flat(items[..i]), items[i], Flat(items[i + 1..]), Flat(items), j, k);
    PartIs(sizes, Flat(items), i, j, k);
  }

  lemma FlatAround(items: seq<seq<byte>>, i: nat)
    requires i < |items|
    ensures Flat(items) == Flat(items[..i]) + items[i] + Flat(items[i + 1..])
  {
    FlatExtended(items, i);
    FlatConcat(items[..i + 1], items[i + 1..]);
    TakeAndDrop(items, i + 1);
  }

  lemma TakeAndDrop(items: seq<seq<byte>>, i: nat)
    requires i <= |items|
    ensures items[..i] + items[i..] == items
  {
  }

  lemma MiddlePart(a: seq<byte>, b: seq<byte>, c: seq<byte>, s: seq<byte>, j: nat, k: nat)
    requires s == a + b + c && j == |a| && k == j + |b|
    ensures s[j..k] == b
  {
  }

  /** Items put in a row are found again. */
  lemma PartsOfFlat(sizes: seq<nat>, items: seq<seq<byte>>)
    requires Sized(sizes, items)
    ensures |Flat(items)| == Total(sizes) && Parts(sizes, Flat(items)) == items
  {
    FirstItems(sizes, items, |sizes|);
    assert sizes[..|sizes|] == sizes && items[..|sizes|] == items;
    forall i | 0 <= i < |sizes|
      ensures Parts(sizes, Flat(items))[i] == items[i]
    {
      ItemInFlat(sizes, items, i);
    }
  }

  lemma PrefixExtended(s: seq<byte>, j: nat, k: nat)
    requires j <= k <= |s|
    ensures s[..k] == s[..j] + s[j..k]
  {
  }

  lemma {:induction false} FirstParts(sizes: seq<nat>, s: seq<byte>, i: nat)
    requires |s| == Total(sizes) && i <= |sizes|
    ensures Total(sizes[..i]) <= |s| && Flat(Parts(sizes, s)[..i]) == s[..Total(sizes[..i])]
  {
    if i > 0 {
      FirstParts(sizes, s, i - 1);
      PrefixTotal(sizes, i - 1);
      FlatExtended(Parts(sizes, s), i - 1);
      PartIs(sizes, s, i - 1, Total(sizes[..i - 1]), Total(sizes[..i]));
      PrefixExtended(s, Total(sizes[..i - 1]), Total(sizes[..i]));
    }
  }

  lemma FlatOfParts(sizes: seq<nat>, s: seq<byte>)
    requires |s| == Total(sizes)
    ensures Flat(Parts(sizes, s)) == s
  {
    FirstParts(sizes, s, |sizes|);
    assert sizes[..|sizes|] == sizes && Parts(sizes, s)[..|sizes|] == Parts(sizes, s);
  }

  /** Items in a row are the bytes s exactly when each is its part of s. */
  lemma RowsAlike(sizes: seq<nat>, items: seq<seq<byte>>, s: seq<byte>)
    requires Sized(sizes, items) && |s| == Total(sizes)
    ensures Flat(items) == s <==> forall i :: 0 <= i < |sizes| ==> items[i] == Part(sizes, s, i)
  {
    PartsOfFlat(sizes, items);
    FlatOfParts(sizes, s);
    assert items == Parts(sizes, s) <==> forall i :: 0 <= i < |sizes| ==> items[i] == Part(sizes, s, i) by {
      assert forall i :: 0 <= i < |sizes| ==> Parts(sizes, s)[i] == Part(sizes, s, i);
    }
  }

  /** Items of width w stand in a row. */
  ghost predicate StandAt(s: seq<byte>, at: nat, items: seq<seq<byte>>, w: nat) {
    AllWide(items, w) && at + |Flat(items)| <= |s| && s[at..at + |Flat(items)|] == Flat(items)
  }

  lemma ItemAt(s: seq<byte>, at: nat, items: seq<seq<byte>>, w: nat, i: nat, pos: nat)
    requires StandAt(s, at, items, w) && i < |items| && at <= pos == at + w * i
    ensures pos + w <= |s| && s[pos..pos + w] == items[i]
  {
    ChunksOfFlat(items, w);
    ChunkAt(Flat(items), w, |items|, i, pos - at);
    PieceOfRow(s, at, Flat(items), pos - at, w, pos, items[i]);
  }

  lemma PieceOfRow(s: seq<byte>, at: nat, row: seq<byte>, k: nat, w: nat, pos: nat, piece: seq<byte>)
    requires at + |row| <= |s| && row == s[at..at + |row|] && k + w <= |row| && pos == at + k && piece == row[k..k + w]
    ensures pos + w <= |s| && s[pos..pos + w] == piece
  {
    RowSlice(s, at, row, pos, pos + w);
  }

  // ---- Writing items of one width ----

  /** The first i items of width w are written. */
  ghost predicate ItemsWritten(was: seq<byte>, now: seq<byte>, at: nat, items: seq<seq<byte>>, w: nat, i: nat,
                               end: nat)
  {
    AllWide(items, w) && i <= |items| && end == at + w * i && Wrote(was, now, at, Flat(items[..i]))
  }

  lemma NoItems(was: seq<byte>, at: nat, items: seq<seq<byte>>, w: nat)
    requires AllWide(items, w) && at <= |was|
    ensures ItemsWritten(was, was, at, items, w, 0, at)
  {
    WroteNothing(was, at);
  }

  lemma NextItem(was: seq<byte>, mid: seq<byte>, now: seq<byte>, at: nat, items: seq<seq<byte>>, w: nat, i: nat,
                 end: nat)
    requires ItemsWritten(was, mid, at, items, w, i, end) && i < |items| && Wrote(mid, now, end, items[i])
    ensures ItemsWritten(was, now, at, items, w, i + 1, end + w)
  {
    FlatLength(items[..i], w);
    WroteMore(was, mid, now, at, Flat(items[..i]), items[i]);
    FlatExtended(items, i);
    assert w * (i + 1) == w * i + w;
  }

  lemma AllItems(was: seq<byte>, now: seq<byte>, at: nat, items: seq<seq<byte>>, w: nat, end: nat)
    requires ItemsWritten(was, now, at, items, w, |items|, end)
    ensures end == at + |Flat(items)| && Wrote(was, now, at, Flat(items))
  {
    FlatLength(items, w);
    assert items[..|items|] == items;
  }

  lemma RoomForItem(at: nat, items: seq<seq<byte>>, w: nat, i: nat)
    requires AllWide(items, w) && i < |items|
    ensures at + w * i + w <= at + |Flat(items)|
  {
    FlatLength(items, w);
    assert w * i + w == w * (i + 1) <= w * |items|;
  }

  // ---- Writing a row ----

  /** The first i items are written from a position up to end. */
  ghost predicate RowWritten(was: seq<byte>, now: seq<byte>, at: nat, sizes: seq<nat>, items: seq<seq<byte>>, i: nat,
                             end: nat) {
    && Sized(sizes, items) && i <= |sizes| && end == at + Total(sizes[..i])
    && Wrote(was, now, at, Flat(items[..i]))
  }

  lemma NoneWritten(was: seq<byte>, at: nat, sizes: seq<nat>, items: seq<seq<byte>>)
    requires Sized(sizes, items) && |was| >= at
    ensures RowWritten(was, was, at, sizes, items, 0, at)
  {
    WroteNothing(was, at);
  }

  lemma NextWritten(was: seq<byte>, mid: seq<byte>, now: seq<byte>, at: nat, sizes: seq<nat>, items: seq<seq<byte>>,
                    i: nat, end: nat)
    requires RowWritten(was, mid, at, sizes, items, i, end) && i < |sizes| && Wrote(mid, now, end, items[i])
    ensures RowWritten(was, now, at, sizes, items, i + 1, end + sizes[i])
  {
    FirstItems(sizes, items, i);
    PrefixTotal(sizes, i);
    WroteMore(was, mid, now, at, Flat(items[..i]), items[i]);
    FlatExtended(items, i);
  }

  lemma AllWritten(was: seq<byte>, now: seq<byte>, at: nat, sizes: seq<nat>, items: seq<seq<byte>>, end: nat)
    requires RowWritten(was, now, at, sizes, items, |sizes|, end)
    ensures end == at + Total(sizes) && Wrote(was, now, at, Flat(items))
  {
    assert sizes[..|sizes|] == sizes && items[..|sizes|] == items;
  }

  /** What the next item is written over is what stood there at first. */
  lemma NextUnder(was: seq<byte>, mid: seq<byte>, at: nat, sizes: seq<nat>, items: seq<seq<byte>>, i: nat, end: nat,
                  row: seq<byte>)
    requires RowWritten(was, mid, at, sizes, items, i, end) && i < |sizes|
    requires |row| == Total(sizes) && at + |row| <= |was| && row == was[at..at + |row|]
    ensures end + sizes[i] <= |mid| && mid[end..end + sizes[i]] == Part(sizes, row, i)
  {
    FirstItems(sizes, items, i);
    var hi := end + sizes[i];
    assert hi == at + Total(sizes[..i + 1]) by { PrefixTotal(sizes, i); }
    PartAt(was, at, sizes, i, end, hi, row);
    LaterKept(was, mid, at, Flat(items[..i]), end, hi);
  }

  /** The i-th item of a row that stands at a position, itself standing from lo to hi. */
  lemma PartAt(was: seq<byte>, at: nat, sizes: seq<nat>, i: nat, lo: nat, hi: nat, row: seq<byte>)
    requires i < |sizes| && lo == at + Total(sizes[..i]) && hi == at + Total(sizes[..i + 1])
    requires |row| == Total(sizes) && at + |row| <= |was| && row == was[at..at + |row|]
    ensures lo <= hi <= |was| && Part(sizes, row, i) == was[lo..hi]
  {
    PartIs(sizes, row, i, lo - at, hi - at);
    RowSlice(was, at, row, lo, hi);
  }

  lemma RowSlice(was: seq<byte>, at: nat, row: seq<byte>, lo: nat, hi: nat)
    requires at + |row| <= |was| && row == was[at..at + |row|] && at <= lo <= hi <= at + |row|
    ensures row[lo - at..hi - at] == was[lo..hi]
  {
    SubSlice(was, at, |row|, lo - at, hi - at);
  }

  lemma LaterKept(was: seq<byte>, mid: seq<byte>, at: nat, s: seq<byte>, end: nat, k: nat)
    requires Wrote(was, mid, at, s) && end == at + |s| && end <= k <= |was|
    ensures mid[end..k] == was[end..k]
  {
    assert mid[end..] == was[end..];
    SameLater(mid, was, end, end, k);
  }
}
