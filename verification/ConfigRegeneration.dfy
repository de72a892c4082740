/** Writing a parsed configuration frame again (clause 6.4 of IEEE Std C37.118.2-2011). */
module ConfigRegeneration {
  import opened Bits
  import opened Wire
  import opened CommonFrames
  import opened PmuConfigs
  import opened ConfigFrames

  /** A finished configuration frame is another accepted frame when all but the CHK words agree. */
  lemma SameConfigFrames(t: seq<byte>, st: seq<byte>, x: seq<byte>, y: seq<byte>, z: seq<byte>, n: nat, f: seq<byte>)
    requires IsConfigFrame(t, st, x, y, z, n) && Checked(f)
    ensures t[..n] == f[..Declared(f)] <==>
              && n == Declared(f) && StartsLike(f, st)
              && f[6..20] == x && f[20..n - 4] == y && f[n - 4..n - 2] == z
  {
    SameFrames(t, st, x + y + z, n, f);
    if n == Declared(f) {
      SubSlice(f, 6, n - 8, 0, 14);
      SubSlice(f, 6, n - 8, 14, n - 10);
      SubSlice(f, 6, n - 8, n - 10, n - 8);
      SameThreeParts(f[6..n - 2], x, y, z);
    }
  }

  lemma SameThreeParts(b: seq<byte>, x: seq<byte>, y: seq<byte>, z: seq<byte>)
    requires |b| == |x| + |y| + |z|
    ensures b == x + y + z <==> b[..|x|] == x && b[|x|..|x| + |y|] == y && b[|x| + |y|..] == z
  {
    var c := x + y + z;
    assert c[..|x|] == x && c[|x|..|x| + |y|] == y && c[|x| + |y|..] == z;
    assert b == b[..|x|] + b[|x|..|x| + |y|] + b[|x| + |y|..];
  }

  /** The blocks of a frame. */
  function BlocksOf(f: seq<byte>): (bs: seq<seq<byte>>)
    requires |f| >= 20 && TakeBlocks(f[20..], Word2(f[18..20])).Taken?
    ensures AllBlocks(bs)
  {
    TakeBlocks(f[20..], Word2(f[18..20])).blocks
  }

  predicate Complete(f: seq<byte>, prior: Config) {
    Readable(f) && HoldsPmus(f) && ParseConfig(f, prior).result == ParseComplete
  }

  predicate AllCanonical(bs: seq<seq<byte>>, prior: seq<PmuConfig>)
    requires AllBlocks(bs)
  {
    forall i :: 0 <= i < |bs| ==> CanonicalBlock(bs[i], PriorAt(prior, i))
  }

  /** The version is the one that is written, the declared size is what the PMUs take, and unused bits are zero. */
  predicate CanonicalFrame(f: seq<byte>, prior: Config)
    requires Complete(f, prior)
  {
    && f[1] == KindOf(f[1]) + VERSION_2005
    && Declared(f) == 24 + |Flat(BlocksOf(f))|
    && AllCanonical(BlocksOf(f), prior.pmus)
  }

  lemma {:induction false} SameFlats(xs: seq<seq<byte>>, ys: seq<seq<byte>>)
    requires |xs| == |ys| && forall i :: 0 <= i < |xs| ==> |xs[i]| == |ys[i]|
    ensures |Flat(xs)| == |Flat(ys)|
    ensures Flat(xs) == Flat(ys) <==> xs == ys
  {
    if xs != [] {
      var k := |xs| - 1;
      SameFlats(xs[..k], ys[..k]);
      assert xs == xs[..k] + [xs[k]] && ys == ys[..k] + [ys[k]];
      SameConcats(Flat(xs[..k]), xs[k], Flat(ys[..k]), ys[k]);
    }
  }

  lemma SameConcats(a: seq<byte>, b: seq<byte>, c: seq<byte>, d: seq<byte>)
    requires |a| == |c|
    ensures a + b == c + d <==> a == c && b == d
  {
    assert a == (a + b)[..|a|] && c == (c + d)[..|a|] && b == (a + b)[|a|..] && d == (c + d)[|a|..];
  }

  /** Parsed blocks are written as they were exactly when they are canonical. */
  lemma BlocksRestored(bs: seq<seq<byte>>, prior: seq<PmuConfig>)
    requires AllBlocks(bs)
    ensures |Flat(Blocks(DecodeBlocks(bs, prior)))| == |Flat(bs)|
    ensures (Flat(Blocks(DecodeBlocks(bs, prior))) == Flat(bs)) == AllCanonical(bs, prior)
  {
    var cs := Blocks(DecodeBlocks(bs, prior));
    forall i | 0 <= i < |bs|
      ensures |cs[i]| == |bs[i]|
      ensures cs[i] == bs[i] <==> CanonicalBlock(bs[i], PriorAt(prior, i))
    {
      EncodeOfDecode(bs[i], PriorAt(prior, i));
    }
    SameFlats(cs, bs);
  }

  lemma FixedRestored(f: seq<byte>, kept: byte, c: Config)
    requires |f| >= 20 && c.soc == Word4(f[6..10]) && c.fracsec == Word4(f[10..14])
    requires c.timeBase == Word3(f[15..18]) && |c.pmus| == Word2(f[18..20])
    ensures (f[6..20] == Fixed(kept, c)) == (kept == f[14])
  {
    Bytes4OfWord(f[6..10]);
    Bytes4OfWord(f[10..14]);
    Bytes3OfWord(f[15..18]);
    Bytes2OfWord(f[18..20]);
    assert f[6..20] == f[6..10] + f[10..14] + [f[14]] + f[15..18] + f[18..20];
    assert Fixed(kept, c)[8] == kept && f[6..20][8] == f[14];
  }

  lemma RateRestored(s: seq<byte>)
    requires |s| == 2
    ensures Bytes2(Unsigned16(Signed16(Word2(s)))) == s
  {
    Bytes2OfWord(s);
  }

  lemma RestOfFrame(f: seq<byte>)
    requires |f| >= 20 && TakeBlocks(f[20..], Word2(f[18..20])).Taken?
    requires |TakeBlocks(f[20..], Word2(f[18..20])).rest| >= 2
    ensures var k := 20 + |Flat(BlocksOf(f))|;
            && k + 2 <= |f| && f[20..k] == Flat(BlocksOf(f))
            && f[k..k + 2] == TakeBlocks(f[20..], Word2(f[18..20])).rest[..2]
  {
    var taken := TakeBlocks(f[20..], Word2(f[18..20]));
    FlatOfTaken(f[20..], Word2(f[18..20]));
    var k := 20 + |Flat(taken.blocks)|;
    assert f[20..k] == f[20..][..k - 20];
    assert f[k..k + 2] == f[20..][k - 20..][..2];
  }

  /** What a frame f says, part by part: the configuration c, with PMUs from the blocks bs. */
  ghost predicate Says(f: seq<byte>, c: Config, bs: seq<seq<byte>>, prior: seq<PmuConfig>) {
    && |f| >= 22 + |Flat(bs)| && f[0] == SYNC_LEAD
    && c.idcode == Word2(f[4..6]) && c.soc == Word4(f[6..10]) && c.fracsec == Word4(f[10..14])
    && c.timeBase == Word3(f[15..18]) && |bs| == Word2(f[18..20])
    && AllBlocks(bs) && c.pmus == DecodeBlocks(bs, prior)
    && f[20..20 + |Flat(bs)|] == Flat(bs)
    && Bytes2(Unsigned16(c.dataRate)) == f[20 + |Flat(bs)|..22 + |Flat(bs)|]
  }

  lemma ParsedSays(f: seq<byte>, prior: Config)
    requires Complete(f, prior)
    ensures Says(f, ParseConfig(f, prior).config, BlocksOf(f), prior.pmus)
  {
    RestOfFrame(f);
    RateRestored(TakeBlocks(f[20..], Word2(f[18..20])).rest[..2]);
  }

  /** A frame written again, part by part. */
  lemma PartsAgain(f: seq<byte>, t: seq<byte>, st: seq<byte>, x: seq<byte>, y: seq<byte>, z: seq<byte>, n: nat,
                   sameFixed: bool, sameBlocks: bool)
    requires IsConfigFrame(t, st, x, y, z, n) && Checked(f) && n - 2 <= |f| && f[n - 4..n - 2] == z
    requires (f[6..20] == x) == sameFixed && (f[20..n - 4] == y) == sameBlocks
    ensures (t[..n] == f[..Declared(f)]) == (Declared(f) == n && StartsLike(f, st) && sameFixed && sameBlocks)
  {
    SameConfigFrames(t, st, x, y, z, n, f);
  }

  lemma SaidParts(f: seq<byte>, c: Config, bs: seq<seq<byte>>, prior: seq<PmuConfig>, kept: byte, n: nat)
    requires Says(f, c, bs, prior) && n == 24 + |Flat(bs)|
    ensures n - 2 <= |f| && f[20..n - 4] == Flat(bs) && f[n - 4..n - 2] == Bytes2(Unsigned16(c.dataRate))
    ensures (f[6..20] == Fixed(kept, c)) == (kept == f[14])
  {
    FixedRestored(f, kept, c);
  }

  lemma SaidAgain(f: seq<byte>, c: Config, bs: seq<seq<byte>>, prior: seq<PmuConfig>, kept: byte, st: seq<byte>,
                  t: seq<byte>, n: nat)
    requires AllBlocks(bs) && c.pmus == DecodeBlocks(bs, prior) && Checked(f) && n - 2 <= |f|
    requires IsConfigFrame(t, st, Fixed(kept, c), Flat(Blocks(c.pmus)), Bytes2(Unsigned16(c.dataRate)), n)
    requires f[20..n - 4] == Flat(bs) && f[n - 4..n - 2] == Bytes2(Unsigned16(c.dataRate))
    requires (f[6..20] == Fixed(kept, c)) == (kept == f[14])
    ensures (t[..n] == f[..Declared(f)]) ==
            (Declared(f) == n && StartsLike(f, st) && kept == f[14] && AllCanonical(bs, prior))
  {
    BlocksRestored(bs, prior);
    PartsAgain(f, t, st, Fixed(kept, c), Flat(Blocks(c.pmus)), Bytes2(Unsigned16(c.dataRate)), n,
               kept == f[14], AllCanonical(bs, prior));
  }

  /** Writing a parsed frame again gives its bytes exactly when the frame is canonical and the buffer
      holds its byte 14, which the generator leaves as it is. */
  lemma Regenerated(f: seq<byte>, prior: Config, was: seq<byte>, activeOnly: bool)
    requires Complete(f, prior)
    requires var c := ParseConfig(f, prior).config;
             (!activeOnly || AllActive(c.pmus)) && FrameSize(c, activeOnly) <= |was| && WritesCommonFrame(|was|)
    ensures var c := ParseConfig(f, prior).config;
            var n := FrameSize(c, activeOnly);
            Generated(was, c, KindOf(f[1]), activeOnly)[..n] == f[..Declared(f)]
            <==> was[14] == f[14] && CanonicalFrame(f, prior)
  {
    ParsedSays(f, prior);
    AcceptedIsChecked(f);
    GeneratedAs(f, ParseConfig(f, prior).config, BlocksOf(f), prior.pmus, was, activeOnly, KindOf(f[1]));
  }

  lemma GeneratedAgain(f: seq<byte>, c: Config, bs: seq<seq<byte>>, prior: seq<PmuConfig>, was: seq<byte>,
                       activeOnly: bool, kind: int)
    requires Says(f, c, bs, prior) && Checked(f) && (!activeOnly || AllActive(c.pmus)) && IsConfigKind(kind)
    requires FrameSize(c, activeOnly) <= |was| && WritesCommonFrame(|was|)
    ensures (Generated(was, c, kind, activeOnly)[..FrameSize(c, activeOnly)] == f[..Declared(f)]) ==
            (Declared(f) == 24 + |Flat(bs)| && StartsLike(f, WithCommonFrame(was, c.idcode, kind))
             && was[14] == f[14] && AllCanonical(bs, prior))
  {
    WholeIsFrame(was, c, kind, activeOnly);
    FrameSaidAgain(f, c, bs, prior, was[14], WithCommonFrame(was, c.idcode, kind),
                   Generated(was, c, kind, activeOnly), FrameSize(c, activeOnly));
  }

  lemma FrameSaidAgain(f: seq<byte>, c: Config, bs: seq<seq<byte>>, prior: seq<PmuConfig>, kept: byte, st: seq<byte>,
                       t: seq<byte>, n: nat)
    requires Says(f, c, bs, prior) && Checked(f)
    requires IsConfigFrame(t, st, Fixed(kept, c), Flat(Blocks(c.pmus)), Bytes2(Unsigned16(c.dataRate)), n)
    ensures n == 24 + |Flat(bs)|
    ensures (t[..n] == f[..Declared(f)]) ==
            (Declared(f) == n && StartsLike(f, st) && kept == f[14] && AllCanonical(bs, prior))
  {
    RestoredSize(bs, prior);
    SaidParts(f, c, bs, prior, kept, n);
    SaidAgain(f, c, bs, prior, kept, st, t, n);
  }

  lemma RestoredSize(bs: seq<seq<byte>>, prior: seq<PmuConfig>)
    requires AllBlocks(bs)
    ensures |Flat(Blocks(DecodeBlocks(bs, prior)))| == |Flat(bs)|
  {
    BlocksRestored(bs, prior);
  }

  lemma GeneratedAs(f: seq<byte>, c: Config, bs: seq<seq<byte>>, prior: seq<PmuConfig>, was: seq<byte>,
                    activeOnly: bool, kind: int)
    requires Says(f, c, bs, prior) && Checked(f) && (!activeOnly || AllActive(c.pmus)) && IsConfigKind(kind)
    requires FrameSize(c, activeOnly) <= |was| && WritesCommonFrame(|was|)
    ensures (Generated(was, c, kind, activeOnly)[..FrameSize(c, activeOnly)] == f[..Declared(f)]) ==
            (Declared(f) == 24 + |Flat(bs)| && f[1] == kind + VERSION_2005
             && was[14] == f[14] && AllCanonical(bs, prior))
  {
    GeneratedAgain(f, c, bs, prior, was, activeOnly, kind);
    StartRestored(f, was, c.idcode, kind);
  }

  lemma WholeIsFrame(was: seq<byte>, c: Config, kind: int, activeOnly: bool)
    requires AllMatched(c.pmus) && 0 <= kind < 0x80 && (!activeOnly || AllActive(c.pmus))
    requires FrameSize(c, activeOnly) <= |was| && WritesCommonFrame(|was|)
    ensures FrameSize(c, activeOnly) == 24 + |Flat(Blocks(c.pmus))|
    ensures IsConfigFrame(Generated(was, c, kind, activeOnly), WithCommonFrame(was, c.idcode, kind), Fixed(was[14], c),
                          Flat(Blocks(c.pmus)), Bytes2(Unsigned16(c.dataRate)), FrameSize(c, activeOnly))
  {
    EmittedAll(c.pmus, activeOnly);
    BlocksSize(c.pmus);
    GeneratedIsFrame(was, c, kind, activeOnly);
  }
}
