/** Whole configuration frames 1 and 2 (clause 6.4 of IEEE Std C37.118.2-2011). */
module ConfigFrames {
  import opened Bits
  import opened Wire
  import opened CommonFrames
  import opened PmuConfigs

  type Int16 = x: int | -0x8000 <= x < 0x8000

  datatype Config = Config(
    idcode: Word16,
    dataRate: Int16,
    soc: Word32,
    fracsec: Word32,
    timeBase: Word32,
    pmus: seq<PmuConfig>)

  datatype ParsedConfig = ParsedConfig(result: ParseResult, config: Config)

  predicate AllMatched(pmus: seq<PmuConfig>) {
    forall i :: 0 <= i < |pmus| ==> Matched(pmus[i])
  }

  // ---- Encoding ----

  /** The PMUs that are written. */
  function Emitted(pmus: seq<PmuConfig>, activeOnly: bool): (e: seq<PmuConfig>)
    ensures AllMatched(pmus) ==> AllMatched(e)
    ensures |e| <= |pmus|
  {
    if pmus == [] then []
    else
      var last := pmus[|pmus| - 1];
      Emitted(pmus[..|pmus| - 1], activeOnly) + if last.active || !activeOnly then [last] else []
  }

  function Blocks(pmus: seq<PmuConfig>): (bs: seq<seq<byte>>)
    requires AllMatched(pmus)
    ensures |bs| == |pmus|
  {
    seq(|pmus|, i requires 0 <= i < |pmus| => EncodePmu(pmus[i]))
  }

  /** The size of one PMU in a frame. */
  function PmuSize(p: PmuConfig): nat {
    Size(p.phasorCount, p.analogCount, p.digitalWordCount)
  }

  function TotalSize(pmus: seq<PmuConfig>): nat {
    if pmus == [] then 0 else TotalSize(pmus[..|pmus| - 1]) + PmuSize(pmus[|pmus| - 1])
  }

  function Signed16(n: Word16): Int16 {
    if n < 0x8000 then n else n - 0x1_0000
  }

  function Unsigned16(n: Int16): Word16 {
    if n >= 0 then n else n + 0x1_0000
  }

  /** Bytes 6 to 20: SOC, FRACSEC, a byte that is left as it is, TIME_BASE and NUM_PMU. */
  function Fixed(kept: byte, c: Config): (s: seq<byte>)
    ensures |s| == 14
  {
    Bytes4(c.soc) + Bytes4(c.fracsec) + [kept] + Bytes3(c.timeBase) + Bytes2(|c.pmus|)
  }

  function Body(kept: byte, c: Config, activeOnly: bool): seq<byte>
    requires AllMatched(c.pmus)
  {
    Fixed(kept, c) + Flat(Blocks(Emitted(c.pmus, activeOnly))) + Bytes2(Unsigned16(c.dataRate))
  }

  /** The bytes written for a configuration. */
  function FrameSize(c: Config, activeOnly: bool): nat {
    24 + TotalSize(Emitted(c.pmus, activeOnly))
  }

  /** The buffer when generateConfig starts. */
  function Started(was: seq<byte>, c: Config, kind: int): (s: seq<byte>)
    requires |was| >= 6 && 0 <= kind < 0x80
    ensures |s| == |was|
  {
    if WritesCommonFrame(|was|) then WithCommonFrame(was, c.idcode, kind) else was
  }

  lemma {:induction false} BlocksSize(pmus: seq<PmuConfig>)
    requires AllMatched(pmus)
    ensures |Flat(Blocks(pmus))| == TotalSize(pmus)
  {
    if pmus != [] {
      var init, last := pmus[..|pmus| - 1], pmus[|pmus| - 1];
      BlocksSize(init);
      assert |EncodePmu(last)| == PmuSize(last) by { DecodeOfEncode(last, Fresh()); }
      assert Blocks(pmus)[..|pmus| - 1] == Blocks(init);
    }
  }

  /** The buffer after generateConfig, which starts with st. */
  function Completed(st: seq<byte>, c: Config, activeOnly: bool): (t: seq<byte>)
    requires AllMatched(c.pmus) && |st| >= FrameSize(c, activeOnly)
    ensures |t| == |st|
  {
    BlocksSize(Emitted(c.pmus, activeOnly));
    Finished(Replace(st, 6, Body(st[14], c, activeOnly)), FrameSize(c, activeOnly))
  }

  /** The buffer after a whole frame was generated. */
  function Generated(was: seq<byte>, c: Config, kind: int, activeOnly: bool): (t: seq<byte>)
    requires AllMatched(c.pmus) && 0 <= kind < 0x80 && |was| >= FrameSize(c, activeOnly)
    ensures |t| == |was|
  {
    Completed(Started(was, c, kind), c, activeOnly)
  }

  lemma KeptByte(was: seq<byte>, c: Config, kind: int)
    requires |was| >= 15 && 0 <= kind < 0x80
    ensures Started(was, c, kind)[14] == was[14]
  {
  }

  /** t is the buffer st with a finished frame of n bytes: x in bytes 6 to 20, then y, then z. */
  ghost predicate IsConfigFrame(t: seq<byte>, st: seq<byte>, x: seq<byte>, y: seq<byte>, z: seq<byte>, n: nat) {
    |x| == 14 && |z| == 2 && n == 24 + |y| && IsFrame(t, st, x + y + z, n)
  }

  /** What generateConfig leaves in the buffer. */
  lemma GeneratedIsFrame(was: seq<byte>, c: Config, kind: int, activeOnly: bool)
    requires AllMatched(c.pmus) && 0 <= kind < 0x80 && |was| >= FrameSize(c, activeOnly)
    ensures IsConfigFrame(Generated(was, c, kind, activeOnly), Started(was, c, kind), Fixed(was[14], c),
                          Flat(Blocks(Emitted(c.pmus, activeOnly))), Bytes2(Unsigned16(c.dataRate)),
                          FrameSize(c, activeOnly))
  {
    BlocksSize(Emitted(c.pmus, activeOnly));
    KeptByte(was, c, kind);
    FinishedIsFrame(Started(was, c, kind), Body(was[14], c, activeOnly), Generated(was, c, kind, activeOnly),
                    FrameSize(c, activeOnly));
  }

  lemma FrameSlices(t: seq<byte>, st: seq<byte>, x: seq<byte>, y: seq<byte>, z: seq<byte>, n: nat)
    requires IsConfigFrame(t, st, x, y, z, n)
    ensures t[6..20] == x && t[20..n - 4] == y && t[n - 4..n - 2] == z
    ensures t[15..18] == x[9..12] && t[18..20] == x[12..14]
    ensures t[20..] == y + t[n - 4..] && t[n - 4..][..2] == z
  {
    var b := t[6..n - 2];
    assert b[..14] == x && b[14..14 + |y|] == y && b[14 + |y|..] == z;
    forall i | 6 <= i < n - 2
      ensures t[i] == b[i - 6]
    {
    }
    assert t[6..20] == b[..14] && t[20..n - 4] == b[14..14 + |y|] && t[n - 4..n - 2] == b[14 + |y|..];
    assert t[15..18] == t[6..20][9..12] && t[18..20] == t[6..20][12..14];
    assert t[20..] == t[20..n - 4] + t[n - 4..];
    assert t[n - 4..][..2] == t[n - 4..n - 2];
  }

  // ---- Decoding ----

  datatype Taken = Short | Taken(blocks: seq<seq<byte>>, rest: seq<byte>)

  /** The first n blocks of s, each as long as its own counts say. */
  function TakeBlocks(s: seq<byte>, n: nat): (t: Taken)
    ensures t.Taken? ==> |t.blocks| == n && forall i :: 0 <= i < n ==> IsBlock(t.blocks[i])
  {
    if n == 0 then Taken([], s)
    else
      var t := TakeBlocks(s, n - 1);
      if t.Short? || |t.rest| < 26 || |t.rest| < BlockSize(t.rest) then Short
      else
        var k := BlockSize(t.rest);
        assert t.rest[..k][20..22] == t.rest[20..22] && t.rest[..k][22..24] == t.rest[22..24]
            && t.rest[..k][24..26] == t.rest[24..26];
        Taken(t.blocks + [t.rest[..k]], t.rest[k..])
  }

  predicate AllBlocks(bs: seq<seq<byte>>) {
    forall i :: 0 <= i < |bs| ==> IsBlock(bs[i])
  }

  /** The i-th PMU of a vector that is resized to hold more. */
  function PriorAt(prior: seq<PmuConfig>, i: nat): PmuConfig {
    if i < |prior| then prior[i] else Fresh()
  }

  function DecodeBlocks(bs: seq<seq<byte>>, prior: seq<PmuConfig>): (pmus: seq<PmuConfig>)
    requires AllBlocks(bs)
    ensures |pmus| == |bs| && AllMatched(pmus)
  {
    seq(|bs|, i requires 0 <= i < |bs| => DecodePmu(bs[i], PriorAt(prior, i)))
  }

  predicate IsConfigKind(kind: int) {
    kind == CONFIG1 || kind == CONFIG2
  }

  /** The PMUs that a buffer announces are there, and DATA_RATE behind them. */
  predicate HoldsBody(s: seq<byte>) {
    && |s| >= 20
    && TakeBlocks(s[20..], Word2(s[18..20])).Taken?
    && |TakeBlocks(s[20..], Word2(s[18..20])).rest| >= 2
  }

  /** The configuration in an accepted frame. */
  function ConfigOf(s: seq<byte>, frame: CommonFrame, prior: Config): Config
    requires HoldsBody(s)
  {
    var t := TakeBlocks(s[20..], Word2(s[18..20]));
    Config(frame.sourceID, Signed16(Word2(t.rest[..2])), frame.soc, frame.fracSec, Word3(s[15..18]),
           DecodeBlocks(t.blocks, prior.pmus))
  }

  /** What the source demands of its callers besides Readable: the buffer holds the PMUs that an
      accepted configuration frame announces. */
  predicate HoldsPmus(s: seq<byte>)
    requires Readable(s)
  {
    ParseCommon(s).Accepted? && IsConfigKind(ParseCommon(s).frame.kind) ==> HoldsBody(s)
  }

  /** A frame parsed into a configuration that holds prior. */
  function ParseConfig(s: seq<byte>, prior: Config): ParsedConfig
    requires Readable(s) && HoldsPmus(s)
  {
    match ParseCommon(s)
    case Refused(result) => ParsedConfig(result, prior)
    case Accepted(frame) =>
      if !IsConfigKind(frame.kind) then ParsedConfig(IncorrectType, prior)
      else ParsedConfig(ParseComplete, ConfigOf(s, frame, prior))
  }

  /** Blocks in a row are found again, whatever follows them. */
  lemma {:induction false} TakeOfFlat(bs: seq<seq<byte>>, rest: seq<byte>)
    requires AllBlocks(bs)
    ensures TakeBlocks(Flat(bs) + rest, |bs|) == Taken(bs, rest)
  {
    if bs == [] {
      assert Flat(bs) + rest == rest;
    } else {
      var init, last := bs[..|bs| - 1], bs[|bs| - 1];
      assert bs == init + [last];
      TakeOfFlat(init, last + rest);
      TakeLast(Flat(init) + (last + rest), init, last, rest);
      BeforeLast(Flat(init), last, rest);
    }
  }

  lemma BeforeLast(a: seq<byte>, b: seq<byte>, c: seq<byte>)
    ensures a + b + c == a + (b + c)
  {
  }

  lemma TakeLast(s: seq<byte>, init: seq<seq<byte>>, last: seq<byte>, rest: seq<byte>)
    requires TakeBlocks(s, |init|) == Taken(init, last + rest) && IsBlock(last)
    ensures TakeBlocks(s, |init| + 1) == Taken(init + [last], rest)
  {
    FrontBlock(last, rest);
  }

  lemma FrontBlock(b: seq<byte>, rest: seq<byte>)
    requires IsBlock(b)
    ensures BlockSize(b + rest) == |b| && (b + rest)[..|b|] == b && (b + rest)[|b|..] == rest
  {
    var s := b + rest;
    assert s[20..22] == b[20..22] && s[22..24] == b[22..24] && s[24..26] == b[24..26];
  }

  lemma RestCut(a: seq<byte>, r: seq<byte>, k: nat)
    requires k <= |r|
    ensures a + r == a + r[..k] + r[k..]
  {
  }

  /** Blocks that were taken stand in a row at the front. */
  lemma {:induction false} FlatOfTaken(s: seq<byte>, n: nat)
    requires TakeBlocks(s, n).Taken?
    ensures s == Flat(TakeBlocks(s, n).blocks) + TakeBlocks(s, n).rest
  {
    if n > 0 {
      FlatOfTaken(s, n - 1);
      var before, after := TakeBlocks(s, n - 1), TakeBlocks(s, n);
      var k := BlockSize(before.rest);
      assert Flat(after.blocks) == Flat(before.blocks) + before.rest[..k] by {
        assert after.blocks[..n - 1] == before.blocks;
      }
      RestCut(Flat(before.blocks), before.rest, k);
    }
  }

  // ---- Parsing what was generated ----

  predicate AllActive(pmus: seq<PmuConfig>) {
    forall i :: 0 <= i < |pmus| ==> pmus[i].active
  }

  /** All PMUs are written exactly when the frame is not limited to active ones or all are active. */
  lemma {:induction false} EmittedAll(pmus: seq<PmuConfig>, activeOnly: bool)
    ensures |Emitted(pmus, activeOnly)| == |pmus| <==> !activeOnly || AllActive(pmus)
    ensures |Emitted(pmus, activeOnly)| == |pmus| ==> Emitted(pmus, activeOnly) == pmus
  {
    if pmus != [] {
      var init, last := pmus[..|pmus| - 1], pmus[|pmus| - 1];
      EmittedAll(init, activeOnly);
      AllActiveBut(pmus, init, last);
    }
  }

  lemma AllActiveBut(pmus: seq<PmuConfig>, init: seq<PmuConfig>, last: PmuConfig)
    requires pmus == init + [last]
    ensures AllActive(pmus) <==> AllActive(init) && last.active
  {
    assert pmus[|init|] == last;
    assert forall i :: 0 <= i < |init| ==> pmus[i] == init[i];
  }

  lemma {:induction false} ManyBytesPerPmu(pmus: seq<PmuConfig>)
    ensures TotalSize(pmus) >= 30 * |pmus|
  {
    if pmus != [] {
      ManyBytesPerPmu(pmus[..|pmus| - 1]);
    }
  }

  /** What of a configuration a frame carries, parsed into prior. */
  function CarriedConfig(c: Config, prior: Config): Config
    requires AllMatched(c.pmus)
  {
    c.(timeBase := c.timeBase % 0x100_0000,
       pmus := seq(|c.pmus|, i requires 0 <= i < |c.pmus| => Carried(c.pmus[i], PriorAt(prior.pmus, i))))
  }

  lemma FixedFields(kept: byte, c: Config)
    ensures var f := Fixed(kept, c);
            && Word4(f[..4]) == c.soc && Word4(f[4..8]) == c.fracsec && f[8] == kept
            && Word3(f[9..12]) == c.timeBase % 0x100_0000 && f[12..14] == Bytes2(|c.pmus|)
  {
    var f := Fixed(kept, c);
    assert f[..4] == Bytes4(c.soc) && f[4..8] == Bytes4(c.fracsec);
    assert f[9..12] == Bytes3(c.timeBase);
    Word4OfBytes(c.soc);
    Word4OfBytes(c.fracsec);
    Word3OfAnyBytes(c.timeBase);
  }

  lemma DecodeOfBlocks(c: Config, prior: Config)
    requires AllMatched(c.pmus)
    ensures AllBlocks(Blocks(c.pmus)) && DecodeBlocks(Blocks(c.pmus), prior.pmus) == CarriedConfig(c, prior).pmus
  {
    forall i | 0 <= i < |c.pmus|
      ensures IsBlock(Blocks(c.pmus)[i])
      ensures DecodePmu(Blocks(c.pmus)[i], PriorAt(prior.pmus, i)) == Carried(c.pmus[i], PriorAt(prior.pmus, i))
    {
      DecodeOfEncode(c.pmus[i], PriorAt(prior.pmus, i));
    }
  }

  /** The blocks of a frame are found again. */
  lemma FrameHoldsBlocks(t: seq<byte>, st: seq<byte>, x: seq<byte>, bs: seq<seq<byte>>, z: seq<byte>, n: nat)
    requires IsConfigFrame(t, st, x, Flat(bs), z, n) && AllBlocks(bs)
    ensures t[15..18] == x[9..12] && t[18..20] == x[12..14]
    ensures TakeBlocks(t[20..], |bs|) == Taken(bs, t[n - 4..]) && t[n - 4..][..2] == z
  {
    FrameSlices(t, st, x, Flat(bs), z, n);
    TakeOfFlat(bs, t[n - 4..]);
  }

  lemma FirstEight(x: seq<byte>, y: seq<byte>, z: seq<byte>)
    requires |x| >= 8
    ensures (x + y + z)[..4] == x[..4] && (x + y + z)[4..8] == x[4..8]
  {
  }

  lemma ParseOfFrame(t: seq<byte>, st: seq<byte>, kept: byte, c: Config, n: nat, prior: Config)
    requires AllMatched(c.pmus) && n < 0x1_0000 && |c.pmus| < 0x1_0000
    requires IsConfigFrame(t, st, Fixed(kept, c), Flat(Blocks(c.pmus)), Bytes2(Unsigned16(c.dataRate)), n)
    ensures Readable(t) && HoldsPmus(t)
    ensures ParseConfig(t, prior) == Reparsed(st, c, prior)
  {
    FixedFields(kept, c);
    DecodeOfBlocks(c, prior);
    FrameIsReadable(t, st, Fixed(kept, c) + Flat(Blocks(c.pmus)) + Bytes2(Unsigned16(c.dataRate)), n);
    FirstEight(Fixed(kept, c), Flat(Blocks(c.pmus)), Bytes2(Unsigned16(c.dataRate)));
    BodyOfFrame(t, st, Fixed(kept, c), c, Blocks(c.pmus), n);
  }

  lemma BodyOfFrame(t: seq<byte>, st: seq<byte>, x: seq<byte>, c: Config, bs: seq<seq<byte>>, n: nat)
    requires |c.pmus| < 0x1_0000 && |bs| == |c.pmus| && AllBlocks(bs)
    requires |x| == 14 && x[12..14] == Bytes2(|c.pmus|) && Word3(x[9..12]) == c.timeBase % 0x100_0000
    requires IsConfigFrame(t, st, x, Flat(bs), Bytes2(Unsigned16(c.dataRate)), n)
    ensures HoldsBody(t) && Word3(t[15..18]) == c.timeBase % 0x100_0000
    ensures var rest := TakeBlocks(t[20..], Word2(t[18..20]));
            rest.blocks == bs && Word2(rest.rest[..2]) == Unsigned16(c.dataRate)
  {
    Word2OfBytes(|c.pmus|);
    Word2OfBytes(Unsigned16(c.dataRate));
    FrameHoldsBlocks(t, st, x, bs, Bytes2(Unsigned16(c.dataRate)), n);
  }

  /** What becomes of a configuration that was generated into a buffer st and parsed into prior. */
  function Reparsed(st: seq<byte>, c: Config, prior: Config): ParsedConfig
    requires |st| >= 6 && AllMatched(c.pmus)
  {
    if st[0] != SYNC_LEAD then ParsedConfig(InvalidSync, prior)
    else if !IsConfigKind(KindOf(st[1])) then ParsedConfig(IncorrectType, prior)
    else ParsedConfig(ParseComplete, CarriedConfig(c, prior).(idcode := Word2(st[4..6])))
  }

  /** Parsing a generated frame gives what the frame carries of the configuration, for every number
      of PMUs and channels; whether it parses at all rests on what the buffer starts with. */
  lemma ParseOfGenerated(was: seq<byte>, c: Config, kind: int, activeOnly: bool, prior: Config)
    requires AllMatched(c.pmus) && 0 <= kind < 0x80 && FrameSize(c, activeOnly) <= |was|
    requires FrameSize(c, activeOnly) < 0x1_0000 && (!activeOnly || AllActive(c.pmus))
    ensures var t := Generated(was, c, kind, activeOnly);
            Readable(t) && HoldsPmus(t) && ParseConfig(t, prior) == Reparsed(Started(was, c, kind), c, prior)
  {
    EmittedAll(c.pmus, activeOnly);
    ManyBytesPerPmu(c.pmus);
    GeneratedIsFrame(was, c, kind, activeOnly);
    ParseOfFrame(Generated(was, c, kind, activeOnly), Started(was, c, kind), was[14], c, FrameSize(c, activeOnly),
                 prior);
  }

  /** A configuration comes back from its frame when the buffer size, cut to 16 bits, lets the
      generator write SYNC; when it does not, nothing is parsed from a buffer without SYNC. */
  lemma RoundTrip(was: seq<byte>, c: Config, kind: int, activeOnly: bool, prior: Config)
    requires AllMatched(c.pmus) && IsConfigKind(kind) && FrameSize(c, activeOnly) <= |was|
    requires FrameSize(c, activeOnly) < 0x1_0000 && (!activeOnly || AllActive(c.pmus))
    requires WritesCommonFrame(|was|) || was[0] != SYNC_LEAD
    ensures var t := Generated(was, c, kind, activeOnly);
            && Readable(t) && HoldsPmus(t)
            && ParseConfig(t, prior) == if WritesCommonFrame(|was|)
                                        then ParsedConfig(ParseComplete, CarriedConfig(c, prior))
                                        else ParsedConfig(InvalidSync, prior)
  {
    ParseOfGenerated(was, c, kind, activeOnly, prior);
    CommonFrameStarts(was, c.idcode, kind);
  }

  /** The count in a frame is that of the PMUs written only when none is left out. */
  lemma CountOfGenerated(was: seq<byte>, c: Config, kind: int, activeOnly: bool)
    requires AllMatched(c.pmus) && 0 <= kind < 0x80 && FrameSize(c, activeOnly) <= |was| && |c.pmus| < 0x1_0000
    ensures Word2(Generated(was, c, kind, activeOnly)[18..20]) == |Emitted(c.pmus, activeOnly)|
       <==> (!activeOnly || AllActive(c.pmus))
  {
    GeneratedIsFrame(was, c, kind, activeOnly);
    FrameSlices(Generated(was, c, kind, activeOnly), Started(was, c, kind), Fixed(was[14], c),
                Flat(Blocks(Emitted(c.pmus, activeOnly))), Bytes2(Unsigned16(c.dataRate)), FrameSize(c, activeOnly));
    FixedFields(was[14], c);
    Word2OfBytes(|c.pmus|);
    EmittedAll(c.pmus, activeOnly);
  }

  // ---- Into a new configuration ----

  /** Names are 16 bytes long, and conversion factors fit 24 bits. */
  predicate FitsBlock(p: PmuConfig) {
    && |p.stationName| == 16 && (forall i :: 0 <= i < |p.phasorNames| ==> |p.phasorNames[i]| == 16)
    && (forall i :: 0 <= i < |p.analogNames| ==> |p.analogNames[i]| == 16)
    && (forall i :: 0 <= i < |p.digitalNames| ==> |p.digitalNames[i]| == 16)
    && (forall i :: 0 <= i < |p.phasorConversion| ==> p.phasorConversion[i] < 0x100_0000)
    && (forall i :: 0 <= i < |p.analogConversion| ==> -0x80_0000 <= p.analogConversion[i] < 0x80_0000)
  }

  /** What comes back in a configuration without PMUs. */
  ghost predicate ComesBack(c: Config) {
    && c.timeBase < 0x100_0000
    && forall p :: p in c.pmus ==>
         FitsBlock(p) && (p.nominalFrequency == 50.0 || p.nominalFrequency == 60.0) && p.active
  }

  lemma CarriedIntoFresh(p: PmuConfig)
    requires Matched(p)
    ensures Carried(p, Fresh()) == p <==>
              FitsBlock(p) && (p.nominalFrequency == 50.0 || p.nominalFrequency == 60.0) && p.active
  {
    CarriedWhole(p, Fresh());
  }

  lemma CarriedIntoNew(c: Config, prior: Config)
    requires AllMatched(c.pmus) && prior.pmus == []
    ensures CarriedConfig(c, prior) == c <==> ComesBack(c)
  {
    var d := CarriedConfig(c, prior);
    forall i | 0 <= i < |c.pmus|
      ensures d.pmus[i] == c.pmus[i] <==>
              var p := c.pmus[i];
              FitsBlock(p) && (p.nominalFrequency == 50.0 || p.nominalFrequency == 60.0) && p.active
    {
      CarriedIntoFresh(c.pmus[i]);
    }
    assert d.pmus == c.pmus <==> forall i :: 0 <= i < |c.pmus| ==> d.pmus[i] == c.pmus[i];
  }

  lemma NewAreActive(s: seq<byte>, prior: Config, i: nat)
    requires Readable(s) && HoldsPmus(s) && prior.pmus == [] && ParseConfig(s, prior).result == ParseComplete
    requires i < |ParseConfig(s, prior).config.pmus|
    ensures ParseConfig(s, prior).config.pmus[i].active
  {
    var bs := TakeBlocks(s[20..], Word2(s[18..20])).blocks;
    assert ParseConfig(s, prior).config.pmus[i] == DecodePmu(bs[i], Fresh());
  }

  /** An inactive PMU does not come back. */
  lemma InactiveIsLost(s: seq<byte>, c: Config, prior: Config)
    requires Readable(s) && HoldsPmus(s) && prior.pmus == [] && !AllActive(c.pmus)
    ensures ParseConfig(s, prior) != ParsedConfig(ParseComplete, c)
  {
    if ParseConfig(s, prior) == ParsedConfig(ParseComplete, c) {
      var i :| 0 <= i < |c.pmus| && !c.pmus[i].active;
      NewAreActive(s, prior, i);
    }
  }

  lemma WholeIntoNew(was: seq<byte>, c: Config, kind: int, activeOnly: bool, prior: Config, t: seq<byte>)
    requires AllMatched(c.pmus) && (kind == 0x20 || kind == 0x30) && FrameSize(c, activeOnly) <= |was|
    requires FrameSize(c, activeOnly) < 0x1_0000 && |was| % 0x1_0000 >= 18 && (!activeOnly || AllActive(c.pmus))
    requires t == Generated(was, c, kind, activeOnly)
    ensures Readable(t) && HoldsPmus(t)
    ensures ParseConfig(t, prior) == ParsedConfig(ParseComplete, CarriedConfig(c, prior))
  {
    RoundTrip(was, c, kind, activeOnly, prior);
  }

  /** A frame that gives the configuration back. */
  ghost predicate GivesBack(t: seq<byte>, c: Config, prior: Config) {
    Readable(t) && HoldsPmus(t) && ParseConfig(t, prior) == ParsedConfig(ParseComplete, c)
  }

  lemma BackExactly(t: seq<byte>, c: Config, prior: Config, whole: bool)
    requires AllMatched(c.pmus) && prior.pmus == [] && (whole || !AllActive(c.pmus))
    requires whole ==> Readable(t) && HoldsPmus(t)
    requires whole ==> ParseConfig(t, prior) == ParsedConfig(ParseComplete, CarriedConfig(c, prior))
    ensures GivesBack(t, c, prior) <==> ComesBack(c)
  {
    CarriedIntoNew(c, prior);
    if !whole && Readable(t) && HoldsPmus(t) {
      InactiveIsLost(t, c, prior);
    }
  }

  /** A configuration comes back, in a configuration without PMUs, from its frame exactly when names are 16
      bytes long, conversion factors and the time base fit 24 bits, every PMU has 50 or 60 Hz, and all
      are active. */
  lemma RoundTripIntoNew(was: seq<byte>, c: Config, kind: int, activeOnly: bool, prior: Config)
    requires AllMatched(c.pmus) && (kind == 0x20 || kind == 0x30) && FrameSize(c, activeOnly) <= |was|
    requires FrameSize(c, activeOnly) < 0x1_0000 && |was| % 0x1_0000 >= 18 && prior.pmus == []
    ensures GivesBack(Generated(was, c, kind, activeOnly), c, prior) <==> ComesBack(c)
  {
    var t := Generated(was, c, kind, activeOnly);
    if !activeOnly || AllActive(c.pmus) {
      WholeIntoNew(was, c, kind, activeOnly, prior, t);
      BackExactly(t, c, prior, true);
    } else {
      BackExactly(t, c, prior, false);
    }
  }
}
