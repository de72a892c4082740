/** Parsing configuration frames from a buffer (clause 6.4 of IEEE Std C37.118.2-2011). */
module ConfigParser {
  import opened Bits
  import opened Wire
  import opened CommonFrames
  import opened PmuConfigs
  import opened ConfigFrames

  lemma OneMoreName(s: seq<byte>, at: nat, i: nat)
    requires at + 16 * i + 16 <= |s|
    ensures Chunks(s[at..at + 16 * (i + 1)], 16, i + 1)
         == Chunks(s[at..at + 16 * i], 16, i) + [s[at + 16 * i..at + 16 * i + 16]]
  {
    var t := s[at..at + 16 * (i + 1)];
    assert t[..16 * i] == s[at..at + 16 * i];
    assert t[16 * i..] == s[at + 16 * i..at + 16 * i + 16];
  }

  method ReadNames(data: array<byte>, at: nat, n: nat, ghost end: nat) returns (names: seq<seq<byte>>)
    requires end == at + 16 * n <= data.Length
    ensures names == Chunks(data[..][at..end], 16, n)
  {
    names := [];
    ghost var s := data[..];
    var i := 0;
    while i < n
      invariant 0 <= i <= n && names == Chunks(s[at..at + 16 * i], 16, i)
    {
      var name := data[at + 16 * i..at + 16 * i + 16];
      assert name == s[at + 16 * i..at + 16 * i + 16];
      OneMoreName(s, at, i);
      names := names + [name];
      i := i + 1;
    }
  }

  /** The i-th unit of a buffer. */
  lemma UnitAt(s: seq<byte>, at: nat, n: nat, i: nat)
    requires at + 4 * n <= |s| && i < n
    ensures Chunks(s[at..at + 4 * n], 4, n)[i] == s[at + 4 * i..at + 4 * i + 4]
  {
    ChunkAt(s[at..at + 4 * n], 4, n, i, 4 * i);
    SubSlice(s, at, 4 * n, 4 * i, 4 * i + 4);
  }

  /** What the i-th unit adds to the lists. */
  lemma NextUnit(units: seq<seq<byte>>, i: nat, u: seq<byte>)
    requires AllWide(units, 4) && i < |units| && u == units[i] && |u| == 4
    ensures TypesOf(units)[..i + 1] == TypesOf(units)[..i] + [u[0]]
    ensures PhasorConversionsOf(units)[..i + 1] == PhasorConversionsOf(units)[..i] + [Word3(u[1..])]
    ensures AnalogConversionsOf(units)[..i + 1] == AnalogConversionsOf(units)[..i] + [Interpret24(Word4(u))]
    ensures WordsOf(units, 0)[..i + 1] == WordsOf(units, 0)[..i] + [Word2(u[0..2])]
    ensures WordsOf(units, 2)[..i + 1] == WordsOf(units, 2)[..i] + [Word2(u[2..4])]
  {
  }

  method ReadPhasorUnits(data: array<byte>, at: nat, n: nat, ghost end: nat)
    returns (types: seq<byte>, conversions: seq<Word32>)
    requires end == at + 4 * n <= data.Length
    ensures var units := Chunks(data[..][at..end], 4, n);
            types == TypesOf(units) && conversions == PhasorConversionsOf(units)
  {
    types, conversions := [], [];
    ghost var s := data[..];
    ghost var units := Chunks(s[at..end], 4, n);
    var i := 0;
    while i < n
      invariant 0 <= i <= n && types == TypesOf(units)[..i] && conversions == PhasorConversionsOf(units)[..i]
    {
      var u := data[at + 4 * i..at + 4 * i + 4];
      assert u == units[i] by { UnitAt(s, at, n, i); }
      NextUnit(units, i, u);
      types := types + [u[0]];
      conversions := conversions + [(u[1] as int) * 0x1_0000 + (u[2] as int) * 0x100 + u[3]];
      i := i + 1;
    }
  }

  method ReadAnalogUnits(data: array<byte>, at: nat, n: nat, ghost end: nat)
    returns (types: seq<byte>, conversions: seq<Int32>)
    requires end == at + 4 * n <= data.Length
    ensures var units := Chunks(data[..][at..end], 4, n);
            types == TypesOf(units) && conversions == AnalogConversionsOf(units)
  {
    types, conversions := [], [];
    ghost var s := data[..];
    ghost var units := Chunks(s[at..end], 4, n);
    var i := 0;
    while i < n
      invariant 0 <= i <= n && types == TypesOf(units)[..i] && conversions == AnalogConversionsOf(units)[..i]
    {
      var u := data[at + 4 * i..at + 4 * i + 4];
      assert u == units[i] by { UnitAt(s, at, n, i); }
      NextUnit(units, i, u);
      types := types + [u[0]];
      var conversion := Word4(u);
      conversions := conversions + [Interpret24(conversion)];
      i := i + 1;
    }
  }

  method ReadDigitalUnits(data: array<byte>, at: nat, n: nat, ghost end: nat)
    returns (nominal: seq<Word16>, active: seq<Word16>)
    requires end == at + 4 * n <= data.Length
    ensures var units := Chunks(data[..][at..end], 4, n);
            nominal == WordsOf(units, 0) && active == WordsOf(units, 2)
  {
    nominal, active := [], [];
    ghost var s := data[..];
    ghost var units := Chunks(s[at..end], 4, n);
    var i := 0;
    while i < n
      invariant 0 <= i <= n && nominal == WordsOf(units, 0)[..i] && active == WordsOf(units, 2)[..i]
    {
      var u := data[at + 4 * i..at + 4 * i + 4];
      assert u == units[i] by { UnitAt(s, at, n, i); }
      NextUnit(units, i, u);
      nominal := nominal + [(u[0] as int) * 0x100 + u[1]];
      active := active + [(u[2] as int) * 0x100 + u[3]];
      i := i + 1;
    }
  }

  /** Chunks that stand in a row. */
  lemma ThreeChunks(s: seq<byte>, w: nat, i: nat, j: nat, k: nat, x: nat, y: nat)
    requires |s| == w * (i + j + k) && x == w * i && y == w * j && x + y <= |s|
    ensures |s| - x - y == w * k
    ensures var c := Chunks(s, w, i + j + k);
            && c[..i] == Chunks(s[..x], w, i) && c[i..i + j] == Chunks(s[x..x + y], w, j)
            && c[i + j..] == Chunks(s[x + y..], w, k)
  {
    assert w * (i + j + k) == w * i + w * j + w * k && w * (i + j) == w * i + w * j;
    ChunksConcat(s[..x], s[x..x + y], w, i, j);
    ChunksConcat(s[..x + y], s[x + y..], w, i + j, k);
    assert s[..x] + s[x..x + y] == s[..x + y] && s[..x + y] + s[x + y..] == s;
  }

  /** Chunks of a buffer from a to e, in three groups that part at b and c. */
  lemma ChunksInBuffer(s: seq<byte>, w: nat, i: nat, j: nat, k: nat, a: nat, b: nat, c: nat, e: nat)
    requires b == a + w * i && c == b + w * j && e == c + w * k && e <= |s|
    ensures e - a == w * (i + j + k)
    ensures var all := Chunks(s[a..e], w, i + j + k);
            && all[..i] == Chunks(s[a..b], w, i) && all[i..i + j] == Chunks(s[b..c], w, j)
            && all[i + j..] == Chunks(s[c..e], w, k)
  {
    var n := e - a;
    assert n == w * (i + j + k);
    assert s[a..a + n] == s[a..e];
    SubSlice(s, a, n, 0, b - a);
    SubSlice(s, a, n, b - a, c - a);
    SubSlice(s, a, n, c - a, n);
    ThreeChunks(s[a..e], w, i, j, k, b - a, c - b);
  }

  /** A block at a position of the buffer, with its counts. */
  ghost predicate StandsAt(s: seq<byte>, at: nat, b: seq<byte>, ph: nat, an: nat, dg: nat) {
    && at + |b| <= |s| && b == s[at..at + |b|] && IsBlock(b)
    && ph == Word2(b[20..22]) && an == Word2(b[22..24]) && dg == Word2(b[24..26])
  }

  /** The names in a block, kind by kind, where they stand in the buffer. */
  lemma NamesInBuffer(s: seq<byte>, at: nat, b: seq<byte>, ph: nat, an: nat, dg: nat, x: nat, y: nat, z: nat, e: nat)
    requires StandsAt(s, at, b, ph, an, dg)
    requires x == at + 26 && y == x + 16 * ph && z == y + 16 * an && e == z + 16 * (16 * dg)
    ensures e == at + NamesEnd(b) <= |s|
    ensures NamesOf(b)[..ph] == Chunks(s[x..y], 16, ph) && NamesOf(b)[ph..ph + an] == Chunks(s[y..z], 16, an)
    ensures NamesOf(b)[ph + an..] == Chunks(s[z..e], 16, 16 * dg)
  {
    assert e == at + NamesEnd(b) && NamesOf(b) == Chunks(s[x..e], 16, ph + an + 16 * dg) by {
      SubSlice(s, at, |b|, 26, NamesEnd(b));
    }
    ChunksInBuffer(s, 16, ph, an, 16 * dg, x, y, z, e);
  }

  lemma UnitsInBuffer(s: seq<byte>, at: nat, b: seq<byte>, ph: nat, an: nat, dg: nat, x: nat, y: nat, z: nat, e: nat)
    requires StandsAt(s, at, b, ph, an, dg)
    requires x == at + NamesEnd(b) && y == x + 4 * ph && z == y + 4 * an && e == z + 4 * dg
    ensures e == at + |b| - 4
    ensures UnitsOf(b)[..ph] == Chunks(s[x..y], 4, ph) && UnitsOf(b)[ph..ph + an] == Chunks(s[y..z], 4, an)
    ensures UnitsOf(b)[ph + an..] == Chunks(s[z..e], 4, dg)
  {
    assert e == at + |b| - 4 && UnitsOf(b) == Chunks(s[x..e], 4, ph + an + dg) by {
      SubSlice(s, at, |b|, NamesEnd(b), |b| - 4);
    }
    ChunksInBuffer(s, 4, ph, an, dg, x, y, z, e);
  }

  method ReadAllNames(data: array<byte>, at: nat, ghost b: seq<byte>, ph: nat, an: nat, dg: nat)
    returns (phasors: seq<seq<byte>>, analogs: seq<seq<byte>>, digitals: seq<seq<byte>>, end: nat)
    requires StandsAt(data[..], at, b, ph, an, dg)
    ensures phasors == NamesOf(b)[..ph] && analogs == NamesOf(b)[ph..ph + an] && digitals == NamesOf(b)[ph + an..]
    ensures end == at + NamesEnd(b)
  {
    var x := at + 26;
    var y := x + 16 * ph;
    var z := y + 16 * an;
    end := z + 16 * (16 * dg);
    NamesInBuffer(data[..], at, b, ph, an, dg, x, y, z, end);
    phasors := ReadNames(data, x, ph, y);
    analogs := ReadNames(data, y, an, z);
    digitals := ReadNames(data, z, 16 * dg, end);
  }

  method ReadAllUnits(data: array<byte>, at: nat, ghost b: seq<byte>, begin: nat, ph: nat, an: nat, dg: nat)
    returns (phasorType: seq<byte>, phasorConversion: seq<Word32>, analogType: seq<byte>, analogConversion: seq<Int32>,
             digitalNominal: seq<Word16>, digitalActive: seq<Word16>, end: nat)
    requires StandsAt(data[..], at, b, ph, an, dg) && begin == at + NamesEnd(b)
    ensures phasorType == TypesOf(UnitsOf(b)[..ph]) && phasorConversion == PhasorConversionsOf(UnitsOf(b)[..ph])
    ensures analogType == TypesOf(UnitsOf(b)[ph..ph + an])
    ensures analogConversion == AnalogConversionsOf(UnitsOf(b)[ph..ph + an])
    ensures digitalNominal == WordsOf(UnitsOf(b)[ph + an..], 0) && digitalActive == WordsOf(UnitsOf(b)[ph + an..], 2)
    ensures end == at + |b| - 4
  {
    var y := begin + 4 * ph;
    var z := y + 4 * an;
    end := z + 4 * dg;
    UnitsInBuffer(data[..], at, b, ph, an, dg, begin, y, z, end);
    phasorType, phasorConversion := ReadPhasorUnits(data, begin, ph, y);
    analogType, analogConversion := ReadAnalogUnits(data, y, an, z);
    digitalNominal, digitalActive := ReadDigitalUnits(data, z, dg, end);
  }

  /** What a block says, at its place in the buffer. */
  lemma BlockOfBuffer(s: seq<byte>, at: nat, b: seq<byte>)
    requires at + 26 <= |s| && at + BlockSize(s[at..]) <= |s| && b == s[at..at + BlockSize(s[at..])]
    ensures StandsAt(s, at, b, Word2(s[at..][20..22]), Word2(s[at..][22..24]), Word2(s[at..][24..26]))
  {
    var r := s[at..];
    assert r == s[at..at + |r|];
    SubSlice(s, at, |r|, 20, 22);
    SubSlice(s, at, |r|, 22, 24);
    SubSlice(s, at, |r|, 24, 26);
    SubSlice(s, at, |b|, 20, 22);
    SubSlice(s, at, |b|, 22, 24);
    SubSlice(s, at, |b|, 24, 26);
  }

  lemma HeadOfBlock(s: seq<byte>, at: nat, b: seq<byte>, head: seq<byte>, ph: nat, an: nat, dg: nat)
    requires at + 26 <= |s| && at + BlockSize(s[at..]) <= |s| && b == s[at..at + BlockSize(s[at..])]
    requires head == s[at..at + 26]
    requires ph == Word2(head[20..22]) && an == Word2(head[22..24]) && dg == Word2(head[24..26])
    ensures StandsAt(s, at, b, ph, an, dg) && head == b[..26]
  {
    BlockOfBuffer(s, at, b);
    SubSlice(s, at, |b|, 0, 26);
    SameCounts(b, b[..26]);
    SameCounts(s[at..], s[at..][..26]);
    assert s[at..][..26] == head;
  }

  lemma TailOfBlock(s: seq<byte>, at: nat, b: seq<byte>, end: nat, tail: seq<byte>)
    requires at + |b| <= |s| && b == s[at..at + |b|] && |b| >= 4 && end == at + |b| - 4 && tail == s[end..end + 4]
    ensures tail == b[|b| - 4..]
  {
    SubSlice(s, at, |b|, |b| - 4, |b|);
  }

  /** A PMU put together from the parts of a block. */
  method FillIn(head: seq<byte>, tail: seq<byte>, phasorNames: seq<seq<byte>>, analogNames: seq<seq<byte>>,
                digitalNames: seq<seq<byte>>, phasorType: seq<byte>, phasorConversion: seq<Word32>,
                analogType: seq<byte>, analogConversion: seq<Int32>, digitalNominal: seq<Word16>,
                digitalActive: seq<Word16>, prior: PmuConfig,
                ghost names: seq<seq<byte>>, ghost units: seq<seq<byte>>, ghost ph: nat, ghost an: nat, ghost dg: nat)
    returns (p: PmuConfig)
    requires |head| == 26 && |tail| == 4 && AllWide(units, 4)
    requires ph == Word2(head[20..22]) && an == Word2(head[22..24]) && dg == Word2(head[24..26])
    requires |names| == ph + an + 16 * dg && |units| == ph + an + dg
    requires phasorNames == names[..ph] && analogNames == names[ph..ph + an] && digitalNames == names[ph + an..]
    requires phasorType == TypesOf(units[..ph]) && phasorConversion == PhasorConversionsOf(units[..ph])
    requires analogType == TypesOf(units[ph..ph + an])
    requires analogConversion == AnalogConversionsOf(units[ph..ph + an])
    requires digitalNominal == WordsOf(units[ph + an..], 0) && digitalActive == WordsOf(units[ph + an..], 2)
    ensures p == DecodeParts(head, names, units, tail, prior)
  {
    var nominalFrequency := prior.nominalFrequency;
    if tail[1] == 1 {
      nominalFrequency := 50.0;
    }
    var format := Word2(head[18..20]);
    p := PmuConfig(head[..16], Word2(head[16..18]),
                   format / 8 % 2 == 1, format / 4 % 2 == 1, format / 2 % 2 == 1, format % 2 == 1,
                   Word2(head[20..22]), Word2(head[22..24]), Word2(head[24..26]),
                   phasorNames, analogNames, digitalNames,
                   phasorType, phasorConversion, analogType, analogConversion, digitalNominal, digitalActive,
                   nominalFrequency, Word2(tail[2..]), prior.active);
  }

  lemma DecodedByParts(b: seq<byte>, head: seq<byte>, tail: seq<byte>, ph: nat, an: nat, dg: nat, prior: PmuConfig)
    requires IsBlock(b) && head == b[..26] && tail == b[|b| - 4..]
    requires ph == Word2(b[20..22]) && an == Word2(b[22..24]) && dg == Word2(b[24..26])
    ensures ph == Word2(head[20..22]) && an == Word2(head[22..24]) && dg == Word2(head[24..26])
    ensures |NamesOf(b)| == ph + an + 16 * dg && |UnitsOf(b)| == ph + an + dg
    ensures DecodePmu(b, prior) == DecodeParts(head, NamesOf(b), UnitsOf(b), tail, prior)
  {
    SameCounts(b, head);
  }

  /** A block whose head was read: the lists and the tail. */
  method ParseBlock(data: array<byte>, at: nat, head: seq<byte>, prior: PmuConfig, ghost b: seq<byte>)
    returns (p: PmuConfig, end: nat)
    requires |head| == 26 && |b| >= 26 && head == b[..26]
    requires StandsAt(data[..], at, b, Word2(head[20..22]), Word2(head[22..24]), Word2(head[24..26]))
    ensures end == at + |b| && p == DecodePmu(b, prior)
  {
    var ph: int, an: int, dg: int := Word2(head[20..22]), Word2(head[22..24]), Word2(head[24..26]);
    var phasorNames, analogNames, digitalNames, end1 := ReadAllNames(data, at, b, ph, an, dg);
    var phasorType, phasorConversion, analogType, analogConversion, digitalNominal, digitalActive, end2 :=
      ReadAllUnits(data, at, b, end1, ph, an, dg);
    var tail := data[end2..end2 + 4];
    TailOfBlock(data[..], at, b, end2, tail);
    DecodedByParts(b, head, tail, ph, an, dg, prior);
    p := FillIn(head, tail, phasorNames, analogNames, digitalNames, phasorType, phasorConversion,
                analogType, analogConversion, digitalNominal, digitalActive, prior,
                NamesOf(b), UnitsOf(b), ph, an, dg);
    end := end2 + 4;
  }

  /** One PMU at a position, parsed into a PMU that holds prior. */
  method ParsePmuConfig(data: array<byte>, at: nat, prior: PmuConfig) returns (p: PmuConfig, used: nat)
    requires at + 26 <= data.Length && at + BlockSize(data[..][at..]) <= data.Length
    ensures used == BlockSize(data[..][at..])
    ensures IsBlock(data[..][at..at + used]) && p == DecodePmu(data[..][at..at + used], prior)
  {
    ghost var s, k := data[..], BlockSize(data[..][at..]);
    ghost var b := s[at..at + k];
    var head := data[at..at + 26];
    assert |head| == 26 && head == s[at..at + 26];
    HeadOfBlock(s, at, b, head, Word2(head[20..22]), Word2(head[22..24]), Word2(head[24..26]));
    var end;
    p, end := ParseBlock(data, at, head, prior, b);
    used := end - at;
    assert used == k;
  }

  // ---- The frame ----

  /** Fewer blocks can be taken too, and the next one is there. */
  lemma {:induction false} TakeFewer(s: seq<byte>, i: nat, n: nat)
    requires i < n && TakeBlocks(s, n).Taken?
    ensures TakeBlocks(s, i).Taken?
    ensures |TakeBlocks(s, i).rest| >= 26 && |TakeBlocks(s, i).rest| >= BlockSize(TakeBlocks(s, i).rest)
    decreases n
  {
    if i < n - 1 {
      TakeFewer(s, i, n - 1);
    }
  }

  /** The first i PMUs of an array are parsed, up to position at. */
  ghost predicate PmusParsed(s: seq<byte>, i: nat, at: nat, pmus: seq<PmuConfig>, prior: seq<PmuConfig>) {
    && 20 <= at <= |s| && TakeBlocks(s[20..], i).Taken? && TakeBlocks(s[20..], i).rest == s[at..]
    && pmus == DecodeBlocks(TakeBlocks(s[20..], i).blocks, prior)
  }

  lemma NextParsed(s: seq<byte>, i: nat, at: nat, pmus: seq<PmuConfig>, prior: seq<PmuConfig>, p: PmuConfig, used: nat)
    requires PmusParsed(s, i, at, pmus, prior) && at + 26 <= |s| && used == BlockSize(s[at..]) && at + used <= |s|
    requires IsBlock(s[at..at + used]) && p == DecodePmu(s[at..at + used], PriorAt(prior, i))
    ensures PmusParsed(s, i + 1, at + used, pmus + [p], prior)
  {
    TailSlices(s, at, used);
    TakeNext(s[20..], i, used);
    DecodeNext(TakeBlocks(s[20..], i).blocks, s[at..at + used], prior);
  }

  lemma TailSlices(s: seq<byte>, at: nat, k: nat)
    requires at + k <= |s|
    ensures s[at..][..k] == s[at..at + k] && s[at..][k..] == s[at + k..]
  {
  }

  lemma TakeNext(s: seq<byte>, i: nat, k: nat)
    requires TakeBlocks(s, i).Taken? && |TakeBlocks(s, i).rest| >= 26
    requires k == BlockSize(TakeBlocks(s, i).rest) <= |TakeBlocks(s, i).rest|
    ensures var t := TakeBlocks(s, i);
            TakeBlocks(s, i + 1) == Taken(t.blocks + [t.rest[..k]], t.rest[k..])
  {
  }

  lemma DecodeNext(bs: seq<seq<byte>>, b: seq<byte>, prior: seq<PmuConfig>)
    requires AllBlocks(bs) && IsBlock(b)
    ensures AllBlocks(bs + [b])
    ensures DecodeBlocks(bs + [b], prior) == DecodeBlocks(bs, prior) + [DecodePmu(b, PriorAt(prior, |bs|))]
  {
    var l, r := DecodeBlocks(bs + [b], prior), DecodeBlocks(bs, prior) + [DecodePmu(b, PriorAt(prior, |bs|))];
    forall i | 0 <= i < |l|
      ensures l[i] == r[i]
    {
      assert (bs + [b])[i] == if i < |bs| then bs[i] else b;
    }
  }

  lemma RoomToParse(s: seq<byte>, i: nat, n: nat, at: nat, pmus: seq<PmuConfig>, prior: seq<PmuConfig>)
    requires PmusParsed(s, i, at, pmus, prior) && i < n && TakeBlocks(s[20..], n).Taken?
    ensures at + 26 <= |s| && at + BlockSize(s[at..]) <= |s|
  {
    TakeFewer(s[20..], i, n);
  }

  method ParseNextPmu(data: array<byte>, i: nat, ghost n: nat, at: nat, pmus: seq<PmuConfig>, prior: seq<PmuConfig>)
    returns (all: seq<PmuConfig>, end: nat)
    requires data.Length >= 20 && TakeBlocks(data[..][20..], n).Taken? && i < n
    requires PmusParsed(data[..], i, at, pmus, prior)
    ensures PmusParsed(data[..], i + 1, end, all, prior)
  {
    RoomToParse(data[..], i, n, at, pmus, prior);
    var p, used := ParsePmuConfig(data, at, PriorAt(prior, i));
    NextParsed(data[..], i, at, pmus, prior, p, used);
    all, end := pmus + [p], at + used;
  }

  /** n PMUs, one after the other from byte 20. */
  method ParsePmus(data: array<byte>, n: nat, prior: seq<PmuConfig>) returns (pmus: seq<PmuConfig>, used: nat)
    requires data.Length >= 20 && TakeBlocks(data[..][20..], n).Taken?
    ensures PmusParsed(data[..], n, used, pmus, prior)
  {
    pmus, used := [], 20;
    var i := 0;
    while i < n
      invariant 0 <= i <= n && PmusParsed(data[..], i, used, pmus, prior)
    {
      pmus, used := ParseNextPmu(data, i, n, used, pmus, prior);
      i := i + 1;
    }
  }

  /** The part of a frame behind the common part. */
  method ParseBody(data: array<byte>, frame: CommonFrame, prior: Config) returns (c: Config)
    requires HoldsBody(data[..])
    ensures c == ConfigOf(data[..], frame, prior)
  {
    var timeBase := Word3(data[15..18]);
    var n := Word2(data[18..20]);
    assert data[15..18] == data[..][15..18] && data[18..20] == data[..][18..20];
    var pmus, used := ParsePmus(data, n, prior.pmus);
    var dataRate := Signed16(Word2(data[used..used + 2]));
    assert data[used..used + 2] == data[..][used..][..2];
    c := Config(frame.sourceID, dataRate, frame.soc, frame.fracSec, timeBase, pmus);
  }

  /** A configuration frame 1 or 2, parsed into a configuration that holds prior. */
  method ParseConfigFrame(data: array<byte>, prior: Config) returns (r: ParsedConfig)
    requires Readable(data[..]) && HoldsPmus(data[..])
    ensures r == ParseConfig(data[..], prior)
  {
    var common := ParseCommonFrame(data);
    if common.Refused? {
      return ParsedConfig(common.result, prior);
    }
    if common.frame.kind != CONFIG1 && common.frame.kind != CONFIG2 {
      return ParsedConfig(IncorrectType, prior);
    }
    var c := ParseBody(data, common.frame, prior);
    return ParsedConfig(ParseComplete, c);
  }
}
