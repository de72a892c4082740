/** Configuration frames byte by byte, as clause 6.4 of IEEE Std C37.118.2-2011 lays them out: where each
    field stands, in numbers, both in what is read and in what is written. */
module ConfigLayouts {
  import opened Bits
  import opened Wire
  import opened CommonFrames
  import opened PmuConfigs
  import opened ConfigFrames
  import opened Rows

  // ---- Reading a block ----

  /** The i-th of all names starts at 26 + 16i. */
  lemma NameAt(b: seq<byte>, i: nat)
    requires IsBlock(b) && i < Word2(b[20..22]) + Word2(b[22..24]) + 16 * Word2(b[24..26])
    ensures 42 + 16 * i <= |b| && NamesOf(b)[i] == b[26 + 16 * i..42 + 16 * i]
  {
    ChunkAt(b[26..NamesEnd(b)], 16, |NamesOf(b)|, i, 16 * i);
    SubSlice(b, 26, NamesEnd(b) - 26, 16 * i, 16 * i + 16);
  }

  /** The i-th of all conversion factors starts 4i bytes behind the names. */
  lemma UnitAt(b: seq<byte>, i: nat, k: nat)
    requires IsBlock(b) && i < Word2(b[20..22]) + Word2(b[22..24]) + Word2(b[24..26])
    requires k == 26 + 16 * (Word2(b[20..22]) + Word2(b[22..24]) + 16 * Word2(b[24..26])) + 4 * i
    ensures k + 4 <= |b| && UnitsOf(b)[i] == b[k..k + 4]
  {
    var m := NamesEnd(b);
    ChunkAt(b[m..|b| - 4], 4, |UnitsOf(b)|, i, 4 * i);
    SubSlice(b, m, |b| - 4 - m, 4 * i, 4 * i + 4);
  }

  /** Bit by bit, halving drops the high byte's share, which stays even. */
  lemma Halved(w: int, m: int, l: int)
    requires w == 2 * m + l && m % 2 == 0
    ensures w / 2 == m + l / 2 && w % 2 == l % 2 && w / 2 % 2 == l / 2 % 2
  {
  }

  lemma HalvedTwice(x: int)
    ensures x / 2 / 2 == x / 4 && x / 4 / 2 == x / 8
  {
  }

  lemma LowBitsOfWord(s: seq<byte>, w: int, l: int)
    requires |s| == 2 && w == Word2(s) && l == s[1]
    ensures w / 8 % 2 == l / 8 % 2 && w / 4 % 2 == l / 4 % 2 && w / 2 % 2 == l / 2 % 2 && w % 2 == l % 2
  {
    var h: int := s[0];
    Halved(w, 128 * h, l);
    Halved(w / 2, 64 * h, l / 2);
    Halved(w / 2 / 2, 32 * h, l / 2 / 2);
    HalvedTwice(w);
    HalvedTwice(l);
  }

  /** The fixed fields of a block. */
  lemma HeadSays(b: seq<byte>, prior: PmuConfig)
    requires IsBlock(b)
    ensures |b| == 30 + 20 * Word2(b[20..22]) + 20 * Word2(b[22..24]) + 260 * Word2(b[24..26])
    ensures var p := DecodePmu(b, prior);
            && p.stationName == b[..16] && p.sourceID == Word2(b[16..18])
            && p.floatFreq == (b[19] / 8 % 2 == 1) && p.floatAnalog == (b[19] / 4 % 2 == 1)
            && p.floatPhasor == (b[19] / 2 % 2 == 1) && p.polar == (b[19] % 2 == 1)
            && p.phasorCount == Word2(b[20..22]) && p.analogCount == Word2(b[22..24])
            && p.digitalWordCount == Word2(b[24..26])
            && p.nominalFrequency == (if b[|b| - 3] == 1 then 50.0 else prior.nominalFrequency)
            && p.changeCount == Word2(b[|b| - 2..]) && p.active == prior.active
  {
    var h, t := b[..26], b[|b| - 4..];
    LowBitsOfWord(b[18..20], Word2(b[18..20]), b[19]);
    assert h[..16] == b[..16] && h[16..18] == b[16..18] && h[18..20] == b[18..20];
    assert t[1] == b[|b| - 3] && t[2..] == b[|b| - 2..];
  }

  /** p is what a block says when it is parsed into prior; the counts are those in the block. */
  ghost predicate Says(b: seq<byte>, prior: PmuConfig, p: PmuConfig, ph: nat, an: nat, dg: nat) {
    && IsBlock(b) && p == DecodePmu(b, prior)
    && ph == Word2(b[20..22]) && an == Word2(b[22..24]) && dg == Word2(b[24..26])
  }

  lemma NamesParted(b: seq<byte>, prior: PmuConfig, p: PmuConfig, ph: nat, an: nat, dg: nat)
    requires Says(b, prior, p, ph, an, dg)
    ensures |NamesOf(b)| == ph + an + 16 * dg
    ensures p.phasorNames == NamesOf(b)[..ph] && p.analogNames == NamesOf(b)[ph..ph + an]
    ensures p.digitalNames == NamesOf(b)[ph + an..]
  {
  }

  /** The name of the i-th phasor. */
  lemma PhasorNameSays(b: seq<byte>, prior: PmuConfig, p: PmuConfig, ph: nat, an: nat, dg: nat, i: nat)
    requires Says(b, prior, p, ph, an, dg) && i < ph
    ensures |p.phasorNames| == ph && 42 + 16 * i <= |b| && p.phasorNames[i] == b[26 + 16 * i..42 + 16 * i]
  {
    NamesParted(b, prior, p, ph, an, dg);
    NameAt(b, i);
  }

  /** The name of the i-th analog value. */
  lemma AnalogNameSays(b: seq<byte>, prior: PmuConfig, p: PmuConfig, ph: nat, an: nat, dg: nat, i: nat, k: nat)
    requires Says(b, prior, p, ph, an, dg) && i < an && k == 26 + 16 * (ph + i)
    ensures |p.analogNames| == an && k + 16 <= |b| && p.analogNames[i] == b[k..k + 16]
  {
    NamesParted(b, prior, p, ph, an, dg);
    NameAt(b, ph + i);
  }

  /** The name of the i-th digital channel, of which there are 16 in a word. */
  lemma DigitalNameSays(b: seq<byte>, prior: PmuConfig, p: PmuConfig, ph: nat, an: nat, dg: nat, i: nat, k: nat)
    requires Says(b, prior, p, ph, an, dg) && i < 16 * dg && k == 26 + 16 * (ph + an + i)
    ensures |p.digitalNames| == 16 * dg && k + 16 <= |b| && p.digitalNames[i] == b[k..k + 16]
  {
    NamesParted(b, prior, p, ph, an, dg);
    NameAt(b, ph + an + i);
  }

  lemma UnitsParted(b: seq<byte>, prior: PmuConfig, p: PmuConfig, ph: nat, an: nat, dg: nat)
    requires Says(b, prior, p, ph, an, dg)
    ensures |UnitsOf(b)| == ph + an + dg
    ensures p.phasorType == TypesOf(UnitsOf(b)[..ph]) && p.phasorConversion == PhasorConversionsOf(UnitsOf(b)[..ph])
    ensures p.analogType == TypesOf(UnitsOf(b)[ph..ph + an])
    ensures p.analogConversion == AnalogConversionsOf(UnitsOf(b)[ph..ph + an])
    ensures p.digitalNominal == WordsOf(UnitsOf(b)[ph + an..], 0)
    ensures p.digitalActive == WordsOf(UnitsOf(b)[ph + an..], 2)
  {
  }

  lemma Unit(b: seq<byte>, prior: PmuConfig, p: PmuConfig, ph: nat, an: nat, dg: nat, i: nat, k: nat)
    requires Says(b, prior, p, ph, an, dg) && i < ph + an + dg && k == 26 + 16 * (ph + an + 16 * dg) + 4 * i
    ensures k + 4 <= |b| && |UnitsOf(b)| == ph + an + dg && |UnitsOf(b)[i]| == 4 && UnitsOf(b)[i] == b[k..k + 4]
    ensures b[k..k + 4][0] == b[k] && b[k..k + 4][1..] == b[k + 1..k + 4]
    ensures b[k..k + 4][0..2] == b[k..k + 2] && b[k..k + 4][2..4] == b[k + 2..k + 4]
  {
    UnitAt(b, i, k);
  }

  /** The type of the i-th phasor, and its conversion factor of 24 bits. */
  lemma PhasorUnitSays(b: seq<byte>, prior: PmuConfig, p: PmuConfig, ph: nat, an: nat, dg: nat, i: nat, k: nat)
    requires Says(b, prior, p, ph, an, dg) && i < ph && k == 26 + 16 * (ph + an + 16 * dg) + 4 * i
    ensures |p.phasorType| == |p.phasorConversion| == ph && k + 4 <= |b|
    ensures p.phasorType[i] == b[k] && p.phasorConversion[i] == Word3(b[k + 1..k + 4])
  {
    UnitsParted(b, prior, p, ph, an, dg);
    Unit(b, prior, p, ph, an, dg, i, k);
  }

  lemma SignedTail(u: seq<byte>)
    requires |u| == 4
    ensures var n := Word3(u[1..]);
            Interpret24(Word4(u)) == if n < 0x80_0000 then n else n - 0x100_0000
  {
    var n: int, t: int, w: int := Word3(u[1..]), u[0], Word4(u);
    assert w == t * 0x100_0000 + n;
    OnlySigned(Interpret24(w), w, t, n);
  }

  lemma OnlySigned(r: int, w: int, t: int, n: int)
    requires -0x80_0000 <= r < 0x80_0000 && (r - w) % 0x100_0000 == 0
    requires w == t * 0x100_0000 + n && 0 <= n < 0x100_0000
    ensures r == if n < 0x80_0000 then n else n - 0x100_0000
  {
  }

  /** The type of the i-th analog value, and its signed conversion factor of 24 bits. */
  lemma AnalogUnitSays(b: seq<byte>, prior: PmuConfig, p: PmuConfig, ph: nat, an: nat, dg: nat, i: nat, k: nat)
    requires Says(b, prior, p, ph, an, dg) && i < an && k == 26 + 16 * (ph + an + 16 * dg) + 4 * (ph + i)
    ensures |p.analogType| == |p.analogConversion| == an && k + 4 <= |b|
    ensures var n := Word3(b[k + 1..k + 4]);
            p.analogType[i] == b[k] && p.analogConversion[i] == if n < 0x80_0000 then n else n - 0x100_0000
  {
    UnitsParted(b, prior, p, ph, an, dg);
    Unit(b, prior, p, ph, an, dg, ph + i, k);
    var u := UnitsOf(b)[ph + i];
    assert UnitsOf(b)[ph..ph + an][i] == u;
    assert p.analogType[i] == u[0] && p.analogConversion[i] == Interpret24(Word4(u));
    SignedTail(u);
  }

  /** The two masks of the i-th digital word. */
  lemma DigitalUnitSays(b: seq<byte>, prior: PmuConfig, p: PmuConfig, ph: nat, an: nat, dg: nat, i: nat, k: nat)
    requires Says(b, prior, p, ph, an, dg) && i < dg && k == 26 + 16 * (ph + an + 16 * dg) + 4 * (ph + an + i)
    ensures |p.digitalNominal| == |p.digitalActive| == dg && k + 4 <= |b|
    ensures p.digitalNominal[i] == Word2(b[k..k + 2]) && p.digitalActive[i] == Word2(b[k + 2..k + 4])
  {
    UnitsParted(b, prior, p, ph, an, dg);
    Unit(b, prior, p, ph, an, dg, ph + an + i, k);
    assert UnitsOf(b)[ph + an..][i] == b[k..k + 4];
  }

  // ---- Writing a block ----

  /** A name is written in 16 bytes: its first 16, and zeros behind a shorter one. */
  lemma NameInBytes(name: seq<byte>, j: nat)
    requires j < 16
    ensures |Pad(name)| == 16 && Pad(name)[j] == if j < |name| then name[j] else 0
  {
  }

  lemma EncodedEnds(p: PmuConfig, b: seq<byte>)
    requires Matched(p) && b == EncodePmu(p)
    ensures |b| >= 30 && b[..26] == Head(p) && b[|b| - 4..] == Tail(p)
  {
    FourParts(Head(p), Flat(Names(p)), Flat(Units(p)), Tail(p), b);
  }

  /** The fixed fields as they are written. */
  lemma HeadWritten(p: PmuConfig, b: seq<byte>)
    requires Matched(p) && b == EncodePmu(p)
    ensures |b| == 30 + 20 * p.phasorCount + 20 * p.analogCount + 260 * p.digitalWordCount
    ensures forall j :: 0 <= j < 16 ==> b[j] == if j < |p.stationName| then p.stationName[j] else 0
    ensures Word2(b[16..18]) == p.sourceID
    ensures Word2(b[18..20]) == (if p.floatFreq then 8 else 0) + (if p.floatAnalog then 4 else 0)
                              + (if p.floatPhasor then 2 else 0) + (if p.polar then 1 else 0)
    ensures Word2(b[20..22]) == p.phasorCount && Word2(b[22..24]) == p.analogCount
    ensures Word2(b[24..26]) == p.digitalWordCount
    ensures b[|b| - 4] == 0 && b[|b| - 3] == (if p.nominalFrequency == 50.0 then 1 else 0)
    ensures Word2(b[|b| - 2..]) == p.changeCount
  {
    DecodeOfEncode(p, p);
    EncodedEnds(p, b);
    HeadFields(p);
    HeadSlices(b, Head(p));
    TailSlices(b, Tail(p));
    forall j | 0 <= j < 16
      ensures b[j] == if j < |p.stationName| then p.stationName[j] else 0
    {
      NameInBytes(p.stationName, j);
      assert b[j] == Head(p)[..16][j];
    }
    Word2OfBytes(p.changeCount);
  }

  lemma HeadSlices(b: seq<byte>, h: seq<byte>)
    requires |b| >= 26 && b[..26] == h
    ensures forall j :: 0 <= j < 16 ==> b[j] == h[..16][j]
    ensures b[16..18] == h[16..18] && b[18..20] == h[18..20] && b[20..22] == h[20..22] && b[22..24] == h[22..24]
    ensures b[24..26] == h[24..26]
  {
  }

  lemma TailSlices(b: seq<byte>, t: seq<byte>)
    requires |b| >= 4 && b[|b| - 4..] == t
    ensures b[|b| - 4] == t[0] && b[|b| - 3] == t[1] && b[|b| - 2..] == t[2..]
  {
  }

  /** The rest of a block is written where it is read, and says what the frame carries of the PMU. */
  lemma RestWritten(p: PmuConfig, b: seq<byte>)
    requires Matched(p) && b == EncodePmu(p)
    ensures Says(b, p, Carried(p, p), p.phasorCount, p.analogCount, p.digitalWordCount)
  {
    DecodeOfEncode(p, p);
    HeadWritten(p, b);
  }

  /** Types and masks are carried as they are, names padded. */
  lemma CarriedAsIs(p: PmuConfig, prior: PmuConfig)
    requires Matched(p)
    ensures var c := Carried(p, prior);
            && c.phasorType == p.phasorType && c.analogType == p.analogType
            && c.digitalNominal == p.digitalNominal && c.digitalActive == p.digitalActive
            && |c.phasorNames| == |p.phasorNames| && |c.analogNames| == |p.analogNames|
            && |c.digitalNames| == |p.digitalNames|
            && (forall i :: 0 <= i < |p.phasorNames| ==> c.phasorNames[i] == Pad(p.phasorNames[i]))
            && (forall i :: 0 <= i < |p.analogNames| ==> c.analogNames[i] == Pad(p.analogNames[i]))
            && (forall i :: 0 <= i < |p.digitalNames| ==> c.digitalNames[i] == Pad(p.digitalNames[i]))
  {
  }

  /** Conversion factors are carried as the number of 24 bits that has the same low 24 bits. */
  lemma CarriedIn24Bits(p: PmuConfig, prior: PmuConfig, i: nat)
    requires Matched(p)
    ensures |Carried(p, prior).phasorConversion| == p.phasorCount
    ensures |Carried(p, prior).analogConversion| == p.analogCount
    ensures i < p.phasorCount ==> Carried(p, prior).phasorConversion[i] == p.phasorConversion[i] % 0x100_0000
    ensures i < p.analogCount ==>
              var m: int, n: int := Carried(p, prior).analogConversion[i], p.analogConversion[i];
              -0x80_0000 <= m < 0x80_0000 && (m - n) % 0x100_0000 == 0
  {
  }

  // ---- Reading a frame ----

  /** Where the i-th PMU of a frame starts. */
  function PmuAt(s: seq<byte>, i: nat): (at: nat)
    ensures at >= 20
  {
    if i == 0 then 20
    else
      var k := PmuAt(s, i - 1);
      if k + 26 > |s| then k
      else k + 30 + 20 * Word2(s[k + 20..k + 22]) + 20 * Word2(s[k + 22..k + 24]) + 260 * Word2(s[k + 24..k + 26])
  }

  lemma {:induction false} TakenFirst(s: seq<byte>, n: nat, i: nat)
    requires TakeBlocks(s, n).Taken? && i <= n
    ensures TakeBlocks(s, i).Taken? && TakeBlocks(s, i).blocks == TakeBlocks(s, n).blocks[..i]
    decreases n
  {
    if i < n {
      TakenFirst(s, n - 1, i);
    }
  }

  lemma {:induction false} TakenUpTo(s: seq<byte>, i: nat)
    requires |s| >= 20 && TakeBlocks(s[20..], i).Taken?
    ensures PmuAt(s, i) <= |s| && TakeBlocks(s[20..], i).rest == s[PmuAt(s, i)..]
  {
    if i > 0 {
      NextTaken(s[20..], i - 1);
      TakenUpTo(s, i - 1);
      RestMoves(s, s[20..], i - 1, TakeBlocks(s[20..], i - 1).rest);
    }
  }

  lemma RestMoves(s: seq<byte>, body: seq<byte>, i: nat, rest: seq<byte>)
    requires PmuAt(s, i) <= |s| && rest == s[PmuAt(s, i)..]
    requires TakeBlocks(body, i + 1).Taken? && TakeBlocks(body, i).Taken? && TakeBlocks(body, i).rest == rest
    ensures PmuAt(s, i + 1) <= |s| && TakeBlocks(body, i + 1).rest == s[PmuAt(s, i + 1)..]
  {
    NextTaken(body, i);
    NextPmuAt(s, i, rest);
  }

  lemma CountsBehind(s: seq<byte>, k: nat, rest: seq<byte>)
    requires k + 26 <= |s| && rest == s[k..]
    ensures rest[20..22] == s[k + 20..k + 22] && rest[22..24] == s[k + 22..k + 24] && rest[24..26] == s[k + 24..k + 26]
  {
  }

  lemma DropTwice(s: seq<byte>, k: nat, n: nat)
    requires k + n <= |s|
    ensures s[k..][n..] == s[k + n..] && s[k..][..n] == s[k..k + n]
  {
  }

  /** The i-th block stands between its place and the next one's. */
  lemma BlockAt(s: seq<byte>, n: nat, i: nat)
    requires |s| >= 20 && TakeBlocks(s[20..], n).Taken? && i < n
    ensures PmuAt(s, i) <= PmuAt(s, i + 1) <= |s|
    ensures TakeBlocks(s[20..], n).blocks[i] == s[PmuAt(s, i)..PmuAt(s, i + 1)]
  {
    TakenFirst(s[20..], n, i + 1);
    assert TakeBlocks(s[20..], n).blocks[i] == TakeBlocks(s[20..], i + 1).blocks[i];
    NextTaken(s[20..], i);
    TakenUpTo(s, i);
    NextPmuAt(s, i, TakeBlocks(s[20..], i).rest);
  }

  lemma NextTaken(s: seq<byte>, i: nat)
    requires TakeBlocks(s, i + 1).Taken?
    ensures TakeBlocks(s, i).Taken? && |TakeBlocks(s, i).rest| >= 26
    ensures var rest := TakeBlocks(s, i).rest;
            && BlockSize(rest) <= |rest| && TakeBlocks(s, i + 1).rest == rest[BlockSize(rest)..]
            && TakeBlocks(s, i + 1).blocks[i] == rest[..BlockSize(rest)]
  {
  }

  lemma NextPmuAt(s: seq<byte>, i: nat, rest: seq<byte>)
    requires PmuAt(s, i) <= |s| && rest == s[PmuAt(s, i)..] && |rest| >= 26 && BlockSize(rest) <= |rest|
    ensures PmuAt(s, i) <= PmuAt(s, i + 1) <= |s|
    ensures rest[..BlockSize(rest)] == s[PmuAt(s, i)..PmuAt(s, i + 1)]
    ensures rest[BlockSize(rest)..] == s[PmuAt(s, i + 1)..]
  {
    CountsBehind(s, PmuAt(s, i), rest);
    DropTwice(s, PmuAt(s, i), BlockSize(rest));
  }

  /** A buffer holds the PMUs it announces when every one fits, and DATA_RATE behind them. */
  lemma HoldsWhatFits(s: seq<byte>, n: nat)
    requires |s| >= 20 && n == Word2(s[18..20])
    requires forall i :: 0 <= i < n ==> PmuAt(s, i) + 26 <= |s|
    requires forall i :: 0 <= i <= n ==> PmuAt(s, i) <= |s|
    ensures HoldsBody(s) <==> PmuAt(s, n) + 2 <= |s|
  {
    FitsAreTaken(s, n);
    TakenUpTo(s, n);
  }

  lemma {:induction false} FitsAreTaken(s: seq<byte>, n: nat)
    requires |s| >= 20
    requires forall i :: 0 <= i < n ==> PmuAt(s, i) + 26 <= |s|
    requires forall i :: 0 <= i <= n ==> PmuAt(s, i) <= |s|
    ensures TakeBlocks(s[20..], n).Taken?
  {
    if n > 0 {
      FitsAreTaken(s, n - 1);
      TakenUpTo(s, n - 1);
      CountsBehind(s, PmuAt(s, n - 1), TakeBlocks(s[20..], n - 1).rest);
      assert PmuAt(s, n) <= |s|;
    }
  }

  /** The fixed fields of a configuration frame that is accepted, and DATA_RATE behind the PMUs. */
  lemma FrameSays(s: seq<byte>, prior: Config)
    requires Readable(s) && HoldsPmus(s) && ParseConfig(s, prior).result == ParseComplete
    ensures s[0] == 0xAA && (s[1] / 16 % 8 == 2 || s[1] / 16 % 8 == 3) && Word2(s[2..4]) <= |s| && |s| >= 20
    ensures var c := ParseConfig(s, prior).config;
            && c.idcode == Word2(s[4..6]) && c.soc == Word4(s[6..10]) && c.fracsec == Word4(s[10..14])
            && c.timeBase == Word3(s[15..18]) && |c.pmus| == Word2(s[18..20])
  {
  }

  lemma RateBehind(s: seq<byte>, n: nat, k: nat, rest: seq<byte>)
    requires |s| >= 20 && TakeBlocks(s[20..], n).Taken? && rest == TakeBlocks(s[20..], n).rest && |rest| >= 2
    requires k == PmuAt(s, n)
    ensures k + 2 <= |s| && rest[..2] == s[k..k + 2]
  {
    TakenUpTo(s, n);
    DropTwice(s, k, 2);
  }

  lemma RateOf(s: seq<byte>, prior: Config) returns (n: nat, rest: seq<byte>, rate: int)
    requires Readable(s) && HoldsPmus(s) && ParseConfig(s, prior).result == ParseComplete
    ensures |s| >= 20 && n == Word2(s[18..20]) && rate == ParseConfig(s, prior).config.dataRate
    ensures TakeBlocks(s[20..], n).Taken? && rest == TakeBlocks(s[20..], n).rest && |rest| >= 2
    ensures var w := Word2(rest[..2]); rate == if w < 0x8000 then w else w - 0x1_0000
  {
    n, rate := Word2(s[18..20]), ParseConfig(s, prior).config.dataRate;
    rest := TakeBlocks(s[20..], n).rest;
  }

  /** DATA_RATE, a signed word, stands where the next PMU would. */
  lemma RateSays(s: seq<byte>, prior: Config, k: nat)
    requires Readable(s) && HoldsPmus(s) && ParseConfig(s, prior).result == ParseComplete
    requires |s| >= 20 && k == PmuAt(s, Word2(s[18..20]))
    ensures k + 2 <= |s|
    ensures var w := Word2(s[k..k + 2]);
            ParseConfig(s, prior).config.dataRate == if w < 0x8000 then w else w - 0x1_0000
  {
    var n, rest, rate := RateOf(s, prior);
    RateBehind(s, n, k, rest);
  }

  /** The i-th PMU is read at its place into the i-th of the PMUs that were there, or into a new one, which
      has 60 Hz and is active. */
  lemma PmuSays(s: seq<byte>, prior: Config, i: nat)
    requires Readable(s) && HoldsPmus(s) && ParseConfig(s, prior).result == ParseComplete
    requires i < Word2(s[18..20]) == |ParseConfig(s, prior).config.pmus|
    ensures PmuAt(s, i) <= PmuAt(s, i + 1) <= |s| && IsBlock(s[PmuAt(s, i)..PmuAt(s, i + 1)])
    ensures ParseConfig(s, prior).config.pmus[i]
         == DecodePmu(s[PmuAt(s, i)..PmuAt(s, i + 1)], if i < |prior.pmus| then prior.pmus[i] else Fresh())
    ensures Fresh().nominalFrequency == 60.0 && Fresh().active
  {
    BlockAt(s, Word2(s[18..20]), i);
  }

  // ---- Writing a frame ----

  /** t is what a configuration frame of n bytes makes of a buffer that held `was`. */
  ghost predicate Written(t: seq<byte>, n: nat, was: seq<byte>, c: Config, kind: int, activeOnly: bool) {
    && AllMatched(c.pmus) && (kind == 0x20 || kind == 0x30) && n == FrameSize(c, activeOnly) <= |was|
    && t == Generated(was, c, kind, activeOnly)
  }

  lemma WrittenIsFrame(t: seq<byte>, n: nat, was: seq<byte>, c: Config, kind: int, activeOnly: bool)
    requires Written(t, n, was, c, kind, activeOnly)
    ensures IsConfigFrame(t, Started(was, c, kind), Fixed(was[14], c), Flat(Blocks(Emitted(c.pmus, activeOnly))),
                          Bytes2(Unsigned16(c.dataRate)), n)
    ensures 24 <= n <= |t| == |was|
  {
    GeneratedIsFrame(was, c, kind, activeOnly);
  }

  /** The start of a frame as it is written. */
  lemma StartWritten(t: seq<byte>, n: nat, was: seq<byte>, c: Config, kind: int, activeOnly: bool)
    requires Written(t, n, was, c, kind, activeOnly) && n < 0x1_0000 && |was| % 0x1_0000 >= 18
    ensures 24 <= n <= |t| == |was| && t[0] == 0xAA && t[1] == kind + 1 && Word2(t[2..4]) == n
    ensures Word2(t[4..6]) == c.idcode && NoResidue(t, n) && t[n..] == was[n..]
  {
    var st := WithCommonFrame(was, c.idcode, kind);
    var x := Fixed(was[14], c) + Flat(Blocks(Emitted(c.pmus, activeOnly))) + Bytes2(Unsigned16(c.dataRate));
    WrittenIsFrame(t, n, was, c, kind, activeOnly);
    assert IsFrame(t, st, x, n);
    FrameDivides(t, st, x, n);
    CommonFrameStarts(was, c.idcode, kind);
    FirstTwo(t, st);
    BehindStart(was, c.idcode, kind, n);
  }

  lemma FixedAt(t: seq<byte>, f: seq<byte>)
    requires |t| >= 20 && |f| == 14 && t[6..20] == f
    ensures t[6..10] == f[..4] && t[10..14] == f[4..8] && t[14] == f[8]
    ensures t[15..18] == f[9..12] && t[18..20] == f[12..14]
  {
    forall i, j | 0 <= i <= j <= 14
      ensures t[6 + i..6 + j] == f[i..j]
    {
      SubSlice(t, 6, 14, i, j);
    }
    assert t[14] == t[6..20][8];
    assert t[6 + 0..6 + 4] == f[0..4];
  }

  /** The fixed fields of a frame as they are written: byte 14 stays as it was. */
  lemma FixedWritten(t: seq<byte>, n: nat, was: seq<byte>, c: Config, kind: int, activeOnly: bool)
    requires Written(t, n, was, c, kind, activeOnly)
    ensures 24 <= n <= |t| == |was|
    ensures Word4(t[6..10]) == c.soc && Word4(t[10..14]) == c.fracsec && t[14] == was[14]
    ensures Word3(t[15..18]) == c.timeBase % 0x100_0000 && t[18..20] == Bytes2(|c.pmus|)
    ensures Word2(t[n - 4..n - 2]) == if c.dataRate >= 0 then c.dataRate else c.dataRate + 0x1_0000
  {
    WrittenIsFrame(t, n, was, c, kind, activeOnly);
    FrameSlices(t, Started(was, c, kind), Fixed(was[14], c), Flat(Blocks(Emitted(c.pmus, activeOnly))),
                Bytes2(Unsigned16(c.dataRate)), n);
    FixedAt(t, Fixed(was[14], c));
    FixedFields(was[14], c);
    Word2OfBytes(Unsigned16(c.dataRate));
  }

  /** Without the restriction to active PMUs, all are written. */
  lemma {:induction false} AllEmitted(pmus: seq<PmuConfig>)
    ensures Emitted(pmus, false) == pmus
  {
    if pmus != [] {
      AllEmitted(pmus[..|pmus| - 1]);
    }
  }

  /** With it, the active ones are, in their order. */
  lemma {:induction false} ActiveEmitted(pmus: seq<PmuConfig>, more: seq<PmuConfig>, p: PmuConfig)
    ensures Emitted(pmus + more, true) == Emitted(pmus, true) + Emitted(more, true)
    ensures Emitted([p], true) == if p.active then [p] else []
    decreases |more|
  {
    assert [p][..0] == [];
    if more == [] {
      assert pmus + more == pmus;
    } else {
      var init, last := more[..|more| - 1], more[|more| - 1];
      ActiveEmitted(pmus, init, p);
      assert (pmus + more)[..|pmus + more| - 1] == pmus + init;
    }
  }

  lemma BlocksBefore(pmus: seq<PmuConfig>, i: nat, k: nat, b: seq<byte>, y: seq<byte>)
    requires AllMatched(pmus) && i < |pmus| && k == TotalSize(pmus[..i]) && b == EncodePmu(pmus[i])
    requires y == Flat(Blocks(pmus))
    ensures k + |b| <= |y| && y[k..k + |b|] == b
  {
    var before, after := Flat(Blocks(pmus)[..i]), Flat(Blocks(pmus)[i + 1..]);
    assert |before| == k by {
      assert Blocks(pmus)[..i] == Blocks(pmus[..i]);
      BlocksSize(pmus[..i]);
    }
    assert y == before + b + after by {
      FlatAround(Blocks(pmus), i);
    }
    MiddlePart(before, b, after, y, k, k + |b|);
  }

  lemma SliceIn(t: seq<byte>, n: nat, y: seq<byte>, k: nat, b: seq<byte>)
    requires 24 <= n <= |t| && t[20..n - 4] == y && k + |b| <= |y| && y[k..k + |b|] == b
    ensures 20 + k + |b| <= |t| && t[20 + k..20 + k + |b|] == b
  {
    SubSlice(t, 20, n - 24, k, k + |b|);
  }

  /** Each PMU that is written stands behind those before it, from byte 20 on. */
  lemma PmuWritten(t: seq<byte>, n: nat, was: seq<byte>, c: Config, kind: int, activeOnly: bool, e: seq<PmuConfig>,
                   i: nat, k: nat, b: seq<byte>)
    requires Written(t, n, was, c, kind, activeOnly) && e == Emitted(c.pmus, activeOnly) && i < |e|
    requires k == TotalSize(e[..i]) && b == EncodePmu(e[i])
    ensures 20 + k + |b| <= |t| && t[20 + k..20 + k + |b|] == b
  {
    WrittenIsFrame(t, n, was, c, kind, activeOnly);
    FrameSlices(t, Started(was, c, kind), Fixed(was[14], c), Flat(Blocks(e)), Bytes2(Unsigned16(c.dataRate)), n);
    BlocksBefore(e, i, k, b, Flat(Blocks(e)));
    SliceIn(t, n, Flat(Blocks(e)), k, b);
  }

  /** A PMU takes 30 bytes, 20 for each phasor and each analog value, and 260 for each digital word. */
  lemma {:induction false} SizeOfPmus(pmus: seq<PmuConfig>, p: PmuConfig)
    ensures TotalSize([]) == 0
    ensures TotalSize(pmus + [p])
         == TotalSize(pmus) + 30 + 20 * p.phasorCount + 20 * p.analogCount + 260 * p.digitalWordCount
  {
    assert (pmus + [p])[..|pmus|] == pmus;
  }
}
