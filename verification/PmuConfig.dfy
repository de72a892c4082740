/** The part of a configuration frame that describes one PMU (clause 6.4 of IEEE Std C37.118.2-2011). */
module PmuConfigs {
  import opened Bits
  import opened Wire

  const NAME_SIZE := 16

  datatype PmuConfig = PmuConfig(
    stationName: seq<byte>,
    sourceID: Word16,
    floatFreq: bool,
    floatAnalog: bool,
    floatPhasor: bool,
    polar: bool,
    phasorCount: Word16,
    analogCount: Word16,
    digitalWordCount: Word16,
    phasorNames: seq<seq<byte>>,
    analogNames: seq<seq<byte>>,
    digitalNames: seq<seq<byte>>,
    phasorType: seq<byte>,
    phasorConversion: seq<Word32>,
    analogType: seq<byte>,
    analogConversion: seq<Int32>,
    digitalNominal: seq<Word16>,
    digitalActive: seq<Word16>,
    nominalFrequency: real,
    changeCount: Word16,
    active: bool)

  /** A PMU before anything has been parsed into it. */
  function Fresh(): PmuConfig {
    PmuConfig([], 0, false, false, false, false, 0, 0, 0, [], [], [], [], [], [], [], [], [], 60.0, 0, true)
  }

  /** The vectors are as long as the counts say. */
  predicate Matched(p: PmuConfig) {
    && |p.phasorNames| == |p.phasorType| == |p.phasorConversion| == p.phasorCount
    && |p.analogNames| == |p.analogType| == |p.analogConversion| == p.analogCount
    && |p.digitalNominal| == |p.digitalActive| == p.digitalWordCount
    && |p.digitalNames| == 16 * p.digitalWordCount
  }

  // ---- Encoding ----

  /** A name cut or zero-padded to 16 bytes. */
  function Pad(name: seq<byte>): (s: seq<byte>)
    ensures |s| == NAME_SIZE
  {
    if |name| >= NAME_SIZE then name[..NAME_SIZE] else name + seq(NAME_SIZE - |name|, _ => 0)
  }

  function Padded(names: seq<seq<byte>>): (s: seq<seq<byte>>)
    ensures |s| == |names| && AllWide(s, NAME_SIZE)
  {
    seq(|names|, i requires 0 <= i < |names| => Pad(names[i]))
  }

  function Format(p: PmuConfig): Word16 {
    (if p.floatFreq then 8 else 0) + (if p.floatAnalog then 4 else 0)
    + (if p.floatPhasor then 2 else 0) + (if p.polar then 1 else 0)
  }

  function Head(p: PmuConfig): (s: seq<byte>)
    ensures |s| == 26
  {
    Pad(p.stationName) + Bytes2(p.sourceID) + Bytes2(Format(p))
    + Bytes2(p.phasorCount) + Bytes2(p.analogCount) + Bytes2(p.digitalWordCount)
  }

  function Names(p: PmuConfig): (s: seq<seq<byte>>)
    ensures AllWide(s, NAME_SIZE)
  {
    Padded(p.phasorNames) + Padded(p.analogNames) + Padded(p.digitalNames)
  }

  /** The 32 bits of a signed number. */
  function TwosComplement(c: Int32): Word32 {
    if c >= 0 then c else c + 0x1_0000_0000
  }

  function PhasorUnits(p: PmuConfig): (s: seq<seq<byte>>)
    requires Matched(p)
    ensures |s| == p.phasorCount && AllWide(s, 4)
  {
    seq(p.phasorCount, i requires 0 <= i < p.phasorCount => [p.phasorType[i]] + Bytes3(p.phasorConversion[i]))
  }

  /** The four bytes of a conversion factor, of which the type takes the first. */
  function AnalogUnits(p: PmuConfig): (s: seq<seq<byte>>)
    requires Matched(p)
    ensures |s| == p.analogCount && AllWide(s, 4)
  {
    seq(p.analogCount, i requires 0 <= i < p.analogCount =>
      [p.analogType[i]] + Bytes4(TwosComplement(p.analogConversion[i]))[1..])
  }

  function DigitalUnits(p: PmuConfig): (s: seq<seq<byte>>)
    requires Matched(p)
    ensures |s| == p.digitalWordCount && AllWide(s, 4)
  {
    seq(p.digitalWordCount, i requires 0 <= i < p.digitalWordCount =>
      Bytes2(p.digitalNominal[i]) + Bytes2(p.digitalActive[i]))
  }

  function Units(p: PmuConfig): (s: seq<seq<byte>>)
    requires Matched(p)
    ensures AllWide(s, 4)
  {
    PhasorUnits(p) + AnalogUnits(p) + DigitalUnits(p)
  }

  function Tail(p: PmuConfig): (s: seq<byte>)
    ensures |s| == 4
  {
    [0, if p.nominalFrequency == 50.0 then 1 else 0] + Bytes2(p.changeCount)
  }

  function EncodePmu(p: PmuConfig): seq<byte>
    requires Matched(p)
  {
    Head(p) + Flat(Names(p)) + Flat(Units(p)) + Tail(p)
  }

  // ---- Decoding ----

  function Size(phasors: nat, analogs: nat, digitals: nat): nat {
    30 + 20 * phasors + 20 * analogs + 260 * digitals
  }

  /** The size that the counts in a block announce. */
  function BlockSize(b: seq<byte>): nat
    requires |b| >= 26
  {
    Size(Word2(b[20..22]), Word2(b[22..24]), Word2(b[24..26]))
  }

  /** The bytes of one PMU. */
  predicate IsBlock(b: seq<byte>) {
    |b| >= 26 && |b| == BlockSize(b)
  }

  /** Sign extension of the low 24 bits, by shifts. */
  function Interpret24(n: Word32): (r: Int32)
    ensures -0x80_0000 <= r < 0x80_0000 && (r - n) % 0x100_0000 == 0
  {
    var v1, v2, v3 := n / 0x1_0000 % 0x100, n / 0x100 % 0x100, n % 0x100;
    var x := v1 * 0x100_0000 + v2 * 0x1_0000 + v3 * 0x100;
    assert n / 0x1_0000 == n / 0x100 / 0x100;
    (if x >= 0x8000_0000 then x - 0x1_0000_0000 else x) / 0x100
  }

  /** The types that start n units. */
  function TypesOf(units: seq<seq<byte>>): (s: seq<byte>)
    requires AllWide(units, 4)
    ensures |s| == |units| && forall i :: 0 <= i < |units| ==> s[i] == units[i][0]
  {
    seq(|units|, i requires 0 <= i < |units| => units[i][0])
  }

  function PhasorConversionsOf(units: seq<seq<byte>>): (s: seq<Word32>)
    requires AllWide(units, 4)
    ensures |s| == |units| && forall i :: 0 <= i < |units| ==> s[i] == Word3(units[i][1..])
  {
    seq(|units|, i requires 0 <= i < |units| => Word3(units[i][1..]) as Word32)
  }

  function AnalogConversionsOf(units: seq<seq<byte>>): (s: seq<Int32>)
    requires AllWide(units, 4)
    ensures |s| == |units| && forall i :: 0 <= i < |units| ==> s[i] == Interpret24(Word4(units[i]))
  {
    seq(|units|, i requires 0 <= i < |units| => Interpret24(Word4(units[i])) as Int32)
  }

  /** The words at a position in every unit. */
  function WordsOf(units: seq<seq<byte>>, at: nat): (s: seq<Word16>)
    requires AllWide(units, 4) && at <= 2
    ensures |s| == |units| && forall i :: 0 <= i < |units| ==> s[i] == Word2(units[i][at..at + 2])
  {
    seq(|units|, i requires 0 <= i < |units| => Word2(units[i][at..at + 2]) as Word16)
  }

  function DecodeParts(head: seq<byte>, names: seq<seq<byte>>, units: seq<seq<byte>>, tail: seq<byte>,
                       prior: PmuConfig): (p: PmuConfig)
    requires |head| == 26 && |tail| == 4 && AllWide(units, 4)
    requires var ph, an, dg := Word2(head[20..22]), Word2(head[22..24]), Word2(head[24..26]);
             |names| == ph + an + 16 * dg && |units| == ph + an + dg
    ensures Matched(p)
  {
    var format := Word2(head[18..20]);
    var ph, an, dg := Word2(head[20..22]), Word2(head[22..24]), Word2(head[24..26]);
    PmuConfig(
      head[..16], Word2(head[16..18]),
      format / 8 % 2 == 1, format / 4 % 2 == 1, format / 2 % 2 == 1, format % 2 == 1,
      ph, an, dg,
      names[..ph], names[ph..ph + an], names[ph + an..],
      TypesOf(units[..ph]), PhasorConversionsOf(units[..ph]),
      TypesOf(units[ph..ph + an]), AnalogConversionsOf(units[ph..ph + an]),
      WordsOf(units[ph + an..], 0), WordsOf(units[ph + an..], 2),
      if tail[1] == 1 then 50.0 else prior.nominalFrequency,
      Word2(tail[2..]),
      prior.active)
  }

  function NamesEnd(b: seq<byte>): (n: nat)
    requires IsBlock(b)
    ensures 26 <= n <= |b| - 4
  {
    26 + 16 * (Word2(b[20..22]) + Word2(b[22..24]) + 16 * Word2(b[24..26]))
  }

  function NamesOf(b: seq<byte>): (names: seq<seq<byte>>)
    requires IsBlock(b)
  {
    Chunks(b[26..NamesEnd(b)], 16, Word2(b[20..22]) + Word2(b[22..24]) + 16 * Word2(b[24..26]))
  }

  function UnitsOf(b: seq<byte>): (units: seq<seq<byte>>)
    requires IsBlock(b)
    ensures AllWide(units, 4)
  {
    Chunks(b[NamesEnd(b)..|b| - 4], 4, Word2(b[20..22]) + Word2(b[22..24]) + Word2(b[24..26]))
  }

  /** A block parsed into a PMU that holds prior: the frequency and the active flag may stay. */
  function DecodePmu(b: seq<byte>, prior: PmuConfig): (p: PmuConfig)
    requires IsBlock(b)
    ensures Matched(p)
  {
    var h := b[..26];
    assert h[20..22] == b[20..22] && h[22..24] == b[22..24] && h[24..26] == b[24..26];
    DecodeParts(h, NamesOf(b), UnitsOf(b), b[|b| - 4..], prior)
  }

  // ---- Decoding what was encoded ----

  /** What of a PMU a frame carries, parsed into prior. */
  function Carried(p: PmuConfig, prior: PmuConfig): PmuConfig
    requires Matched(p)
  {
    p.(stationName := Pad(p.stationName),
       phasorNames := Padded(p.phasorNames), analogNames := Padded(p.analogNames),
       digitalNames := Padded(p.digitalNames),
       phasorConversion := seq(|p.phasorConversion|, i requires 0 <= i < |p.phasorConversion| =>
                                p.phasorConversion[i] % 0x100_0000),
       analogConversion := seq(|p.analogConversion|, i requires 0 <= i < |p.analogConversion| =>
                                Wrapped24(p.analogConversion[i])),
       nominalFrequency := if p.nominalFrequency == 50.0 then 50.0 else prior.nominalFrequency,
       active := prior.active)
  }

  /** The number in [-2^23, 2^23) with the same low 24 bits. */
  function Wrapped24(c: int): (r: Int32)
    ensures -0x80_0000 <= r < 0x80_0000 && (r - c) % 0x100_0000 == 0
    ensures -0x80_0000 <= c < 0x80_0000 ==> r == c
  {
    (c + 0x80_0000) % 0x100_0000 - 0x80_0000
  }

  lemma FourParts(h: seq<byte>, n: seq<byte>, u: seq<byte>, t: seq<byte>, b: seq<byte>)
    requires b == h + n + u + t
    ensures b[..|h|] == h && b[|h|..|h| + |n|] == n && b[|h| + |n|..|b| - |t|] == u && b[|b| - |t|..] == t
  {
  }

  /** The parts of a block are found where its counts put them. */
  lemma PartsOfBlock(head: seq<byte>, names: seq<seq<byte>>, units: seq<seq<byte>>, tail: seq<byte>, b: seq<byte>,
                     prior: PmuConfig)
    requires |head| == 26 && |tail| == 4 && AllWide(names, 16) && AllWide(units, 4)
    requires var ph, an, dg := Word2(head[20..22]), Word2(head[22..24]), Word2(head[24..26]);
             |names| == ph + an + 16 * dg && |units| == ph + an + dg
    requires b == head + Flat(names) + Flat(units) + tail
    ensures IsBlock(b) && DecodePmu(b, prior) == DecodeParts(head, names, units, tail, prior)
  {
    ChunksOfFlat(names, 16);
    ChunksOfFlat(units, 4);
    SlicesOfBlock(head, Flat(names), Flat(units), tail, b, |names|, |units|);
  }

  lemma SlicesOfBlock(head: seq<byte>, n: seq<byte>, u: seq<byte>, tail: seq<byte>, b: seq<byte>, ns: nat, us: nat)
    requires |head| == 26 && |tail| == 4 && |n| == 16 * ns && |u| == 4 * us
    requires var ph, an, dg := Word2(head[20..22]), Word2(head[22..24]), Word2(head[24..26]);
             ns == ph + an + 16 * dg && us == ph + an + dg
    requires b == head + n + u + tail
    ensures IsBlock(b) && b[..26] == head && b[26..NamesEnd(b)] == n && b[NamesEnd(b)..|b| - 4] == u
    ensures b[|b| - 4..] == tail
    ensures b[20..22] == head[20..22] && b[22..24] == head[22..24] && b[24..26] == head[24..26]
  {
    FourParts(head, n, u, tail, b);
    SameCounts(b, head);
  }

  lemma SameCounts(b: seq<byte>, head: seq<byte>)
    requires |b| >= 26 && b[..26] == head
    ensures b[20..22] == head[20..22] && b[22..24] == head[22..24] && b[24..26] == head[24..26]
  {
  }

  lemma SixParts(a: seq<byte>, b: seq<byte>, c: seq<byte>, d: seq<byte>, e: seq<byte>, f: seq<byte>, h: seq<byte>)
    requires |a| == 16 && |b| == |c| == |d| == |e| == |f| == 2 && h == a + b + c + d + e + f
    ensures h[..16] == a && h[16..18] == b && h[18..20] == c && h[20..22] == d && h[22..24] == e && h[24..26] == f
  {
    assert h[..24] == a + b + c + d + e && h[..22] == a + b + c + d && h[..20] == a + b + c && h[..18] == a + b;
  }

  lemma SixWords(a: seq<byte>, b: Word16, c: Word16, d: Word16, e: Word16, f: Word16, h: seq<byte>)
    requires |a| == 16 && h == a + Bytes2(b) + Bytes2(c) + Bytes2(d) + Bytes2(e) + Bytes2(f)
    ensures |h| == 26 && h[..16] == a && Word2(h[16..18]) == b && Word2(h[18..20]) == c
    ensures Word2(h[20..22]) == d && Word2(h[22..24]) == e && Word2(h[24..26]) == f
  {
    SixParts(a, Bytes2(b), Bytes2(c), Bytes2(d), Bytes2(e), Bytes2(f), h);
    Word2OfBytes(b);
    Word2OfBytes(c);
    Word2OfBytes(d);
    Word2OfBytes(e);
    Word2OfBytes(f);
  }

  lemma HeadFields(p: PmuConfig)
    ensures var h := Head(p);
            && h[..16] == Pad(p.stationName) && Word2(h[16..18]) == p.sourceID && Word2(h[18..20]) == Format(p)
            && Word2(h[20..22]) == p.phasorCount && Word2(h[22..24]) == p.analogCount
            && Word2(h[24..26]) == p.digitalWordCount
  {
    SixWords(Pad(p.stationName), p.sourceID, Format(p), p.phasorCount, p.analogCount, p.digitalWordCount, Head(p));
  }

  lemma FormatBits(p: PmuConfig)
    ensures var f := Format(p);
            && (f / 8 % 2 == 1) == p.floatFreq && (f / 4 % 2 == 1) == p.floatAnalog
            && (f / 2 % 2 == 1) == p.floatPhasor && (f % 2 == 1) == p.polar
  {
  }

  lemma PhasorFields(p: PmuConfig)
    requires Matched(p)
    ensures TypesOf(PhasorUnits(p)) == p.phasorType
    ensures PhasorConversionsOf(PhasorUnits(p)) == Carried(p, p).phasorConversion
  {
    forall i | 0 <= i < p.phasorCount
      ensures Word3(PhasorUnits(p)[i][1..]) == p.phasorConversion[i] % 0x100_0000
    {
      assert PhasorUnits(p)[i][1..] == Bytes3(p.phasorConversion[i]);
      Word3OfAnyBytes(p.phasorConversion[i]);
    }
  }

  lemma Word3OfAnyBytes(n: nat)
    ensures Word3(Bytes3(n)) == n % 0x100_0000
  {
    var a: int := n / 0x100;
    assert n / 0x1_0000 == a / 0x100;
  }

  lemma AnalogUnitDecoded(t: byte, c: Int32, u: seq<byte>)
    requires u == [t] + Bytes4(TwosComplement(c))[1..]
    ensures |u| == 4 && u[0] == t && Interpret24(Word4(u)) == Wrapped24(c)
  {
    var n: int := TwosComplement(c);
    Word3OfAnyBytes(n);
    SameLow24(Interpret24(Word4(u)), Wrapped24(c), Word4(u), n, c, t);
  }

  lemma SameLow24(r: int, v: int, w: int, n: int, c: int, t: int)
    requires -0x80_0000 <= r < 0x80_0000 && -0x80_0000 <= v < 0x80_0000
    requires (r - w) % 0x100_0000 == 0 && (v - c) % 0x100_0000 == 0
    requires w == t * 0x100_0000 + n % 0x100_0000 && (n == c || n == c + 0x1_0000_0000)
    ensures r == v
  {
  }

  lemma AnalogFields(p: PmuConfig)
    requires Matched(p)
    ensures TypesOf(AnalogUnits(p)) == p.analogType
    ensures AnalogConversionsOf(AnalogUnits(p)) == Carried(p, p).analogConversion
  {
    forall i | 0 <= i < p.analogCount
      ensures AnalogUnits(p)[i][0] == p.analogType[i]
      ensures Interpret24(Word4(AnalogUnits(p)[i])) == Wrapped24(p.analogConversion[i])
    {
      AnalogUnitDecoded(p.analogType[i], p.analogConversion[i], AnalogUnits(p)[i]);
    }
  }

  lemma DigitalFields(p: PmuConfig)
    requires Matched(p)
    ensures WordsOf(DigitalUnits(p), 0) == p.digitalNominal && WordsOf(DigitalUnits(p), 2) == p.digitalActive
  {
    forall i | 0 <= i < p.digitalWordCount
      ensures Word2(DigitalUnits(p)[i][0..2]) == p.digitalNominal[i]
      ensures Word2(DigitalUnits(p)[i][2..4]) == p.digitalActive[i]
    {
      assert DigitalUnits(p)[i][0..2] == Bytes2(p.digitalNominal[i]);
      assert DigitalUnits(p)[i][2..4] == Bytes2(p.digitalActive[i]);
    }
  }

  lemma PartsDecoded(p: PmuConfig, prior: PmuConfig)
    requires Matched(p)
    ensures var h := Head(p);
            && Word2(h[20..22]) == p.phasorCount && Word2(h[22..24]) == p.analogCount
            && Word2(h[24..26]) == p.digitalWordCount
    ensures DecodeParts(Head(p), Names(p), Units(p), Tail(p), prior) == Carried(p, prior)
  {
    HeadFields(p);
    FormatBits(p);
    PhasorFields(p);
    AnalogFields(p);
    DigitalFields(p);
    var ph: int, an: int := p.phasorCount, p.analogCount;
    assert Names(p)[..ph] == Padded(p.phasorNames) && Names(p)[ph..ph + an] == Padded(p.analogNames);
    assert Names(p)[ph + an..] == Padded(p.digitalNames);
    assert Units(p)[..ph] == PhasorUnits(p) && Units(p)[ph..ph + an] == AnalogUnits(p);
    assert Units(p)[ph + an..] == DigitalUnits(p);
    assert Tail(p)[2..] == Bytes2(p.changeCount);
  }

  /** Parsing an encoded PMU gives what a frame carries of it, for every PMU and every prior content. */
  lemma DecodeOfEncode(p: PmuConfig, prior: PmuConfig)
    requires Matched(p)
    ensures var b := EncodePmu(p);
            IsBlock(b) && |b| == Size(p.phasorCount, p.analogCount, p.digitalWordCount)
            && DecodePmu(b, prior) == Carried(p, prior)
  {
    PartsDecoded(p, prior);
    PartsOfBlock(Head(p), Names(p), Units(p), Tail(p), EncodePmu(p), prior);
    FlatLength(Names(p), 16);
    FlatLength(Units(p), 4);
  }

  predicate AllOfNameSize(names: seq<seq<byte>>) {
    forall i :: 0 <= i < |names| ==> |names[i]| == NAME_SIZE
  }

  /** What survives a frame unchanged when parsed into a PMU that holds prior.  A fresh PMU has 60 Hz and
      is active; one that held 50 Hz takes 60 Hz for 50. */
  lemma CarriedWhole(p: PmuConfig, prior: PmuConfig)
    requires Matched(p)
    ensures Carried(p, prior) == p <==>
              && |p.stationName| == NAME_SIZE && AllOfNameSize(p.phasorNames)
              && AllOfNameSize(p.analogNames) && AllOfNameSize(p.digitalNames)
              && (forall i :: 0 <= i < p.phasorCount ==> p.phasorConversion[i] < 0x100_0000)
              && (forall i :: 0 <= i < p.analogCount ==> -0x80_0000 <= p.analogConversion[i] < 0x80_0000)
              && (p.nominalFrequency == 50.0 || p.nominalFrequency == prior.nominalFrequency)
              && p.active == prior.active
  {
    var c := Carried(p, prior);
    PaddedIs(p.phasorNames);
    PaddedIs(p.analogNames);
    PaddedIs(p.digitalNames);
    assert c.phasorConversion == p.phasorConversion <==>
           forall i :: 0 <= i < p.phasorCount ==> p.phasorConversion[i] < 0x100_0000 by {
      assert forall i :: 0 <= i < p.phasorCount ==> c.phasorConversion[i] == p.phasorConversion[i] % 0x100_0000;
    }
    assert c.analogConversion == p.analogConversion <==>
           forall i :: 0 <= i < p.analogCount ==> -0x80_0000 <= p.analogConversion[i] < 0x80_0000 by {
      assert forall i :: 0 <= i < p.analogCount ==> c.analogConversion[i] == Wrapped24(p.analogConversion[i]);
    }
  }

  lemma PaddedIs(names: seq<seq<byte>>)
    ensures Padded(names) == names <==> AllOfNameSize(names)
  {
    if Padded(names) == names {
      assert forall i :: 0 <= i < |names| ==> |Padded(names)[i]| == NAME_SIZE;
    } else {
      var i :| 0 <= i < |names| && Padded(names)[i] != names[i];
      assert Pad(names[i]) != names[i];
    }
  }

  // ---- Encoding what was decoded ----

  lemma HeadRestored(h: seq<byte>, p: PmuConfig)
    requires |h| == 26 && p.stationName == h[..16] && p.sourceID == Word2(h[16..18])
    requires var f := Word2(h[18..20]);
             && p.floatFreq == (f / 8 % 2 == 1) && p.floatAnalog == (f / 4 % 2 == 1)
             && p.floatPhasor == (f / 2 % 2 == 1) && p.polar == (f % 2 == 1)
    requires p.phasorCount == Word2(h[20..22]) && p.analogCount == Word2(h[22..24])
    requires p.digitalWordCount == Word2(h[24..26])
    ensures Head(p) == h <==> Word2(h[18..20]) < 16
  {
    FormatRestored(h[18..20], p);
    Bytes2OfWord(h[16..18]);
    Bytes2OfWord(h[20..22]);
    Bytes2OfWord(h[22..24]);
    Bytes2OfWord(h[24..26]);
    SpliceFormat(h, Bytes2(Format(p)), Head(p));
  }

  lemma FormatRestored(s: seq<byte>, p: PmuConfig)
    requires |s| == 2
    requires var f := Word2(s);
             && p.floatFreq == (f / 8 % 2 == 1) && p.floatAnalog == (f / 4 % 2 == 1)
             && p.floatPhasor == (f / 2 % 2 == 1) && p.polar == (f % 2 == 1)
    ensures Bytes2(Format(p)) == s <==> Word2(s) < 16
  {
    FourLowBits(Word2(s));
    Bytes2OfWord(s);
    Word2OfBytes(Format(p));
  }

  lemma FourLowBits(f: nat)
    ensures f % 16 == 8 * (f / 8 % 2) + 4 * (f / 4 % 2) + 2 * (f / 2 % 2) + f % 2
  {
    var a := f / 2;
    var b := a / 2;
    var c := b / 2;
    BitsOf(f, a, b, c, c / 2, f % 2, a % 2, b % 2, c % 2);
  }

  lemma BitsOf(f: nat, a: nat, b: nat, c: nat, d: nat, w: nat, x: nat, y: nat, z: nat)
    requires f == 2 * a + w && a == 2 * b + x && b == 2 * c + y && c == 2 * d + z
    requires w < 2 && x < 2 && y < 2 && z < 2
    ensures f / 4 == b && f / 8 == c && f % 16 == 8 * z + 4 * y + 2 * x + w
  {
    assert f == 4 * b + (2 * x + w) && f == 8 * c + (4 * y + 2 * x + w);
    assert f == 16 * d + (8 * z + 4 * y + 2 * x + w);
  }

  lemma SpliceFormat(h: seq<byte>, x: seq<byte>, r: seq<byte>)
    requires |h| == 26 && |x| == 2 && r == h[..16] + h[16..18] + x + h[20..22] + h[22..24] + h[24..26]
    ensures r == h <==> x == h[18..20]
  {
    assert r[18..20] == x;
    assert h == h[..16] + h[16..18] + h[18..20] + h[20..22] + h[22..24] + h[24..26];
  }

  lemma PhasorUnitsRestored(p: PmuConfig, units: seq<seq<byte>>)
    requires Matched(p) && AllWide(units, 4)
    requires p.phasorType == TypesOf(units) && p.phasorConversion == PhasorConversionsOf(units)
    ensures PhasorUnits(p) == units
  {
    forall i | 0 <= i < |units|
      ensures PhasorUnits(p)[i] == units[i]
    {
      Bytes3OfWord(units[i][1..]);
    }
  }

  lemma AnalogUnitRestored(u: seq<byte>)
    requires |u| == 4
    ensures [u[0]] + Bytes4(TwosComplement(Interpret24(Word4(u))))[1..] == u
  {
    var low, t := Word3(u[1..]), u[0];
    Bytes3OfWord(u[1..]);
    var w: int, r: int := Word4(u), Interpret24(Word4(u));
    assert w == (t as int) * 0x100_0000 + low;
    var n: int := TwosComplement(r);
    LowBits(r, w, low, t, n);
    SameLowBytes(n, low);
  }

  lemma LowBits(r: int, w: int, low: int, t: int, n: int)
    requires (r - w) % 0x100_0000 == 0 && w == t * 0x100_0000 + low && (n == r || n == r + 0x1_0000_0000)
    requires 0 <= low < 0x100_0000
    ensures n % 0x100_0000 == low
  {
  }

  lemma SameLowBytes(n: nat, low: nat)
    requires n % 0x100_0000 == low
    ensures Bytes4(n)[1..] == Bytes3(low)
  {
    Word3OfAnyBytes(n);
    Bytes3OfWord(Bytes3(n));
  }

  lemma AnalogUnitsRestored(p: PmuConfig, units: seq<seq<byte>>)
    requires Matched(p) && AllWide(units, 4)
    requires p.analogType == TypesOf(units) && p.analogConversion == AnalogConversionsOf(units)
    ensures AnalogUnits(p) == units
  {
    forall i | 0 <= i < |units|
      ensures AnalogUnits(p)[i] == units[i]
    {
      AnalogUnitRestored(units[i]);
    }
  }

  lemma DigitalUnitsRestored(p: PmuConfig, units: seq<seq<byte>>)
    requires Matched(p) && AllWide(units, 4)
    requires p.digitalNominal == WordsOf(units, 0) && p.digitalActive == WordsOf(units, 2)
    ensures DigitalUnits(p) == units
  {
    forall i | 0 <= i < |units|
      ensures DigitalUnits(p)[i] == units[i]
    {
      Bytes2OfWord(units[i][0..2]);
      Bytes2OfWord(units[i][2..4]);
      assert units[i] == units[i][0..2] + units[i][2..4];
    }
  }

  lemma PartsRestored(head: seq<byte>, names: seq<seq<byte>>, units: seq<seq<byte>>, tail: seq<byte>,
                      prior: PmuConfig, p: PmuConfig)
    requires |head| == 26 && |tail| == 4 && AllWide(names, 16) && AllWide(units, 4)
    requires var ph, an, dg := Word2(head[20..22]), Word2(head[22..24]), Word2(head[24..26]);
             |names| == ph + an + 16 * dg && |units| == ph + an + dg
    requires p == DecodeParts(head, names, units, tail, prior)
    ensures Names(p) == names && Units(p) == units
  {
    var ph: int, an: int := p.phasorCount, p.analogCount;
    PaddedIs(p.phasorNames);
    PaddedIs(p.analogNames);
    PaddedIs(p.digitalNames);
    PhasorUnitsRestored(p, units[..ph]);
    AnalogUnitsRestored(p, units[ph..ph + an]);
    DigitalUnitsRestored(p, units[ph + an..]);
    ThreeParts(names, ph, ph + an);
    ThreeParts(units, ph, ph + an);
  }

  lemma ThreeParts(s: seq<seq<byte>>, i: nat, j: nat)
    requires i <= j <= |s|
    ensures s[..i] + s[i..j] + s[j..] == s
  {
  }

  lemma EndsRestored(head: seq<byte>, names: seq<seq<byte>>, units: seq<seq<byte>>, tail: seq<byte>,
                     prior: PmuConfig, p: PmuConfig)
    requires |head| == 26 && |tail| == 4 && AllWide(units, 4)
    requires var ph, an, dg := Word2(head[20..22]), Word2(head[22..24]), Word2(head[24..26]);
             |names| == ph + an + 16 * dg && |units| == ph + an + dg
    requires p == DecodeParts(head, names, units, tail, prior)
    ensures Head(p) == head <==> Word2(head[18..20]) < 16
    ensures Tail(p) == tail <==> tail[0] == 0 && FrequencyKept(tail[1], prior)
  {
    HeadRestored(head, p);
    Bytes2OfWord(tail[2..]);
    SpliceTail(tail, Tail(p)[..2], Tail(p));
  }

  lemma SpliceTail(t: seq<byte>, x: seq<byte>, r: seq<byte>)
    requires |t| == 4 && |x| == 2 && r == x + t[2..]
    ensures r == t <==> x[0] == t[0] && x[1] == t[1]
  {
    assert t == [t[0], t[1]] + t[2..];
  }

  /** A frequency byte that is written again after it was parsed into prior. */
  predicate FrequencyKept(b: byte, prior: PmuConfig) {
    b == 1 || (b == 0 && prior.nominalFrequency != 50.0)
  }

  /** The unused bits of the format word and of the frequency word are zero. */
  predicate CanonicalBlock(b: seq<byte>, prior: PmuConfig)
    requires IsBlock(b)
  {
    Word2(b[18..20]) < 16 && b[|b| - 4] == 0 && FrequencyKept(b[|b| - 3], prior)
  }

  /** Encoding a parsed block gives the block again exactly when it is canonical. */
  lemma EncodeOfDecode(b: seq<byte>, prior: PmuConfig)
    requires IsBlock(b)
    ensures EncodePmu(DecodePmu(b, prior)) == b <==> CanonicalBlock(b, prior)
    ensures |EncodePmu(DecodePmu(b, prior))| == |b|
  {
    var p := DecodePmu(b, prior);
    DecodedParts(b, prior, p);
    FlatsOfBlock(b);
    SameFourParts(b, NamesEnd(b), Head(p), Tail(p), EncodePmu(p));
  }

  lemma FlatsOfBlock(b: seq<byte>)
    requires IsBlock(b)
    ensures AllWide(NamesOf(b), 16)
    ensures Flat(NamesOf(b)) == b[26..NamesEnd(b)] && Flat(UnitsOf(b)) == b[NamesEnd(b)..|b| - 4]
  {
    FlatOfChunks(b[26..NamesEnd(b)], 16, |NamesOf(b)|);
    FlatOfChunks(b[NamesEnd(b)..|b| - 4], 4, |UnitsOf(b)|);
  }

  lemma DecodedParts(b: seq<byte>, prior: PmuConfig, p: PmuConfig)
    requires IsBlock(b) && p == DecodePmu(b, prior)
    ensures Names(p) == NamesOf(b) && Units(p) == UnitsOf(b)
    ensures Head(p) == b[..26] <==> Word2(b[18..20]) < 16
    ensures Tail(p) == b[|b| - 4..] <==> b[|b| - 4] == 0 && FrequencyKept(b[|b| - 3], prior)
  {
    var h, t := b[..26], b[|b| - 4..];
    SameCounts(b, h);
    assert h[18..20] == b[18..20];
    PartsRestored(h, NamesOf(b), UnitsOf(b), t, prior, p);
    EndsRestored(h, NamesOf(b), UnitsOf(b), t, prior, p);
  }

  lemma SameFourParts(b: seq<byte>, m: nat, h: seq<byte>, t: seq<byte>, c: seq<byte>)
    requires 26 <= m <= |b| - 4 && |h| == 26 && |t| == 4 && c == h + b[26..m] + b[m..|b| - 4] + t
    ensures c == b <==> h == b[..26] && t == b[|b| - 4..]
    ensures |c| == |b|
  {
    FourParts(h, b[26..m], b[m..|b| - 4], t, c);
    assert b == b[..26] + b[26..m] + b[m..|b| - 4] + b[|b| - 4..];
  }
}
