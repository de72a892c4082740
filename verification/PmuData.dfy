/** The part of a data frame that holds the measurements of one PMU (clause 6.3 of IEEE Std
    C37.118.2-2011), at the level of words: a number is the 16-bit or 32-bit word it travels as. */
module PmuDatas {
  import opened Bits
  import opened Wire
  import opened PmuConfigs

  datatype Phasor = Phasor(first: Word32, second: Word32)

  datatype PmuData = PmuData(
    stat: Word16,
    phasors: seq<Phasor>,
    freq: Word32,
    rocof: Word32,
    analog: seq<Word32>,
    digital: seq<Word16>)

  /** Bytes per number: a float, or a 16-bit integer. */
  function Width(float: bool): (w: nat)
    ensures 2 <= w <= 4
  {
    if float then 4 else 2
  }

  function WordBytes(float: bool, n: Word32): (s: seq<byte>)
    ensures |s| == Width(float)
  {
    if float then Bytes4(n) else Bytes2(n)
  }

  function WordOf(float: bool, s: seq<byte>): Word32
    requires |s| == Width(float)
  {
    if float then Word4(s) else Word2(s)
  }

  function Cut(float: bool, n: Word32): Word32 {
    if float then n else n % 0x1_0000
  }

  lemma WordOfBytes(float: bool, n: Word32)
    ensures WordOf(float, WordBytes(float, n)) == Cut(float, n)
  {
    if float {
      Word4OfBytes(n);
    } else {
      TwoLowBytes(n);
    }
  }

  lemma TwoLowBytes(n: nat)
    ensures Word2(Bytes2(n)) == n % 0x1_0000
  {
    var a := n / 0x100;
    assert n == 0x100 * a + n % 0x100 && a == 0x100 * (a / 0x100) + a % 0x100;
  }

  lemma BytesOfWord(float: bool, s: seq<byte>)
    requires |s| == Width(float)
    ensures WordBytes(float, WordOf(float, s)) == s
  {
    if float {
      Bytes4OfWord(s);
    } else {
      Bytes2OfWord(s);
    }
  }

  // ---- Where things stand ----

  function PhasorWidth(p: PmuConfig): (w: nat)
    ensures w == 2 * Width(p.floatPhasor)
  {
    if p.floatPhasor then 8 else 4
  }

  function PhasorsEnd(p: PmuConfig): (n: nat)
    ensures n >= 2
  {
    2 + if p.floatPhasor then 8 * p.phasorCount else 4 * p.phasorCount
  }

  function FreqEnd(p: PmuConfig): (n: nat)
    ensures n > PhasorsEnd(p)
  {
    PhasorsEnd(p) + 2 * Width(p.floatFreq)
  }

  function AnalogsEnd(p: PmuConfig): (n: nat)
    ensures n >= FreqEnd(p)
  {
    FreqEnd(p) + if p.floatAnalog then 4 * p.analogCount else 2 * p.analogCount
  }

  lemma ListSizes(p: PmuConfig)
    ensures PhasorsEnd(p) == 2 + PhasorWidth(p) * p.phasorCount
    ensures AnalogsEnd(p) == FreqEnd(p) + Width(p.floatAnalog) * p.analogCount
  {
  }

  /** The size of the measurements of one PMU. */
  function DataSize(p: PmuConfig): (n: nat)
    ensures n >= AnalogsEnd(p)
  {
    AnalogsEnd(p) + 2 * p.digitalWordCount
  }

  function PhasorsOf(p: PmuConfig, s: seq<byte>): (items: seq<seq<byte>>)
    requires |s| == DataSize(p)
    ensures |items| == p.phasorCount && AllWide(items, PhasorWidth(p))
  {
    ListSizes(p);
    Chunks(s[2..PhasorsEnd(p)], PhasorWidth(p), p.phasorCount)
  }

  function AnalogsOf(p: PmuConfig, s: seq<byte>): (items: seq<seq<byte>>)
    requires |s| == DataSize(p)
    ensures |items| == p.analogCount && AllWide(items, Width(p.floatAnalog))
  {
    ListSizes(p);
    Chunks(s[FreqEnd(p)..AnalogsEnd(p)], Width(p.floatAnalog), p.analogCount)
  }

  function DigitalsOf(p: PmuConfig, s: seq<byte>): (items: seq<seq<byte>>)
    requires |s| == DataSize(p)
    ensures |items| == p.digitalWordCount && AllWide(items, 2)
  {
    Chunks(s[AnalogsEnd(p)..], 2, p.digitalWordCount)
  }

  // ---- Encoding ----

  /** The vectors are long enough for the counts. */
  predicate Enough(p: PmuConfig, d: PmuData) {
    |d.phasors| >= p.phasorCount && |d.analog| >= p.analogCount && |d.digital| >= p.digitalWordCount
  }

  /** Integer rectangular phasors, whose second word is computed but not stored. */
  predicate KeepsSecond(p: PmuConfig) {
    !p.floatPhasor && !p.polar
  }

  /** A phasor written over old bytes. */
  function PhasorItem(p: PmuConfig, x: Phasor, was: seq<byte>): (s: seq<byte>)
    requires |was| == PhasorWidth(p)
    ensures |s| == PhasorWidth(p)
  {
    WordBytes(p.floatPhasor, x.first) + if KeepsSecond(p) then was[2..] else WordBytes(p.floatPhasor, x.second)
  }

  function PhasorItems(p: PmuConfig, d: PmuData, was: seq<seq<byte>>): (items: seq<seq<byte>>)
    requires Enough(p, d) && |was| == p.phasorCount && AllWide(was, PhasorWidth(p))
    ensures |items| == p.phasorCount && AllWide(items, PhasorWidth(p))
  {
    seq(p.phasorCount, i requires 0 <= i < p.phasorCount => PhasorItem(p, d.phasors[i], was[i]))
  }

  function AnalogItems(p: PmuConfig, d: PmuData): (items: seq<seq<byte>>)
    requires Enough(p, d)
    ensures |items| == p.analogCount && AllWide(items, Width(p.floatAnalog))
  {
    seq(p.analogCount, i requires 0 <= i < p.analogCount => WordBytes(p.floatAnalog, d.analog[i]))
  }

  function DigitalItems(p: PmuConfig, d: PmuData): (items: seq<seq<byte>>)
    requires Enough(p, d)
    ensures |items| == p.digitalWordCount && AllWide(items, 2)
  {
    seq(p.digitalWordCount, i requires 0 <= i < p.digitalWordCount => Bytes2(d.digital[i]))
  }

  function FreqBytes(p: PmuConfig, d: PmuData): (s: seq<byte>)
    ensures |s| == 2 * Width(p.floatFreq)
  {
    WordBytes(p.floatFreq, d.freq) + WordBytes(p.floatFreq, d.rocof)
  }

  /** The measurements of one PMU, written over old bytes. */
  function EncodeData(p: PmuConfig, d: PmuData, was: seq<byte>): seq<byte>
    requires Enough(p, d) && |was| == DataSize(p)
  {
    Bytes2(d.stat) + Flat(PhasorItems(p, d, PhasorsOf(p, was))) + FreqBytes(p, d)
    + Flat(AnalogItems(p, d)) + Flat(DigitalItems(p, d))
  }

  // ---- Decoding ----

  function PhasorOf(p: PmuConfig, s: seq<byte>): Phasor
    requires |s| == PhasorWidth(p)
  {
    Phasor(WordOf(p.floatPhasor, s[..Width(p.floatPhasor)]), WordOf(p.floatPhasor, s[Width(p.floatPhasor)..]))
  }

  function PhasorsIn(p: PmuConfig, items: seq<seq<byte>>): (s: seq<Phasor>)
    requires AllWide(items, PhasorWidth(p))
    ensures |s| == |items| && forall i :: 0 <= i < |s| ==> s[i] == PhasorOf(p, items[i])
  {
    seq(|items|, i requires 0 <= i < |items| => PhasorOf(p, items[i]))
  }

  function NumbersIn(float: bool, items: seq<seq<byte>>): (s: seq<Word32>)
    requires AllWide(items, Width(float))
    ensures |s| == |items| && forall i :: 0 <= i < |s| ==> s[i] == WordOf(float, items[i])
  {
    seq(|items|, i requires 0 <= i < |items| => WordOf(float, items[i]) as Word32)
  }

  function DigitalsIn(items: seq<seq<byte>>): (s: seq<Word16>)
    requires AllWide(items, 2)
    ensures |s| == |items| && forall i :: 0 <= i < |s| ==> s[i] == Word2(items[i])
  {
    seq(|items|, i requires 0 <= i < |items| => Word2(items[i]) as Word16)
  }

  function DecodeData(p: PmuConfig, s: seq<byte>): (d: PmuData)
    requires |s| == DataSize(p)
    ensures Enough(p, d)
  {
    var w, at := Width(p.floatFreq), PhasorsEnd(p);
    PmuData(
      Word2(s[..2]),
      PhasorsIn(p, PhasorsOf(p, s)),
      WordOf(p.floatFreq, s[at..at + w]),
      WordOf(p.floatFreq, s[at + w..at + 2 * w]),
      NumbersIn(p.floatAnalog, AnalogsOf(p, s)),
      DigitalsIn(DigitalsOf(p, s)))
  }

  // ---- Decoding what was encoded ----

  /** What a frame carries of the measurements when written over old phasors. */
  function CarriedData(p: PmuConfig, d: PmuData, was: seq<seq<byte>>): PmuData
    requires Enough(p, d) && |was| == p.phasorCount && AllWide(was, PhasorWidth(p))
  {
    PmuData(
      d.stat,
      seq(p.phasorCount, i requires 0 <= i < p.phasorCount => CarriedPhasor(p, d.phasors[i], was[i])),
      Cut(p.floatFreq, d.freq), Cut(p.floatFreq, d.rocof),
      CutAll(p.floatAnalog, d.analog[..p.analogCount]),
      d.digital[..p.digitalWordCount])
  }

  function CarriedPhasor(p: PmuConfig, x: Phasor, was: seq<byte>): Phasor
    requires |was| == PhasorWidth(p)
  {
    Phasor(Cut(p.floatPhasor, x.first), if KeepsSecond(p) then Word2(was[2..]) else Cut(p.floatPhasor, x.second))
  }

  function CutAll(float: bool, ns: seq<Word32>): (s: seq<Word32>)
    ensures |s| == |ns| && forall i :: 0 <= i < |s| ==> s[i] == Cut(float, ns[i])
  {
    seq(|ns|, i requires 0 <= i < |ns| => Cut(float, ns[i]) as Word32)
  }

  lemma FiveParts(a: seq<byte>, b: seq<byte>, c: seq<byte>, d: seq<byte>, e: seq<byte>, s: seq<byte>)
    requires s == a + b + c + d + e
    ensures s[..|a|] == a && s[|a|..|a| + |b|] == b && s[|a| + |b|..|a| + |b| + |c|] == c
    ensures s[|a| + |b| + |c|..|a| + |b| + |c| + |d|] == d && s[|a| + |b| + |c| + |d|..] == e
  {
  }

  lemma SlicesOfData(p: PmuConfig, a: seq<byte>, b: seq<byte>, c: seq<byte>, d: seq<byte>, e: seq<byte>, s: seq<byte>)
    requires |a| == 2 && |b| == PhasorWidth(p) * p.phasorCount && |c| == 2 * Width(p.floatFreq)
    requires |d| == Width(p.floatAnalog) * p.analogCount && |e| == 2 * p.digitalWordCount
    requires s == a + b + c + d + e
    ensures |s| == DataSize(p) && s[..2] == a && s[2..PhasorsEnd(p)] == b && s[PhasorsEnd(p)..FreqEnd(p)] == c
    ensures s[FreqEnd(p)..AnalogsEnd(p)] == d && s[AnalogsEnd(p)..] == e
  {
    ListSizes(p);
    FiveParts(a, b, c, d, e, s);
  }

  /** The parts of encoded measurements stand where they are looked for. */
  lemma PartsOfData(p: PmuConfig, a: seq<byte>, b: seq<seq<byte>>, c: seq<byte>, d: seq<seq<byte>>, e: seq<seq<byte>>,
                    s: seq<byte>)
    requires |a| == 2 && |b| == p.phasorCount && AllWide(b, PhasorWidth(p)) && |c| == 2 * Width(p.floatFreq)
    requires |d| == p.analogCount && AllWide(d, Width(p.floatAnalog)) && |e| == p.digitalWordCount && AllWide(e, 2)
    requires s == a + Flat(b) + c + Flat(d) + Flat(e)
    ensures |s| == DataSize(p) && s[..2] == a && PhasorsOf(p, s) == b && s[PhasorsEnd(p)..FreqEnd(p)] == c
    ensures AnalogsOf(p, s) == d && DigitalsOf(p, s) == e
  {
    ChunksOfFlat(b, PhasorWidth(p));
    ChunksOfFlat(d, Width(p.floatAnalog));
    ChunksOfFlat(e, 2);
    SlicesOfData(p, a, Flat(b), c, Flat(d), Flat(e), s);
  }

  lemma PhasorDecoded(p: PmuConfig, x: Phasor, was: seq<byte>)
    requires |was| == PhasorWidth(p)
    ensures PhasorOf(p, PhasorItem(p, x, was)) == CarriedPhasor(p, x, was)
  {
    var s, w := PhasorItem(p, x, was), Width(p.floatPhasor);
    assert s[..w] == WordBytes(p.floatPhasor, x.first);
    WordOfBytes(p.floatPhasor, x.first);
    WordOfBytes(p.floatPhasor, x.second);
    assert s[w..] == if KeepsSecond(p) then was[2..] else WordBytes(p.floatPhasor, x.second);
  }

  lemma PhasorsDecoded(p: PmuConfig, d: PmuData, was: seq<seq<byte>>)
    requires Enough(p, d) && |was| == p.phasorCount && AllWide(was, PhasorWidth(p))
    ensures PhasorsIn(p, PhasorItems(p, d, was)) == CarriedData(p, d, was).phasors
  {
    forall i | 0 <= i < p.phasorCount
      ensures PhasorOf(p, PhasorItems(p, d, was)[i]) == CarriedPhasor(p, d.phasors[i], was[i])
    {
      PhasorDecoded(p, d.phasors[i], was[i]);
    }
  }

  lemma AnalogsDecoded(p: PmuConfig, d: PmuData)
    requires Enough(p, d)
    ensures NumbersIn(p.floatAnalog, AnalogItems(p, d)) == CutAll(p.floatAnalog, d.analog[..p.analogCount])
  {
    forall i | 0 <= i < p.analogCount
      ensures WordOf(p.floatAnalog, AnalogItems(p, d)[i]) == Cut(p.floatAnalog, d.analog[i])
    {
      WordOfBytes(p.floatAnalog, d.analog[i]);
    }
  }

  lemma DigitalsDecoded(p: PmuConfig, d: PmuData)
    requires Enough(p, d)
    ensures DigitalsIn(DigitalItems(p, d)) == d.digital[..p.digitalWordCount]
  {
    forall i | 0 <= i < p.digitalWordCount
      ensures Word2(DigitalItems(p, d)[i]) == d.digital[i]
    {
      Word2OfBytes(d.digital[i]);
    }
  }

  lemma FreqDecoded(p: PmuConfig, d: PmuData, s: seq<byte>, at: nat)
    requires var w := Width(p.floatFreq); at + 2 * w <= |s| && s[at..at + 2 * w] == FreqBytes(p, d)
    ensures var w := Width(p.floatFreq);
            && WordOf(p.floatFreq, s[at..at + w]) == Cut(p.floatFreq, d.freq)
            && WordOf(p.floatFreq, s[at + w..at + 2 * w]) == Cut(p.floatFreq, d.rocof)
  {
    var w, f := Width(p.floatFreq), FreqBytes(p, d);
    SubSlice(s, at, 2 * w, 0, w);
    SubSlice(s, at, 2 * w, w, 2 * w);
    assert f[..w] == WordBytes(p.floatFreq, d.freq) && f[w..] == WordBytes(p.floatFreq, d.rocof);
    WordOfBytes(p.floatFreq, d.freq);
    WordOfBytes(p.floatFreq, d.rocof);
  }

  /** Measurements put together from parts. */
  lemma DataOfParts(p: PmuConfig, d: PmuData, kept: seq<seq<byte>>, s: seq<byte>)
    requires Enough(p, d) && |kept| == p.phasorCount && AllWide(kept, PhasorWidth(p)) && |s| == DataSize(p)
    requires s[..2] == Bytes2(d.stat) && s[PhasorsEnd(p)..FreqEnd(p)] == FreqBytes(p, d)
    requires PhasorsOf(p, s) == PhasorItems(p, d, kept) && AnalogsOf(p, s) == AnalogItems(p, d)
    requires DigitalsOf(p, s) == DigitalItems(p, d)
    ensures DecodeData(p, s) == CarriedData(p, d, kept)
  {
    PhasorsDecoded(p, d, kept);
    AnalogsDecoded(p, d);
    DigitalsDecoded(p, d);
    Word2OfBytes(d.stat);
    FreqDecoded(p, d, s, PhasorsEnd(p));
  }

  /** Parsing encoded measurements gives what a frame carries of them, in every combination of formats. */
  lemma DecodeOfEncodedData(p: PmuConfig, d: PmuData, was: seq<byte>)
    requires Enough(p, d) && |was| == DataSize(p)
    ensures var s := EncodeData(p, d, was);
            |s| == DataSize(p) && DecodeData(p, s) == CarriedData(p, d, PhasorsOf(p, was))
  {
    var s, kept := EncodeData(p, d, was), PhasorsOf(p, was);
    PartsOfData(p, Bytes2(d.stat), PhasorItems(p, d, kept), FreqBytes(p, d), AnalogItems(p, d), DigitalItems(p, d), s);
    DataOfParts(p, d, kept, s);
  }

  /** The numbers fit the formats and the vectors the counts. */
  predicate FitsFormat(p: PmuConfig, d: PmuData) {
    && |d.phasors| == p.phasorCount && |d.analog| == p.analogCount && |d.digital| == p.digitalWordCount
    && (forall i :: 0 <= i < p.phasorCount ==> Cut(p.floatPhasor, d.phasors[i].first) == d.phasors[i].first)
    && (forall i :: 0 <= i < p.phasorCount ==> Cut(p.floatPhasor, d.phasors[i].second) == d.phasors[i].second)
    && Cut(p.floatFreq, d.freq) == d.freq && Cut(p.floatFreq, d.rocof) == d.rocof
    && forall i :: 0 <= i < p.analogCount ==> Cut(p.floatAnalog, d.analog[i]) == d.analog[i]
  }

  /** Measurements that fit come back whole exactly when second words are stored or were there before. */
  lemma CarriedDataWhole(p: PmuConfig, d: PmuData, was: seq<seq<byte>>)
    requires FitsFormat(p, d) && |was| == p.phasorCount && AllWide(was, PhasorWidth(p))
    ensures CarriedData(p, d, was) == d <==>
            !KeepsSecond(p) || forall i :: 0 <= i < p.phasorCount ==> Word2(was[i][2..]) == d.phasors[i].second
  {
    var c := CarriedData(p, d, was);
    assert CutAll(p.floatAnalog, d.analog[..p.analogCount]) == d.analog;
    assert d.digital[..p.digitalWordCount] == d.digital;
    if c.phasors == d.phasors {
      assert forall i :: 0 <= i < p.phasorCount ==> CarriedPhasor(p, d.phasors[i], was[i]) == d.phasors[i];
    } else {
      var i :| 0 <= i < p.phasorCount && c.phasors[i] != d.phasors[i];
      assert CarriedPhasor(p, d.phasors[i], was[i]) != d.phasors[i];
    }
  }

  // ---- Encoding what was decoded ----

  lemma PhasorRestored(p: PmuConfig, s: seq<byte>, was: seq<byte>)
    requires |s| == |was| == PhasorWidth(p)
    ensures PhasorItem(p, PhasorOf(p, s), was) == s <==> !KeepsSecond(p) || s[2..] == was[2..]
  {
    var w := Width(p.floatPhasor);
    BytesOfWord(p.floatPhasor, s[..w]);
    BytesOfWord(p.floatPhasor, s[w..]);
    assert s == s[..w] + s[w..];
    if KeepsSecond(p) && s[..w] + was[w..] == s {
      assert (s[..w] + was[w..])[w..] == was[w..];
    }
  }

  lemma PhasorsRestored(p: PmuConfig, d: PmuData, items: seq<seq<byte>>, was: seq<seq<byte>>)
    requires Enough(p, d) && |items| == |was| == p.phasorCount
    requires AllWide(items, PhasorWidth(p)) && AllWide(was, PhasorWidth(p)) && d.phasors == PhasorsIn(p, items)
    ensures PhasorItems(p, d, was) == items <==>
            !KeepsSecond(p) || forall i :: 0 <= i < p.phasorCount ==> items[i][2..] == was[i][2..]
  {
    forall i | 0 <= i < p.phasorCount
      ensures PhasorItems(p, d, was)[i] == items[i] <==> !KeepsSecond(p) || items[i][2..] == was[i][2..]
    {
      PhasorRestored(p, items[i], was[i]);
    }
  }

  lemma AnalogsRestored(p: PmuConfig, d: PmuData, items: seq<seq<byte>>)
    requires Enough(p, d) && |items| == p.analogCount && AllWide(items, Width(p.floatAnalog))
    requires d.analog == NumbersIn(p.floatAnalog, items)
    ensures AnalogItems(p, d) == items
  {
    forall i | 0 <= i < p.analogCount
      ensures AnalogItems(p, d)[i] == items[i]
    {
      BytesOfWord(p.floatAnalog, items[i]);
    }
  }

  lemma DigitalsRestored(p: PmuConfig, d: PmuData, items: seq<seq<byte>>)
    requires Enough(p, d) && |items| == p.digitalWordCount && AllWide(items, 2) && d.digital == DigitalsIn(items)
    ensures DigitalItems(p, d) == items
  {
    forall i | 0 <= i < p.digitalWordCount
      ensures DigitalItems(p, d)[i] == items[i]
    {
      Bytes2OfWord(items[i]);
    }
  }

  lemma FreqRestored(p: PmuConfig, d: PmuData, s: seq<byte>, at: nat)
    requires var w := Width(p.floatFreq);
             && at + 2 * w <= |s| && d.freq == WordOf(p.floatFreq, s[at..at + w])
             && d.rocof == WordOf(p.floatFreq, s[at + w..at + 2 * w])
    ensures FreqBytes(p, d) == s[at..at + 2 * Width(p.floatFreq)]
  {
    var w := Width(p.floatFreq);
    BytesOfWord(p.floatFreq, s[at..at + w]);
    BytesOfWord(p.floatFreq, s[at + w..at + 2 * w]);
    assert s[at..at + 2 * w] == s[at..at + w] + s[at + w..at + 2 * w];
  }

  lemma FlatsOfData(p: PmuConfig, s: seq<byte>)
    requires |s| == DataSize(p)
    ensures Flat(PhasorsOf(p, s)) == s[2..PhasorsEnd(p)] && Flat(AnalogsOf(p, s)) == s[FreqEnd(p)..AnalogsEnd(p)]
    ensures Flat(DigitalsOf(p, s)) == s[AnalogsEnd(p)..]
  {
    ListSizes(p);
    FlatOfChunks(s[2..PhasorsEnd(p)], PhasorWidth(p), p.phasorCount);
    FlatOfChunks(s[FreqEnd(p)..AnalogsEnd(p)], Width(p.floatAnalog), p.analogCount);
    FlatOfChunks(s[AnalogsEnd(p)..], 2, p.digitalWordCount);
  }

  lemma SpliceSecond(s: seq<byte>, i: nat, j: nat, k: nat, b: seq<byte>, r: seq<byte>)
    requires 2 <= i <= j <= k <= |s| && |b| == i - 2 && r == s[..2] + b + s[i..j] + s[j..k] + s[k..]
    ensures r == s <==> b == s[2..i]
  {
    assert r[2..i] == b;
    assert s == s[..2] + s[2..i] + s[i..j] + s[j..k] + s[k..];
  }

  /** Second words are stored, or are the same in s as in the old bytes. */
  predicate SecondsAlike(p: PmuConfig, s: seq<byte>, was: seq<byte>)
    requires |s| == |was| == DataSize(p)
  {
    !KeepsSecond(p) || forall i :: 0 <= i < p.phasorCount ==> PhasorsOf(p, s)[i][2..] == PhasorsOf(p, was)[i][2..]
  }

  /** Encoding parsed measurements over old bytes gives their bytes again exactly when second words
      are stored or the old bytes hold the same ones. */
  lemma EncodeOfDecodedData(p: PmuConfig, s: seq<byte>, was: seq<byte>)
    requires |s| == |was| == DataSize(p)
    ensures EncodeData(p, DecodeData(p, s), was) == s <==> SecondsAlike(p, s, was)
  {
    var d, xs := DecodeData(p, s), PhasorItems(p, DecodeData(p, s), PhasorsOf(p, was));
    PhasorsRestored(p, d, PhasorsOf(p, s), PhasorsOf(p, was));
    OthersRestored(p, s, d);
    FlatsOfData(p, s);
    SameItems(xs, PhasorsOf(p, s), PhasorWidth(p));
    EncodedOver(p, d, s, was, xs);
  }

  lemma AnalogBytesRestored(p: PmuConfig, s: seq<byte>, d: PmuData)
    requires |s| == DataSize(p) && Enough(p, d) && d.analog == NumbersIn(p.floatAnalog, AnalogsOf(p, s))
    ensures Flat(AnalogItems(p, d)) == s[FreqEnd(p)..AnalogsEnd(p)]
  {
    AnalogsRestored(p, d, AnalogsOf(p, s));
    FlatsOfData(p, s);
  }

  lemma DigitalBytesRestored(p: PmuConfig, s: seq<byte>, d: PmuData)
    requires |s| == DataSize(p) && Enough(p, d) && d.digital == DigitalsIn(DigitalsOf(p, s))
    ensures Flat(DigitalItems(p, d)) == s[AnalogsEnd(p)..]
  {
    DigitalsRestored(p, d, DigitalsOf(p, s));
    FlatsOfData(p, s);
  }

  lemma OthersRestored(p: PmuConfig, s: seq<byte>, d: PmuData)
    requires |s| == DataSize(p) && d == DecodeData(p, s)
    ensures Bytes2(d.stat) == s[..2] && FreqBytes(p, d) == s[PhasorsEnd(p)..FreqEnd(p)]
    ensures Flat(AnalogItems(p, d)) == s[FreqEnd(p)..AnalogsEnd(p)] && Flat(DigitalItems(p, d)) == s[AnalogsEnd(p)..]
  {
    assert Flat(AnalogItems(p, d)) == s[FreqEnd(p)..AnalogsEnd(p)] by { AnalogBytesRestored(p, s, d); }
    assert Flat(DigitalItems(p, d)) == s[AnalogsEnd(p)..] by { DigitalBytesRestored(p, s, d); }
    assert FreqBytes(p, d) == s[PhasorsEnd(p)..FreqEnd(p)] by { FreqRestored(p, d, s, PhasorsEnd(p)); }
    Bytes2OfWord(s[..2]);
  }

  lemma SameItems(xs: seq<seq<byte>>, ys: seq<seq<byte>>, w: nat)
    requires AllWide(xs, w) && AllWide(ys, w) && |xs| == |ys|
    ensures |Flat(xs)| == |Flat(ys)| && (Flat(xs) == Flat(ys) <==> xs == ys)
  {
    ChunksOfFlat(xs, w);
    ChunksOfFlat(ys, w);
  }

  /** When all else is as in s, only the phasors decide. */
  lemma EncodedOver(p: PmuConfig, d: PmuData, s: seq<byte>, was: seq<byte>, xs: seq<seq<byte>>)
    requires Enough(p, d) && |s| == |was| == DataSize(p) && xs == PhasorItems(p, d, PhasorsOf(p, was))
    requires Bytes2(d.stat) == s[..2] && FreqBytes(p, d) == s[PhasorsEnd(p)..FreqEnd(p)]
    requires Flat(AnalogItems(p, d)) == s[FreqEnd(p)..AnalogsEnd(p)] && Flat(DigitalItems(p, d)) == s[AnalogsEnd(p)..]
    requires |Flat(xs)| == PhasorsEnd(p) - 2
    ensures EncodeData(p, d, was) == s <==> Flat(xs) == s[2..PhasorsEnd(p)]
  {
    SpliceSecond(s, PhasorsEnd(p), FreqEnd(p), AnalogsEnd(p), Flat(xs), EncodeData(p, d, was));
  }
}
