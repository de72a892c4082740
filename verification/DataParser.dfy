/** Reading data frames from a buffer (clause 6.3 of IEEE Std C37.118.2-2011). */
module DataParser {
  import opened Bits
  import opened Wire
  import opened Rows
  import opened CommonFrames
  import opened PmuConfigs
  import opened ConfigFrames
  import opened PmuDatas
  import opened DataFrames
  import opened DataGenerator

  /** A 16-bit or 32-bit word of the buffer. */
  method ReadWord(data: array<byte>, at: nat, float: bool) returns (n: Word32)
    requires at + Width(float) <= data.Length
    ensures n == WordOf(float, data[..][at..at + Width(float)])
  {
    assert data[..][at..at + Width(float)] == data[at..at + Width(float)];
    if float {
      n := Word4(data[at..at + 4]);
    } else {
      n := Word2(data[at..at + 2]);
    }
  }

  lemma PhasorAt(s: seq<byte>, at: nat, p: PmuConfig, item: seq<byte>)
    requires at + PhasorWidth(p) <= |s| && item == s[at..at + PhasorWidth(p)]
    ensures var w := Width(p.floatPhasor);
            PhasorOf(p, item)
            == Phasor(WordOf(p.floatPhasor, s[at..at + w]), WordOf(p.floatPhasor, s[at + w..at + w + w]))
  {
    var w := Width(p.floatPhasor);
    SubSlice(s, at, 2 * w, 0, w);
    SubSlice(s, at, 2 * w, w, 2 * w);
  }

  lemma Extended<T>(s: seq<T>, i: nat, x: T)
    requires i < |s| && s[i] == x
    ensures s[..i + 1] == s[..i] + [x]
  {
  }

  method ReadPhasor(data: array<byte>, at: nat, p: PmuConfig, ghost item: seq<byte>) returns (x: Phasor)
    requires at + PhasorWidth(p) <= data.Length && item == data[..][at..at + PhasorWidth(p)]
    ensures x == PhasorOf(p, item)
  {
    PhasorAt(data[..], at, p, item);
    var first := ReadWord(data, at, p.floatPhasor);
    var second := ReadWord(data, at + Width(p.floatPhasor), p.floatPhasor);
    x := Phasor(first, second);
  }

  // Where the lists of a block stand in the buffer.

  lemma PhasorsStand(s: seq<byte>, at: nat, p: PmuConfig, b: seq<byte>, k: nat)
    requires at + DataSize(p) <= |s| && b == s[at..at + DataSize(p)] && k == at + 2
    ensures StandAt(s, k, PhasorsOf(p, b), PhasorWidth(p))
  {
    FlatsOfData(p, b);
    SubSlice(s, at, DataSize(p), 2, PhasorsEnd(p));
  }

  lemma AnalogsStand(s: seq<byte>, at: nat, p: PmuConfig, b: seq<byte>, k: nat)
    requires at + DataSize(p) <= |s| && b == s[at..at + DataSize(p)] && k == at + FreqEnd(p)
    ensures StandAt(s, k, AnalogsOf(p, b), Width(p.floatAnalog))
  {
    FlatsOfData(p, b);
    SubSlice(s, at, DataSize(p), FreqEnd(p), AnalogsEnd(p));
  }

  lemma DigitalsStand(s: seq<byte>, at: nat, p: PmuConfig, b: seq<byte>, k: nat)
    requires at + DataSize(p) <= |s| && b == s[at..at + DataSize(p)] && k == at + AnalogsEnd(p)
    ensures StandAt(s, k, DigitalsOf(p, b), 2)
  {
    FlatsOfData(p, b);
    SubSlice(s, at, DataSize(p), AnalogsEnd(p), DataSize(p));
  }

  method ReadPhasors(data: array<byte>, at: nat, p: PmuConfig, ghost block: nat, ghost b: seq<byte>)
    returns (phasors: seq<Phasor>)
    requires block + DataSize(p) <= data.Length && b == data[..][block..block + DataSize(p)] && at == block + 2
    ensures phasors == PhasorsIn(p, PhasorsOf(p, b))
  {
    PhasorsStand(data[..], block, p, b, at);
    phasors := ReadPhasorList(data, at, p, PhasorsOf(p, b));
  }

  method ReadPhasorList(data: array<byte>, at: nat, p: PmuConfig, ghost items: seq<seq<byte>>)
    returns (phasors: seq<Phasor>)
    requires |items| == p.phasorCount && StandAt(data[..], at, items, PhasorWidth(p))
    ensures phasors == PhasorsIn(p, items)
  {
    ghost var s, all := data[..], PhasorsIn(p, items);
    phasors := [];
    var w, end, i := PhasorWidth(p), at, 0;
    while i < p.phasorCount
      invariant 0 <= i <= p.phasorCount && end == at + w * i && phasors == all[..i]
    {
      ItemAt(s, at, items, w, i, end);
      var x := ReadPhasor(data, end, p, items[i]);
      Extended(all, i, x);
      phasors := phasors + [x];
      OneMore(w, i);
      end := end + w;
      i := i + 1;
    }
  }

  lemma OneMore(w: nat, i: nat)
    ensures w * (i + 1) == w * i + w
  {
  }

  /** Numbers of one format in a row. */
  method ReadNumbers(data: array<byte>, at: nat, float: bool, n: nat, ghost items: seq<seq<byte>>)
    returns (numbers: seq<Word32>)
    requires n == |items| && StandAt(data[..], at, items, Width(float))
    ensures numbers == NumbersIn(float, items)
  {
    ghost var all := NumbersIn(float, items);
    numbers := [];
    var w, end, i := Width(float), at, 0;
    while i < n
      invariant 0 <= i <= n && end == at + w * i && numbers == all[..i]
    {
      ItemAt(data[..], at, items, w, i, end);
      var x := ReadWord(data, end, float);
      Extended(all, i, x);
      numbers := numbers + [x];
      OneMore(w, i);
      end := end + w;
      i := i + 1;
    }
  }

  method ReadAnalogs(data: array<byte>, at: nat, p: PmuConfig, ghost block: nat, ghost b: seq<byte>)
    returns (analogs: seq<Word32>)
    requires block + DataSize(p) <= data.Length && b == data[..][block..block + DataSize(p)] && at == block + FreqEnd(p)
    ensures analogs == NumbersIn(p.floatAnalog, AnalogsOf(p, b))
  {
    AnalogsStand(data[..], block, p, b, at);
    analogs := ReadNumbers(data, at, p.floatAnalog, p.analogCount, AnalogsOf(p, b));
  }

  method ReadDigitals(data: array<byte>, at: nat, p: PmuConfig, ghost block: nat, ghost b: seq<byte>)
    returns (digitals: seq<Word16>)
    requires block + DataSize(p) <= data.Length && b == data[..][block..block + DataSize(p)]
    requires at == block + AnalogsEnd(p)
    ensures digitals == DigitalsIn(DigitalsOf(p, b))
  {
    DigitalsStand(data[..], block, p, b, at);
    digitals := ReadWords(data, at, p.digitalWordCount, DigitalsOf(p, b));
  }

  method ReadWords(data: array<byte>, at: nat, n: nat, ghost items: seq<seq<byte>>) returns (words: seq<Word16>)
    requires n == |items| && AllWide(items, 2) && StandAt(data[..], at, items, 2)
    ensures words == DigitalsIn(items)
  {
    ghost var s, all := data[..], DigitalsIn(items);
    words := [];
    var i := 0;
    while i < n
      invariant 0 <= i <= n && words == all[..i]
    {
      var u := at + 2 * i;
      assert u + 2 <= |s| && s[u..u + 2] == items[i] by { ItemAt(s, at, items, 2, i, u); }
      var x: Word16 := Word2(data[u..u + 2]);
      Extended(all, i, x);
      words := words + [x];
      i := i + 1;
    }
  }

  method ReadFreq(data: array<byte>, at: nat, p: PmuConfig, ghost block: nat, ghost b: seq<byte>)
    returns (freq: Word32, rocof: Word32)
    requires block + DataSize(p) <= data.Length && b == data[..][block..block + DataSize(p)]
    requires at == block + PhasorsEnd(p)
    ensures var w, k := Width(p.floatFreq), PhasorsEnd(p);
            && freq == WordOf(p.floatFreq, b[k..k + w]) && rocof == WordOf(p.floatFreq, b[k + w..k + 2 * w])
  {
    var w := Width(p.floatFreq);
    ghost var k := PhasorsEnd(p);
    SubSlice(data[..], block, DataSize(p), k, k + w);
    SubSlice(data[..], block, DataSize(p), k + w, k + 2 * w);
    freq := ReadWord(data, at, p.floatFreq);
    rocof := ReadWord(data, at + w, p.floatFreq);
  }

  method ReadStat(data: array<byte>, at: nat, p: PmuConfig, ghost b: seq<byte>) returns (stat: Word16)
    requires at + DataSize(p) <= data.Length && b == data[..][at..at + DataSize(p)]
    ensures stat == Word2(b[..2])
  {
    SubSlice(data[..], at, DataSize(p), 0, 2);
    assert data[at..at + 2] == data[..][at..at + 2];
    stat := Word2(data[at..at + 2]);
  }

  /** The measurements of one PMU at a position, where b stands. */
  method ParsePmuData(data: array<byte>, at: nat, p: PmuConfig, ghost b: seq<byte>) returns (d: PmuData, used: nat)
    requires at + DataSize(p) <= data.Length && b == data[..][at..at + DataSize(p)]
    ensures used == DataSize(p) && d == DecodeData(p, b)
  {
    var stat := ReadStat(data, at, p, b);
    var phasors := ReadPhasors(data, at + 2, p, at, b);
    used := 2 + if p.floatPhasor then 8 * p.phasorCount else 4 * p.phasorCount;
    assert used == PhasorsEnd(p);
    var freq, rocof := ReadFreq(data, at + used, p, at, b);
    used := used + 2 * Width(p.floatFreq);
    assert used == FreqEnd(p);
    var analog := ReadAnalogs(data, at + used, p, at, b);
    used := used + if p.floatAnalog then 4 * p.analogCount else 2 * p.analogCount;
    assert used == AnalogsEnd(p);
    var digital := ReadDigitals(data, at + used, p, at, b);
    used := used + 2 * p.digitalWordCount;
    d := PmuData(stat, phasors, freq, rocof, analog, digital);
  }

  /** Where the measurements of one PMU stand in the buffer. */
  lemma PartInBuffer(s: seq<byte>, pmus: seq<PmuConfig>, i: nat, at: nat)
    requires |s| >= ExpectedSize(pmus) && i < |pmus| && at == COMMON_FRAME_SIZE + Total(Sizes(pmus)[..i])
    ensures at + DataSize(pmus[i]) <= |s| && s[at..at + DataSize(pmus[i])] == DataOf(pmus, Under(pmus, s), i)
    ensures at + DataSize(pmus[i]) == COMMON_FRAME_SIZE + Total(Sizes(pmus)[..i + 1])
  {
    PrefixTotal(Sizes(pmus), i);
    PartAt(s, COMMON_FRAME_SIZE, Sizes(pmus), i, at, at + DataSize(pmus[i]), Under(pmus, s));
  }

  lemma DecodedItemIs(pmus: seq<PmuConfig>, s: seq<byte>, i: nat)
    requires |s| == DataTotal(pmus) && i < |pmus|
    ensures DecodeItems(pmus, s)[i] == DecodeData(pmus[i], DataOf(pmus, s, i))
  {
  }

  /** The measurements of the i-th PMU. */
  method ParseNextData(data: array<byte>, at: nat, pmus: seq<PmuConfig>, i: nat) returns (d: PmuData, end: nat)
    requires data.Length >= ExpectedSize(pmus) && i < |pmus| && at == COMMON_FRAME_SIZE + Total(Sizes(pmus)[..i])
    ensures d == DecodeData(pmus[i], DataOf(pmus, Under(pmus, data[..]), i))
    ensures end == COMMON_FRAME_SIZE + Total(Sizes(pmus)[..i + 1])
  {
    PartInBuffer(data[..], pmus, i, at);
    var used;
    d, used := ParsePmuData(data, at, pmus[i], DataOf(pmus, Under(pmus, data[..]), i));
    end := at + used;
  }

  /** The measurements of all PMUs of a configuration. */
  method ParseAllData(data: array<byte>, pmus: seq<PmuConfig>) returns (ds: seq<PmuData>)
    requires data.Length >= ExpectedSize(pmus)
    ensures ds == DecodeItems(pmus, Under(pmus, data[..]))
  {
    ds := [];
    ghost var all := DecodeItems(pmus, Under(pmus, data[..]));
    var used, i := COMMON_FRAME_SIZE, 0;
    while i < |pmus|
      invariant 0 <= i <= |pmus| && used == COMMON_FRAME_SIZE + Total(Sizes(pmus)[..i])
      invariant ds == all[..i]
    {
      var d;
      d, used := ParseNextData(data, used, pmus, i);
      DecodedItemIs(pmus, Under(pmus, data[..]), i);
      Extended(all, i, d);
      ds := ds + [d];
      i := i + 1;
    }
  }

  /** A data frame under a configuration. Every read lies inside the buffer, whatever it holds. */
  method ParseDataFrame(data: array<byte>, c: Config) returns (r: ParsedData)
    requires Readable(data[..])
    ensures r == ParseData(data[..], c)
  {
    var common := ParseCommonFrame(data);
    if common.Refused? {
      return Unread(common.result);
    }
    if common.frame.kind != DATA {
      return Unread(IncorrectType);
    }
    var result := if common.frame.sourceID != c.idcode then IdMismatch else ParseComplete;
    var frame := PmuDataFrame(common.frame.sourceID, common.frame.fracSec / 0x100_0000, common.frame.soc,
                              common.frame.fracSec % 0x100_0000, seq(|c.pmus|, _ => NoData()));
    var expectedSize := GetExpectedDataPacketLength(c.pmus);
    if expectedSize > data.Length {
      return Read(ConfigMismatch, frame);
    }
    var pmus := ParseAllData(data, c.pmus);
    return Read(result, frame.(pmus := pmus));
  }
}
