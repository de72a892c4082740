/** Writing data frames into a buffer (clause 6.3 of IEEE Std C37.118.2-2011). */
module DataGenerator {
  import opened Bits
  import opened Wire
  import opened CommonFrames
  import opened PmuConfigs
  import opened ConfigFrames
  import opened PmuDatas
  import opened DataFrames
  import opened Rows

  /** The size that data frames of a configuration have. */
  method GetExpectedDataPacketLength(pmus: seq<PmuConfig>) returns (n: nat)
    ensures n == ExpectedSize(pmus)
  {
    n := COMMON_FRAME_SIZE + 2;
    var i := 0;
    while i < |pmus|
      invariant 0 <= i <= |pmus| && n == COMMON_FRAME_SIZE + 2 + Total(Sizes(pmus)[..i])
    {
      var p := pmus[i];
      PrefixTotal(Sizes(pmus), i);
      ListSizes(p);
      n := n + 2;
      n := n + PhasorWidth(p) * p.phasorCount;
      n := n + 2 * Width(p.floatFreq);
      n := n + Width(p.floatAnalog) * p.analogCount;
      n := n + 2 * p.digitalWordCount;
      i := i + 1;
    }
    assert Sizes(pmus)[..i] == Sizes(pmus);
  }

  // ---- One PMU ----

  /** A phasor in its format, where kept stands. Of an integer rectangular one, only the first word is stored. */
  method PutPhasor(data: array<byte>, at: nat, p: PmuConfig, x: Phasor, ghost kept: seq<byte>)
    requires at + PhasorWidth(p) <= data.Length && kept == data[..][at..at + PhasorWidth(p)]
    modifies data
    ensures Wrote(old(data[..]), data[..], at, PhasorItem(p, x, kept))
  {
    ghost var was := data[..];
    if !p.floatPhasor && !p.polar {
      Put(data, at, Bytes2(x.first));
      SubSlice(was, at, 4, 2, 4);
      assert Wrote(data[..], data[..], at + 2, kept[2..]);
      WroteMore(was, data[..], data[..], at, Bytes2(x.first), kept[2..]);
    } else {
      Put(data, at, WordBytes(p.floatPhasor, x.first));
      ghost var mid := data[..];
      Put(data, at + Width(p.floatPhasor), WordBytes(p.floatPhasor, x.second));
      WroteMore(was, mid, data[..], at, WordBytes(p.floatPhasor, x.first), WordBytes(p.floatPhasor, x.second));
    }
  }

  /** What a phasor is written over is what stood there at first. */
  lemma StillThere(was: seq<byte>, mid: seq<byte>, at: nat, kept: seq<seq<byte>>, items: seq<seq<byte>>, w: nat, i: nat,
                   end: nat)
    requires StandAt(was, at, kept, w) && ItemsWritten(was, mid, at, items, w, i, end) && i < |kept|
    ensures end + w <= |mid| && mid[end..end + w] == kept[i]
  {
    FlatLength(items[..i], w);
    ItemAt(was, at, kept, w, i, end);
    assert mid[end..] == was[end..];
    SameLater(mid, was, end, end, end + w);
  }

  /** Phasors written over the bytes in kept. */
  method PutPhasors(data: array<byte>, at: nat, p: PmuConfig, d: PmuData, ghost kept: seq<seq<byte>>) returns (end: nat)
    requires Enough(p, d) && |kept| == p.phasorCount && StandAt(data[..], at, kept, PhasorWidth(p))
    modifies data
    ensures end == at + |Flat(PhasorItems(p, d, kept))|
    ensures Wrote(old(data[..]), data[..], at, Flat(PhasorItems(p, d, kept)))
  {
    var w := PhasorWidth(p);
    ghost var was, items := data[..], PhasorItems(p, d, kept);
    NoItems(was, at, items, w);
    end := at;
    var i := 0;
    while i < p.phasorCount
      invariant 0 <= i <= p.phasorCount && ItemsWritten(was, data[..], at, items, w, i, end)
    {
      PutNextPhasor(data, at, p, d, was, kept, items, i, end);
      end := end + w;
      i := i + 1;
    }
    AllItems(was, data[..], at, items, w, end);
  }

  method PutNextPhasor(data: array<byte>, ghost at: nat, p: PmuConfig, d: PmuData, ghost was: seq<byte>,
                       ghost kept: seq<seq<byte>>, ghost items: seq<seq<byte>>, i: nat, end: nat)
    requires Enough(p, d) && i < |kept| == p.phasorCount && StandAt(was, at, kept, PhasorWidth(p))
    requires items == PhasorItems(p, d, kept) && ItemsWritten(was, data[..], at, items, PhasorWidth(p), i, end)
    modifies data
    ensures ItemsWritten(was, data[..], at, items, PhasorWidth(p), i + 1, end + PhasorWidth(p))
  {
    ghost var mid := data[..];
    StillThere(was, mid, at, kept, items, PhasorWidth(p), i, end);
    PutPhasor(data, end, p, d.phasors[i], kept[i]);
    NextItem(was, mid, data[..], at, items, PhasorWidth(p), i, end);
  }

  method PutAnalogs(data: array<byte>, at: nat, p: PmuConfig, d: PmuData) returns (end: nat)
    requires Enough(p, d) && at + |Flat(AnalogItems(p, d))| <= data.Length
    modifies data
    ensures end == at + |Flat(AnalogItems(p, d))| && Wrote(old(data[..]), data[..], at, Flat(AnalogItems(p, d)))
  {
    ghost var was, items := data[..], AnalogItems(p, d);
    var w := Width(p.floatAnalog);
    NoItems(was, at, items, w);
    end := at;
    var i := 0;
    while i < p.analogCount
      invariant 0 <= i <= p.analogCount && ItemsWritten(was, data[..], at, items, w, i, end)
    {
      ghost var mid := data[..];
      RoomForItem(at, items, w, i);
      if p.floatAnalog {
        Put(data, end, Bytes4(d.analog[i]));
      } else {
        Put(data, end, Bytes2(d.analog[i]));
      }
      NextItem(was, mid, data[..], at, items, w, i, end);
      end := end + w;
      i := i + 1;
    }
    AllItems(was, data[..], at, items, w, end);
  }

  method PutDigitals(data: array<byte>, at: nat, p: PmuConfig, d: PmuData) returns (end: nat)
    requires Enough(p, d) && at + |Flat(DigitalItems(p, d))| <= data.Length
    modifies data
    ensures end == at + |Flat(DigitalItems(p, d))| && Wrote(old(data[..]), data[..], at, Flat(DigitalItems(p, d)))
  {
    ghost var was, items := data[..], DigitalItems(p, d);
    NoItems(was, at, items, 2);
    end := at;
    var i := 0;
    while i < p.digitalWordCount
      invariant 0 <= i <= p.digitalWordCount && ItemsWritten(was, data[..], at, items, 2, i, end)
    {
      ghost var mid := data[..];
      RoomForItem(at, items, 2, i);
      Put(data, end, Bytes2(d.digital[i]));
      NextItem(was, mid, data[..], at, items, 2, i, end);
      end := end + 2;
      i := i + 1;
    }
    AllItems(was, data[..], at, items, 2, end);
  }

  method PutFreq(data: array<byte>, at: nat, p: PmuConfig, d: PmuData) returns (end: nat)
    requires at + 2 * Width(p.floatFreq) <= data.Length
    modifies data
    ensures end == at + |FreqBytes(p, d)| && Wrote(old(data[..]), data[..], at, FreqBytes(p, d))
  {
    ghost var was := data[..];
    var w := Width(p.floatFreq);
    Put(data, at, WordBytes(p.floatFreq, d.freq));
    ghost var mid := data[..];
    Put(data, at + w, WordBytes(p.floatFreq, d.rocof));
    WroteMore(was, mid, data[..], at, WordBytes(p.floatFreq, d.freq), WordBytes(p.floatFreq, d.rocof));
    end := at + 2 * w;
  }

  /** The phasors of a block, where they stand in a buffer whose first bytes may have changed. */
  lemma PhasorsInBuffer(was: seq<byte>, at: nat, p: PmuConfig, stat: seq<byte>)
    requires at + DataSize(p) <= |was| && |stat| == 2
    ensures StandAt(Replace(was, at, stat), at + 2, PhasorsOf(p, was[at..at + DataSize(p)]), PhasorWidth(p))
  {
    var k, s := PhasorsEnd(p), Replace(was, at, stat);
    FlatsOfData(p, was[at..at + DataSize(p)]);
    SubSlice(was, at, DataSize(p), 2, k);
    assert s[at + 2..] == was[at + 2..];
    SameLater(s, was, at + 2, at + 2, at + k);
  }

  lemma FlatSizes(p: PmuConfig, d: PmuData, kept: seq<seq<byte>>)
    requires Enough(p, d) && |kept| == p.phasorCount && AllWide(kept, PhasorWidth(p))
    ensures 2 + |Flat(PhasorItems(p, d, kept))| == PhasorsEnd(p)
    ensures FreqEnd(p) + |Flat(AnalogItems(p, d))| == AnalogsEnd(p)
    ensures AnalogsEnd(p) + |Flat(DigitalItems(p, d))| == DataSize(p)
  {
    ListSizes(p);
    FlatLength(PhasorItems(p, d, kept), PhasorWidth(p));
    FlatLength(AnalogItems(p, d), Width(p.floatAnalog));
    FlatLength(DigitalItems(p, d), 2);
  }

  /** STAT and the phasors. */
  method PutStatAndPhasors(data: array<byte>, at: nat, p: PmuConfig, d: PmuData) returns (end: nat)
    requires Enough(p, d) && at + DataSize(p) <= data.Length
    modifies data
    ensures var items := PhasorItems(p, d, PhasorsOf(p, old(data[..])[at..at + DataSize(p)]));
            && end == at + 2 + |Flat(items)|
            && Wrote(old(data[..]), data[..], at, Bytes2(d.stat) + Flat(items))
  {
    ghost var was, kept := data[..], PhasorsOf(p, data[..][at..at + DataSize(p)]);
    PhasorsInBuffer(was, at, p, Bytes2(d.stat));
    Put(data, at, Bytes2(d.stat));
    ghost var mid := data[..];
    end := PutPhasors(data, at + 2, p, d, kept);
    WroteMore(was, mid, data[..], at, Bytes2(d.stat), Flat(PhasorItems(p, d, kept)));
  }

  /** STAT, the phasors and the frequency. */
  method PutUpToFreq(data: array<byte>, at: nat, p: PmuConfig, d: PmuData, ghost under: seq<byte>) returns (end: nat)
    requires Enough(p, d) && at + DataSize(p) <= data.Length && under == data[..][at..at + DataSize(p)]
    modifies data
    ensures end == at + FreqEnd(p)
    ensures Wrote(old(data[..]), data[..], at,
                  Bytes2(d.stat) + Flat(PhasorItems(p, d, PhasorsOf(p, under))) + FreqBytes(p, d))
  {
    ghost var was, kept := data[..], PhasorsOf(p, under);
    FlatSizes(p, d, kept);
    end := PutStatAndPhasors(data, at, p, d);
    ghost var mid := data[..];
    end := PutFreq(data, end, p, d);
    WroteMore(was, mid, data[..], at, Bytes2(d.stat) + Flat(PhasorItems(p, d, kept)), FreqBytes(p, d));
  }

  /** All but the digital words. */
  method PutUpToAnalogs(data: array<byte>, at: nat, p: PmuConfig, d: PmuData, ghost under: seq<byte>) returns (end: nat)
    requires Enough(p, d) && at + DataSize(p) <= data.Length && under == data[..][at..at + DataSize(p)]
    modifies data
    ensures end == at + AnalogsEnd(p)
    ensures Wrote(old(data[..]), data[..], at,
                  Bytes2(d.stat) + Flat(PhasorItems(p, d, PhasorsOf(p, under))) + FreqBytes(p, d)
                  + Flat(AnalogItems(p, d)))
  {
    ghost var was, kept := data[..], PhasorsOf(p, under);
    FlatSizes(p, d, kept);
    end := PutUpToFreq(data, at, p, d, under);
    ghost var mid := data[..];
    end := PutAnalogs(data, end, p, d);
    WroteMore(was, mid, data[..], at, Bytes2(d.stat) + Flat(PhasorItems(p, d, kept)) + FreqBytes(p, d),
              Flat(AnalogItems(p, d)));
  }

  /** The measurements of one PMU at a position, where under stands. */
  method GeneratePmuDataFrame(data: array<byte>, at: nat, p: PmuConfig, d: PmuData, ghost under: seq<byte>)
    returns (used: nat)
    requires Enough(p, d) && at + DataSize(p) <= data.Length && under == data[..][at..at + DataSize(p)]
    modifies data
    ensures used == DataSize(p) && Wrote(old(data[..]), data[..], at, EncodeData(p, d, under))
  {
    ghost var was, kept := data[..], PhasorsOf(p, under);
    FlatSizes(p, d, kept);
    var end := PutUpToAnalogs(data, at, p, d, under);
    ghost var mid := data[..];
    end := PutDigitals(data, end, p, d);
    used := end - at;
    WroteMore(was, mid, data[..], at,
              Bytes2(d.stat) + Flat(PhasorItems(p, d, kept)) + FreqBytes(p, d) + Flat(AnalogItems(p, d)),
              Flat(DigitalItems(p, d)));
  }

  // ---- The frame ----

  lemma ItemIs(pmus: seq<PmuConfig>, ds: seq<PmuData>, was: seq<byte>, i: nat)
    requires AllEnough(pmus, ds) && i < |pmus| && |was| == DataTotal(pmus)
    ensures EncodeItems(pmus, ds, was)[i] == EncodeData(pmus[i], ds[i], DataOf(pmus, was, i))
  {
  }

  /** What the next measurements are written over. */
  lemma UnderNext(was: seq<byte>, mid: seq<byte>, pmus: seq<PmuConfig>, items: seq<seq<byte>>, i: nat, end: nat)
    requires i < |pmus| && |was| >= ExpectedSize(pmus)
    requires RowWritten(was, mid, COMMON_FRAME_SIZE, Sizes(pmus), items, i, end)
    ensures end + DataSize(pmus[i]) <= |mid|
    ensures mid[end..end + DataSize(pmus[i])] == DataOf(pmus, Under(pmus, was), i)
  {
    NextUnder(was, mid, COMMON_FRAME_SIZE, Sizes(pmus), items, i, end, Under(pmus, was));
  }

  /** The measurements of one more PMU. */
  method PutNextData(data: array<byte>, end: nat, pmus: seq<PmuConfig>, d: PmuData, i: nat,
                     ghost was: seq<byte>, ghost items: seq<seq<byte>>) returns (used: nat)
    requires i < |pmus| && |was| >= ExpectedSize(pmus) && Enough(pmus[i], d)
    requires RowWritten(was, data[..], COMMON_FRAME_SIZE, Sizes(pmus), items, i, end)
    requires items[i] == EncodeData(pmus[i], d, DataOf(pmus, Under(pmus, was), i))
    modifies data
    ensures RowWritten(was, data[..], COMMON_FRAME_SIZE, Sizes(pmus), items, i + 1, used)
  {
    ghost var mid, under := data[..], DataOf(pmus, Under(pmus, was), i);
    UnderNext(was, mid, pmus, items, i, end);
    var k := GeneratePmuDataFrame(data, end, pmus[i], d, under);
    NextWritten(was, mid, data[..], COMMON_FRAME_SIZE, Sizes(pmus), items, i, end);
    used := end + k;
  }

  /** The measurements of all PMUs of a frame, one after the other. */
  method PutAllData(data: array<byte>, pmus: seq<PmuConfig>, ds: seq<PmuData>) returns (used: nat)
    requires AllEnough(pmus, ds) && ExpectedSize(pmus) <= data.Length
    modifies data
    ensures used == COMMON_FRAME_SIZE + DataTotal(pmus)
    ensures Wrote(old(data[..]), data[..], COMMON_FRAME_SIZE, Flat(EncodeItems(pmus, ds, Under(pmus, old(data[..])))))
  {
    ghost var was, sizes := data[..], Sizes(pmus);
    ghost var items := EncodeItems(pmus, ds, Under(pmus, was));
    EncodedSizes(pmus, ds, Under(pmus, was));
    NoneWritten(was, COMMON_FRAME_SIZE, sizes, items);
    used := COMMON_FRAME_SIZE;
    var i := 0;
    while i < |ds|
      invariant 0 <= i <= |ds| && RowWritten(was, data[..], COMMON_FRAME_SIZE, sizes, items, i, used)
    {
      ItemIs(pmus, ds, Under(pmus, was), i);
      used := PutNextData(data, used, pmus, ds[i], i, was, items);
      i := i + 1;
    }
    AllWritten(was, data[..], COMMON_FRAME_SIZE, sizes, items, used);
  }

  /** SOC and FRACSEC, the time quality above a 24-bit fraction. */
  method AddTimeQuality(data: array<byte>, soc: Word32, fraction: Word32, quality: byte)
    requires data.Length >= COMMON_FRAME_SIZE
    modifies data
    ensures Wrote(old(data[..]), data[..], 6, Bytes4(soc) + Bytes4(FracWord(fraction, quality)))
  {
    ghost var was := data[..];
    var frsec := fraction % 0x100_0000;
    frsec := frsec + (quality as int) * 0x100_0000;
    AddTime(data, soc, frsec);
    WroteMore(was, Replace(was, 6, Bytes4(soc)), data[..], 6, Bytes4(soc), Bytes4(frsec));
  }

  /** Bytes 6 up to the CHK word. */
  method PutDataBody(data: array<byte>, pmus: seq<PmuConfig>, f: PmuDataFrame) returns (used: nat)
    requires AllEnough(pmus, f.pmus) && ExpectedSize(pmus) <= data.Length
    modifies data
    ensures used == ExpectedSize(pmus) - 2
    ensures Wrote(old(data[..]), data[..], 6, DataBody(pmus, f, Under(pmus, old(data[..]))))
  {
    ghost var was := data[..];
    AddTimeQuality(data, f.soc, f.fraction, f.timeQuality);
    ghost var mid := data[..];
    ghost var time := Bytes4(f.soc) + Bytes4(FracWord(f.fraction, f.timeQuality));
    SameUnder(pmus, was, mid, 6, time);
    used := PutAllData(data, pmus, f.pmus);
    WroteMore(was, mid, data[..], 6, time, Flat(EncodeItems(pmus, f.pmus, Under(pmus, was))));
  }

  lemma SameUnder(pmus: seq<PmuConfig>, was: seq<byte>, now: seq<byte>, at: nat, s: seq<byte>)
    requires Wrote(was, now, at, s) && at + |s| <= COMMON_FRAME_SIZE && |was| >= ExpectedSize(pmus)
    ensures Under(pmus, now) == Under(pmus, was)
  {
    assert now[at + |s|..] == was[at + |s|..];
    SameLater(now, was, at + |s|, COMMON_FRAME_SIZE, COMMON_FRAME_SIZE + DataTotal(pmus));
  }

  lemma StartedUnder(pmus: seq<PmuConfig>, was: seq<byte>, idcode: Word16)
    requires |was| >= ExpectedSize(pmus)
    ensures Under(pmus, DataStarted(was, idcode)) == Under(pmus, was)
  {
    StartedLater(was, idcode, DataStarted(was, idcode));
    SameLater(DataStarted(was, idcode), was, 6, COMMON_FRAME_SIZE, COMMON_FRAME_SIZE + DataTotal(pmus));
  }

  lemma StartedLater(was: seq<byte>, idcode: Word16, st: seq<byte>)
    requires |was| >= 6 && st == DataStarted(was, idcode)
    ensures st[6..] == was[6..]
  {
  }

  lemma FewerPmus(pmus: seq<PmuConfig>, k: nat)
    requires k <= |pmus|
    ensures DataTotal(pmus[..k]) <= DataTotal(pmus)
    ensures DataTotal(pmus[..k]) == DataTotal(pmus) <==> k == |pmus|
  {
    assert Sizes(pmus[..k]) == Sizes(pmus)[..k];
    if k < |pmus| {
      PrefixTotal(Sizes(pmus), k);
    } else {
      assert pmus[..k] == pmus;
    }
  }

  /** The predicted size is the size written exactly when the frame has measurements for all PMUs. */
  lemma DataSizeAgrees(pmus: seq<PmuConfig>, k: nat)
    requires k <= |pmus|
    ensures ExpectedSize(pmus[..k]) <= ExpectedSize(pmus)
    ensures ExpectedSize(pmus[..k]) == ExpectedSize(pmus) <==> k == |pmus|
  {
    FewerPmus(pmus, k);
  }

  /** A data frame for the first PMUs of a configuration, or nothing when the buffer is too short for all. */
  method GenerateDataFrame(data: array<byte>, c: Config, f: PmuDataFrame) returns (used: nat)
    requires |f.pmus| <= |c.pmus| && AllEnough(c.pmus[..|f.pmus|], f.pmus) && ExpectedSize(c.pmus) < 0x1_0000
    modifies data
    ensures ExpectedSize(c.pmus[..|f.pmus|]) <= ExpectedSize(c.pmus)
    ensures data.Length < ExpectedSize(c.pmus) ==> used == 0 && data[..] == old(data[..])
    ensures data.Length >= ExpectedSize(c.pmus) ==>
              && used == ExpectedSize(c.pmus[..|f.pmus|])
              && data[..] == GeneratedData(old(data[..]), c.idcode, c.pmus[..|f.pmus|], f)
  {
    DataSizeAgrees(c.pmus, |f.pmus|);
    var size := GetExpectedDataPacketLength(c.pmus);
    if data.Length < size {
      return 0;
    }
    var pmus := c.pmus[..|f.pmus|];
    StartedUnder(pmus, data[..], c.idcode);
    GenerateCommonFrame(data, c.idcode, DATA);
    used := PutDataBody(data, pmus, f);
    used := used + 2;
    Finish(data, used);
  }
}
