/** Data frames byte by byte, as clause 6.3 of IEEE Std C37.118.2-2011 lays them out: where each word
    stands, in numbers. */
module DataLayouts {
  import opened Bits
  import opened Wire
  import opened Rows
  import opened CommonFrames
  import opened PmuConfigs
  import opened ConfigFrames
  import opened PmuDatas
  import opened DataFrames

  // ---- The measurements of one PMU ----

  /** d is what the measurements s say; the sizes are those of a phasor, a frequency and an analog value. */
  ghost predicate Says(p: PmuConfig, s: seq<byte>, d: PmuData, ph: nat, fr: nat, an: nat) {
    && ph == (if p.floatPhasor then 8 else 4) && fr == (if p.floatFreq then 4 else 2)
    && an == (if p.floatAnalog then 4 else 2)
    && |s| == DataSize(p) && d == DecodeData(p, s)
  }

  /** The number in a word of four bytes, or of two. */
  function Number(s: seq<byte>): Word32
    requires |s| == 4 || |s| == 2
  {
    if |s| == 4 then Word4(s) else Word2(s)
  }

  lemma SizeSays(p: PmuConfig, s: seq<byte>, d: PmuData, ph: nat, fr: nat, an: nat)
    requires Says(p, s, d, ph, fr, an)
    ensures |s| == 2 + ph * p.phasorCount + 2 * fr + an * p.analogCount + 2 * p.digitalWordCount
    ensures |d.phasors| == p.phasorCount && |d.analog| == p.analogCount && |d.digital| == p.digitalWordCount
    ensures d.stat == Word2(s[..2])
  {
  }

  /** The two words of the i-th phasor, which starts at k. */
  lemma PhasorSays(p: PmuConfig, s: seq<byte>, d: PmuData, ph: nat, fr: nat, an: nat, i: nat, k: nat)
    requires Says(p, s, d, ph, fr, an) && i < p.phasorCount && k == 2 + ph * i
    ensures k + ph <= |s| && i < |d.phasors|
    ensures d.phasors[i] == Phasor(Number(s[k..k + ph / 2]), Number(s[k + ph / 2..k + ph]))
  {
    ItemInList(s, 2, PhasorsEnd(p), ph, p.phasorCount, i, k);
    assert PhasorsOf(p, s)[i] == s[k..k + ph];
    SubSlice(s, k, ph, 0, ph / 2);
    SubSlice(s, k, ph, ph / 2, ph);
  }

  lemma ItemInList(s: seq<byte>, at: nat, end: nat, w: nat, n: nat, i: nat, k: nat)
    requires at <= end <= |s| && end - at == w * n && i < n && k == at + w * i
    ensures k + w <= end && |s[at..end]| == w * n && Chunks(s[at..end], w, n)[i] == s[k..k + w]
  {
    ChunkAt(s[at..end], w, n, i, w * i);
    SubSlice(s, at, end - at, w * i, w * i + w);
  }

  /** Frequency and its rate of change, behind the phasors. */
  lemma FrequencySays(p: PmuConfig, s: seq<byte>, d: PmuData, ph: nat, fr: nat, an: nat, k: nat)
    requires Says(p, s, d, ph, fr, an) && k == 2 + ph * p.phasorCount
    ensures k + 2 * fr <= |s| && d.freq == Number(s[k..k + fr]) && d.rocof == Number(s[k + fr..k + 2 * fr])
  {
  }

  /** The i-th analog value, behind the frequency. */
  lemma AnalogSays(p: PmuConfig, s: seq<byte>, d: PmuData, ph: nat, fr: nat, an: nat, i: nat, k: nat)
    requires Says(p, s, d, ph, fr, an) && i < p.analogCount && k == 2 + ph * p.phasorCount + 2 * fr + an * i
    ensures k + an <= |s| && i < |d.analog| && d.analog[i] == Number(s[k..k + an])
  {
    ItemInList(s, FreqEnd(p), AnalogsEnd(p), an, p.analogCount, i, k);
  }

  /** The i-th digital word, at the end. */
  lemma DigitalSays(p: PmuConfig, s: seq<byte>, d: PmuData, ph: nat, fr: nat, an: nat, i: nat, k: nat)
    requires Says(p, s, d, ph, fr, an) && i < p.digitalWordCount
    requires k == |s| - 2 * (p.digitalWordCount - i)
    ensures k + 2 <= |s| && i < |d.digital| && d.digital[i] == Word2(s[k..k + 2])
  {
    ItemInList(s, AnalogsEnd(p), |s|, 2, p.digitalWordCount, i, k);
    assert s[AnalogsEnd(p)..|s|] == s[AnalogsEnd(p)..];
  }

  // ---- What is carried of them ----

  /** The words of a phasor that are carried: of integer rectangular phasors only the first is stored, and
      the second is what stood in the buffer. */
  lemma PhasorCarried(p: PmuConfig, d: PmuData, was: seq<byte>, i: nat, k: nat)
    requires Enough(p, d) && |was| == DataSize(p) && i < p.phasorCount
    requires k == 2 + (if p.floatPhasor then 8 else 4) * i
    ensures k + 4 <= |was| && |CarriedData(p, d, PhasorsOf(p, was)).phasors| == p.phasorCount
    ensures var x, c := d.phasors[i], CarriedData(p, d, PhasorsOf(p, was)).phasors[i];
            if p.floatPhasor then c == x
            else c == Phasor(x.first % 0x1_0000, if p.polar then x.second % 0x1_0000 else Word2(was[k + 2..k + 4]))
  {
    var w := if p.floatPhasor then 8 else 4;
    ItemInList(was, 2, PhasorsEnd(p), w, p.phasorCount, i, k);
    assert PhasorsOf(p, was)[i] == was[k..k + w];
    if !p.floatPhasor {
      SubSlice(was, k, 4, 2, 4);
      assert was[k..k + 4][2..] == was[k..k + 4][2..4];
    }
  }

  /** All other words are carried, those of two bytes by their low 16 bits. */
  lemma OthersCarried(p: PmuConfig, d: PmuData, was: seq<byte>, i: nat)
    requires Enough(p, d) && |was| == DataSize(p)
    ensures var c := CarriedData(p, d, PhasorsOf(p, was));
            && c.stat == d.stat && |c.analog| == p.analogCount && |c.digital| == p.digitalWordCount
            && c.freq == (if p.floatFreq then d.freq else d.freq % 0x1_0000)
            && c.rocof == (if p.floatFreq then d.rocof else d.rocof % 0x1_0000)
            && (i < p.analogCount ==> c.analog[i] == if p.floatAnalog then d.analog[i] else d.analog[i] % 0x1_0000)
            && (i < p.digitalWordCount ==> c.digital[i] == d.digital[i])
  {
  }

  // ---- Frames ----

  /** The measurements of PMUs take the sum of their sizes. */
  lemma SizeOfData(pmus: seq<PmuConfig>, p: PmuConfig)
    ensures ExpectedSize([]) == 16
    ensures ExpectedSize(pmus + [p])
         == ExpectedSize(pmus) + 2 + (if p.floatPhasor then 8 else 4) * p.phasorCount + (if p.floatFreq then 8 else 4)
          + (if p.floatAnalog then 4 else 2) * p.analogCount + 2 * p.digitalWordCount
  {
    assert Sizes(pmus + [p])[..|pmus|] == Sizes(pmus);
  }

  /** The result of reading a data frame: that of the common part if it is refused, and otherwise by the
      type, the length and the IDCODE, in this order. */
  lemma ReadResult(s: seq<byte>, c: Config)
    requires Readable(s)
    ensures var r := ParseData(s, c);
            if ParseCommon(s).Refused? then r == Unread(ParseCommon(s).result)
            else if s[1] / 16 % 8 != 0 then r == Unread(IncorrectType)
            else r.Read? && r.result == if |s| < ExpectedSize(c.pmus) then ConfigMismatch
                                        else if Word2(s[4..6]) != c.idcode then IdMismatch
                                        else ParseComplete
  {
  }

  lemma QualityAndFraction(s: seq<byte>)
    requires |s| == 4
    ensures Word4(s) / 0x100_0000 == s[0] && Word4(s) % 0x100_0000 == Word3(s[1..])
  {
    var n: int, k: int, w: int := Word3(s[1..]), s[0], Word4(s);
    assert w == k * 0x100_0000 + n && 0 <= n < 0x100_0000;
    HighAndLow(w, k, n);
  }

  lemma HighAndLow(w: int, k: int, n: int)
    requires w == k * 0x100_0000 + n && 0 <= n < 0x100_0000 && k >= 0
    ensures w / 0x100_0000 == k && w % 0x100_0000 == n
  {
  }

  /** The fixed fields of a data frame. */
  lemma FrameSays(s: seq<byte>, c: Config)
    requires Readable(s) && ParseData(s, c).Read?
    ensures s[0] == 0xAA && |s| >= 14
    ensures var f := ParseData(s, c).frame;
            && f.idcode == Word2(s[4..6]) && f.soc == Word4(s[6..10]) && f.timeQuality == s[10]
            && f.fraction == Word3(s[11..14]) && |f.pmus| == |c.pmus|
  {
    QualityAndFraction(s[10..14]);
    assert s[10..14][1..] == s[11..14];
  }

  lemma ItemUnder(pmus: seq<PmuConfig>, s: seq<byte>, i: nat, k: nat, n: nat)
    requires |s| >= ExpectedSize(pmus) && i < |pmus| && k == DataTotal(pmus[..i]) && n == DataSize(pmus[i])
    ensures 14 + k + n <= |s| && DataOf(pmus, Under(pmus, s), i) == s[14 + k..14 + k + n]
  {
    var row := Under(pmus, s);
    TotalBefore(pmus, i, k, n);
    PartIs(Sizes(pmus), row, i, k, k + n);
    SubSlice(s, 14, |row|, k, k + n);
  }

  lemma TotalBefore(pmus: seq<PmuConfig>, i: nat, k: nat, n: nat)
    requires i < |pmus| && k == DataTotal(pmus[..i]) && n == DataSize(pmus[i])
    ensures k == Total(Sizes(pmus)[..i]) && k + n == Total(Sizes(pmus)[..i + 1]) <= DataTotal(pmus)
  {
    assert Sizes(pmus[..i]) == Sizes(pmus)[..i];
    PrefixTotal(Sizes(pmus), i);
  }

  /** The measurements of the i-th PMU stand behind those before it, from byte 14 on. */
  lemma PmuSays(s: seq<byte>, c: Config, i: nat, k: nat, n: nat)
    requires Readable(s) && ParseData(s, c).Read? && |s| >= ExpectedSize(c.pmus)
    requires i < |c.pmus| && k == DataTotal(c.pmus[..i]) && n == DataSize(c.pmus[i])
    ensures 14 + k + n <= |s| && i < |ParseData(s, c).frame.pmus|
    ensures ParseData(s, c).frame.pmus[i] == DecodeData(c.pmus[i], s[14 + k..14 + k + n])
  {
    ItemUnder(c.pmus, s, i, k, n);
  }

  /** t is what a data frame of n bytes makes of a buffer that held `was`. */
  ghost predicate Written(t: seq<byte>, n: nat, was: seq<byte>, idcode: Word16, pmus: seq<PmuConfig>, f: PmuDataFrame) {
    && AllEnough(pmus, f.pmus) && n == ExpectedSize(pmus) <= |was|
    && t == GeneratedData(was, idcode, pmus, f)
  }

  lemma WrittenIsFrame(t: seq<byte>, n: nat, was: seq<byte>, idcode: Word16, pmus: seq<PmuConfig>, f: PmuDataFrame)
    requires Written(t, n, was, idcode, pmus, f)
    ensures IsFrame(t, DataStarted(was, idcode), DataBody(pmus, f, Under(pmus, was)), n)
    ensures 16 <= n <= |t| == |was|
  {
    GeneratedDataIsFrame(was, idcode, pmus, f);
  }

  /** The start of a data frame as it is written. */
  lemma StartWritten(t: seq<byte>, n: nat, was: seq<byte>, idcode: Word16, pmus: seq<PmuConfig>, f: PmuDataFrame)
    requires Written(t, n, was, idcode, pmus, f) && n < 0x1_0000 && |was| % 0x1_0000 >= 18
    ensures 16 <= n <= |t| == |was| && t[0] == 0xAA && t[1] == 0x01 && Word2(t[2..4]) == n
    ensures Word2(t[4..6]) == idcode && NoResidue(t, n) && t[n..] == was[n..]
  {
    var st := WithCommonFrame(was, idcode, DATA);
    WrittenIsFrame(t, n, was, idcode, pmus, f);
    FrameDivides(t, st, DataBody(pmus, f, Under(pmus, was)), n);
    CommonFrameStarts(was, idcode, DATA);
    FirstTwo(t, st);
    BehindStart(was, idcode, DATA, n);
  }

  /** SOC, time quality and the low 24 bits of the fraction stand in a frame. */
  ghost predicate TimeStands(t: seq<byte>, soc: Word32, quality: byte, fraction: Word32) {
    |t| >= 14 && Word4(t[6..10]) == soc && t[10] == quality && Word3(t[11..14]) == fraction % 0x100_0000
  }

  /** They do in a frame that is written. */
  lemma TimeWritten(t: seq<byte>, n: nat, was: seq<byte>, idcode: Word16, pmus: seq<PmuConfig>, f: PmuDataFrame)
    requires Written(t, n, was, idcode, pmus, f)
    ensures TimeStands(t, f.soc, f.timeQuality, f.fraction)
  {
    WrittenIsFrame(t, n, was, idcode, pmus, f);
    DataBodyParts(pmus, f, Under(pmus, was));
    TimeAt(t, n, DataBody(pmus, f, Under(pmus, was)));
    FracWordParts(f.fraction, f.timeQuality);
    QualityAndFraction(t[10..14]);
  }

  lemma TimeAt(t: seq<byte>, n: nat, x: seq<byte>)
    requires 16 <= n <= |t| && |x| == n - 8 && t[6..n - 2] == x
    ensures t[6..10] == x[..4] && t[10..14] == x[4..8] && t[10..14][0] == t[10] && t[10..14][1..] == t[11..14]
  {
    SubSlice(t, 6, n - 8, 0, 4);
    SubSlice(t, 6, n - 8, 4, 8);
  }

  lemma ItemWritten(pmus: seq<PmuConfig>, ds: seq<PmuData>, was: seq<byte>, s: seq<byte>, i: nat)
    requires AllEnough(pmus, ds) && |was| == DataTotal(pmus) && i < |pmus| && s == Flat(EncodeItems(pmus, ds, was))
    ensures |s| == DataTotal(pmus) && DataOf(pmus, s, i) == EncodeData(pmus[i], ds[i], DataOf(pmus, was, i))
  {
    EncodedSizes(pmus, ds, was);
    PartsOfFlat(Sizes(pmus), EncodeItems(pmus, ds, was));
    ItemInFlat(Sizes(pmus), EncodeItems(pmus, ds, was), i);
  }

  /** The measurements d stand at a position of t, written over what stood there in `was`. */
  ghost predicate StandsAt(t: seq<byte>, was: seq<byte>, at: nat, p: PmuConfig, d: PmuData) {
    && Enough(p, d) && at + DataSize(p) <= |t| == |was|
    && t[at..at + DataSize(p)] == EncodeData(p, d, was[at..at + DataSize(p)])
  }

  lemma UnderWritten(t: seq<byte>, n: nat, was: seq<byte>, idcode: Word16, pmus: seq<PmuConfig>, f: PmuDataFrame)
    requires Written(t, n, was, idcode, pmus, f)
    ensures |t| == |was| >= ExpectedSize(pmus)
    ensures Under(pmus, t) == Flat(EncodeItems(pmus, f.pmus, Under(pmus, was)))
  {
    WrittenIsFrame(t, n, was, idcode, pmus, f);
    UnderFrame(t, DataStarted(was, idcode), DataBody(pmus, f, Under(pmus, was)), n, pmus);
    DataBodyParts(pmus, f, Under(pmus, was));
  }

  lemma StandsUnder(t: seq<byte>, was: seq<byte>, pmus: seq<PmuConfig>, p: PmuConfig, d: PmuData, i: nat, k: nat)
    requires |t| == |was| >= ExpectedSize(pmus) && i < |pmus| && p == pmus[i] && k == DataTotal(pmus[..i])
    requires Enough(p, d)
    requires DataOf(pmus, Under(pmus, t), i) == EncodeData(p, d, DataOf(pmus, Under(pmus, was), i))
    ensures StandsAt(t, was, 14 + k, p, d)
  {
    ItemUnder(pmus, t, i, k, DataSize(p));
    ItemUnder(pmus, was, i, k, DataSize(p));
  }

  /** The measurements of the i-th PMU are written behind those before it, from byte 14 on. */
  lemma PmuWritten(t: seq<byte>, n: nat, was: seq<byte>, idcode: Word16, pmus: seq<PmuConfig>, f: PmuDataFrame,
                   i: nat, k: nat)
    requires Written(t, n, was, idcode, pmus, f) && i < |pmus| && k == DataTotal(pmus[..i])
    ensures i < |f.pmus| && StandsAt(t, was, 14 + k, pmus[i], f.pmus[i])
  {
    UnderWritten(t, n, was, idcode, pmus, f);
    ItemWritten(pmus, f.pmus, Under(pmus, was), Under(pmus, t), i);
    StandsUnder(t, was, pmus, pmus[i], f.pmus[i], i, k);
  }
}
