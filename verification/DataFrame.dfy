/** Whole data frames (clause 6.3 of IEEE Std C37.118.2-2011) under a configuration. */
module DataFrames {
  import opened Bits
  import opened Wire
  import opened CommonFrames
  import opened PmuConfigs
  import opened ConfigFrames
  import opened PmuDatas
  import opened Rows

  /** fraction is the fraction of a second as a count of the time base. */
  datatype PmuDataFrame = PmuDataFrame(
    idcode: Word16,
    timeQuality: byte,
    soc: Word32,
    fraction: Word32,
    pmus: seq<PmuData>)

  datatype ParsedData = Unread(result: ParseResult) | Read(result: ParseResult, frame: PmuDataFrame)

  // ---- Sizes ----

  function Sizes(pmus: seq<PmuConfig>): (sizes: seq<nat>)
    ensures |sizes| == |pmus| && forall i :: 0 <= i < |pmus| ==> sizes[i] == DataSize(pmus[i])
  {
    seq(|pmus|, i requires 0 <= i < |pmus| => DataSize(pmus[i]))
  }

  function DataTotal(pmus: seq<PmuConfig>): nat {
    Total(Sizes(pmus))
  }

  /** The size of a data frame: common part, measurements and CHK word. */
  function ExpectedSize(pmus: seq<PmuConfig>): nat {
    COMMON_FRAME_SIZE + 2 + DataTotal(pmus)
  }

  // ---- Measurements in a row ----

  /** The measurements of one PMU in s. */
  function DataOf(pmus: seq<PmuConfig>, s: seq<byte>, i: nat): (item: seq<byte>)
    requires |s| == DataTotal(pmus) && i < |pmus|
    ensures |item| == DataSize(pmus[i])
  {
    Part(Sizes(pmus), s, i)
  }

  predicate AllEnough(pmus: seq<PmuConfig>, ds: seq<PmuData>) {
    |ds| == |pmus| && forall i :: 0 <= i < |ds| ==> Enough(pmus[i], ds[i])
  }

  function EncodeItems(pmus: seq<PmuConfig>, ds: seq<PmuData>, was: seq<byte>): (items: seq<seq<byte>>)
    requires AllEnough(pmus, ds) && |was| == DataTotal(pmus)
    ensures |items| == |pmus|
  {
    seq(|pmus|, i requires 0 <= i < |pmus| => EncodeData(pmus[i], ds[i], DataOf(pmus, was, i)))
  }

  function DecodeItems(pmus: seq<PmuConfig>, s: seq<byte>): (ds: seq<PmuData>)
    requires |s| == DataTotal(pmus)
    ensures AllEnough(pmus, ds)
  {
    seq(|pmus|, i requires 0 <= i < |pmus| => DecodeData(pmus[i], DataOf(pmus, s, i)))
  }

  /** What a frame carries of the measurements when written over old bytes. */
  function CarriedItems(pmus: seq<PmuConfig>, ds: seq<PmuData>, was: seq<byte>): (cs: seq<PmuData>)
    requires AllEnough(pmus, ds) && |was| == DataTotal(pmus)
    ensures |cs| == |pmus|
  {
    seq(|pmus|, i requires 0 <= i < |pmus| =>
      CarriedData(pmus[i], ds[i], PhasorsOf(pmus[i], DataOf(pmus, was, i))))
  }

  lemma EncodedSizes(pmus: seq<PmuConfig>, ds: seq<PmuData>, was: seq<byte>)
    requires AllEnough(pmus, ds) && |was| == DataTotal(pmus)
    ensures Sized(Sizes(pmus), EncodeItems(pmus, ds, was))
  {
    forall i | 0 <= i < |pmus|
      ensures |EncodeItems(pmus, ds, was)[i]| == DataSize(pmus[i])
    {
      DecodeOfEncodedData(pmus[i], ds[i], DataOf(pmus, was, i));
    }
  }

  lemma EncodedItem(pmus: seq<PmuConfig>, ds: seq<PmuData>, was: seq<byte>, i: nat)
    requires AllEnough(pmus, ds) && |was| == DataTotal(pmus) && i < |pmus|
    requires |Flat(EncodeItems(pmus, ds, was))| == DataTotal(pmus)
    ensures DecodeItems(pmus, Flat(EncodeItems(pmus, ds, was)))[i] == CarriedItems(pmus, ds, was)[i]
  {
    EncodedSizes(pmus, ds, was);
    ItemInFlat(Sizes(pmus), EncodeItems(pmus, ds, was), i);
    DecodeOfEncodedData(pmus[i], ds[i], DataOf(pmus, was, i));
  }

  /** Measurements of all PMUs, found again in a row. */
  lemma EncodedItems(pmus: seq<PmuConfig>, ds: seq<PmuData>, was: seq<byte>)
    requires AllEnough(pmus, ds) && |was| == DataTotal(pmus)
    ensures var s := Flat(EncodeItems(pmus, ds, was));
            |s| == DataTotal(pmus) && DecodeItems(pmus, s) == CarriedItems(pmus, ds, was)
  {
    EncodedSizes(pmus, ds, was);
    PartsOfFlat(Sizes(pmus), EncodeItems(pmus, ds, was));
    forall i | 0 <= i < |pmus|
      ensures DecodeItems(pmus, Flat(EncodeItems(pmus, ds, was)))[i] == CarriedItems(pmus, ds, was)[i]
    {
      EncodedItem(pmus, ds, was, i);
    }
  }

  // ---- Frames ----

  /** The time quality above a 24-bit fraction. */
  function FracWord(fraction: Word32, quality: byte): Word32 {
    (quality as int) * 0x100_0000 + fraction % 0x100_0000
  }

  /** The buffer when the measurements are about to be written. */
  function DataStarted(was: seq<byte>, idcode: Word16): (st: seq<byte>)
    requires |was| >= 6
    ensures |st| == |was|
  {
    if WritesCommonFrame(|was|) then WithCommonFrame(was, idcode, DATA) else was
  }

  /** All between IDCODE and the CHK word; was is what the measurements are written over. */
  function DataBody(pmus: seq<PmuConfig>, f: PmuDataFrame, was: seq<byte>): (b: seq<byte>)
    requires AllEnough(pmus, f.pmus) && |was| == DataTotal(pmus)
  {
    Bytes4(f.soc) + Bytes4(FracWord(f.fraction, f.timeQuality)) + Flat(EncodeItems(pmus, f.pmus, was))
  }

  lemma TimeParts(a: seq<byte>, b: seq<byte>, x: seq<byte>)
    requires |a| == |b| == 4
    ensures (a + b + x)[..4] == a && (a + b + x)[4..8] == b && (a + b + x)[8..] == x
  {
  }

  lemma DataBodyParts(pmus: seq<PmuConfig>, f: PmuDataFrame, was: seq<byte>)
    requires AllEnough(pmus, f.pmus) && |was| == DataTotal(pmus)
    ensures var b := DataBody(pmus, f, was);
            && |b| == 8 + DataTotal(pmus)
            && Word4(b[..4]) == f.soc && Word4(b[4..8]) == FracWord(f.fraction, f.timeQuality)
            && b[8..] == Flat(EncodeItems(pmus, f.pmus, was))
  {
    EncodedSizes(pmus, f.pmus, was);
    PartsOfFlat(Sizes(pmus), EncodeItems(pmus, f.pmus, was));
    TimeParts(Bytes4(f.soc), Bytes4(FracWord(f.fraction, f.timeQuality)), Flat(EncodeItems(pmus, f.pmus, was)));
    Word4OfBytes(f.soc);
    Word4OfBytes(FracWord(f.fraction, f.timeQuality));
  }

  /** The part of the buffer that measurements are written over. */
  function Under(pmus: seq<PmuConfig>, was: seq<byte>): (s: seq<byte>)
    requires |was| >= ExpectedSize(pmus)
    ensures |s| == DataTotal(pmus)
  {
    was[COMMON_FRAME_SIZE..COMMON_FRAME_SIZE + DataTotal(pmus)]
  }

  /** The buffer after a data frame was generated for the first PMUs of a configuration. */
  function GeneratedData(was: seq<byte>, idcode: Word16, pmus: seq<PmuConfig>, f: PmuDataFrame): (t: seq<byte>)
    requires AllEnough(pmus, f.pmus) && |was| >= ExpectedSize(pmus)
    ensures |t| == |was|
  {
    DataBodyParts(pmus, f, Under(pmus, was));
    Finished(Replace(DataStarted(was, idcode), 6, DataBody(pmus, f, Under(pmus, was))), ExpectedSize(pmus))
  }

  function NoData(): PmuData {
    PmuData(0, [], 0, 0, [], [])
  }

  /** A data frame read under a configuration. The result of a frame for another IDCODE says so, but
      its measurements are read; those of a frame too short for the configuration are not. */
  function ParseData(s: seq<byte>, c: Config): ParsedData
    requires Readable(s)
  {
    match ParseCommon(s)
    case Refused(result) => Unread(result)
    case Accepted(common) =>
      if common.kind != DATA then Unread(IncorrectType)
      else
        var frame := PmuDataFrame(common.sourceID, common.fracSec / 0x100_0000, common.soc,
                                  common.fracSec % 0x100_0000, seq(|c.pmus|, _ => NoData()));
        if ExpectedSize(c.pmus) > |s| then Read(ConfigMismatch, frame)
        else Read(if common.sourceID == c.idcode then ParseComplete else IdMismatch,
                  frame.(pmus := DecodeItems(c.pmus, Under(c.pmus, s))))
  }

  /** What becomes of a data frame that was generated into a buffer st and parsed under c. */
  function RereadData(st: seq<byte>, c: Config, f: PmuDataFrame, carried: seq<PmuData>): ParsedData
    requires |st| >= 6
  {
    if st[0] != SYNC_LEAD then Unread(InvalidSync)
    else if KindOf(st[1]) != DATA then Unread(IncorrectType)
    else Read(if Word2(st[4..6]) == c.idcode then ParseComplete else IdMismatch,
              PmuDataFrame(Word2(st[4..6]), f.timeQuality, f.soc, f.fraction % 0x100_0000, carried))
  }

  lemma GeneratedDataIsFrame(was: seq<byte>, idcode: Word16, pmus: seq<PmuConfig>, f: PmuDataFrame)
    requires AllEnough(pmus, f.pmus) && |was| >= ExpectedSize(pmus)
    ensures IsFrame(GeneratedData(was, idcode, pmus, f), DataStarted(was, idcode),
                    DataBody(pmus, f, Under(pmus, was)), ExpectedSize(pmus))
  {
    DataBodyParts(pmus, f, Under(pmus, was));
    FinishedIsFrame(DataStarted(was, idcode), DataBody(pmus, f, Under(pmus, was)), GeneratedData(was, idcode, pmus, f),
                    ExpectedSize(pmus));
  }

  lemma FracWordParts(fraction: Word32, quality: byte)
    ensures FracWord(fraction, quality) / 0x100_0000 == quality
    ensures FracWord(fraction, quality) % 0x100_0000 == fraction % 0x100_0000
  {
  }

  /** Measurements that stand in an accepted frame. */
  lemma ParseOfAccepted(t: seq<byte>, c: Config, kind: int, id: Word16, n: Word16, soc: Word32, frac: Word32)
    requires Readable(t) && ParseCommon(t) == Accepted(CommonFrame(kind, id, n, soc, frac))
    requires |t| >= ExpectedSize(c.pmus) && kind == DATA
    ensures ParseData(t, c) ==
            Read(if id == c.idcode then ParseComplete else IdMismatch,
                 PmuDataFrame(id, frac / 0x100_0000, soc, frac % 0x100_0000, DecodeItems(c.pmus, Under(c.pmus, t))))
  {
  }

  lemma UnderFrame(t: seq<byte>, st: seq<byte>, x: seq<byte>, n: nat, pmus: seq<PmuConfig>)
    requires IsFrame(t, st, x, n) && n == ExpectedSize(pmus)
    ensures Under(pmus, t) == x[8..]
  {
    SubSlice(t, 6, n - 8, 8, n - 8);
  }

  lemma RereadOfFrame(t: seq<byte>, st: seq<byte>, c: Config, f: PmuDataFrame, was: seq<byte>, n: nat)
    requires AllEnough(c.pmus, f.pmus) && |was| == DataTotal(c.pmus) && n == ExpectedSize(c.pmus) < 0x1_0000
    requires IsFrame(t, st, DataBody(c.pmus, f, was), n)
    ensures Readable(t) && ParseData(t, c) == RereadData(st, c, f, CarriedItems(c.pmus, f.pmus, was))
  {
    FrameIsReadable(t, st, DataBody(c.pmus, f, was), n);
    DataBodyParts(c.pmus, f, was);
    UnderFrame(t, st, DataBody(c.pmus, f, was), n, c.pmus);
    EncodedItems(c.pmus, f.pmus, was);
    FracWordParts(f.fraction, f.timeQuality);
    if st[0] == SYNC_LEAD && KindOf(st[1]) == DATA {
      ParseOfAccepted(t, c, DATA, Word2(st[4..6]), n, f.soc, FracWord(f.fraction, f.timeQuality));
    }
  }

  /** Reading a generated data frame gives what the frame carries of the measurements, for every
      configuration; whether it is read at all rests on what the buffer starts with. */
  lemma ParseOfGeneratedData(was: seq<byte>, c: Config, f: PmuDataFrame)
    requires AllEnough(c.pmus, f.pmus) && |was| >= ExpectedSize(c.pmus) && ExpectedSize(c.pmus) < 0x1_0000
    ensures var t := GeneratedData(was, c.idcode, c.pmus, f);
            && Readable(t)
            && ParseData(t, c) ==
               RereadData(DataStarted(was, c.idcode), c, f, CarriedItems(c.pmus, f.pmus, Under(c.pmus, was)))
  {
    GeneratedDataIsFrame(was, c.idcode, c.pmus, f);
    RereadOfFrame(GeneratedData(was, c.idcode, c.pmus, f), DataStarted(was, c.idcode), c, f, Under(c.pmus, was),
                  ExpectedSize(c.pmus));
  }

  /** Words that fit their formats, in a frame whose second words are stored. */
  predicate Plain(c: Config, f: PmuDataFrame) {
    && f.fraction < 0x100_0000 && |f.pmus| == |c.pmus|
    && forall i :: 0 <= i < |c.pmus| ==>
                     FitsFormat(c.pmus[i], f.pmus[i]) && (c.pmus[i].phasorCount == 0 || !KeepsSecond(c.pmus[i]))
  }

  /** The words of a plain frame come back from its bytes, whatever the buffer held, when the buffer
      size, cut to 16 bits, lets the generator write SYNC. */
  lemma WordsRoundTrip(was: seq<byte>, c: Config, f: PmuDataFrame)
    requires Plain(c, f) && f.idcode == c.idcode
    requires |was| >= ExpectedSize(c.pmus) && ExpectedSize(c.pmus) < 0x1_0000
    requires WritesCommonFrame(|was|) || was[0] != SYNC_LEAD
    ensures AllEnough(c.pmus, f.pmus)
    ensures var t := GeneratedData(was, c.idcode, c.pmus, f);
            && Readable(t)
            && ParseData(t, c) == if WritesCommonFrame(|was|) then Read(ParseComplete, f) else Unread(InvalidSync)
  {
    PlainIsCarried(c, f, Under(c.pmus, was));
    ParseOfGeneratedData(was, c, f);
    RereadPlain(DataStarted(was, c.idcode), c, f);
    if WritesCommonFrame(|was|) {
      CommonFrameStarts(was, c.idcode, DATA);
    }
  }

  lemma RereadPlain(st: seq<byte>, c: Config, f: PmuDataFrame)
    requires |st| >= 6 && f.idcode == c.idcode && f.fraction < 0x100_0000
    ensures st[0] == SYNC_LEAD && KindOf(st[1]) == DATA && Word2(st[4..6]) == c.idcode ==>
              RereadData(st, c, f, f.pmus) == Read(ParseComplete, f)
    ensures st[0] != SYNC_LEAD ==> RereadData(st, c, f, f.pmus) == Unread(InvalidSync)
  {
  }

  lemma PlainIsCarried(c: Config, f: PmuDataFrame, was: seq<byte>)
    requires Plain(c, f) && |was| == DataTotal(c.pmus)
    ensures AllEnough(c.pmus, f.pmus) && CarriedItems(c.pmus, f.pmus, was) == f.pmus
  {
    forall i | 0 <= i < |c.pmus|
      ensures CarriedItems(c.pmus, f.pmus, was)[i] == f.pmus[i]
    {
      CarriedDataWhole(c.pmus[i], f.pmus[i], PhasorsOf(c.pmus[i], DataOf(c.pmus, was, i)));
    }
  }

  // ---- Writing a parsed frame again ----

  /** The second words of s stand in was where they are not stored. */
  predicate SecondsKept(pmus: seq<PmuConfig>, s: seq<byte>, was: seq<byte>)
    requires |s| == |was| == DataTotal(pmus)
  {
    forall i :: 0 <= i < |pmus| ==> SecondsAlike(pmus[i], DataOf(pmus, s, i), DataOf(pmus, was, i))
  }

  lemma ItemRestored(pmus: seq<PmuConfig>, s: seq<byte>, was: seq<byte>, i: nat)
    requires |s| == |was| == DataTotal(pmus) && i < |pmus|
    ensures EncodeItems(pmus, DecodeItems(pmus, s), was)[i] == DataOf(pmus, s, i)
       <==> SecondsAlike(pmus[i], DataOf(pmus, s, i), DataOf(pmus, was, i))
  {
    EncodeOfDecodedData(pmus[i], DataOf(pmus, s, i), DataOf(pmus, was, i));
  }

  lemma ItemsRestored(pmus: seq<PmuConfig>, s: seq<byte>, was: seq<byte>)
    requires |s| == |was| == DataTotal(pmus)
    ensures (Flat(EncodeItems(pmus, DecodeItems(pmus, s), was)) == s) == SecondsKept(pmus, s, was)
  {
    var ys := EncodeItems(pmus, DecodeItems(pmus, s), was);
    EncodedSizes(pmus, DecodeItems(pmus, s), was);
    RowsAlike(Sizes(pmus), ys, s);
    forall i | 0 <= i < |pmus|
      ensures ys[i] == DataOf(pmus, s, i) <==> SecondsAlike(pmus[i], DataOf(pmus, s, i), DataOf(pmus, was, i))
    {
      ItemRestored(pmus, s, was, i);
    }
  }

  /** What a data frame f says under a configuration, part by part. */
  ghost predicate SaysData(f: seq<byte>, c: Config, d: PmuDataFrame) {
    && |f| >= ExpectedSize(c.pmus) && f[0] == SYNC_LEAD
    && d.soc == Word4(f[6..10]) && FracWord(d.fraction, d.timeQuality) == Word4(f[10..14])
    && d.pmus == DecodeItems(c.pmus, Under(c.pmus, f))
  }

  lemma ReadSays(f: seq<byte>, c: Config)
    requires Readable(f) && ParseData(f, c).Read? && ParseData(f, c).result != ConfigMismatch
    ensures SaysData(f, c, ParseData(f, c).frame) && Checked(f)
  {
    AcceptedIsChecked(f);
    var common := ParseCommon(f).frame;
    ParseOfAccepted(f, c, common.kind, common.sourceID, common.byteCount, common.soc, common.fracSec);
    FracWordRestored(common.fracSec);
  }

  lemma FracWordRestored(w: Word32)
    ensures w / 0x100_0000 < 0x100 && FracWord(w % 0x100_0000, w / 0x100_0000) == w
  {
  }

  lemma ItemsOver(pmus: seq<PmuConfig>, ds: seq<PmuData>, s: seq<byte>, was: seq<byte>, x: seq<byte>)
    requires |s| == |was| == DataTotal(pmus) && ds == DecodeItems(pmus, s) && x == Flat(EncodeItems(pmus, ds, was))
    ensures |x| == |s| && (x == s) == SecondsKept(pmus, s, was)
  {
    ItemsRestored(pmus, s, was);
    EncodedItems(pmus, ds, was);
  }

  lemma BodyRestored(f: seq<byte>, pmus: seq<PmuConfig>, d: PmuDataFrame, was: seq<byte>, s: seq<byte>,
                     body: seq<byte>, end: nat)
    requires 14 <= end <= |f| && s == f[14..end] && |s| == |was| == DataTotal(pmus)
    requires d.soc == Word4(f[6..10]) && FracWord(d.fraction, d.timeQuality) == Word4(f[10..14])
    requires d.pmus == DecodeItems(pmus, s) && body == DataBody(pmus, d, was)
    ensures (body == f[6..end]) == SecondsKept(pmus, s, was)
  {
    var x := Flat(EncodeItems(pmus, d.pmus, was));
    ItemsOver(pmus, d.pmus, s, was, x);
    BodyOver(f, d, end, x, body, SecondsKept(pmus, s, was));
  }

  lemma BodyOver(f: seq<byte>, d: PmuDataFrame, end: nat, x: seq<byte>, body: seq<byte>, same: bool)
    requires 14 <= end <= |f| && |x| == end - 14
    requires d.soc == Word4(f[6..10]) && FracWord(d.fraction, d.timeQuality) == Word4(f[10..14])
    requires body == Bytes4(d.soc) + Bytes4(FracWord(d.fraction, d.timeQuality)) + x
    requires (x == f[14..end]) == same
    ensures (body == f[6..end]) == same
  {
    Bytes4OfWord(f[6..10]);
    Bytes4OfWord(f[10..14]);
    SpliceBody(f, end, f[6..10], f[10..14], x, body);
  }

  lemma SpliceBody(f: seq<byte>, end: nat, a: seq<byte>, b: seq<byte>, x: seq<byte>, body: seq<byte>)
    requires 14 <= end <= |f| && |x| == end - 14 && a == f[6..10] && b == f[10..14] && body == a + b + x
    ensures body == f[6..end] <==> x == f[14..end]
  {
    assert f[6..end] == a + b + f[14..end];
    assert body[8..] == x && (a + b + f[14..end])[8..] == f[14..end];
  }

  /** Writing the words of a parsed data frame again gives its bytes exactly when its version is the
      one that is written, its IDCODE is that of the configuration, its size is the expected one, and
      second words that are not stored stand in the buffer. */
  lemma RegeneratedWords(f: seq<byte>, c: Config, was: seq<byte>)
    requires Readable(f) && ParseData(f, c).Read? && ParseData(f, c).result != ConfigMismatch
    requires |was| >= ExpectedSize(c.pmus) && WritesCommonFrame(|was|)
    ensures GeneratedData(was, c.idcode, c.pmus, ParseData(f, c).frame)[..ExpectedSize(c.pmus)] == f[..Declared(f)] <==>
              && f[1] == DATA + VERSION_2005 && Word2(f[4..6]) == c.idcode && Declared(f) == ExpectedSize(c.pmus)
              && SecondsKept(c.pmus, Under(c.pmus, f), Under(c.pmus, was))
  {
    ReadSays(f, c);
    BodyRestored(f, c.pmus, ParseData(f, c).frame, Under(c.pmus, was), Under(c.pmus, f),
                 DataBody(c.pmus, ParseData(f, c).frame, Under(c.pmus, was)), ExpectedSize(c.pmus) - 2);
    WrittenDataIsFrame(was, c.idcode, c.pmus, ParseData(f, c).frame);
    FrameAgain(f, GeneratedData(was, c.idcode, c.pmus, ParseData(f, c).frame), WithCommonFrame(was, c.idcode, DATA),
               DataBody(c.pmus, ParseData(f, c).frame, Under(c.pmus, was)), ExpectedSize(c.pmus),
               SecondsKept(c.pmus, Under(c.pmus, f), Under(c.pmus, was)));
    StartRestored(f, was, c.idcode, DATA);
  }

  lemma WrittenDataIsFrame(was: seq<byte>, idcode: Word16, pmus: seq<PmuConfig>, f: PmuDataFrame)
    requires AllEnough(pmus, f.pmus) && |was| >= ExpectedSize(pmus) && WritesCommonFrame(|was|)
    ensures IsFrame(GeneratedData(was, idcode, pmus, f), WithCommonFrame(was, idcode, DATA),
                    DataBody(pmus, f, Under(pmus, was)), ExpectedSize(pmus))
  {
    GeneratedDataIsFrame(was, idcode, pmus, f);
  }

  lemma FrameAgain(f: seq<byte>, t: seq<byte>, st: seq<byte>, x: seq<byte>, n: nat, sameBody: bool)
    requires IsFrame(t, st, x, n) && Checked(f) && n - 2 <= |f|
    requires (x == f[6..n - 2]) == sameBody
    ensures (t[..n] == f[..Declared(f)]) == (n == Declared(f) && StartsLike(f, st) && sameBody)
  {
    SameFrames(t, st, x, n, f);
  }
}
