/** The numbers of a data frame.  A number that was read stands for the double its word is turned
    into; here is the word that this double is turned into when it is written again: floats pass
    through double exactly but for signalling NaNs, frequencies in integer format are thousandths, the
    fraction of a second is a count of the time base, and analogs in integer format are integers.
    Integer phasors and polar ones are not covered. */
module DataNumbers {
  import opened Bits
  import opened Wire
  import opened CommonFrames
  import opened PmuConfigs
  import opened ConfigFrames
  import opened PmuDatas
  import opened DataFrames
  import opened Doubles

  const THOUSANDTHS := 1000

  // ---- One number ----

  /** A signalling NaN in the binary32 format of IEEE Std 754: all ones in the exponent, then a zero,
      and not only zeros after it. */
  predicate Signalling(w: Word32) {
    w / 0x40_0000 % 0x200 == 0x1FE && w % 0x40_0000 != 0
  }

  /** A float after it was a double: a signalling NaN is quiet. */
  function Quieted(w: Word32): (v: Word32)
    ensures !Signalling(v) && (v == w <==> !Signalling(w))
  {
    if Signalling(w) then
      assert (w + 0x40_0000) / 0x40_0000 == w / 0x40_0000 + 1;
      w + 0x40_0000
    else w
  }

  /** Signalling NaNs, of both signs, are 7F800001 to 7FBFFFFF; as a double they get their highest fraction
      bit set, and all others are kept. */
  lemma SignallingAre(w: Word32)
    ensures Signalling(w) <==> 0x7F80_0001 <= w % 0x8000_0000 <= 0x7FBF_FFFF
    ensures Quieted(w) == if 0x7F80_0001 <= w % 0x8000_0000 <= 0x7FBF_FFFF then w + 0x40_0000 else w
  {
    var sign: int, rest: int := w / 0x8000_0000, w % 0x8000_0000;
    assert w == sign * 0x8000_0000 + rest && 0 <= sign <= 1;
    assert w / 0x40_0000 == sign * 0x200 + rest / 0x40_0000;
  }

  /** The absolute value of a 16-bit integer. */
  function Magnitude(w: Word16): (n: nat)
    ensures n <= 0x8000
  {
    if w < 0x8000 then w else 0x1_0000 - w
  }

  lemma RescaledNoMore(n: nat, d: nat)
    requires n < TWO32 && 0 < d < TWO32
    ensures Rescaled(n, d) <= n
    ensures Rescaled(n, d) == n <==> Survives(n, d)
  {
    RescaledIs(n, d);
  }

  /** A frequency in thousandths, divided by 1000, multiplied by 1000 and truncated towards zero. */
  function ResentThousandths(w: Word16): (v: Word16)
    ensures v == w <==> Survives(Magnitude(w), THOUSANDTHS)
  {
    var n := Magnitude(w);
    RescaledNoMore(n, THOUSANDTHS);
    var k := Rescaled(n, THOUSANDTHS);
    if w < 0x8000 || k == 0 then k else 0x1_0000 - k
  }

  /** A frequency word 1001 in integer format is sent on as 1000, -1001 as -1000, and a fraction of
      249 microseconds as 248. */
  lemma LostInRescaling()
    ensures ResentThousandths(1001) == 1000 && ResentThousandths(0x1_0000 - 1001) == 0x1_0000 - 1000
    ensures Rescaled(249, 1_000_000) == 248
  {
    Frequency1001();
    Fraction249();
  }

  // ---- The measurements of a PMU ----

  /** Phasors, if any, are rectangular floats. */
  predicate FloatPhasors(p: PmuConfig) {
    p.phasorCount == 0 || (p.floatPhasor && !p.polar)
  }

  function ResentFrequency(p: PmuConfig, w: Word32): (v: Word32)
    requires Cut(p.floatFreq, w) == w
    ensures p.floatFreq || v < 0x1_0000
  {
    if p.floatFreq then Quieted(w) else ResentThousandths(w)
  }

  predicate FrequencySurvives(p: PmuConfig, w: Word32)
    requires Cut(p.floatFreq, w) == w
  {
    if p.floatFreq then !Signalling(w) else Survives(Magnitude(w), THOUSANDTHS)
  }

  function ResentPhasors(xs: seq<Phasor>): (ys: seq<Phasor>)
    ensures |ys| == |xs| && forall i :: 0 <= i < |xs| ==> ys[i] == Phasor(Quieted(xs[i].first), Quieted(xs[i].second))
  {
    seq(|xs|, i requires 0 <= i < |xs| => Phasor(Quieted(xs[i].first), Quieted(xs[i].second)))
  }

  function ResentAnalogs(p: PmuConfig, ns: seq<Word32>): (ms: seq<Word32>)
    ensures |ms| == |ns| && forall i :: 0 <= i < |ns| ==> ms[i] == if p.floatAnalog then Quieted(ns[i]) else ns[i]
  {
    seq(|ns|, i requires 0 <= i < |ns| => (if p.floatAnalog then Quieted(ns[i]) else ns[i]) as Word32)
  }

  /** The words written for measurements that were read as d. */
  function Resent(p: PmuConfig, d: PmuData): PmuData
    requires FitsFormat(p, d) && FloatPhasors(p)
  {
    PmuData(d.stat, ResentPhasors(d.phasors), ResentFrequency(p, d.freq), ResentFrequency(p, d.rocof),
            ResentAnalogs(p, d.analog), d.digital)
  }

  /** No float is a signalling NaN, and frequencies in thousandths come back. */
  predicate NumbersSurvive(p: PmuConfig, d: PmuData)
    requires FitsFormat(p, d) && FloatPhasors(p)
  {
    && (forall i :: 0 <= i < |d.phasors| ==> !Signalling(d.phasors[i].first) && !Signalling(d.phasors[i].second))
    && FrequencySurvives(p, d.freq) && FrequencySurvives(p, d.rocof)
    && (p.floatAnalog ==> forall i :: 0 <= i < |d.analog| ==> !Signalling(d.analog[i]))
  }

  lemma ResentIsSame(p: PmuConfig, d: PmuData)
    requires FitsFormat(p, d) && FloatPhasors(p)
    ensures Resent(p, d) == d <==> NumbersSurvive(p, d)
  {
    var e := Resent(p, d);
    if NumbersSurvive(p, d) {
      assert e.phasors == d.phasors && e.analog == d.analog;
    } else if e.phasors == d.phasors && e.analog == d.analog {
      assert forall i :: 0 <= i < |d.phasors| ==> e.phasors[i] == d.phasors[i];
      assert forall i :: 0 <= i < |d.analog| ==> e.analog[i] == d.analog[i];
    }
  }

  lemma ResentFits(p: PmuConfig, d: PmuData)
    requires FitsFormat(p, d) && FloatPhasors(p)
    ensures FitsFormat(p, Resent(p, d))
  {
    var e := Resent(p, d);
    CutFits(p.floatFreq, e.freq);
    CutFits(p.floatFreq, e.rocof);
    forall i | 0 <= i < p.phasorCount
      ensures Cut(p.floatPhasor, e.phasors[i].first) == e.phasors[i].first
      ensures Cut(p.floatPhasor, e.phasors[i].second) == e.phasors[i].second
    {
      assert p.floatPhasor;
    }
    forall i | 0 <= i < p.analogCount
      ensures Cut(p.floatAnalog, e.analog[i]) == e.analog[i]
    {
      AnalogFits(p, d.analog[i], e.analog[i]);
    }
  }

  lemma CutFits(float: bool, n: Word32)
    requires float || n < 0x1_0000
    ensures Cut(float, n) == n
  {
  }

  lemma AnalogFits(p: PmuConfig, w: Word32, v: Word32)
    requires Cut(p.floatAnalog, w) == w && v == if p.floatAnalog then Quieted(w) else w
    ensures Cut(p.floatAnalog, v) == v
  {
  }

  // ---- Frames ----

  predicate AllFloatPhasors(pmus: seq<PmuConfig>) {
    forall i :: 0 <= i < |pmus| ==> FloatPhasors(pmus[i])
  }

  function ResentAll(pmus: seq<PmuConfig>, ds: seq<PmuData>): (es: seq<PmuData>)
    requires |pmus| == |ds| && AllFloatPhasors(pmus) && forall i :: 0 <= i < |pmus| ==> FitsFormat(pmus[i], ds[i])
    ensures |es| == |ds| && forall i :: 0 <= i < |es| ==> es[i] == Resent(pmus[i], ds[i])
  {
    seq(|ds|, i requires 0 <= i < |ds| => Resent(pmus[i], ds[i]))
  }

  function ResentFraction(n: Word32, timeBase: Word32): (k: Word32)
    requires timeBase > 0
    ensures k <= n && (k == n <==> Survives(n, timeBase))
  {
    RescaledNoMore(n, timeBase);
    Rescaled(n, timeBase)
  }

  /** The words written for a frame that was read as f. */
  function ResentFrame(c: Config, f: PmuDataFrame): PmuDataFrame
    requires Plain(c, f) && AllFloatPhasors(c.pmus) && c.timeBase > 0
  {
    f.(fraction := ResentFraction(f.fraction, c.timeBase), pmus := ResentAll(c.pmus, f.pmus))
  }

  /** All numbers of a frame come back. */
  predicate FrameSurvives(c: Config, f: PmuDataFrame)
    requires Plain(c, f) && AllFloatPhasors(c.pmus) && c.timeBase > 0
  {
    Survives(f.fraction, c.timeBase) && forall i :: 0 <= i < |f.pmus| ==> NumbersSurvive(c.pmus[i], f.pmus[i])
  }

  lemma ResentFrameIsSame(c: Config, f: PmuDataFrame)
    requires Plain(c, f) && AllFloatPhasors(c.pmus) && c.timeBase > 0
    ensures ResentFrame(c, f) == f <==> FrameSurvives(c, f)
  {
    var e := ResentFrame(c, f);
    forall i | 0 <= i < |f.pmus|
      ensures e.pmus[i] == f.pmus[i] <==> NumbersSurvive(c.pmus[i], f.pmus[i])
    {
      ResentIsSame(c.pmus[i], f.pmus[i]);
    }
    if FrameSurvives(c, f) {
      assert e.pmus == f.pmus;
    }
  }

  lemma ResentIsPlain(c: Config, f: PmuDataFrame)
    requires Plain(c, f) && AllFloatPhasors(c.pmus) && c.timeBase > 0
    ensures Plain(c, ResentFrame(c, f))
  {
    forall i | 0 <= i < |c.pmus|
      ensures FitsFormat(c.pmus[i], ResentFrame(c, f).pmus[i])
    {
      ResentFits(c.pmus[i], f.pmus[i]);
    }
  }

  /** A frame that was read, and is written and read again, whatever the buffer held: it comes back
      whole exactly when all its numbers survive, and with the numbers written otherwise; it is refused
      when the buffer size, cut to 16 bits, does not let the generator write SYNC. */
  lemma DataRoundTrip(was: seq<byte>, c: Config, f: PmuDataFrame)
    requires Plain(c, f) && f.idcode == c.idcode && AllFloatPhasors(c.pmus) && c.timeBase > 0
    requires |was| >= ExpectedSize(c.pmus) && ExpectedSize(c.pmus) < 0x1_0000
    requires WritesCommonFrame(|was|) || was[0] != SYNC_LEAD
    ensures var e := ResentFrame(c, f);
            && AllEnough(c.pmus, e.pmus)
            && var t := GeneratedData(was, c.idcode, c.pmus, e);
               && Readable(t)
               && ParseData(t, c) == (if WritesCommonFrame(|was|) then Read(ParseComplete, e) else Unread(InvalidSync))
               && (WritesCommonFrame(|was|) ==> (ParseData(t, c) == Read(ParseComplete, f) <==> FrameSurvives(c, f)))
  {
    ResentIsPlain(c, f);
    WordsRoundTrip(was, c, ResentFrame(c, f));
    ResentFrameIsSame(c, f);
  }

  // ---- Writing a parsed frame again ----

  lemma WordFits(float: bool, s: seq<byte>)
    requires |s| == Width(float)
    ensures Cut(float, WordOf(float, s)) == WordOf(float, s)
  {
  }

  lemma DecodedFits(p: PmuConfig, s: seq<byte>)
    requires |s| == DataSize(p)
    ensures FitsFormat(p, DecodeData(p, s))
  {
    var d, w, at, k := DecodeData(p, s), Width(p.floatFreq), PhasorsEnd(p), Width(p.floatPhasor);
    WordFits(p.floatFreq, s[at..at + w]);
    WordFits(p.floatFreq, s[at + w..at + 2 * w]);
    forall i | 0 <= i < p.phasorCount
      ensures Cut(p.floatPhasor, d.phasors[i].first) == d.phasors[i].first
      ensures Cut(p.floatPhasor, d.phasors[i].second) == d.phasors[i].second
    {
      WordFits(p.floatPhasor, PhasorsOf(p, s)[i][..k]);
      WordFits(p.floatPhasor, PhasorsOf(p, s)[i][k..]);
    }
    forall i | 0 <= i < p.analogCount
      ensures Cut(p.floatAnalog, d.analog[i]) == d.analog[i]
    {
      WordFits(p.floatAnalog, AnalogsOf(p, s)[i]);
    }
  }

  lemma ParsedIsPlain(f: seq<byte>, c: Config, r: ParseResult, d: PmuDataFrame)
    requires Readable(f) && ParseData(f, c) == Read(r, d) && r != ConfigMismatch && AllFloatPhasors(c.pmus)
    ensures Plain(c, d)
  {
    var common := ParseCommon(f).frame;
    ParseOfAccepted(f, c, common.kind, common.sourceID, common.byteCount, common.soc, common.fracSec);
    forall i | 0 <= i < |c.pmus|
      ensures FitsFormat(c.pmus[i], d.pmus[i])
    {
      DecodedFits(c.pmus[i], DataOf(c.pmus, Under(c.pmus, f), i));
    }
  }

  lemma SameFraction(m: Word32, p: byte, n: Word32, q: byte)
    requires m < 0x100_0000 && n < 0x100_0000 && FracWord(m, p) == FracWord(n, q)
    ensures m == n
  {
    FracWordParts(m, p);
    FracWordParts(n, q);
  }

  lemma FractionSays(f: seq<byte>, k: nat, b: seq<byte>, d: PmuDataFrame, e: PmuDataFrame)
    requires k + 14 <= |f| && b == f[6..14 + k]
    requires Word4(f[10..14]) == FracWord(d.fraction, d.timeQuality)
    requires Word4(b[4..8]) == FracWord(e.fraction, e.timeQuality)
    requires d.fraction < 0x100_0000 && e.fraction < 0x100_0000
    ensures e.fraction == d.fraction && b[8..] == f[14..14 + k]
  {
    assert b[4..8] == f[10..14] && b[8..] == f[14..14 + k] by {
      SubSlice(f, 6, 8 + k, 4, 8);
      SubSlice(f, 6, 8 + k, 8, 8 + k);
    }
    SameFraction(d.fraction, d.timeQuality, e.fraction, e.timeQuality);
  }

  lemma ItemsSay(c: Config, e: PmuDataFrame, was: seq<byte>, s: seq<byte>)
    requires Plain(c, e) && |was| == |s| == DataTotal(c.pmus) && AllEnough(c.pmus, e.pmus)
    requires Flat(EncodeItems(c.pmus, e.pmus, was)) == s
    ensures e.pmus == DecodeItems(c.pmus, s)
  {
    EncodedItems(c.pmus, e.pmus, was);
    PlainIsCarried(c, e, was);
  }

  /** The body of a frame tells its fraction and its measurements. */
  lemma BodySays(f: seq<byte>, c: Config, d: PmuDataFrame, e: PmuDataFrame, was: seq<byte>, s: seq<byte>,
                 body: seq<byte>)
    requires Plain(c, e) && AllEnough(c.pmus, e.pmus) && |s| == |was| == DataTotal(c.pmus) && 14 + |s| <= |f|
    requires Word4(f[10..14]) == FracWord(d.fraction, d.timeQuality) && d.fraction < 0x100_0000
    requires d.pmus == DecodeItems(c.pmus, s) && s == f[14..14 + |s|]
    requires body == DataBody(c.pmus, e, was) && body == f[6..14 + |s|]
    ensures e.fraction == d.fraction && e.pmus == d.pmus
  {
    assert e.fraction == d.fraction && Flat(EncodeItems(c.pmus, e.pmus, was)) == s by {
      DataBodyParts(c.pmus, e, was);
      FractionSays(f, |s|, body, d, e);
    }
    ItemsSay(c, e, was, s);
  }

  lemma FloatsKeepSeconds(pmus: seq<PmuConfig>, s: seq<byte>, was: seq<byte>)
    requires |s| == |was| == DataTotal(pmus) && AllFloatPhasors(pmus)
    ensures SecondsKept(pmus, s, was)
  {
  }

  lemma SurvivingBody(f: seq<byte>, c: Config, d: PmuDataFrame, was: seq<byte>, s: seq<byte>, body: seq<byte>, end: nat)
    requires 14 <= end <= |f| && s == f[14..end] && |s| == |was| == DataTotal(c.pmus) && AllFloatPhasors(c.pmus)
    requires d.soc == Word4(f[6..10]) && FracWord(d.fraction, d.timeQuality) == Word4(f[10..14])
    requires d.pmus == DecodeItems(c.pmus, s) && body == DataBody(c.pmus, d, was)
    ensures body == f[6..end]
  {
    BodyRestored(f, c.pmus, d, was, s, body, end);
    FloatsKeepSeconds(c.pmus, s, was);
  }

  lemma ResentBody(f: seq<byte>, c: Config, d: PmuDataFrame, was: seq<byte>, e: PmuDataFrame, s: seq<byte>,
                   body: seq<byte>)
    requires Plain(c, d) && AllFloatPhasors(c.pmus) && c.timeBase > 0
    requires |s| == |was| == DataTotal(c.pmus) && 14 + |s| <= |f| && s == f[14..14 + |s|]
    requires d.soc == Word4(f[6..10]) && FracWord(d.fraction, d.timeQuality) == Word4(f[10..14])
    requires d.pmus == DecodeItems(c.pmus, s)
    requires e == ResentFrame(c, d) && AllEnough(c.pmus, e.pmus) && body == DataBody(c.pmus, e, was)
    ensures (body == f[6..14 + |s|]) == FrameSurvives(c, d)
  {
    assert e == d <==> FrameSurvives(c, d) by { ResentFrameIsSame(c, d); }
    if e == d {
      SurvivingBody(f, c, d, was, s, body, 14 + |s|);
    } else if body == f[6..14 + |s|] {
      ResentIsPlain(c, d);
      BodySays(f, c, d, e, was, s, body);
    }
  }

  lemma StartedAgain(f: seq<byte>, was: seq<byte>, idcode: Word16, t: seq<byte>, x: seq<byte>, n: nat, sameBody: bool)
    requires |was| >= 6 && IsFrame(t, WithCommonFrame(was, idcode, DATA), x, n)
    requires Checked(f) && n - 2 <= |f| && f[0] == SYNC_LEAD && (x == f[6..n - 2]) == sameBody
    ensures t[..n] == f[..Declared(f)] <==>
              f[1] == DATA + VERSION_2005 && Word2(f[4..6]) == idcode && Declared(f) == n && sameBody
  {
    FrameAgain(f, t, WithCommonFrame(was, idcode, DATA), x, n, sameBody);
    StartRestored(f, was, idcode, DATA);
  }

  lemma WrittenAgain(f: seq<byte>, was: seq<byte>, c: Config, e: PmuDataFrame, t: seq<byte>, x: seq<byte>, n: nat,
                     sameBody: bool)
    requires AllEnough(c.pmus, e.pmus) && |was| >= n == ExpectedSize(c.pmus) && WritesCommonFrame(|was|)
    requires t == GeneratedData(was, c.idcode, c.pmus, e) && x == DataBody(c.pmus, e, Under(c.pmus, was))
    requires Checked(f) && |f| >= n && f[0] == SYNC_LEAD && (x == f[6..n - 2]) == sameBody
    ensures t[..n] == f[..Declared(f)] <==>
              f[1] == DATA + VERSION_2005 && Word2(f[4..6]) == c.idcode && Declared(f) == n && sameBody
  {
    assert IsFrame(t, WithCommonFrame(was, c.idcode, DATA), x, n) by {
      WrittenDataIsFrame(was, c.idcode, c.pmus, e);
    }
    StartedAgain(f, was, c.idcode, t, x, n, sameBody);
  }

  lemma SaidIsRegenerated(f: seq<byte>, c: Config, was: seq<byte>, d: PmuDataFrame, e: PmuDataFrame, t: seq<byte>,
                          n: nat, survives: bool)
    requires 6 <= |f| && Checked(f) && n <= |t| && n <= |f|
    requires SaysData(f, c, d) && Plain(c, d) && AllFloatPhasors(c.pmus) && c.timeBase > 0
    requires e == ResentFrame(c, d) && AllEnough(c.pmus, e.pmus) && survives == FrameSurvives(c, d)
    requires n == ExpectedSize(c.pmus) <= |was| && WritesCommonFrame(|was|)
    requires t == GeneratedData(was, c.idcode, c.pmus, e)
    ensures t[..n] == f[..Declared(f)] <==>
              f[1] == DATA + VERSION_2005 && Word2(f[4..6]) == c.idcode && Declared(f) == n && survives
  {
    var x := DataBody(c.pmus, e, Under(c.pmus, was));
    ResentBody(f, c, d, Under(c.pmus, was), e, Under(c.pmus, f), x);
    WrittenAgain(f, was, c, e, t, x, n, survives);
  }

  /** Writing a parsed data frame again gives its bytes exactly when its version is the one that is
      written, its IDCODE is that of the configuration, its size is the expected one, and all its
      numbers survive. */
  lemma RegeneratedData(f: seq<byte>, c: Config, was: seq<byte>, r: ParseResult, d: PmuDataFrame)
    requires Readable(f) && ParseData(f, c) == Read(r, d) && r != ConfigMismatch
    requires AllFloatPhasors(c.pmus) && c.timeBase > 0
    requires |was| >= ExpectedSize(c.pmus) && WritesCommonFrame(|was|)
    ensures |f| >= 6 && Declared(f) <= |f| && Plain(c, d) && AllEnough(c.pmus, ResentFrame(c, d).pmus)
    ensures GeneratedData(was, c.idcode, c.pmus, ResentFrame(c, d))[..ExpectedSize(c.pmus)] == f[..Declared(f)] <==>
              && f[1] == DATA + VERSION_2005 && Word2(f[4..6]) == c.idcode
              && Declared(f) == ExpectedSize(c.pmus) && FrameSurvives(c, d)
  {
    ParsedIsPlain(f, c, r, d);
    ReadSays(f, c);
    ResentIsPlain(c, d);
    var e := ResentFrame(c, d);
    assert AllEnough(c.pmus, e.pmus);
    SaidIsRegenerated(f, c, was, d, e, GeneratedData(was, c.idcode, c.pmus, e), ExpectedSize(c.pmus),
                      FrameSurvives(c, d));
  }
}
