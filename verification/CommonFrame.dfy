/** What all frames have in common (clause 6.2 of IEEE Std C37.118.2-2011): SYNC, FRAMESIZE, IDCODE,
    SOC, FRACSEC and, at the end, CHK. */
module CommonFrames {
  import opened Bits
  import opened Crc
  import opened Wire

  const SYNC_LEAD := 0xAA
  const VERSION_2005 := 1
  const COMMON_FRAME_SIZE := 14
  const MIN_PACKET_SIZE := 18

  const DATA := 0x00
  const CONFIG1 := 0x20
  const CONFIG2 := 0x30

  datatype ParseResult =
    | InvalidSync | InvalidChecksum | IdMismatch | IncorrectType | NotImplemented
    | LengthMismatch | ConfigMismatch | ParseComplete | NotParsed

  datatype CommonFrame = CommonFrame(kind: int, sourceID: Word16, byteCount: Word16, soc: Word32, fracSec: Word32)

  datatype Common = Refused(result: ParseResult) | Accepted(frame: CommonFrame)

  /** The frame type in the second byte: mask 0111 0000. */
  function KindOf(b: byte): int {
    b / 16 % 8 * 16
  }

  function Declared(s: seq<byte>): Word16
    requires |s| >= 4
  {
    Word2(s[2..4])
  }

  /** The CHK word of a frame that declares its size. */
  predicate ChecksumRight(s: seq<byte>)
    requires |s| >= 4 && 2 <= Declared(s) <= |s|
  {
    Word2(s[Declared(s) - 2..Declared(s)]) == CrcValue(s[..Declared(s) - 2])
  }

  /** What the source demands of its callers: as much of the buffer as it looks at before it refuses,
      all of the common fields when it does not, and a declared size that holds the CRC. */
  predicate Readable(s: seq<byte>) {
    && |s| >= 1
    && (s[0] == SYNC_LEAD ==>
          |s| >= 4 && (Declared(s) <= |s| ==> Declared(s) >= 2 && (ChecksumRight(s) ==> |s| >= COMMON_FRAME_SIZE)))
  }

  function ParseCommon(s: seq<byte>): Common
    requires Readable(s)
  {
    if s[0] != SYNC_LEAD then Refused(InvalidSync)
    else
      var n := Declared(s);
      if |s| < n then Refused(LengthMismatch)
      else if !ChecksumRight(s) then Refused(InvalidChecksum)
      else Accepted(CommonFrame(KindOf(s[1]), Word2(s[4..6]), n, Word4(s[6..10]), Word4(s[10..14])))
  }

  /** ParseCommon on a buffer. */
  method ParseCommonFrame(data: array<byte>) returns (c: Common)
    requires Readable(data[..])
    ensures c == ParseCommon(data[..])
  {
    if data[0] != SYNC_LEAD {
      return Refused(InvalidSync);
    }
    var kind := KindOf(data[1]);
    var byteCount: int := (data[2] as int) * 256 + data[3];
    assert byteCount == Declared(data[..]);
    if data.Length < byteCount {
      return Refused(LengthMismatch);
    }
    var crc := CalculateCrc(data, byteCount);
    assert data[..byteCount - 2] == data[..][..byteCount - 2];
    var actual: int := (data[byteCount - 2] as int) * 256 + data[byteCount - 1];
    if actual != ToNat(crc) {
      return Refused(InvalidChecksum);
    }
    return Accepted(CommonFrame(kind, Word2(data[4..6]), byteCount, Word4(data[6..10]), Word4(data[10..14])));
  }

  /** Division of the first n bytes by the generator leaves no residue. */
  ghost predicate NoResidue(s: seq<byte>, n: nat)
    requires n <= |s|
  {
    BitRun(Initial(), FrameBits(s[..n])) == Zero()
  }

  lemma ChecksumIsResidue(s: seq<byte>, n: nat)
    requires 2 <= n <= |s|
    ensures Word2(s[n - 2..n]) == CrcValue(s[..n - 2]) <==> NoResidue(s, n)
  {
    var hi: byte, lo: byte := s[n - 2], s[n - 1];
    assert s[..n] == s[..n - 2] + [hi, lo];
    CrcMatchesResidue(s[..n - 2], hi, lo);
  }

  /** A frame is accepted exactly when it starts with SYNC, is all there, and leaves no residue. */
  lemma AcceptedWhenNoResidue(s: seq<byte>)
    requires Readable(s)
    ensures ParseCommon(s).Accepted? <==>
              s[0] == SYNC_LEAD && Declared(s) <= |s| && NoResidue(s, Declared(s))
  {
    if s[0] == SYNC_LEAD && Declared(s) <= |s| {
      ChecksumIsResidue(s, Declared(s));
    }
  }

  /** Why a buffer is refused: it does not start with 0xAA, is shorter than bytes 2 and 3 say, or
      leaves a residue. */
  lemma RefusedWhy(s: seq<byte>)
    requires Readable(s)
    ensures ParseCommon(s) == Refused(InvalidSync) <==> s[0] != 0xAA
    ensures ParseCommon(s) == Refused(LengthMismatch) <==> s[0] == 0xAA && |s| < Word2(s[2..4])
    ensures ParseCommon(s) == Refused(InvalidChecksum) <==>
              s[0] == 0xAA && |s| >= Word2(s[2..4]) && !NoResidue(s, Word2(s[2..4]))
  {
    if s[0] == SYNC_LEAD && Declared(s) <= |s| {
      ChecksumIsResidue(s, Declared(s));
    }
  }

  /** A buffer can be refused without all of its common fields: by its first byte, by its first four, or
      when its residue is known. */
  lemma RefusedEarly(s: seq<byte>)
    requires |s| >= 1
    ensures s[0] != 0xAA ==> Readable(s)
    ensures s[0] == 0xAA && |s| >= 4 && |s| < Word2(s[2..4]) ==> Readable(s)
    ensures s[0] == 0xAA && |s| >= 4 && 2 <= Word2(s[2..4]) <= |s| && !NoResidue(s, Word2(s[2..4])) ==> Readable(s)
    ensures s[0] == 0xAA && |s| >= 14 && 2 <= Word2(s[2..4]) ==> Readable(s)
  {
    if s[0] == SYNC_LEAD && |s| >= 4 && 2 <= Declared(s) <= |s| {
      ChecksumIsResidue(s, Declared(s));
    }
  }

  /** While a frame arrives, its beginning is refused as too short, and for no other reason. */
  lemma PrefixIsTooShort(s: seq<byte>, k: nat)
    requires Readable(s) && ParseCommon(s).Accepted? && 4 <= k < Word2(s[2..4])
    ensures k < |s| && Readable(s[..k]) && ParseCommon(s[..k]) == Refused(LengthMismatch)
  {
    assert s[..k][2..4] == s[2..4];
  }

  /** Where two bit strings differ: only in bits at..at+16. */
  ghost predicate DifferInWindow(x: seq<bool>, y: seq<bool>, at: nat) {
    |x| == |y| && forall i :: 0 <= i < |x| && !(at <= i < at + 16) ==> x[i] == y[i]
  }

  lemma WindowParts(x: seq<bool>, y: seq<bool>, a: nat, b: nat)
    requires |x| == |y| && a <= b <= |x| && forall i :: 0 <= i < |x| && !(a <= i < b) ==> x[i] == y[i]
    ensures x == x[..a] + x[a..b] + x[b..] && y == x[..a] + y[a..b] + x[b..]
  {
    var z := x[..a] + y[a..b] + x[b..];
    assert |z| == |y|;
    forall i | 0 <= i < |y|
      ensures z[i] == y[i]
    {
    }
  }

  lemma BurstOfBits(x: seq<bool>, y: seq<bool>, at: nat)
    requires DifferInWindow(x, y, at) && BitRun(Initial(), x) == BitRun(Initial(), y)
    ensures x == y
  {
    var a := if at < |x| then at else |x|;
    var b := if at + 16 < |x| then at + 16 else |x|;
    WindowParts(x, y, a, b);
    BurstChangesState(Initial(), x[..a], x[a..b], y[a..b], x[b..]);
  }

  lemma {:induction false} PrefixBits(s: seq<byte>, n: nat)
    requires n <= |s|
    ensures FrameBits(s[..n]) == FrameBits(s)[..8 * n]
  {
    assert s == s[..n] + s[n..];
    FrameBitsConcat(s[..n], s[n..]);
  }

  /** Frames of the same type and size that differ within 16 consecutive bits, the CHK word
      included, are not both accepted. */
  lemma BurstIsDetected(s: seq<byte>, t: seq<byte>, at: nat)
    requires Readable(s) && Readable(t) && ParseCommon(s).Accepted? && ParseCommon(t).Accepted?
    requires |s| == |t| && s[..4] == t[..4] && DifferInWindow(FrameBits(s), FrameBits(t), at)
    ensures s[..Declared(s)] == t[..Declared(s)]
  {
    assert s[2..4] == s[..4][2..4] && t[2..4] == t[..4][2..4];
    AcceptedWhenNoResidue(s);
    AcceptedWhenNoResidue(t);
    NoResidueTwice(s, t, Declared(s), at);
  }

  lemma NoResidueTwice(s: seq<byte>, t: seq<byte>, n: nat, at: nat)
    requires n <= |s| == |t| && DifferInWindow(FrameBits(s), FrameBits(t), at)
    requires NoResidue(s, n) && NoResidue(t, n)
    ensures s[..n] == t[..n]
  {
    PrefixBits(s, n);
    PrefixBits(t, n);
    BurstOfBits(FrameBits(s[..n]), FrameBits(t[..n]), at);
    FrameBitsInjective(s[..n], t[..n]);
  }

  // ---- Writing ----

  /** The buffer s with a frame of n bytes finished: its size and its CRC filled in. */
  function Finished(s: seq<byte>, n: nat): (t: seq<byte>)
    requires 4 <= n - 2 && n <= |s|
    ensures |t| == |s|
  {
    var sized := Replace(s, 2, Bytes2(n));
    Replace(sized, n - 2, Bytes2(CrcValue(sized[..n - 2])))
  }

  lemma FinishedBytes(s: seq<byte>, n: nat)
    requires COMMON_FRAME_SIZE <= n - 2 && n <= |s|
    ensures var t := Finished(s, n);
            && t[..2] == s[..2] && t[2..4] == Bytes2(n) && t[4..n - 2] == s[4..n - 2] && t[n..] == s[n..]
            && t[n - 2..n] == Bytes2(CrcValue(t[..n - 2]))
  {
    var sized := Replace(s, 2, Bytes2(n));
    var t := Finished(s, n);
    assert t[..n - 2] == sized[..n - 2];
    assert t[4..n - 2] == t[..n - 2][4..] && sized[4..] == s[4..];
    assert t[2..4] == t[..n - 2][2..4];
    assert t[..2] == t[..n - 2][..2];
  }

  /** t is the buffer st with a finished frame of n bytes: x follows IDCODE. */
  ghost predicate IsFrame(t: seq<byte>, st: seq<byte>, x: seq<byte>, n: nat) {
    && |x| >= 8 && n == 8 + |x| <= |st| == |t|
    && t[..2] == st[..2] && t[2..4] == Bytes2(n) && t[4..6] == st[4..6] && t[6..n - 2] == x
    && t[n - 2..n] == Bytes2(CrcValue(t[..n - 2])) && t[n..] == st[n..]
  }

  lemma FinishedIsFrame(st: seq<byte>, x: seq<byte>, t: seq<byte>, n: nat)
    requires |x| >= 8 && n == 8 + |x| <= |st| && t == Finished(Replace(st, 6, x), n)
    ensures IsFrame(t, st, x, n)
  {
    var r := Replace(st, 6, x);
    FinishedBytes(r, n);
    assert r[..6] == st[..6] && r[6..n - 2] == x && r[n - 2..] == st[n - 2..];
    assert r[..2] == r[..6][..2] && st[..2] == st[..6][..2];
    SubSlice(t, 4, n - 6, 0, 2);
    SubSlice(t, 4, n - 6, 2, n - 6);
    SubSlice(r, 4, n - 6, 0, 2);
    SubSlice(r, 4, n - 6, 2, n - 6);
    assert r[4..6] == r[..6][4..6] && st[4..6] == st[..6][4..6];
    assert r[n..] == r[n - 2..][2..] && st[n..] == st[n - 2..][2..];
  }

  lemma FirstTwo(t: seq<byte>, s: seq<byte>)
    requires |t| >= 2 && |s| >= 2 && t[..2] == s[..2]
    ensures t[0] == s[0] && t[1] == s[1]
  {
    assert t[0] == t[..2][0] && t[1] == t[..2][1] && s[0] == s[..2][0] && s[1] == s[..2][1];
  }

  /** A finished frame is accepted, with the fields that stood in the buffer, if it starts with SYNC. */
  lemma FrameIsReadable(t: seq<byte>, st: seq<byte>, x: seq<byte>, n: nat)
    requires IsFrame(t, st, x, n) && n < 0x1_0000
    ensures Readable(t)
    ensures ParseCommon(t) == if st[0] == SYNC_LEAD
                              then Accepted(CommonFrame(KindOf(st[1]), Word2(st[4..6]), n, Word4(x[..4]),
                                                        Word4(x[4..8])))
                              else Refused(InvalidSync)
  {
    FirstTwo(t, st);
    Word2OfBytes(n);
    CrcValueFits(t[..n - 2]);
    Word2OfBytes(CrcValue(t[..n - 2]));
    SubSlice(t, 6, n - 8, 0, 4);
    SubSlice(t, 6, n - 8, 4, 8);
  }

  /** A finished frame says its size and leaves no residue. */
  lemma FrameDivides(t: seq<byte>, st: seq<byte>, x: seq<byte>, n: nat)
    requires IsFrame(t, st, x, n) && n < 0x1_0000
    ensures NoResidue(t, n) && Word2(t[2..4]) == n
  {
    Word2OfBytes(n);
    CrcValueFits(t[..n - 2]);
    Word2OfBytes(CrcValue(t[..n - 2]));
    ChecksumIsResidue(t, n);
  }

  /** A frame whose CHK word is right. */
  ghost predicate Checked(f: seq<byte>) {
    && |f| >= 4 && 2 <= Declared(f) <= |f|
    && Word2(f[Declared(f) - 2..Declared(f)]) == CrcValue(f[..Declared(f) - 2])
  }

  lemma AcceptedIsChecked(f: seq<byte>)
    requires Readable(f) && ParseCommon(f).Accepted?
    ensures Checked(f)
  {
  }

  /** SYNC and IDCODE are the same. */
  ghost predicate StartsLike(f: seq<byte>, st: seq<byte>)
    requires |f| >= 6 && |st| >= 6
  {
    f[..2] == st[..2] && f[4..6] == st[4..6]
  }

  /** A finished frame is another accepted frame exactly when all but the CHK words agree. */
  lemma SameFrames(t: seq<byte>, st: seq<byte>, x: seq<byte>, n: nat, f: seq<byte>)
    requires IsFrame(t, st, x, n) && Checked(f)
    ensures t[..n] == f[..Declared(f)] <==>
              n == Declared(f) && StartsLike(f, st) && f[6..n - 2] == x
  {
    assert |t[..n]| == n && |f[..Declared(f)]| == Declared(f);
    if n == Declared(f) {
      Bytes2OfWord(f[2..4]);
      Bytes2OfWord(f[n - 2..n]);
      FiveSlices(t, n);
      FiveSlices(f, n);
      if t[..n] == f[..n] {
        SameSlices(t, f, n);
      }
    }
  }

  lemma FiveSlices(t: seq<byte>, n: nat)
    requires 16 <= n <= |t|
    ensures t[..n - 2] == t[..2] + t[2..4] + t[4..6] + t[6..n - 2]
    ensures t[..n] == t[..n - 2] + t[n - 2..n]
  {
  }

  lemma SameSlices(t: seq<byte>, f: seq<byte>, n: nat)
    requires 16 <= n <= |t| && n <= |f| && t[..n] == f[..n]
    ensures f[..2] == t[..2] && f[4..6] == t[4..6] && f[6..n - 2] == t[6..n - 2]
  {
    forall i | 0 <= i < n
      ensures t[i] == f[i]
    {
      assert t[i] == t[..n][i] && f[i] == f[..n][i];
    }
  }

  method AddSize(data: array<byte>, dataSize: nat)
    requires data.Length >= 4
    modifies data
    ensures data[..] == Replace(old(data[..]), 2, Bytes2(dataSize))
  {
    data[2] := LowByte(dataSize / 0x100);
    data[3] := LowByte(dataSize);
  }

  method AddCrc(data: array<byte>, dataSize: nat)
    requires 2 <= dataSize <= data.Length
    modifies data
    ensures data[..] == Replace(old(data[..]), dataSize - 2, Bytes2(CrcValue(old(data[..dataSize - 2]))))
  {
    var crc := CalculateCrc(data, dataSize);
    var bytes := Bytes2(ToNat(crc));
    data[dataSize - 2] := bytes[0];
    data[dataSize - 1] := bytes[1];
  }

  /** Fills in size and CRC of a frame of n bytes. */
  method Finish(data: array<byte>, n: nat)
    requires 4 <= n - 2 && n <= data.Length
    modifies data
    ensures data[..] == Finished(old(data[..]), n)
  {
    AddSize(data, n);
    ghost var sized := data[..];
    AddCrc(data, n);
    assert sized[..n - 2] == old(Replace(data[..], 2, Bytes2(n)))[..n - 2];
  }

  /** Whether the generators write SYNC and IDCODE: the size they are given is cut to 16 bits. */
  predicate WritesCommonFrame(dataSize: nat) {
    dataSize % 0x1_0000 >= MIN_PACKET_SIZE
  }

  function WithCommonFrame(s: seq<byte>, idcode: Word16, kind: int): (t: seq<byte>)
    requires |s| >= 6 && 0 <= kind < 0x80
    ensures |t| == |s|
  {
    Replace([SYNC_LEAD, kind / 16 % 8 * 16 + VERSION_2005] + s[2..], 4, Bytes2(idcode))
  }

  /** The common frame says what it was written for. */
  lemma CommonFrameStarts(was: seq<byte>, idcode: Word16, kind: int)
    requires |was| >= 6 && 0 <= kind < 0x80 && kind % 16 == 0
    ensures var st := WithCommonFrame(was, idcode, kind);
            && st[0] == SYNC_LEAD == 0xAA && st[1] == kind + VERSION_2005 == kind + 1 && KindOf(st[1]) == kind
            && Word2(st[4..6]) == idcode
  {
    Word2OfBytes(idcode);
    assert WithCommonFrame(was, idcode, kind)[4..6] == Bytes2(idcode);
  }

  lemma BehindStart(was: seq<byte>, idcode: Word16, kind: int, n: nat)
    requires 6 <= n <= |was| && 0 <= kind < 0x80
    ensures WithCommonFrame(was, idcode, kind)[n..] == was[n..]
  {
  }

  /** When a frame f starts like one that was written. */
  lemma StartRestored(f: seq<byte>, was: seq<byte>, idcode: Word16, kind: int)
    requires |f| >= 6 && |was| >= 6 && f[0] == SYNC_LEAD && 0 <= kind < 0x80 && kind % 16 == 0
    ensures StartsLike(f, WithCommonFrame(was, idcode, kind)) <==>
              f[1] == kind + VERSION_2005 && Word2(f[4..6]) == idcode
  {
    CommonFrameStarts(was, idcode, kind);
    var st := WithCommonFrame(was, idcode, kind);
    Bytes2OfWord(f[4..6]);
    Bytes2OfWord(st[4..6]);
    assert f[..2] == [f[0], f[1]] && st[..2] == [st[0], st[1]];
  }

  /** Writes SYNC and IDCODE, or nothing. */
  method GenerateCommonFrame(data: array<byte>, idcode: Word16, kind: int)
    requires 0 <= kind < 0x80
    modifies data
    ensures data[..] == if WritesCommonFrame(data.Length) then WithCommonFrame(old(data[..]), idcode, kind)
                        else old(data[..])
  {
    var dataSize := data.Length % 0x1_0000;
    if dataSize < MIN_PACKET_SIZE {
      return;
    }
    data[0] := SYNC_LEAD;
    data[1] := kind / 16 % 8 * 16 + VERSION_2005;
    var id := Bytes2(idcode);
    data[4] := id[0];
    data[5] := id[1];
  }

  method AddTime(data: array<byte>, soc: Word32, fracsec: Word32)
    requires data.Length >= COMMON_FRAME_SIZE
    modifies data
    ensures data[..] == Replace(Replace(old(data[..]), 6, Bytes4(soc)), 10, Bytes4(fracsec))
  {
    Put(data, 6, Bytes4(soc));
    Put(data, 10, Bytes4(fracsec));
  }
}
