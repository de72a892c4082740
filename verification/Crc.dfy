/** The CHK word of a frame (clause 6.2 of IEEE Std C37.118.2-2011): CRC-CCITT with generator
    x^16 + x^12 + x^5 + 1 and initial value 0xFFFF. */
module Crc {
  import opened Bits

  function Initial(): (w: Word)
    ensures forall i :: 0 <= i < 16 ==> w[i]
  {
    seq(16, _ => true)
  }

  function ByteBits(b: byte): seq<bool> {
    FromNat(b, 8)
  }

  /** A byte in the low half of a word. */
  function Extend(b: seq<bool>): (w: Word)
    requires |b| == 8
    ensures forall i :: 0 <= i < 16 ==> w[i] == (i >= 8 && b[i - 8])
  {
    [false, false, false, false, false, false, false, false] + b
  }

  /** One byte, by the shifts and exclusive-ors of the source. */
  function Shifts(crc: Word, b: seq<bool>): Word
    requires |b| == 8
  {
    var calc1 := Xor(ShiftRight(crc, 8), Extend(b));
    var calc2 := Xor(calc1, ShiftRight(calc1, 4));
    Xor(Xor(Xor(ShiftLeft(crc, 8), calc2), ShiftLeft(calc2, 5)), ShiftLeft(ShiftLeft(calc2, 5), 7))
  }

  function CrcFrom(crc: Word, s: seq<byte>): Word
    decreases |s|
  {
    if s == [] then crc else CrcFrom(Shifts(crc, ByteBits(s[0])), s[1..])
  }

  function Crc(s: seq<byte>): Word {
    CrcFrom(Initial(), s)
  }

  // ---- Bit by bit ----

  /** The bits of the generator below x^16: x^12, x^5 and 1. */
  predicate Generator(i: nat) {
    i == 3 || i == 10 || i == 15
  }

  /** One step of division by the generator: the next bit enters at the top. */
  function BitStep(crc: Word, bit: bool): (w: Word)
    ensures forall i :: 0 <= i < 16 ==>
              w[i] == ((i < 15 && crc[i + 1]) != ((crc[0] != bit) && Generator(i)))
  {
    seq(16, i requires 0 <= i < 16 => (i < 15 && crc[i + 1]) != ((crc[0] != bit) && Generator(i)))
  }

  function BitRun(crc: Word, bits: seq<bool>): Word
    decreases |bits|
  {
    if bits == [] then crc else BitRun(BitStep(crc, bits[0]), bits[1..])
  }

  lemma {:induction false} BitRunAppend(crc: Word, s: seq<bool>, t: seq<bool>)
    ensures BitRun(crc, s + t) == BitRun(BitRun(crc, s), t)
    decreases |s|
  {
    if s == [] {
      assert s + t == t;
    } else {
      assert (s + t)[1..] == s[1..] + t;
      BitRunAppend(BitStep(crc, s[0]), s[1..], t);
    }
  }

  /** What the generator feeds back into bit i in four steps. */
  predicate Feedback(crc: Word, b: seq<bool>, i: nat)
    requires |b| == 4
  {
    if i < 4 then crc[i] != b[i]
    else if 7 <= i < 11 then crc[i - 7] != b[i - 7]
    else if 12 <= i < 16 then crc[i - 12] != b[i - 12]
    else false
  }

  /** Four steps at once: nothing that is fed back reaches the top before the fifth. */
  function FourSteps(crc: Word, b: seq<bool>): (w: Word)
    requires |b| == 4
    ensures forall i :: 0 <= i < 16 ==> w[i] == ((i < 12 && crc[i + 4]) != Feedback(crc, b, i))
  {
    seq(16, i requires 0 <= i < 16 => (i < 12 && crc[i + 4]) != Feedback(crc, b, i))
  }

  lemma TwoBitSteps(crc: Word, a: bool, b: bool, w: Word)
    requires w == BitStep(BitStep(crc, a), b)
    ensures forall i :: 0 <= i < 16 ==> w[i] == ((i < 14 && crc[i + 2]) != Feedback2(crc, a, b, i))
  {
  }

  predicate Feedback2(crc: Word, a: bool, b: bool, i: nat) {
    if i == 2 || i == 9 || i == 14 then crc[0] != a
    else if i == 3 || i == 10 || i == 15 then crc[1] != b
    else false
  }

  lemma FourBitSteps(crc: Word, b: seq<bool>, c2: Word, c4: Word)
    requires |b| == 4
    requires c2 == BitStep(BitStep(crc, b[0]), b[1]) && c4 == BitStep(BitStep(c2, b[2]), b[3])
    ensures c4 == FourSteps(crc, b)
  {
    TwoBitSteps(crc, b[0], b[1], c2);
    TwoBitSteps(c2, b[2], b[3], c4);
    assert c2[0] == crc[2] && c2[1] == crc[3];
    FeedbackTwice(crc, b, c2, c4, FourSteps(crc, b));
  }

  lemma FeedbackTwice(crc: Word, b: seq<bool>, c2: Word, c4: Word, w: Word)
    requires |b| == 4 && c2[0] == crc[2] && c2[1] == crc[3]
    requires forall i :: 0 <= i < 16 ==> c2[i] == ((i < 14 && crc[i + 2]) != Feedback2(crc, b[0], b[1], i))
    requires forall i :: 0 <= i < 16 ==> c4[i] == ((i < 14 && c2[i + 2]) != Feedback2(c2, b[2], b[3], i))
    requires forall i :: 0 <= i < 16 ==> w[i] == ((i < 12 && crc[i + 4]) != Feedback(crc, b, i))
    ensures c4 == w
  {
    forall i | 0 <= i < 16
      ensures c4[i] == w[i]
    {
      if i < 14 {
        assert c2[i + 2] == ((i < 12 && crc[i + 4]) != Feedback2(crc, b[0], b[1], i + 2));
      }
    }
  }

  /** The word calc2 of the source, of which only the low byte can be set. */
  predicate Calc2(crc: Word, b: seq<bool>, m: nat)
    requires |b| == 8
  {
    8 <= m < 16 && ((crc[m - 8] != b[m - 8]) != (m >= 12 && (crc[m - 12] != b[m - 12])))
  }

  predicate BitOf(w: Word, i: nat) {
    i < 16 && w[i]
  }

  lemma Calc2Bits(crc: Word, b: seq<bool>, calc1: Word, calc2: Word)
    requires |b| == 8 && calc1 == Xor(ShiftRight(crc, 8), Extend(b)) && calc2 == Xor(calc1, ShiftRight(calc1, 4))
    ensures forall m :: 0 <= m < 16 ==> calc2[m] == Calc2(crc, b, m)
  {
  }

  /** The last shifts and exclusive-ors of a byte. */
  lemma ShiftedBits(crc: Word, calc2: Word, w: Word)
    requires w == Xor(Xor(Xor(ShiftLeft(crc, 8), calc2), ShiftLeft(calc2, 5)), ShiftLeft(ShiftLeft(calc2, 5), 7))
    ensures forall i :: 0 <= i < 16 ==>
              w[i] == ((i < 8 && crc[i + 8]) != (BitOf(calc2, i) != (BitOf(calc2, i + 5) != BitOf(calc2, i + 12))))
  {
  }

  lemma ShiftsByBit(crc: Word, b: seq<bool>)
    requires |b| == 8
    ensures forall i :: 0 <= i < 16 ==>
              Shifts(crc, b)[i] == ((i < 8 && crc[i + 8])
                                    != (Calc2(crc, b, i) != (Calc2(crc, b, i + 5) != Calc2(crc, b, i + 12))))
  {
    var calc1 := Xor(ShiftRight(crc, 8), Extend(b));
    var calc2 := Xor(calc1, ShiftRight(calc1, 4));
    Calc2Bits(crc, b, calc1, calc2);
    ShiftedBits(crc, calc2, Shifts(crc, b));
    assert forall i: nat :: BitOf(calc2, i) == Calc2(crc, b, i);
  }

  lemma TwoNibbles(crc: Word, b: seq<bool>, p: seq<bool>, q: seq<bool>)
    requires |p| == |q| == 4 && b == p + q
    ensures Shifts(crc, b) == FourSteps(FourSteps(crc, p), q)
  {
    ShiftsByBit(crc, b);
    var c := FourSteps(crc, p);
    var w := FourSteps(c, q);
    forall i | 0 <= i < 16
      ensures Shifts(crc, b)[i] == w[i]
    {
      if i < 12 {
        assert c[i + 4] == ((i < 8 && crc[i + 8]) != Feedback(crc, p, i + 4));
      }
      NibbleFeedback(crc, b, p, q, c, i);
    }
  }

  lemma NibbleFeedback(crc: Word, b: seq<bool>, p: seq<bool>, q: seq<bool>, c: Word, i: nat)
    requires |p| == |q| == 4 && b == p + q && i < 16
    requires forall k :: 0 <= k < 4 ==> c[k] == (crc[k + 4] != (crc[k] != p[k]))
    ensures (Calc2(crc, b, i) != (Calc2(crc, b, i + 5) != Calc2(crc, b, i + 12)))
         == ((i < 12 && Feedback(crc, p, i + 4)) != Feedback(c, q, i))
  {
  }

  lemma BitRunOfFour(crc: Word, b: seq<bool>)
    requires |b| == 4
    ensures BitRun(crc, b) == FourSteps(crc, b)
  {
    var c1 := BitStep(crc, b[0]);
    var c2 := BitStep(c1, b[1]);
    var c3 := BitStep(c2, b[2]);
    var c4 := BitStep(c3, b[3]);
    FourBitSteps(crc, b, c2, c4);
    assert b[1..][1..] == b[2..] && b[2..][1..] == b[3..] && b[3..][1..] == [];
    assert BitRun(crc, b) == BitRun(c1, b[1..]);
    assert BitRun(c1, b[1..]) == BitRun(c2, b[2..]);
    assert BitRun(c2, b[2..]) == BitRun(c3, b[3..]);
    assert BitRun(c3, b[3..]) == BitRun(c4, []);
  }

  /** The shifts of the source are eight steps of the division. */
  lemma ByteIsEightBits(crc: Word, b: seq<bool>)
    requires |b| == 8
    ensures Shifts(crc, b) == BitRun(crc, b)
  {
    assert b == b[..4] + b[4..];
    BitRunAppend(crc, b[..4], b[4..]);
    BitRunOfFour(crc, b[..4]);
    BitRunOfFour(FourSteps(crc, b[..4]), b[4..]);
    TwoNibbles(crc, b, b[..4], b[4..]);
  }

  /** The bits of a frame. */
  function FrameBits(s: seq<byte>): (bits: seq<bool>)
    ensures |bits| == 8 * |s|
  {
    if s == [] then [] else ByteBits(s[0]) + FrameBits(s[1..])
  }

  /** The byte-wise CRC is bit-serial division by the generator, for every message. */
  lemma {:induction false} CrcIsDivision(crc: Word, s: seq<byte>)
    ensures CrcFrom(crc, s) == BitRun(crc, FrameBits(s))
    decreases |s|
  {
    if s != [] {
      var b := ByteBits(s[0]);
      ByteIsEightBits(crc, b);
      BitRunAppend(crc, b, FrameBits(s[1..]));
      CrcIsDivision(Shifts(crc, b), s[1..]);
    }
  }

  lemma {:induction false} FrameBitsConcat(s: seq<byte>, t: seq<byte>)
    ensures FrameBits(s + t) == FrameBits(s) + FrameBits(t)
  {
    if s == [] {
      assert s + t == t;
    } else {
      assert (s + t)[1..] == s[1..] + t;
      FrameBitsConcat(s[1..], t);
    }
  }

  lemma ByteFitsBits(b: byte)
    ensures ToNat(ByteBits(b)) == b
  {
    assert Pow2(8) == 256;
    ToFromNat(b, 8);
  }

  lemma {:induction false} FrameBitsInjective(s: seq<byte>, t: seq<byte>)
    requires |s| == |t| && FrameBits(s) == FrameBits(t)
    ensures s == t
  {
    if s != [] {
      var a, b := FrameBits(s), FrameBits(t);
      assert a[..8] == ByteBits(s[0]) && b[..8] == ByteBits(t[0]);
      assert a[8..] == FrameBits(s[1..]) && b[8..] == FrameBits(t[1..]);
      ByteFitsBits(s[0]);
      ByteFitsBits(t[0]);
      FrameBitsInjective(s[1..], t[1..]);
    }
  }

  // ---- The division as a map of states ----

  lemma BitStepInjective(x: Word, y: Word, bit: bool)
    requires BitStep(x, bit) == BitStep(y, bit)
    ensures x == y
  {
    var u, v := BitStep(x, bit), BitStep(y, bit);
    assert u[15] == (x[0] != bit) && v[15] == (y[0] != bit);
    forall i | 0 < i < 16
      ensures x[i] == y[i]
    {
      assert u[i - 1] == v[i - 1];
    }
  }

  /** Every message permutes the states. */
  lemma {:induction false} BitRunInjective(x: Word, y: Word, bits: seq<bool>)
    requires BitRun(x, bits) == BitRun(y, bits)
    ensures x == y
    decreases |bits|
  {
    if bits != [] {
      BitRunInjective(BitStep(x, bits[0]), BitStep(y, bits[0]), bits[1..]);
      BitStepInjective(x, y, bits[0]);
    }
  }

  /** States that n different bits can bring together agree on all but their n top bits. */
  lemma {:induction false} ShortRunsAgreeBelow(x: Word, y: Word, u: seq<bool>, v: seq<bool>)
    requires |u| == |v| <= 16 && BitRun(x, u) == BitRun(y, v)
    ensures forall i :: |u| <= i < 16 ==> x[i] == y[i]
    decreases |u|
  {
    if u != [] {
      var x', y' := BitStep(x, u[0]), BitStep(y, v[0]);
      ShortRunsAgreeBelow(x', y', u[1..], v[1..]);
      assert x'[15] == (x[0] != u[0]) && y'[15] == (y[0] != v[0]);
      forall i | |u| <= i < 16
        ensures x[i] == y[i]
      {
        assert x'[i - 1] == y'[i - 1];
      }
    }
  }

  /** At most 16 bits are determined by where they lead. */
  lemma {:induction false} ShortRunsInjective(x: Word, u: seq<bool>, v: seq<bool>)
    requires |u| == |v| <= 16 && BitRun(x, u) == BitRun(x, v)
    ensures u == v
    decreases |u|
  {
    if u != [] {
      var x', y' := BitStep(x, u[0]), BitStep(x, v[0]);
      ShortRunsAgreeBelow(x', y', u[1..], v[1..]);
      assert x'[15] == (x[0] != u[0]) && y'[15] == (x[0] != v[0]);
      ShortRunsInjective(x', u[1..], v[1..]);
    }
  }

  /** Two messages that differ inside a window of 16 bits lead to different states. */
  lemma BurstChangesState(x: Word, p: seq<bool>, u: seq<bool>, v: seq<bool>, s: seq<bool>)
    requires |u| == |v| <= 16
    requires BitRun(x, p + u + s) == BitRun(x, p + v + s)
    ensures u == v
  {
    var y := BitRun(x, p);
    BitRunAppend(x, p + u, s);
    BitRunAppend(x, p, u);
    BitRunAppend(x, p + v, s);
    BitRunAppend(x, p, v);
    BitRunInjective(BitRun(y, u), BitRun(y, v), s);
    ShortRunsInjective(y, u, v);
  }

  // ---- Residue ----

  function Zero(): (w: Word)
    ensures forall i :: 0 <= i < 16 ==> !w[i]
  {
    seq(16, _ => false)
  }

  lemma {:induction false} OwnBitsVanish(x: Word, u: seq<bool>)
    requires |u| <= 16 && u == x[..|u|]
    ensures forall i :: 0 <= i < 16 ==> BitRun(x, u)[i] == (i + |u| < 16 && x[i + |u|])
    decreases |u|
  {
    if u != [] {
      var y := BitStep(x, u[0]);
      assert u[0] == x[0];
      forall i | 0 <= i < |u| - 1
        ensures u[1..][i] == y[..|u| - 1][i]
      {
        assert u[i + 1] == x[..|u|][i + 1];
      }
      OwnBitsVanish(y, u[1..]);
    }
  }

  /** A state followed by its own bits gives residue zero, and by no other word does it. */
  lemma ResidueIsZero(x: Word, u: Word)
    ensures BitRun(x, u) == Zero() <==> u == x
  {
    assert x == x[..16];
    OwnBitsVanish(x, x);
    assert BitRun(x, x) == Zero();
    if BitRun(x, u) == Zero() {
      ShortRunsInjective(x, u, x);
    }
  }

  function CrcValue(s: seq<byte>): nat {
    ToNat(Crc(s))
  }

  lemma WordOfBytes(hi: byte, lo: byte)
    ensures ToNat(ByteBits(hi) + ByteBits(lo)) == 256 * hi + lo
    ensures FrameBits([hi, lo]) == ByteBits(hi) + ByteBits(lo)
  {
    assert Pow2(8) == 256;
    ByteFitsBits(hi);
    ByteFitsBits(lo);
    ToNatConcat(ByteBits(hi), ByteBits(lo));
    FrameBitsConcat([hi], [lo]);
    assert [hi] + [lo] == [hi, lo];
    assert FrameBits([hi]) == ByteBits(hi) + FrameBits([hi][1..]);
    assert FrameBits([lo]) == ByteBits(lo) + FrameBits([lo][1..]);
  }

  lemma ToNatInjective(s: seq<bool>, t: seq<bool>)
    requires |s| == |t| && ToNat(s) == ToNat(t)
    ensures s == t
  {
    FromToNat(s);
    FromToNat(t);
  }

  /** A frame ends in its big-endian CRC exactly when division of the whole frame leaves no residue. */
  lemma CrcMatchesResidue(s: seq<byte>, hi: byte, lo: byte)
    ensures 256 * hi + lo == CrcValue(s) <==> BitRun(Initial(), FrameBits(s + [hi, lo])) == Zero()
  {
    var c, u := Crc(s), ByteBits(hi) + ByteBits(lo);
    WordOfBytes(hi, lo);
    CrcIsDivision(Initial(), s);
    FrameBitsConcat(s, [hi, lo]);
    BitRunAppend(Initial(), FrameBits(s), FrameBits([hi, lo]));
    ResidueIsZero(c, u);
    if ToNat(u) == ToNat(c) {
      ToNatInjective(u, c);
    }
  }

  lemma CrcValueFits(s: seq<byte>)
    ensures CrcValue(s) < 0x1_0000
  {
    FromToNat(Crc(s));
    assert Pow2(8) == 256 && Pow2(16) == 0x1_0000;
  }

  // ---- Long division ----

  /** The sequence with the bits of w added, modulo 2, to its first 16 bits. */
  function AddWord(w: Word, s: seq<bool>): (t: seq<bool>)
    requires |s| >= 16
    ensures |t| == |s| && forall i :: 0 <= i < |s| ==> t[i] == (s[i] != (i < 16 && w[i]))
  {
    seq(|s|, i requires 0 <= i < |s| => s[i] != (i < 16 && w[i]))
  }

  function GeneratorWord(): (w: Word)
    ensures forall i :: 0 <= i < 16 ==> w[i] == Generator(i)
  {
    seq(16, i => i >= 0 && Generator(i))
  }

  lemma NibbleValue(s: seq<bool>)
    requires |s| == 4
    ensures ToNat(s)
         == (if s[0] then 8 else 0) + (if s[1] then 4 else 0) + (if s[2] then 2 else 0) + (if s[3] then 1 else 0)
  {
    var a, b, c := s[..3], s[..2], s[..1];
    LastBit(s, a, s[3]);
    LastBit(a, b, s[2]);
    LastBit(b, c, s[1]);
    LastBit(c, [], s[0]);
  }

  lemma NibbleAfter(s: seq<bool>, d: seq<bool>, n: nat, k: nat)
    requires |d| == 4 && ToNat(s) == n && ToNat(d) == k
    ensures ToNat(s + d) == 0x10 * n + k
  {
    assert Pow2(4) == 0x10;
    ToNatConcat(s, d);
  }

  /** The generator is x^16 + x^12 + x^5 + 1, and the division starts from all ones. */
  lemma GeneratorAndStart()
    ensures ToNat(GeneratorWord()) == 0x1021 && ToNat(Initial()) == 0xFFFF
  {
    var o, a, b, c := [true, true, true, true], [false, false, false, true], [false, false, false, false],
                      [false, false, true, false];
    NibbleValue(o);
    NibbleValue(a);
    NibbleValue(b);
    NibbleValue(c);
    assert Initial() == o + o + o + o;
    NibbleAfter(o, o, 0xF, 0xF);
    NibbleAfter(o + o, o, 0xFF, 0xF);
    NibbleAfter(o + o + o, o, 0xFFF, 0xF);
    assert GeneratorWord() == a + b + c + a;
    NibbleAfter(a, b, 1, 0);
    NibbleAfter(a + b, c, 0x10, 2);
    NibbleAfter(a + b + c, a, 0x102, 1);
  }

  /** The remainder of long division by the generator, of a polynomial over the two-element field
      given by its coefficients, the highest degree first. */
  function Remainder(s: seq<bool>): (r: Word)
    requires |s| >= 16
    decreases |s|
  {
    if |s| == 16 then s
    else if s[0] then Remainder(AddWord(GeneratorWord(), s[1..]))
    else Remainder(s[1..])
  }

  lemma {:induction false} DivisionIsRemainder(crc: Word, m: seq<bool>)
    ensures BitRun(crc, m) == Remainder(AddWord(crc, m + Zero()))
    decreases |m|
  {
    var s := AddWord(crc, m + Zero());
    if m == [] {
      assert s == crc;
    } else {
      var next := BitStep(crc, m[0]);
      var t := AddWord(next, m[1..] + Zero());
      assert t == if s[0] then AddWord(GeneratorWord(), s[1..]) else s[1..];
      DivisionIsRemainder(next, m[1..]);
    }
  }

  /** The CRC is the remainder of the message times x^16, its first 16 bits complemented. */
  lemma CrcIsRemainder(s: seq<byte>)
    ensures Crc(s) == Remainder(AddWord(Initial(), FrameBits(s) + Zero()))
  {
    CrcIsDivision(Initial(), s);
    DivisionIsRemainder(Initial(), FrameBits(s));
  }

  /** The CRC of all but the last two bytes of a frame. */
  method CalculateCrc(data: array<byte>, dataLength: nat) returns (crc: Word)
    requires dataLength <= data.Length
    ensures crc == Crc(data[..if dataLength < 2 then 0 else dataLength - 2])
  {
    crc := Initial();
    var ii := 0;
    while ii < dataLength - 2
      invariant 0 <= ii <= (if dataLength < 2 then 0 else dataLength - 2)
      invariant crc == Crc(data[..ii])
    {
      CrcExtended(data[..ii], data[ii]);
      assert data[..ii + 1] == data[..ii] + [data[ii]];
      var calc1 := Xor(ShiftRight(crc, 8), Extend(ByteBits(data[ii])));
      crc := ShiftLeft(crc, 8);
      var calc2 := Xor(calc1, ShiftRight(calc1, 4));
      crc := Xor(crc, calc2);
      calc2 := ShiftLeft(calc2, 5);
      crc := Xor(crc, calc2);
      calc2 := ShiftLeft(calc2, 7);
      crc := Xor(crc, calc2);
      ii := ii + 1;
    }
  }

  lemma {:induction false} CrcFromConcat(crc: Word, s: seq<byte>, t: seq<byte>)
    ensures CrcFrom(crc, s + t) == CrcFrom(CrcFrom(crc, s), t)
    decreases |s|
  {
    if s == [] {
      assert s + t == t;
    } else {
      assert (s + t)[1..] == s[1..] + t;
      CrcFromConcat(Shifts(crc, ByteBits(s[0])), s[1..], t);
    }
  }

  lemma CrcExtended(s: seq<byte>, b: byte)
    ensures Crc(s + [b]) == Shifts(Crc(s), ByteBits(b))
  {
    CrcFromConcat(Initial(), s, [b]);
    assert CrcFrom(Crc(s), [b]) == CrcFrom(Shifts(Crc(s), ByteBits(b)), [b][1..]);
  }
}
