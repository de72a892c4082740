/** Words as sequences of bits, the most significant first. */
module Bits {
  type byte = x: int | 0 <= x < 256
  type Word = w: seq<bool> | |w| == 16 witness seq(16, _ => false)

  function ToNat(s: seq<bool>): nat {
    if s == [] then 0 else 2 * ToNat(s[..|s| - 1]) + (if s[|s| - 1] then 1 else 0)
  }

  /** The k low bits of n. */
  function FromNat(n: nat, k: nat): (s: seq<bool>)
    ensures |s| == k
  {
    if k == 0 then [] else FromNat(n / 2, k - 1) + [n % 2 == 1]
  }

  function Pow2(k: nat): nat {
    if k == 0 then 1 else 2 * Pow2(k - 1)
  }

  lemma {:induction false} ToFromNat(n: nat, k: nat)
    requires n < Pow2(k)
    ensures ToNat(FromNat(n, k)) == n
  {
    if k > 0 {
      ToFromNat(n / 2, k - 1);
      var s := FromNat(n, k);
      assert s[..k - 1] == FromNat(n / 2, k - 1);
    }
  }

  lemma {:induction false} FromToNat(s: seq<bool>)
    ensures FromNat(ToNat(s), |s|) == s && ToNat(s) < Pow2(|s|)
  {
    if s != [] {
      FromToNat(s[..|s| - 1]);
      assert s == s[..|s| - 1] + [s[|s| - 1]];
    }
  }

  lemma Doubled(a: nat, b: nat)
    ensures a * (2 * b) == 2 * (a * b)
  {
  }

  lemma LastBit(s: seq<bool>, u: seq<bool>, b: bool)
    requires s == u + [b]
    ensures ToNat(s) == 2 * ToNat(u) + (if b then 1 else 0)
  {
    assert s[..|s| - 1] == u;
  }

  lemma {:induction false} ToNatConcat(s: seq<bool>, t: seq<bool>)
    ensures ToNat(s + t) == ToNat(s) * Pow2(|t|) + ToNat(t)
  {
    if t == [] {
      assert s + t == s;
    } else {
      var u, b := t[..|t| - 1], t[|t| - 1];
      assert t == u + [b] && s + t == (s + u) + [b];
      LastBit(t, u, b);
      LastBit(s + t, s + u, b);
      ToNatConcat(s, u);
      Doubled(ToNat(s), Pow2(|u|));
    }
  }

  function Xor(a: Word, b: Word): (w: Word)
    ensures forall i :: 0 <= i < 16 ==> w[i] == (a[i] != b[i])
  {
    seq(16, i requires 0 <= i < 16 => a[i] != b[i])
  }

  /** Shifting drops bits at one end and brings in zeros at the other. */
  function ShiftLeft(a: Word, k: nat): (w: Word)
    ensures forall i :: 0 <= i < 16 ==> w[i] == (i + k < 16 && a[i + k])
  {
    seq(16, i requires 0 <= i < 16 => i + k < 16 && a[i + k])
  }

  function ShiftRight(a: Word, k: nat): (w: Word)
    ensures forall i :: 0 <= i < 16 ==> w[i] == (i >= k && a[i - k])
  {
    seq(16, i requires 0 <= i < 16 => i >= k && a[i - k])
  }
}
