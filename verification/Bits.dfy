/** Machine words and bit sequences: bit `i` of a value sits at index `i`, so the least significant bit comes first. */
module Bits {

  type Word = seq<bool>

  /** An `unsigned char` (CHAR_BIT is 8). */
  type Byte = w: Word | |w| == 8 witness [false, false, false, false, false, false, false, false]

  function Zeros(n: nat): (r: Word)
    ensures |r| == n
  {
    seq(n, i => false)
  }

  function Xor(a: Word, b: Word): (r: Word)
    requires |a| == |b|
    ensures |r| == |a|
  {
    seq(|a|, i requires 0 <= i < |a| => a[i] != b[i])
  }

  function Or(a: Word, b: Word): (r: Word)
    requires |a| == |b|
    ensures |r| == |a|
  {
    seq(|a|, i requires 0 <= i < |a| => a[i] || b[i])
  }

  function And(a: Word, b: Word): (r: Word)
    requires |a| == |b|
    ensures |r| == |a|
  {
    seq(|a|, i requires 0 <= i < |a| => a[i] && b[i])
  }

  /** `a << k`, truncated to the width of `a`. */
  function Shl(a: Word, k: nat): (r: Word)
    ensures |r| == |a|
  {
    seq(|a|, i requires 0 <= i < |a| => i >= k && a[i - k])
  }

  /** `a >> k` of an unsigned value. */
  function Shr(a: Word, k: nat): (r: Word)
    ensures |r| == |a|
  {
    seq(|a|, i requires 0 <= i < |a| => i + k < |a| && a[i + k])
  }

  /** The word of width `n` whose only set bit is bit `k`. */
  function OneBit(n: nat, k: nat): (r: Word)
    ensures |r| == n
  {
    seq(n, i => i == k)
  }

  /** The mask of the lowest `k` bits in a word of width `n`. */
  function LowMask(n: nat, k: nat): (r: Word)
    ensures |r| == n
  {
    seq(n, i => i < k)
  }

  /** Conversion between unsigned types: zero-extend or truncate to width `n`. */
  function Convert(a: Word, n: nat): (r: Word)
    ensures |r| == n
  {
    seq(n, i requires 0 <= i => i < |a| && a[i])
  }

  function Reverse(a: seq<bool>): (r: seq<bool>)
    ensures |r| == |a|
  {
    seq(|a|, i requires 0 <= i < |a| => a[|a| - 1 - i])
  }

  /** The number an unsigned word stands for. */
  function ToNat(w: Word): nat {
    if w == [] then 0 else (if w[0] then 1 else 0) + 2 * ToNat(w[1..])
  }

  function FromNat(n: nat, width: nat): (w: Word)
    ensures |w| == width
  {
    if width == 0 then [] else [n % 2 == 1] + FromNat(n / 2, width - 1)
  }

  function Pow2(k: nat): nat {
    if k == 0 then 1 else 2 * Pow2(k - 1)
  }

  lemma {:induction false} ToNatFromNat(n: nat, width: nat)
    requires n < Pow2(width)
    ensures ToNat(FromNat(n, width)) == n
  {
    if width > 0 {
      ToNatFromNat(n / 2, width - 1);
      assert FromNat(n, width)[1..] == FromNat(n / 2, width - 1);
    }
  }

  lemma {:induction false} FromNatToNat(w: Word)
    ensures ToNat(w) < Pow2(|w|)
    ensures FromNat(ToNat(w), |w|) == w
  {
    if w != [] {
      FromNatToNat(w[1..]);
      var n := ToNat(w);
      assert n / 2 == ToNat(w[1..]) && (n % 2 == 1 <==> w[0]);
      assert w == [w[0]] + w[1..];
    }
  }

  lemma ByteRange(b: Byte)
    ensures ToNat(b) < 256
  {
    FromNatToNat(b);
    assert Pow2(8) == 256;
  }

  lemma ByteFromNat(n: nat)
    requires n < 256
    ensures ToNat(FromNat(n, 8)) == n
  {
    assert Pow2(8) == 256;
    ToNatFromNat(n, 8);
  }

  lemma ToNatInjective(v: Word, w: Word)
    requires |v| == |w| && ToNat(v) == ToNat(w)
    ensures v == w
  {
    FromNatToNat(v);
    FromNatToNat(w);
  }

  lemma ReverseTwice(a: Word)
    ensures Reverse(Reverse(a)) == a
  {
  }

  lemma XorZeros(a: Word)
    ensures Xor(a, Zeros(|a|)) == a
  {
  }

  lemma XorSelf(a: Word)
    ensures Xor(a, a) == Zeros(|a|)
  {
  }

  lemma XorTwice(a: Word, b: Word)
    requires |a| == |b|
    ensures Xor(b, Xor(a, b)) == a
  {
  }

  lemma SnocZeros(k: nat)
    requires k > 0
    ensures Zeros(k) == Zeros(k - 1) + [false] == [false] + Zeros(k - 1)
    ensures Zeros(k)[1..] == Zeros(k - 1)
  {
  }

  lemma ShlTwice(a: Word, j: nat, k: nat)
    ensures Shl(Shl(a, j), k) == Shl(a, j + k)
  {
  }

  lemma ShrTwice(a: Word, j: nat, k: nat)
    ensures Shr(Shr(a, j), k) == Shr(a, j + k)
  {
  }

  /** Numeric equality of two unsigned values of possibly different widths. */
  ghost predicate SameValue(a: Word, b: Word) {
    && (forall i :: 0 <= i < |a| && a[i] ==> i < |b| && b[i])
    && (forall i :: 0 <= i < |b| && b[i] ==> i < |a| && a[i])
  }
}
