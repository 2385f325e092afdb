/** `lua_rotate`: rotating a stack segment by three reversals. */
module LuaRotate {
  import NumberTheory

  /** `s` with the elements `from..to`, both ends included, in reverse order; an empty range is `to == from - 1`. */
  ghost function Flipped<T>(s: seq<T>, from: nat, to: int): (r: seq<T>)
    requires from - 1 <= to < |s|
    ensures |r| == |s|
  {
    seq(|s|, k requires 0 <= k < |s| => if from <= k <= to then s[from + to - k] else s[k])
  }

  /** `reverse`: swaps from both ends inwards. */
  method Reverse<T>(a: array<T>, from: nat, to: int)
    requires from - 1 <= to < a.Length
    modifies a
    ensures a[..] == Flipped(old(a[..]), from, to)
  {
    var i, j := from, to;
    while i < j
      invariant from <= i && j <= to && i + j == from + to && i <= j + 2
      invariant forall k :: from <= k < i || j < k <= to ==> a[k] == old(a[from + to - k])
      invariant forall k :: i <= k <= j ==> a[k] == old(a[k])
      invariant forall k :: 0 <= k < a.Length && !(from <= k <= to) ==> a[k] == old(a[k])
    {
      var temp := a[i];
      a[i] := a[j];
      a[j] := temp;
      i, j := i + 1, j - 1;
    }
  }

  /** `k + n` taken around a segment of length `len`. */
  function Around(k: int, n: int, len: int): int
    requires 0 <= k < len && -len <= n <= len
  {
    if k + n >= len then k + n - len else if k + n < 0 then k + n + len else k + n
  }

  lemma AroundIsModular(k: int, n: int, len: int)
    requires 0 <= k < len && -len <= n <= len
    ensures Around(k, n, len) == (k + n) % len
  {
    NumberTheory.RemainderUnique(k + n, len, if k + n >= len then 1 else if k + n < 0 then -1 else 0, Around(k, n, len));
  }

  function Rotated<T>(s: seq<T>, n: int): (r: seq<T>)
    requires -|s| <= n <= |s|
    ensures |r| == |s|
  {
    seq(|s|, j requires 0 <= j < |s| => s[Around(j, -n, |s|)])
  }

  /** A rotation moves the element at offset `k` to `(k + n) mod len`. */
  lemma RotatedMoves<T>(s: seq<T>, n: int, k: nat)
    requires -|s| <= n <= |s| && k < |s|
    ensures 0 <= (k + n) % |s| < |s| && Rotated(s, n)[(k + n) % |s|] == s[k]
  {
    AroundIsModular(k, n, |s|);
  }

  lemma RotatedBack<T>(s: seq<T>, n: int)
    requires -|s| <= n <= |s|
    ensures Rotated(Rotated(s, n), -n) == s
  {
  }

  /** Reversing a prefix, the remaining suffix, and then everything rotates the segment and nothing else. */
  lemma ThreeReversals<T>(s: seq<T>, p: nat, top: nat, n: int, m: int)
    requires p < top <= |s| && -(top - p) <= n <= top - p
    requires m == if n >= 0 then top - 1 - n else p - n - 1
    ensures Flipped(Flipped(Flipped(s, p, m), m + 1, top - 1), p, top - 1) == s[..p] + Rotated(s[p..top], n) + s[top..]
  {
    hide Flipped, Rotated;
    var w := s[..p] + Rotated(s[p..top], n) + s[top..];
    var r := Flipped(Flipped(Flipped(s, p, m), m + 1, top - 1), p, top - 1);
    forall k | 0 <= k < |s| ensures r[k] == w[k] {
      TripleAt(s, p, m, top - 1, k);
      if p <= k < top {
        RotatedAt(s[p..top], n, k - p);
      }
    }
  }

  lemma TripleAt<T>(s: seq<T>, p: nat, m: int, t: int, k: nat)
    requires p - 1 <= m <= t < |s| && p <= t && k < |s|
    ensures Flipped(Flipped(Flipped(s, p, m), m + 1, t), p, t)[k]
         == if p <= k <= t then (if k - p < t - m then s[m + 1 - p + k] else s[m - t + k]) else s[k]
  {
    var r1 := Flipped(s, p, m);
    var r2 := Flipped(r1, m + 1, t);
    if p <= k <= t {
      var j := p + t - k;
      assert Flipped(r2, p, t)[k] == r2[j];
      assert r2[j] == if m + 1 <= j then r1[m + 1 + t - j] else r1[j];
    }
  }

  lemma RotatedAt<T>(s: seq<T>, n: int, k: nat)
    requires -|s| <= n <= |s| && k < |s|
    ensures Rotated(s, n)[k] == s[Around(k, -n, |s|)]
  {
  }

  /** `p` is the start of the segment and `top` one past its end; `n` may have either sign. */
  method Rotate<T>(a: array<T>, p: nat, top: nat, n: int)
    requires p < top <= a.Length && -(top - p) <= n <= top - p
    modifies a
    ensures a[..] == old(a[..p]) + Rotated(old(a[p..top]), n) + old(a[top..])
  {
    hide Flipped, Rotated;
    ghost var s := a[..];
    assert a[..p] == s[..p] && a[p..top] == s[p..top] && a[top..] == s[top..];
    var t := top - 1;
    var m := if n >= 0 then t - n else p - n - 1;
    Reverse(a, p, m);
    Reverse(a, m + 1, t);
    Reverse(a, p, t);
    ThreeReversals(s, p, top, n, m);
  }

  /** Rotating forth and back restores the whole stack. */
  method RotateAndBack<T>(a: array<T>, p: nat, top: nat, n: int)
    requires p < top <= a.Length && -(top - p) <= n <= top - p
    modifies a
    ensures a[..] == old(a[..])
  {
    hide Rotated;
    ghost var s := a[..];
    ghost var x, y, z := s[..p], s[p..top], s[top..];
    assert a[..p] == x && a[p..top] == y && a[top..] == z && s == x + y + z;
    Rotate(a, p, top, n);
    ghost var r := a[..];
    assert a[..p] == r[..p] == x && a[p..top] == r[p..top] == Rotated(y, n) && a[top..] == r[top..] == z;
    Rotate(a, p, top, -n);
    RotatedBack(y, n);
  }
}
