/**
 Bit strings as they appear in the organism simulator: a genome and a bit
 history are sequences of integers that are each 0 or 1. This module gives
 their two readings as unsigned numbers (least-significant-bit first, used for
 genome fields, and most-significant-bit first, used for the bit history),
 the inverse encoding, and the power of two that both rely on.
 */
module Bits {

  /** 2^n over unbounded naturals; ninex computes it with floating-point `pow`. */
  function Pow2(n: nat): (r: nat)
    ensures r >= 1
  {
    if n == 0 then 1 else 2 * Pow2(n - 1)
  }

  /** Powers of two grow strictly with the exponent. */
  lemma {:induction false} Pow2Strict(m: nat, n: nat)
    requires m < n
    ensures Pow2(m) < Pow2(n)
  {
    if n != m + 1 {
      Pow2Strict(m, n - 1);
    }
  }

  /** Powers of two multiply by adding exponents. */
  lemma {:induction false} Pow2Add(m: nat, n: nat)
    ensures Pow2(m + n) == Pow2(m) * Pow2(n)
    decreases n
  {
    if n > 0 {
      Pow2Add(m, n - 1);
      assert Pow2(m + n) == 2 * Pow2(m + n - 1);
    }
  }

  predicate IsBit(b: int) {
    b == 0 || b == 1
  }

  predicate IsBits(s: seq<int>) {
    forall i :: 0 <= i < |s| ==> IsBit(s[i])
  }

  /** The unsigned value of `s` read least-significant-bit first: `s[i]` weighs 2^i. */
  function LsbValue(s: seq<int>): (r: nat)
    requires IsBits(s)
    ensures r < Pow2(|s|)
  {
    if |s| == 0 then 0 else s[0] + 2 * LsbValue(s[1..])
  }

  /** The unsigned value of `s` read most-significant-bit first: the last element weighs 1. */
  function MsbValue(s: seq<int>): (r: nat)
    requires IsBits(s)
    ensures r < Pow2(|s|)
  {
    if |s| == 0 then 0 else 2 * MsbValue(s[..|s| - 1]) + s[|s| - 1]
  }

  /** The `n` low bits of `x`, least significant first. */
  function ToBits(x: nat, n: nat): (s: seq<int>)
    ensures |s| == n
    ensures IsBits(s)
  {
    if n == 0 then [] else [x % 2] + ToBits(x / 2, n - 1)
  }

  /** `n` zero bits. */
  function Zeros(n: nat): (s: seq<int>)
    ensures |s| == n && IsBits(s)
  {
    seq(n, i => 0)
  }

  /** A string of zeros has value zero, whatever its length. */
  lemma {:induction false} LsbValueZero(n: nat)
    ensures LsbValue(Zeros(n)) == 0
  {
    if n > 0 {
      assert Zeros(n)[1..] == Zeros(n - 1);
      LsbValueZero(n - 1);
    }
  }

  /** Encoding a number that fits in `n` bits and reading it back gives the number. */
  lemma {:induction false} LsbValueOfToBits(x: nat, n: nat)
    requires x < Pow2(n)
    ensures LsbValue(ToBits(x, n)) == x
  {
    if n > 0 {
      var s := ToBits(x, n);
      assert s[1..] == ToBits(x / 2, n - 1);
      LsbValueOfToBits(x / 2, n - 1);
    }
  }

  /** Reading an `n`-bit string and encoding the value in `n` bits gives the string back. */
  lemma {:induction false} ToBitsOfLsbValue(s: seq<int>)
    requires IsBits(s)
    ensures ToBits(LsbValue(s), |s|) == s
  {
    if |s| > 0 {
      var v := LsbValue(s[1..]);
      assert LsbValue(s) % 2 == s[0] && LsbValue(s) / 2 == v;
      ToBitsOfLsbValue(s[1..]);
      assert s == [s[0]] + s[1..];
    }
  }

  /** In the most-significant-first reading, the first of `n` bits weighs 2^(n-1). */
  lemma {:induction false} MsbValueFirst(s: seq<int>)
    requires IsBits(s) && |s| > 0
    ensures MsbValue(s) == Pow2(|s| - 1) * s[0] + MsbValue(s[1..])
  {
    if |s| > 1 {
      var init, tail := s[..|s| - 1], s[1..];
      MsbValueFirst(init);
      assert init[1..] == tail[..|tail| - 1];
      assert init[0] == s[0];
      DoubleWeight(MsbValue(s), MsbValue(init), MsbValue(init[1..]), MsbValue(tail),
        Pow2(|s| - 2), Pow2(|s| - 1), s[0], s[|s| - 1]);
    }
  }

  /**
   The arithmetic step shared by both readings: if `v` is `inner` doubled plus
   `last`, and `inner` carries `top` at weight `w`, then `v` carries `top` at
   weight `2 w` over `rest` doubled plus `last`.
   */
  lemma DoubleWeight(v: int, inner: int, rest: int, outer: int, w: int, m: int, top: int, last: int)
    requires v == 2 * inner + last && inner == w * top + rest && outer == 2 * rest + last && m == 2 * w
    ensures v == m * top + outer
  {
    assert 2 * (w * top) == m * top;
  }

  /** Appending a bit doubles the most-significant-first value and adds the bit. */
  lemma MsbValueAppend(s: seq<int>, b: int)
    requires IsBits(s) && IsBit(b)
    ensures IsBits(s + [b])
    ensures MsbValue(s + [b]) == 2 * MsbValue(s) + b
  {
    assert (s + [b])[..|s|] == s;
  }
}
