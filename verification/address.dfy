/**
 The bit-address space: every virtual index, of any sign and size, is folded
 onto a fixed range `[0, range)` before it is used to index a genome or an
 automaton row. `wrapped_index` has a boundary defect, modelled here as
 written: an exact negative multiple of `range` is mapped to `range` itself,
 one past the end.
 */
module Address {

  /**
   The remainder of a non-negative `v` divided by `m`, as C's `%` gives it on
   non-negative operands, computed by repeated subtraction so that reasoning
   about it stays linear; `RemIsMod` shows it is the usual remainder.
   */
  function Rem(v: nat, m: nat): (r: nat)
    requires m > 0
    ensures r < m && r <= v
    decreases v
  {
    if v < m then v else Rem(v - m, m)
  }

  /**
   `wrapped_index`: indices at or above `range` are reduced modulo `range`,
   negative indices are counted down from `range`, and the rest are kept.
   The result never exceeds `range`, and is below it for every
   non-negative index.
   */
  function WrappedIndex(v: int, range: nat): (r: nat)
    requires range > 0
    ensures r <= range
    ensures v >= 0 ==> r < range
  {
    if v >= range then Rem(v, range)
    else if v < 0 then range - Rem(-v, range)
    else v
  }

  /** Subtraction-based remainder agrees with Euclidean `%`. */
  lemma {:induction false} RemIsMod(v: nat, m: nat)
    requires m > 0
    ensures Rem(v, m) == v % m
    decreases v
  {
    if v < m {
      ModUnique(v, 0, v, m);
    } else {
      RemIsMod(v - m, m);
      ModUnique(v, (v - m) / m + 1, (v - m) % m, m);
    }
  }

  /** Folding preserves the residue class of the index. */
  lemma WrappedIndexCongruent(v: int, range: nat)
    requires range > 0
    ensures WrappedIndex(v, range) % range == v % range
  {
    if v >= range {
      RemIsMod(v, range);
      ModUnique(v % range, 0, v % range, range);
    } else if v < 0 {
      RemIsMod(-v, range);
      NegativeFold(v, range);
    } else {
      ModUnique(v, 0, v, range);
    }
  }

  /**
   The folded index falls outside `[0, range)` exactly for the negative
   multiples of `range`, which are mapped to `range` itself.
   */
  lemma WrappedIndexInRange(v: int, range: nat)
    requires range > 0
    ensures WrappedIndex(v, range) < range <==> !(v < 0 && v % range == 0)
  {
    if v >= range {
      RemIsMod(v, range);
    } else if v < 0 {
      RemIsMod(-v, range);
      NegativeFold(v, range);
    }
  }

  /** Euclidean division is determined by any quotient/remainder pair. */
  lemma ModUnique(v: int, q: int, r: int, range: nat)
    requires range > 0 && 0 <= r < range && v == q * range + r
    ensures v % range == r && v / range == q
  {
    var q', r' := v / range, v % range;
    assert (q - q') * range == r' - r;
    if q > q' {
      MulAtLeast(q - q', range);
    } else if q < q' {
      MulAtLeast(q' - q, range);
    }
  }

  lemma MulAtLeast(a: int, b: nat)
    requires a >= 1
    ensures a * b >= b
  {
  }

  /** What the negative branch of `WrappedIndex` computes, in terms of `v % range`. */
  lemma NegativeFold(v: int, range: nat)
    requires range > 0 && v < 0
    ensures var m := (-v) % range;
      && (m == 0 <==> v % range == 0)
      && (range - m) % range == v % range
  {
    var p, m := (-v) / range, (-v) % range;
    assert -v == p * range + m;
    if m > 0 {
      ModUnique(v, -p - 1, range - m, range);
      ModUnique(range - m, 0, range - m, range);
    } else {
      ModUnique(v, -p, 0, range);
      ModUnique(range, 1, 0, range);
    }
  }

  /** A non-negative index is always folded to its plain remainder, never out of range. */
  lemma WrappedIndexOfNat(v: nat, range: nat)
    requires range > 0
    ensures WrappedIndex(v, range) == v % range
  {
    if v >= range {
      RemIsMod(v, range);
    } else {
      ModUnique(v, 0, v, range);
    }
  }

  /** The boundary defect: every exact negative multiple of `range` lands on `range`. */
  lemma {:induction false} WrappedIndexNegativeMultiple(k: nat, range: nat)
    requires range > 0 && k > 0
    ensures WrappedIndex(-(k * range), range) == range
  {
    ModUnique(-(k * range), -(k as int), 0, range);
    WrappedIndexInRange(-(k * range), range);
  }

  /**
   The automaton's neighbour indices `x - 1` and `x + 1` for `x` in `0..7`
   are folded circularly onto `0..7`; they never meet the boundary defect.
   */
  lemma WrappedNeighbour(v: int)
    requires -1 <= v <= 8
    ensures WrappedIndex(v, 8) == (v + 8) % 8
    ensures WrappedIndex(v, 8) < 8
  {
    if v == 8 {
      assert Rem(8, 8) == Rem(0, 8);
    }
  }
}
