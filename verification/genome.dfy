/**
 Reading a genome through the wrap-around address space: one bit at a
 virtual address, and an unsigned number assembled from consecutive virtual
 addresses, least significant bit first. A genome is any non-empty sequence
 of 0/1 values; the simulator fills it with random bits, so the bit property
 is a precondition here rather than a consequence of a random generator.
 */
module Genome {
  import opened Bits
  import opened Address

  /** Bits in a genome address: a genome holds 2^8 = 256 bits. */
  const GENOME_ADDRESS_SIZE: nat := 8

  /**
   `gene_at_virtual_index`: the bit at an unsigned virtual address. Since the
   address is non-negative, the wrap never takes its negative branch, so the
   read is always in bounds.
   */
  function GeneAt(g: seq<int>, v: nat): (b: int)
    requires |g| > 0
    ensures IsBits(g) ==> IsBit(b)
  {
    g[WrappedIndex(v, |g|)]
  }

  /** The bit at a virtual address is the bit at the address's remainder. */
  lemma GeneAtRemainder(g: seq<int>, v: nat)
    requires |g| > 0
    ensures GeneAt(g, v) == g[v % |g|]
  {
    WrappedIndexOfNat(v, |g|);
  }

  /** Reading a bit is periodic in the address with the genome length as period. */
  lemma GeneAtPeriodic(g: seq<int>, v: nat)
    requires |g| > 0
    ensures GeneAt(g, v + |g|) == GeneAt(g, v)
  {
    assert WrappedIndex(v + |g|, |g|) == Rem(v, |g|);
  }

  /** The bits an `n`-bit read starting at address `a` sees, in reading order. */
  function Window(g: seq<int>, a: nat, n: nat): (w: seq<int>)
    requires |g| > 0
    ensures |w| == n
  {
    seq(n, i requires 0 <= i < n => GeneAt(g, a + i))
  }

  /** A window inside a larger window is a slice of it. */
  lemma WindowSlice(g: seq<int>, s: nat, k: nat, n: nat, m: nat)
    requires |g| > 0 && k + n <= m
    ensures Window(g, s + k, n) == Window(g, s, m)[k..k + n]
  {
    var inner, outer := Window(g, s + k, n), Window(g, s, m)[k..k + n];
    forall i | 0 <= i < n
      ensures inner[i] == outer[i]
    {
      assert s + k + i == s + (k + i);
    }
  }

  /** A window that does not run past the end of the genome is a plain slice. */
  lemma WindowIsSlice(g: seq<int>, a: nat, n: nat)
    requires |g| > 0 && a + n <= |g|
    ensures Window(g, a, n) == g[a..a + n]
  {
    forall i | 0 <= i < n
      ensures Window(g, a, n)[i] == g[a..a + n][i]
    {
      assert Window(g, a, n)[i] == GeneAt(g, a + i);
      assert WrappedIndex(a + i, |g|) == a + i;
    }
  }

  /**
   The value of `n` bits read from address `a` onward, the bit at `a` having
   weight 1 and each following address twice the weight of the previous one.
   */
  function Decode(g: seq<int>, a: nat, n: nat): (r: nat)
    requires |g| > 0 && IsBits(g)
    ensures r < Pow2(n)
    decreases n
  {
    if n == 0 then 0 else GeneAt(g, a) + 2 * Decode(g, a + 1, n - 1)
  }

  /** Reading one more bit adds that bit at the next higher weight. */
  lemma {:induction false} DecodeAppendBit(g: seq<int>, a: nat, n: nat)
    requires |g| > 0 && IsBits(g)
    ensures Decode(g, a, n + 1) == Decode(g, a, n) + Pow2(n) * GeneAt(g, a + n)
    decreases n
  {
    if n > 0 {
      DecodeAppendBit(g, a + 1, n - 1);
      assert a + 1 + (n - 1) == a + n;
      DoubleWeight(Decode(g, a, n + 1), Decode(g, a + 1, n), Decode(g, a + 1, n - 1), Decode(g, a, n),
        Pow2(n - 1), Pow2(n), GeneAt(g, a + n), GeneAt(g, a));
    }
  }

  /** A one-bit read is the bit at the address. */
  lemma DecodeOneBit(g: seq<int>, a: nat)
    requires |g| > 0 && IsBits(g)
    ensures Decode(g, a, 1) == GeneAt(g, a)
  {
    assert Decode(g, a + 1, 0) == 0;
  }

  /** A one-bit read is the bit at the address, found at the address's remainder. */
  lemma DecodeOne(g: seq<int>, a: nat)
    requires |g| > 0 && IsBits(g)
    ensures Decode(g, a, 1) == GeneAt(g, a) == g[a % |g|]
  {
    DecodeOneBit(g, a);
    GeneAtRemainder(g, a);
  }

  /** A read is the least-significant-first value of the bits it sees. */
  lemma {:induction false} DecodeIsWindowValue(g: seq<int>, a: nat, n: nat)
    requires |g| > 0 && IsBits(g)
    ensures IsBits(Window(g, a, n))
    ensures Decode(g, a, n) == LsbValue(Window(g, a, n))
    decreases n
  {
    if n > 0 {
      DecodeIsWindowValue(g, a + 1, n - 1);
      assert Window(g, a, n)[0] == GeneAt(g, a);
      assert Window(g, a, n)[1..] == Window(g, a + 1, n - 1);
    }
  }

  /** A read that does not run past the end of the genome is the value of a plain slice. */
  lemma DecodeSlice(g: seq<int>, a: nat, n: nat)
    requires |g| > 0 && IsBits(g) && a + n <= |g|
    ensures Decode(g, a, n) == LsbValue(g[a..a + n])
  {
    DecodeIsWindowValue(g, a, n);
    WindowIsSlice(g, a, n);
  }

  /** A read that sees only zero bits returns zero. */
  lemma DecodeZeroWindow(g: seq<int>, a: nat, n: nat)
    requires |g| > 0 && IsBits(g)
    requires Window(g, a, n) == Zeros(n)
    ensures Decode(g, a, n) == 0
  {
    DecodeIsWindowValue(g, a, n);
    LsbValueZero(n);
  }

  /** Whenever the bits a read sees encode `x`, the read returns `x`. */
  lemma DecodeOfEncodedWindow(g: seq<int>, a: nat, n: nat, x: nat)
    requires |g| > 0 && IsBits(g) && x < Pow2(n)
    requires Window(g, a, n) == ToBits(x, n)
    ensures Decode(g, a, n) == x
  {
    DecodeIsWindowValue(g, a, n);
    LsbValueOfToBits(x, n);
  }

  /** Two genomes that agree on every address a read sees give the same value. */
  lemma DecodeDependsOnlyOnWindow(g1: seq<int>, g2: seq<int>, a: nat, n: nat)
    requires |g1| > 0 && IsBits(g1) && |g2| > 0 && IsBits(g2)
    requires Window(g1, a, n) == Window(g2, a, n)
    ensures Decode(g1, a, n) == Decode(g2, a, n)
  {
    DecodeIsWindowValue(g1, a, n);
    DecodeIsWindowValue(g2, a, n);
  }

  /** Shifting the start address by a whole genome length does not change a read. */
  lemma DecodePeriodic(g: seq<int>, a: nat, n: nat)
    requires |g| > 0 && IsBits(g)
    ensures Decode(g, a + |g|, n) == Decode(g, a, n)
  {
    forall i | 0 <= i < n
      ensures Window(g, a + |g|, n)[i] == Window(g, a, n)[i]
    {
      GeneAtPeriodic(g, a + i);
      assert a + |g| + i == a + i + |g|;
    }
    assert Window(g, a + |g|, n) == Window(g, a, n);
    DecodeIsWindowValue(g, a + |g|, n);
    DecodeIsWindowValue(g, a, n);
  }

  /**
   `unsigned_int_from_genome` as a loop: walk the
   addresses `start .. start + size - 1`, adding each bit times a weight that
   starts at 1 and doubles per address.
   */
  method UnsignedIntFromGenome(g: seq<int>, start: nat, size: nat) returns (r: nat)
    requires |g| > 0 && IsBits(g)
    ensures r == Decode(g, start, size)
    ensures r < Pow2(size)
  {
    r := 0;
    var weight: nat := 1;
    var address := start;
    var end := start + size;
    while address < end
      invariant start <= address <= end
      invariant weight == Pow2(address - start)
      invariant r == Decode(g, start, address - start)
    {
      DecodeAppendBit(g, start, address - start);
      r := r + weight * GeneAt(g, address);
      weight := weight * 2;
      address := address + 1;
    }
  }
}
