/**
 An organism: a position, a genome of 2^8 bits and a 32-bit history. Of the
 three phases of an organism's turn, moving and meeting do nothing yet, so a
 turn shifts the bit history by one place and appends the genome bit at the
 (fixed) new-bit address.
 */
module Organism {
  import opened Bits
  import opened Address
  import opened Genome

  /** Entries of the bit history. */
  const BIT_HISTORY_SIZE: nat := 32
  /** The genome address of the bit a turn appends to the history; ninex fixes it at 0 for now. */
  const NEW_BIT_ADDRESS: nat := 0

  datatype Position = Position(x: nat, y: nat)

  datatype Organism = Organism(position: Position, genome: seq<int>, history: seq<int>)

  /** `calculate_genome_size`: one bit per genome address, computed exactly rather than with `pow`. */
  function GenomeSize(): (n: nat)
    ensures n == 256
  {
    Pow2(GENOME_ADDRESS_SIZE)
  }

  /** What a freshly created organism satisfies: a full-size genome and history, all bits. */
  predicate Valid(o: Organism) {
    && |o.genome| == GenomeSize() && IsBits(o.genome)
    && |o.history| == BIT_HISTORY_SIZE && IsBits(o.history)
  }

  /**
   `shift_bit_history`: every entry moves one place towards index 0, the
   oldest entry is dropped, and the one-bit read at the new-bit address
   becomes the last entry. Nothing but the history changes.
   */
  function ShiftBitHistory(o: Organism): (r: Organism)
    requires |o.genome| > 0 && IsBits(o.genome) && |o.history| == BIT_HISTORY_SIZE
    ensures r.position == o.position && r.genome == o.genome
    ensures |r.history| == BIT_HISTORY_SIZE
    ensures forall i :: 0 <= i < BIT_HISTORY_SIZE - 1 ==> r.history[i] == o.history[i + 1]
    ensures r.history[BIT_HISTORY_SIZE - 1] == o.genome[0]
    ensures Valid(o) ==> Valid(r)
  {
    DecodeOne(o.genome, NEW_BIT_ADDRESS);
    o.(history := o.history[1..] + [Decode(o.genome, NEW_BIT_ADDRESS, 1)])
  }

  /**
   `shift_bit_history`'s copy-down loop on the history array: for each
   index from 1 up, copy the entry one place down, then store the new bit.
   */
  method ShiftBitHistoryLoop(o: Organism) returns (history: seq<int>)
    requires |o.genome| > 0 && IsBits(o.genome) && |o.history| == BIT_HISTORY_SIZE
    ensures history == ShiftBitHistory(o).history
  {
    var newBit := UnsignedIntFromGenome(o.genome, NEW_BIT_ADDRESS, 1);
    history := o.history;
    var i := 1;
    while i < BIT_HISTORY_SIZE
      invariant 1 <= i <= BIT_HISTORY_SIZE && |history| == BIT_HISTORY_SIZE
      invariant forall k :: 0 <= k < i - 1 ==> history[k] == o.history[k + 1]
      invariant forall k :: i - 1 <= k < BIT_HISTORY_SIZE ==> history[k] == o.history[k]
    {
      history := history[i - 1 := history[i]];
      i := i + 1;
    }
    history := history[BIT_HISTORY_SIZE - 1 := newBit];
    DecodeOne(o.genome, NEW_BIT_ADDRESS);
  }

  /**
   `unsigned_int_from_bit_history` as a loop: from the
   last index down to index 0, adding each entry times a weight that starts
   at 1 and doubles, which is the most-significant-first reading of the history.
   */
  method UnsignedIntFromBitHistory(h: seq<int>) returns (r: nat)
    requires IsBits(h)
    ensures r == MsbValue(h)
    ensures r < Pow2(|h|)
  {
    r := 0;
    var weight: nat := 1;
    var i: int := |h| - 1;
    while i >= 0
      invariant -1 <= i < |h|
      invariant weight == Pow2(|h| - 1 - i)
      invariant r == MsbValue(h[i + 1..])
    {
      assert h[i..][1..] == h[i + 1..];
      MsbValueFirst(h[i..]);
      r := r + weight * h[i];
      weight := weight * 2;
      i := i - 1;
    }
    assert h[0..] == h;
  }

  /**
   After a shift, the history value is the old value doubled plus the new
   bit, less the old first entry, which no longer fits the history's width.
   */
  lemma HistoryValueOfShift(h: seq<int>, b: int)
    requires IsBits(h) && |h| > 0 && IsBit(b)
    ensures IsBits(h[1..] + [b])
    ensures MsbValue(h[1..] + [b]) == 2 * MsbValue(h) + b - Pow2(|h|) * h[0]
  {
    MsbValueAppend(h[1..], b);
    MsbValueFirst(h);
    DropTopBit(MsbValue(h[1..] + [b]), MsbValue(h), MsbValue(h[1..]), Pow2(|h| - 1), Pow2(|h|), h[0], b);
  }

  /** The arithmetic of a shift: `rest` doubled plus `b` is `top w + rest` doubled plus `b`, less `top` times `2 w`. */
  lemma DropTopBit(shifted: int, value: int, rest: int, w: int, m: int, top: int, b: int)
    requires shifted == 2 * rest + b && value == w * top + rest && m == 2 * w && IsBit(top)
    ensures shifted == 2 * value + b - m * top
  {
    if top == 0 {
    } else {
    }
  }

  /** 2^32, the modulus of ninex's 32-bit `unsigned int` arithmetic. */
  lemma Pow2Of32()
    ensures Pow2(BIT_HISTORY_SIZE) == 0x1_0000_0000
  {
    assert Pow2(8) == 256;
    assert Pow2(16) == 256 * 256 by {
      Pow2Add(8, 8);
    }
    Pow2Add(16, 16);
  }

  /** A turn's effect on the history value: doubled, plus the new bit, modulo 2^32. */
  lemma ShiftBitHistoryValue(o: Organism)
    requires Valid(o)
    ensures MsbValue(ShiftBitHistory(o).history) == (2 * MsbValue(o.history) + o.genome[0]) % 0x1_0000_0000
  {
    var h, b := o.history, o.genome[0];
    HistoryValueOfShift(h, b);
    Pow2Of32();
    assert ShiftBitHistory(o).history == h[1..] + [b];
    var low := MsbValue(h[1..] + [b]);
    ModUnique(2 * MsbValue(h) + b, h[0], low, 0x1_0000_0000);
  }

  /** `move_organism`: its body in ninex is empty, so it leaves the organism as it is. */
  function MoveOrganism(o: Organism): Organism {
    o
  }

  /** `meet_organism`: its body in ninex is empty, so it leaves the organism as it is. */
  function MeetOrganism(o: Organism): Organism {
    o
  }

  /** `iterate_organism`: move, meet, then shift the bit history. */
  function IterateOrganism(o: Organism): (r: Organism)
    requires |o.genome| > 0 && IsBits(o.genome) && |o.history| == BIT_HISTORY_SIZE
    ensures r.position == o.position && r.genome == o.genome
    ensures r.history == o.history[1..] + [o.genome[0]]
    ensures Valid(o) ==> Valid(r)
  {
    ShiftBitHistory(MeetOrganism(MoveOrganism(o)))
  }

  /** `n` turns of one organism. */
  function IterateOrganismTimes(o: Organism, n: nat): (r: Organism)
    requires |o.genome| > 0 && IsBits(o.genome) && |o.history| == BIT_HISTORY_SIZE
    ensures r.position == o.position && r.genome == o.genome && |r.history| == BIT_HISTORY_SIZE
    ensures Valid(o) ==> Valid(r)
    decreases n
  {
    if n == 0 then o else IterateOrganism(IterateOrganismTimes(o, n - 1))
  }

  /** `n` copies of bit `b`. */
  function Repeat(b: int, n: nat): (s: seq<int>)
    ensures |s| == n && forall i :: 0 <= i < n ==> s[i] == b
  {
    seq(n, i => b)
  }

  /**
   After `n` turns (at most the history's length) the oldest `n` entries are
   gone and the genome's bit 0 fills the last `n` places.
   */
  lemma {:induction false} HistoryAfterTurns(o: Organism, n: nat)
    requires |o.genome| > 0 && IsBits(o.genome) && |o.history| == BIT_HISTORY_SIZE && n <= BIT_HISTORY_SIZE
    ensures IterateOrganismTimes(o, n).history == o.history[n..] + Repeat(o.genome[0], n)
    decreases n
  {
    if n > 0 {
      HistoryAfterTurns(o, n - 1);
      var b := o.genome[0];
      assert o.history[n - 1..][1..] == o.history[n..];
      assert Repeat(b, n - 1) + [b] == Repeat(b, n);
    }
  }

  /** After a full history's worth of turns, every entry is the genome's bit 0. */
  lemma HistoryAfterFullTurn(o: Organism)
    requires |o.genome| > 0 && IsBits(o.genome) && |o.history| == BIT_HISTORY_SIZE
    ensures IterateOrganismTimes(o, BIT_HISTORY_SIZE).history == Repeat(o.genome[0], BIT_HISTORY_SIZE)
  {
    HistoryAfterTurns(o, BIT_HISTORY_SIZE);
    assert o.history[BIT_HISTORY_SIZE..] == [];
  }
}
