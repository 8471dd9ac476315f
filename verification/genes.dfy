/**
 Typed views of a genome. Each gene kind owns a slot in a table at the front
 of the genome; the slot holds the gene's start address, and the gene's
 fields are read from that start address onward. Both steps go through the
 wrap-around read, so any genome parses to some gene.
 */
module Genes {
  import opened Bits
  import opened Genome

  /** Bits in one colour channel of the display gene. */
  const COLOR_INTEGER_SIZE: nat := 8

  /**
   Table slots, counted in units of GENOME_ADDRESS_SIZE bits. Only the
   display and meet slots are read: slot 1 belongs to the move gene, whose
   parser has no definition, and slot 3 to the history-bit gene, which no
   code reads.
   */
  const GENE_INDEX_DISPLAY: nat := 0
  const GENE_INDEX_MEET: nat := 2

  datatype DisplayGene = DisplayGene(red: nat, green: nat, blue: nat)

  datatype MeetGene = MeetGene(addressA: nat, addressB: nat, size: nat)

  /**
   The gene-decoding protocol shared by every gene kind: the `aw`-bit number
   at address `slot` is the gene's start address, and the gene's three
   `fw`-bit fields follow one another from that start address.
   */
  function GeneFields(g: seq<int>, slot: nat, aw: nat, fw: nat): (f: seq<nat>)
    requires |g| > 0 && IsBits(g)
    ensures |f| == 3
    ensures forall k :: 0 <= k < 3 ==> f[k] < Pow2(fw)
  {
    var start := Decode(g, slot, aw);
    [Decode(g, start, fw), Decode(g, start + fw, fw), Decode(g, start + 2 * fw, fw)]
  }

  /** `parse_display_gene`: three colour channels, read through the display slot. */
  function ParseDisplayGene(g: seq<int>): (d: DisplayGene)
    requires |g| > 0 && IsBits(g)
    ensures d.red < 256 && d.green < 256 && d.blue < 256
  {
    var f := GeneFields(g, GENE_INDEX_DISPLAY * GENOME_ADDRESS_SIZE, GENOME_ADDRESS_SIZE, COLOR_INTEGER_SIZE);
    DisplayGene(f[0], f[1], f[2])
  }

  /** `parse_meet_gene`: two addresses and a size, read through the meet slot. */
  function ParseMeetGene(g: seq<int>): (m: MeetGene)
    requires |g| > 0 && IsBits(g)
    ensures m.addressA < 256 && m.addressB < 256 && m.size < 256
  {
    var f := GeneFields(g, GENE_INDEX_MEET * GENOME_ADDRESS_SIZE, GENOME_ADDRESS_SIZE, GENOME_ADDRESS_SIZE);
    MeetGene(f[0], f[1], f[2])
  }

  /** `g` with `bits` written over addresses `a .. a + |bits| - 1`. */
  function Overwrite(g: seq<int>, a: nat, bits: seq<int>): (h: seq<int>)
    requires a + |bits| <= |g|
    ensures |h| == |g|
    ensures IsBits(g) && IsBits(bits) ==> IsBits(h)
  {
    g[..a] + bits + g[a + |bits|..]
  }

  /** The overwritten addresses hold the new bits. */
  lemma OverwriteWrites(g: seq<int>, a: nat, bits: seq<int>)
    requires a + |bits| <= |g|
    ensures Overwrite(g, a, bits)[a..a + |bits|] == bits
  {
    var h := Overwrite(g, a, bits);
    var hs := h[a..a + |bits|];
    forall i | 0 <= i < |bits|
      ensures hs[i] == bits[i]
    {
      assert hs[i] == h[a + i];
    }
  }

  /** Every slice clear of the overwritten addresses keeps its old bits. */
  lemma OverwriteKeeps(g: seq<int>, a: nat, bits: seq<int>, b: nat, m: nat)
    requires a + |bits| <= |g| && b + m <= |g|
    requires b + m <= a || a + |bits| <= b
    ensures Overwrite(g, a, bits)[b..b + m] == g[b..b + m]
  {
    var h := Overwrite(g, a, bits);
    var hs, gs := h[b..b + m], g[b..b + m];
    forall i | 0 <= i < m
      ensures hs[i] == gs[i]
    {
      assert hs[i] == h[b + i] && gs[i] == g[b + i];
    }
  }

  /** The `n`-bit field `x` sits at offset `k` of a slice that starts at `start`. */
  lemma DecodeFieldOfSlice(h: seq<int>, start: nat, bits: seq<int>, k: nat, n: nat, x: nat)
    requires |h| > 0 && IsBits(h) && start + |bits| <= |h| && k + n <= |bits|
    requires h[start..start + |bits|] == bits && bits[k..k + n] == ToBits(x, n) && x < Pow2(n)
    ensures Decode(h, start + k, n) == x
  {
    var hs := h[start + k..start + k + n];
    forall i | 0 <= i < n
      ensures hs[i] == bits[k..k + n][i]
    {
      assert hs[i] == h[start + k + i] == bits[k + i];
    }
    WindowIsSlice(h, start + k, n);
    DecodeOfEncodedWindow(h, start + k, n, x);
  }

  /** Three `fw`-bit fields, laid out one after the other. */
  function FieldBits(fields: seq<nat>, fw: nat): (bits: seq<int>)
    requires |fields| == 3
    ensures |bits| == 3 * fw && IsBits(bits)
  {
    ToBits(fields[0], fw) + ToBits(fields[1], fw) + ToBits(fields[2], fw)
  }

  /**
   The inverse of `GeneFields`: write `start` into the `aw`-bit slot at `slot`
   and the three `fw`-bit fields from `start` on.
   */
  function EncodeGene(g: seq<int>, slot: nat, aw: nat, start: nat, fields: seq<nat>, fw: nat): (h: seq<int>)
    requires |fields| == 3 && slot + aw <= start && start + 3 * fw <= |g|
    ensures |h| == |g|
    ensures IsBits(g) ==> IsBits(h)
  {
    Overwrite(Overwrite(g, slot, ToBits(start, aw)), start, FieldBits(fields, fw))
  }

  /** The three fields of a gene whose slot holds `s`. */
  lemma GeneFieldsAt(g: seq<int>, slot: nat, aw: nat, fw: nat, s: nat)
    requires |g| > 0 && IsBits(g) && Decode(g, slot, aw) == s
    ensures GeneFields(g, slot, aw, fw) == [Decode(g, s, fw), Decode(g, s + fw, fw), Decode(g, s + 2 * fw, fw)]
  {
  }

  /**
   Decoding inverts encoding: whenever the slot lies before the fields and
   both fit in the genome, the fields read back are exactly those written,
   whatever the rest of the genome holds.
   */
  lemma GeneFieldsOfEncodeGene(g: seq<int>, slot: nat, aw: nat, start: nat, fields: seq<nat>, fw: nat)
    requires IsBits(g) && |fields| == 3 && slot + aw <= start && start + 3 * fw <= |g|
    requires 0 < fw && start < Pow2(aw)
    requires forall k :: 0 <= k < 3 ==> fields[k] < Pow2(fw)
    ensures GeneFields(EncodeGene(g, slot, aw, start, fields, fw), slot, aw, fw) == fields
  {
    var h := EncodeGene(g, slot, aw, start, fields, fw);
    EncodedSlot(g, slot, aw, start, fields, fw);
    EncodedFields(g, slot, aw, start, fields, fw);
    GeneFieldsAt(h, slot, aw, fw, start);
  }

  /** The three fields read back from the field area of an encoded gene. */
  lemma EncodedFields(g: seq<int>, slot: nat, aw: nat, start: nat, fields: seq<nat>, fw: nat)
    requires IsBits(g) && |fields| == 3 && slot + aw <= start && start + 3 * fw <= |g|
    requires 0 < fw
    requires forall k :: 0 <= k < 3 ==> fields[k] < Pow2(fw)
    ensures var h := EncodeGene(g, slot, aw, start, fields, fw);
      [Decode(h, start, fw), Decode(h, start + fw, fw), Decode(h, start + 2 * fw, fw)] == fields
  {
    var g1 := Overwrite(g, slot, ToBits(start, aw));
    OverwriteWrites(g1, start, FieldBits(fields, fw));
    FieldsOfSlice(Overwrite(g1, start, FieldBits(fields, fw)), start, fields, fw);
  }

  /** A genome whose bits from `start` on are the laid-out fields reads those fields back. */
  lemma FieldsOfSlice(h: seq<int>, start: nat, fields: seq<nat>, fw: nat)
    requires IsBits(h) && |fields| == 3 && start + 3 * fw <= |h| && 0 < fw
    requires forall k :: 0 <= k < 3 ==> fields[k] < Pow2(fw)
    requires h[start..start + 3 * fw] == FieldBits(fields, fw)
    ensures [Decode(h, start, fw), Decode(h, start + fw, fw), Decode(h, start + 2 * fw, fw)] == fields
  {
    var bits := FieldBits(fields, fw);
    FieldBitsSlices(fields, fw);
    DecodeFieldOfSlice(h, start, bits, 0, fw, fields[0]);
    DecodeFieldOfSlice(h, start, bits, fw, fw, fields[1]);
    DecodeFieldOfSlice(h, start, bits, 2 * fw, fw, fields[2]);
    assert fields == [fields[0], fields[1], fields[2]];
  }

  /** Each field occupies its own `fw` bits of the field area. */
  lemma FieldBitsSlices(fields: seq<nat>, fw: nat)
    requires |fields| == 3
    ensures FieldBits(fields, fw)[0..fw] == ToBits(fields[0], fw)
    ensures FieldBits(fields, fw)[fw..fw + fw] == ToBits(fields[1], fw)
    ensures FieldBits(fields, fw)[2 * fw..2 * fw + fw] == ToBits(fields[2], fw)
  {
  }

  /** After encoding, the slot reads back the start address written into it. */
  lemma EncodedSlot(g: seq<int>, slot: nat, aw: nat, start: nat, fields: seq<nat>, fw: nat)
    requires IsBits(g) && |fields| == 3 && slot + aw <= start && start + 3 * fw <= |g|
    requires 0 < fw && start < Pow2(aw)
    ensures Decode(EncodeGene(g, slot, aw, start, fields, fw), slot, aw) == start
  {
    var g1 := Overwrite(g, slot, ToBits(start, aw));
    var h := Overwrite(g1, start, FieldBits(fields, fw));
    OverwriteWrites(g, slot, ToBits(start, aw));
    OverwriteKeeps(g1, start, FieldBits(fields, fw), slot, aw);
    DecodeFieldOfSlice(h, slot, ToBits(start, aw), 0, aw, start);
  }

  /**
   A gene depends on nothing but the bits of its slot and the `3 fw` bits
   from the start address they encode.
   */
  lemma GeneFieldsLocal(g1: seq<int>, g2: seq<int>, slot: nat, aw: nat, fw: nat)
    requires |g1| > 0 && IsBits(g1) && |g2| > 0 && IsBits(g2)
    requires Window(g1, slot, aw) == Window(g2, slot, aw)
    requires Window(g1, Decode(g1, slot, aw), 3 * fw) == Window(g2, Decode(g1, slot, aw), 3 * fw)
    ensures GeneFields(g1, slot, aw, fw) == GeneFields(g2, slot, aw, fw)
  {
    var s := Decode(g1, slot, aw);
    DecodeDependsOnlyOnWindow(g1, g2, slot, aw);
    FieldsAgree(g1, g2, s, fw);
    GeneFieldsAt(g1, slot, aw, fw, s);
    GeneFieldsAt(g2, slot, aw, fw, s);
  }

  /** Two genomes that agree on a field area read the same three fields from it. */
  lemma FieldsAgree(g1: seq<int>, g2: seq<int>, s: nat, fw: nat)
    requires |g1| > 0 && IsBits(g1) && |g2| > 0 && IsBits(g2)
    requires Window(g1, s, 3 * fw) == Window(g2, s, 3 * fw)
    ensures [Decode(g1, s, fw), Decode(g1, s + fw, fw), Decode(g1, s + 2 * fw, fw)]
         == [Decode(g2, s, fw), Decode(g2, s + fw, fw), Decode(g2, s + 2 * fw, fw)]
  {
    FieldAgrees(g1, g2, s, 0, fw, 3 * fw);
    FieldAgrees(g1, g2, s, fw, fw, 3 * fw);
    FieldAgrees(g1, g2, s, 2 * fw, fw, 3 * fw);
  }

  /** Two genomes that agree on an `m`-bit window agree on every read inside it. */
  lemma FieldAgrees(g1: seq<int>, g2: seq<int>, s: nat, o: nat, n: nat, m: nat)
    requires |g1| > 0 && IsBits(g1) && |g2| > 0 && IsBits(g2) && o + n <= m
    requires Window(g1, s, m) == Window(g2, s, m)
    ensures Decode(g1, s + o, n) == Decode(g2, s + o, n)
  {
    WindowSlice(g1, s, o, n, m);
    WindowSlice(g2, s, o, n, m);
    DecodeDependsOnlyOnWindow(g1, g2, s + o, n);
  }

  /** A gene whose field bits are all zero has three zero fields. */
  lemma GeneFieldsZero(g: seq<int>, slot: nat, aw: nat, fw: nat)
    requires |g| > 0 && IsBits(g)
    requires Window(g, Decode(g, slot, aw), 3 * fw) == Zeros(3 * fw)
    ensures GeneFields(g, slot, aw, fw) == [0, 0, 0]
  {
    var s := Decode(g, slot, aw);
    FieldsZero(g, s, fw);
    GeneFieldsAt(g, slot, aw, fw, s);
  }

  /** An all-zero field area holds three zero fields. */
  lemma FieldsZero(g: seq<int>, s: nat, fw: nat)
    requires |g| > 0 && IsBits(g)
    requires Window(g, s, 3 * fw) == Zeros(3 * fw)
    ensures [Decode(g, s, fw), Decode(g, s + fw, fw), Decode(g, s + 2 * fw, fw)] == [0, 0, 0]
  {
    FieldZero(g, s, 0, fw, 3 * fw);
    FieldZero(g, s, fw, fw, 3 * fw);
    FieldZero(g, s, 2 * fw, fw, 3 * fw);
  }

  /** A read inside an all-zero window returns zero. */
  lemma FieldZero(g: seq<int>, s: nat, o: nat, n: nat, m: nat)
    requires |g| > 0 && IsBits(g) && o + n <= m
    requires Window(g, s, m) == Zeros(m)
    ensures Decode(g, s + o, n) == 0
  {
    WindowSlice(g, s, o, n, m);
    assert Zeros(m)[o..o + n] == Zeros(n);
    DecodeZeroWindow(g, s + o, n);
  }

  /** Write `start` into the display slot and the three channels after it. */
  function EncodeDisplayGene(g: seq<int>, start: nat, d: DisplayGene): (h: seq<int>)
    requires 8 <= start && start + 24 <= |g|
    ensures |h| == |g|
    ensures IsBits(g) ==> IsBits(h)
  {
    EncodeGene(g, GENE_INDEX_DISPLAY * GENOME_ADDRESS_SIZE, GENOME_ADDRESS_SIZE, start,
      [d.red, d.green, d.blue], COLOR_INTEGER_SIZE)
  }

  /** Write `start` into the meet slot and the three fields after it. */
  function EncodeMeetGene(g: seq<int>, start: nat, m: MeetGene): (h: seq<int>)
    requires 24 <= start && start + 24 <= |g|
    ensures |h| == |g|
    ensures IsBits(g) ==> IsBits(h)
  {
    EncodeGene(g, GENE_INDEX_MEET * GENOME_ADDRESS_SIZE, GENOME_ADDRESS_SIZE, start,
      [m.addressA, m.addressB, m.size], GENOME_ADDRESS_SIZE)
  }

  /**
   Parsing inverts encoding for the display gene: a genome whose display slot
   holds `start` and whose 24 bits from `start` hold the three channels
   parses to exactly those channels.
   */
  lemma ParseEncodeDisplayGene(g: seq<int>, start: nat, d: DisplayGene)
    requires IsBits(g) && 8 <= start && start + 24 <= |g| && start < 256
    requires d.red < 256 && d.green < 256 && d.blue < 256
    ensures ParseDisplayGene(EncodeDisplayGene(g, start, d)) == d
  {
    GeneFieldsOfEncodeGene(g, 0, 8, start, [d.red, d.green, d.blue], 8);
  }

  /** Parsing inverts encoding for the meet gene, whose slot is the third of the table. */
  lemma ParseEncodeMeetGene(g: seq<int>, start: nat, m: MeetGene)
    requires IsBits(g) && 24 <= start && start + 24 <= |g| && start < 256
    requires m.addressA < 256 && m.addressB < 256 && m.size < 256
    ensures ParseMeetGene(EncodeMeetGene(g, start, m)) == m
  {
    GeneFieldsOfEncodeGene(g, 16, 8, start, [m.addressA, m.addressB, m.size], 8);
  }

  /**
   The display gene's two-step read: when the slot at address 0 reads `s`,
   red, green and blue are the 8-bit reads at `s`, `s + 8` and `s + 16`.
   */
  lemma ParseDisplayGeneReads(g: seq<int>, s: nat)
    requires |g| > 0 && IsBits(g) && Decode(g, 0, 8) == s
    ensures ParseDisplayGene(g) == DisplayGene(Decode(g, s, 8), Decode(g, s + 8, 8), Decode(g, s + 16, 8))
  {
    GeneFieldsAt(g, 0, 8, 8, s);
  }

  /**
   The meet gene's two-step read: when the slot at address 16 reads `s`, the
   two addresses and the size are the 8-bit reads at `s`, `s + 8` and `s + 16`.
   */
  lemma ParseMeetGeneReads(g: seq<int>, s: nat)
    requires |g| > 0 && IsBits(g) && Decode(g, 16, 8) == s
    ensures ParseMeetGene(g) == MeetGene(Decode(g, s, 8), Decode(g, s + 8, 8), Decode(g, s + 16, 8))
  {
    GeneFieldsAt(g, 16, 8, 8, s);
  }

  /** The display gene depends only on its slot (addresses 0..7) and the 24 bits it points at. */
  lemma ParseDisplayGeneLocal(g1: seq<int>, g2: seq<int>)
    requires |g1| > 0 && IsBits(g1) && |g2| > 0 && IsBits(g2)
    requires Window(g1, 0, 8) == Window(g2, 0, 8)
    requires Window(g1, Decode(g1, 0, 8), 24) == Window(g2, Decode(g1, 0, 8), 24)
    ensures ParseDisplayGene(g1) == ParseDisplayGene(g2)
  {
    GeneFieldsLocal(g1, g2, 0, 8, 8);
  }

  /** The meet gene depends only on its slot (addresses 16..23) and the 24 bits it points at. */
  lemma ParseMeetGeneLocal(g1: seq<int>, g2: seq<int>)
    requires |g1| > 0 && IsBits(g1) && |g2| > 0 && IsBits(g2)
    requires Window(g1, 16, 8) == Window(g2, 16, 8)
    requires Window(g1, Decode(g1, 16, 8), 24) == Window(g2, Decode(g1, 16, 8), 24)
    ensures ParseMeetGene(g1) == ParseMeetGene(g2)
  {
    GeneFieldsLocal(g1, g2, 16, 8, 8);
  }

  /** A display gene whose 24 channel bits are all zero decodes to black. */
  lemma ParseDisplayGeneZero(g: seq<int>)
    requires |g| > 0 && IsBits(g)
    requires Window(g, Decode(g, 0, 8), 24) == Zeros(24)
    ensures ParseDisplayGene(g) == DisplayGene(0, 0, 0)
  {
    GeneFieldsZero(g, 0, 8, 8);
  }
}
