# ninex genome interpreter — Dafny model

`ninex` simulates a grid of organisms. Each organism owns a genome of 2^8 = 256 bits and a 32-entry bit history. This project models the part of the simulator that interprets genomes. It is pure arithmetic over bit sequences:

- **Wrap-around addressing** (`address.dfy`, module `Address`): `wrapped_index` folds any integer index onto `[0, range)`. This includes its boundary defect, modelled as written.
- **Genome reads** (`genome.dfy`, module `Genome`):
  - `gene_at_virtual_index` reads one bit.
  - `unsigned_int_from_genome` assembles consecutive wrapped bits into an unsigned number, least significant bit first.
  - Both come as a pure function, and the latter also as ninex's weight-doubling loop.
- **Gene parsers** (`genes.dfy`, module `Genes`): `parse_display_gene` and `parse_meet_gene` use two-step indirection. A table slot gives a start address, and three 8-bit fields follow it. An encoder serves as the parsers' inverse.
- **Bit history and organism turns** (`organism.dfy`, module `Organism`):
  - `shift_bit_history` and `unsigned_int_from_bit_history`, which reads the history most significant bit first.
  - `iterate_organism`, whose move and meet phases are empty in ninex.
- **World** (`world.dfy`, module `World`):
  - The derived sizes (`calculate_*`).
  - `new_organism` and `new_world` over given bits.
  - `iterate_world` as a pure map over the grid and as ninex's nested loops, with a log of the visiting order.
- **Expression engine** (`efe.dfy`, module `Efe`): `eight_from_eight` is an eight-cell circular cellular automaton whose rule bits are read from the genome. It is modelled as a pure function and as `efe.c`'s table-filling loops, and the loops are proved to compute the function. The function's rows are proved equal to a reference elementary automaton driven by an explicit eight-entry rule table: from row 0 on bit inputs, and from row 1 on any inputs.
- `bits.dfy` (module `Bits`) holds the shared vocabulary: powers of two, 0/1 sequences, and their least- and most-significant-first values.

Genomes and histories are `seq<int>`, with the precondition that every entry is 0 or 1. The simulator fills them with `random_unsigned_int(2)`, so the 0/1 property is an assumption on the inputs rather than something the model generates. Addresses and values are unbounded naturals.

Three facts about `ninex.c` shape the model:

- **The wrap defect.** `wrapped_index` maps every exact negative multiple of `range` (e.g. `-range`) to `range` itself, one past the last valid index (ninex.c:367-369). `WrappedIndex` does the same, and `WrappedIndexNegativeMultiple` and `WrappedIndexInRange` state it. Every non-negative index, and every neighbour index the automaton uses, stays in range.
- **Bit order.** `unsigned_int_from_genome` gives the bit at the start address weight 1 and doubles the weight for each later address (ninex.c:343, 349-355). `Decode` is therefore least significant first.
- **C `%`.** The `%` in `wrapped_index` only ever sees non-negative operands. It is modelled by `Rem`, a subtraction-based remainder, and `RemIsMod` shows it equals the usual remainder.

## Model

| member | source | states |
|---|---|---|
| Address.WrappedIndex | ninex.c:360-375 | The folded index never exceeds `range`, and it is below `range` for every non-negative index |
| Address.RemIsMod | ninex.c:364-369 | The remainder used by the fold is the remainder of division, as C's `%` computes it on non-negative operands |
| Address.WrappedIndexCongruent | ninex.c:360-375 | The folded index is congruent to the original index modulo `range` in every branch |
| Address.WrappedIndexInRange | ninex.c:360-375 | The folded index is below `range` exactly when the index is not a negative multiple of `range` (both directions) |
| Address.WrappedIndexOfNat | ninex.c:364-372 | A non-negative index folds to its plain remainder `v % range` |
| Address.WrappedIndexNegativeMultiple | ninex.c:367-369 | The boundary defect: `-(k * range)` for `k >= 1` folds to `range`, one past the last valid index |
| Address.WrappedNeighbour | efe.c:46-48 | For the automaton's neighbour indices `-1..8` with range 8, the fold is the circular `(v + 8) % 8` and stays below 8 |
| Genome.GeneAt | ninex.c:186-193 | A one-bit read at an unsigned address is in bounds and yields a bit when the genome is all bits |
| Genome.GeneAtRemainder | ninex.c:186-193 | The bit read at address `v` is `genome[v % n]`, `n` the genome length |
| Genome.GeneAtPeriodic | ninex.c:186-193 | Reads are periodic in the address with the genome length as period |
| Genome.WindowIsSlice | ninex.c:186-193 | Reads at consecutive addresses that do not pass the genome's end see a plain slice of the genome |
| Genome.Decode | ninex.c:339-358 | An `n`-bit read is below `2^n` |
| Genome.DecodeAppendBit | ninex.c:349-355 | Reading one more bit adds `2^n` times the bit at `a + n`: the weight of each address doubles along the read |
| Genome.DecodeOneBit | ninex.c:339-358 | A one-bit read returns exactly the bit at the address |
| Genome.DecodeOne | ninex.c:339-358 | A one-bit read returns exactly the bit at the address, `genome[a % n]`, `n` the genome length |
| Genome.DecodeIsWindowValue | ninex.c:339-358 | An `n`-bit read is the least-significant-first value of the `n` bits it sees |
| Genome.DecodeSlice | ninex.c:339-358 | A read that does not pass the genome's end is the value of the plain slice `g[a..a+n]` |
| Genome.DecodeOfEncodedWindow | ninex.c:339-358 | If the bits a read sees are the `n`-bit encoding of `x < 2^n`, the read returns `x` |
| Genome.DecodeZeroWindow | ninex.c:339-358 | A read that sees only zero bits returns 0 |
| Genome.DecodeDependsOnlyOnWindow | ninex.c:339-358 | Two genomes that agree on the addresses a read sees give the same value |
| Genome.DecodePeriodic | ninex.c:339-358 | Shifting the start address by the genome length does not change a read |
| Genome.UnsignedIntFromGenome | ninex.c:339-358 | The loop (weight from 1, doubling per address) computes `Decode`, which is below `2^size` |
| Genes.GeneFields | ninex.c:272-303 | The shared indirection yields three fields, each below `2^fw` |
| Genes.ParseDisplayGene | ninex.c:272-285 | Red, green and blue are each below 256 |
| Genes.ParseMeetGene | ninex.c:287-303 | The two addresses and the size are each below 256 |
| Genes.ParseDisplayGeneReads | ninex.c:276-284 | When the display slot (addresses 0..7) reads `s`, red, green and blue are the 8-bit reads at `s`, `s + 8` and `s + 16` |
| Genes.ParseMeetGeneReads | ninex.c:291-302 | When the meet slot (addresses 16..23) reads `s`, address a, address b and size are the 8-bit reads at `s`, `s + 8` and `s + 16` |
| Genes.EncodedSlot | ninex.c:276-277 | After encoding, the slot reads back the start address that was written |
| Genes.GeneFieldsOfEncodeGene | ninex.c:272-303 | Decoding an encoded gene returns the fields that were encoded (round trip) |
| Genes.ParseEncodeDisplayGene | ninex.c:272-285 | Parsing a genome with an encoded display gene returns that gene, for any start address in 8..255 that leaves room for the fields |
| Genes.ParseEncodeMeetGene | ninex.c:287-303 | Parsing a genome with an encoded meet gene returns that gene, for any start address in 24..255 that leaves room for the fields |
| Genes.GeneFieldsLocal | ninex.c:272-303 | The fields depend only on the slot's bits and the `3 fw` bits from the start address |
| Genes.ParseDisplayGeneLocal | ninex.c:272-285 | Two genomes that agree on the display slot and on the 24 bits it points to parse to the same display gene |
| Genes.ParseMeetGeneLocal | ninex.c:287-303 | Two genomes that agree on the meet slot (addresses 16..23) and on the 24 bits it points to parse to the same meet gene |
| Genes.GeneFieldsZero | ninex.c:272-303 | If the `3 fw` bits from the start address are all zero, every field is 0 |
| Genes.ParseDisplayGeneZero | ninex.c:279-284 | A display gene whose 24 bits are all zero is black, `DisplayGene(0, 0, 0)` |
| Organism.GenomeSize | ninex.c:138-141 | The genome holds `2^8 = 256` bits |
| Organism.ShiftBitHistory | ninex.c:310-323 | The history keeps 32 entries, entry `i` takes the old entry `i + 1`, and the last entry is the genome bit at address 0. Position and genome are unchanged, and validity is preserved |
| Organism.ShiftBitHistoryLoop | ninex.c:310-323 | The copy-down loop followed by the store of the new bit computes the same history as `ShiftBitHistory` |
| Bits.MsbValueFirst | ninex.c:325-337 | In the history reading, the first of `n` entries weighs `2^(n-1)` |
| Organism.UnsignedIntFromBitHistory | ninex.c:325-337 | The loop (from the last index down, weight from 1) computes the most-significant-first value, which is below `2^n` |
| Organism.HistoryValueOfShift | ninex.c:319-337 | After a shift the history value is twice the old value plus the new bit, less the dropped first entry at weight `2^n` |
| Organism.ShiftBitHistoryValue | ninex.c:310-337 | After one shift of a 32-entry history, its value is `(2 * old + new bit) mod 2^32` |
| Organism.IterateOrganism | ninex.c:195-200 | A turn (empty move, empty meet, then shift) keeps position and genome and turns the history into `history[1..] + [genome[0]]` |
| Organism.IterateOrganismTimes | ninex.c:195-200 | Any number of turns keeps position, genome and validity |
| Organism.HistoryAfterTurns | ninex.c:195-200 | After `n <= 32` turns the history is the old history without its first `n` entries, followed by `n` copies of genome bit 0 |
| Organism.HistoryAfterFullTurn | ninex.c:195-200 | After 32 turns every history entry is genome bit 0 |
| World.NeighborhoodSizeInCells | ninex.c:161-164 | A neighbourhood of radius 1 has `3^2 = 9` cells |
| World.CalculateNeighborhoodAddressSize | ninex.c:143-159 | The doubling loop returns `k >= 1` with `2^k >= cells * genomeSize`, and either `k = 1` or `2^(k-1) < cells * genomeSize` |
| World.AddressSizeIsLeast | ninex.c:143-159 | No narrower width of at least one bit addresses `cells * genomeSize` positions |
| World.WorldAddressSize | ninex.c:257-260 | For this world, 9 cells of 256 bits, the address width is 12 |
| World.NewOrganism | ninex.c:224-245 | A new organism sits at the given position, holds the given genome and history, and is valid |
| World.NewWorld | ninex.c:247-270 | A new world has the derived sizes 256, 9 and 12. Every cell `(x, y)` of the 128 x 64 grid holds a valid organism at `(x, y)` with that cell's genome and history |
| World.IterateColumn | ninex.c:208-210 | Every organism of a column keeps its position and genome, its history drops the oldest entry and takes in genome bit 0, and the column stays valid |
| World.IterateWorld | ninex.c:202-212 | A world step keeps the world well formed and its sizes unchanged. Every organism keeps its genome, and its history becomes `history[1..] + [genome[0]]` |
| World.IterateWorldTimes | ninex.c:202-212 | Any number of world steps keeps the world well formed |
| World.IterateWorldTimesPerOrganism | ninex.c:202-212 | After `n` world steps every organism is exactly its own `n`-turn successor |
| World.WorldHistoriesAfterFullTurn | ninex.c:202-212 | After 32 world steps every history in the world is 32 copies of its organism's genome bit 0 |
| World.ScanOrderInside | ninex.c:207-208 | The scan visits only positions inside the grid |
| World.ScanOrderSorted | ninex.c:207-208 | The scan is strictly increasing in x-major order, so no position is visited twice |
| World.ScanOrderAt | ninex.c:207-208 | Position `(x, y)` is visited, at step `x * height + y`, so every position is visited |
| World.IterateWorldLoop | ninex.c:202-212 | The nested loops compute `IterateWorld` and visit the grid in scan order, x outer and y inner |
| World.IterateColumnLoop | ninex.c:208-210 | The inner loop turns every organism of column `x` once and visits `(x, 0) .. (x, 63)` in order |
| Efe.Neighbour | efe.c:46-48 | The neighbour indices of cell `x` are `(x + 7) % 8` and `(x + 1) % 8` |
| Efe.NeighbourPattern | efe.c:46-55 | On a bit row, the pattern read through the wrapped neighbour indices is `4 prev[(x+7)%8] + 2 prev[x] + prev[(x+1)%8]`, below 8 |
| Efe.NextCell | efe.c:46-57 | A cell computed from the row above is a bit |
| Efe.NextRow | efe.c:32-58 | A computed row has eight cells, all bits |
| Efe.Row | efe.c:22-59 | Every row has eight cells, and every row after row 0 is all bits |
| Efe.EightFromEight | efe.c:22-66 | With one row the result is `4 in0 + 2 in1 + in2`. With two or more rows it is below 8 |
| Efe.NextCellIsRule | efe.c:46-57 | On a bit row, cell `x` is the rule-table entry for the pattern `4 left + 2 centre + right`, i.e. the genome bit at `spread * pattern` |
| Efe.NextRowCellIsStep | efe.c:45-57 | On a bit row, cell `x` of the genome-driven step equals cell `x` of the reference step under the genome's rule table |
| Efe.NextRowIsStep | efe.c:31-58 | On a bit row, the genome-driven row step is one step of the reference automaton under the genome's rule table |
| Efe.RowIsSteps | efe.c:31-59 | From row 1 on, the rows are the reference automaton run from row 1 |
| Efe.RowOfBitsIsSteps | efe.c:22-59 | On bit inputs, row `y` is `y` steps of the reference automaton from the inputs |
| Efe.SameRulesSameRow | efe.c:31-58 | On bit inputs, two genomes with the same rule table compute the same row `y` |
| Efe.EightFromEightDependsOnlyOnRules | efe.c:53-57 | On bit inputs, the result depends on the genome only through the eight rule bits at `spread * 0 .. spread * 7` |
| Efe.StepsOfConstantRule | efe.c:31-58 | Under a rule whose eight entries all equal `b`, every cell after one step is `b` |
| Efe.RowOfConstantRule | efe.c:31-58 | Under a constant rule table, every cell of a row computed from bits is the constant |
| Efe.EightFromEightConstantRule | efe.c:53-64 | If all eight rule bits equal `b`, the result is `7 b` (7 for all ones, 0 for all zeros) for bit inputs and `length >= 2`, and for any inputs and `length >= 3` |
| Efe.EightFromEightLoop | efe.c:1-67 | The table-filling loops return `EightFromEight`, and every row `j` of the table they leave is row `j` of the automaton |
| Efe.FillTable | efe.c:22-58 | The input stores and the outer loop leave every row `j` of the table equal to row `j` of the automaton |
| Efe.FillInputs | efe.c:22-29 | Row 0 of the table holds the eight inputs in order, and no other row changes |
| Efe.FillRow | efe.c:32-58 | The inner loop fills row `y` of the table with the genome-driven successor of row `y - 1`, and no other row changes |
| Efe.CellOut | efe.c:46-57 | One inner-loop step reads the three cells above and returns the genome-driven cell |

## Left out

- `main`, the X11 window, drawing and `write_JPEG_file` (ninex.c:377-556) are I/O and foreign library calls. So are the `usleep` display loop and the `RED_MODULUS` colouring.
- `malloc`/`free`, `destroy_organism` and `destroy_world` (ninex.c:166-184): organisms and worlds are immutable values, so there is nothing to allocate or release.
- `random_unsigned_int`/`random()` (ninex.c:305-308): genomes and histories are given as arguments, with the precondition that they hold 0/1 values of the right length.
- `pow()` (ninex.c:140, 152, 163) is floating point. It is replaced by the exact integer power `Pow2`, and by the product `3 * 3`.
- `move_organism` and `meet_organism` (ninex.c:214-222) are empty in ninex.c and are modelled as the identity. `parse_move_gene` is declared (ninex.c:130) but has no definition, so it is not modelled.
- The world's back pointer in each organism is not modelled. Its only use is the genome size, which the model reads as the genome's length.
- `EFE_LENGTH` and `CA_OUT_ADDRESS_SPREAD_FACTOR` are not defined in the files modelled. They are parameters (`length >= 1`, any spread), and the fixed-size C array `cells[8][EFE_LENGTH]` becomes an `array2` of that length.
- Machine words are not modelled:
  - 32-bit unsigned overflow in the address and value arithmetic.
  - The `unsigned` to `int` conversion of the address passed to `wrapped_index` (ninex.c:191), which would make addresses of 2^31 and above negative.
  - `each_x - 1` at `each_x = 0` (efe.c:46) is taken as -1, which is what the conversion yields on the usual platforms.
- Genome.GeneAt: takes addresses as unbounded naturals, so it does not model the `unsigned` to `int` conversion at ninex.c:191 for addresses of 2^31 and above.
- Organism.ShiftBitHistoryValue: states the wrap-around of the 32-bit history value with the mod written out. `UnsignedIntFromBitHistory` itself returns the unbounded value, which is below 2^32 for a 32-entry history.
- Efe.EightFromEightConstantRule: requires bit inputs when `length = 2`. `eight_from_eight`'s inputs are arbitrary `unsigned int`s. A non-bit input makes row 1 read the genome at `spread * (4 a + 2 b + c)`, which is generally not one of the eight rule addresses. With `length >= 3` any inputs are covered.
- The simulator's main loop over `ITERATIONS` world steps is represented only by `IterateWorldTimes` for an arbitrary step count.
