/**
 The expression engine `eight_from_eight`: an eight-cell circular cellular
 automaton whose rule is read from the genome. Row 0 holds the eight inputs;
 each later cell is the genome bit at `spread * (4 left + 2 centre + right)`
 of the row above; the result is the first three cells of the last row read
 as a three-bit number. The row count and the address spread are not fixed
 by the core, so they are parameters (`length >= 1`, any `spread`).
 */
module Efe {
  import opened Bits
  import opened Address
  import opened Genome

  /** The circular neighbour index `wrapped_index(v, 8)` of a cell `x` in `0..7`, for `v` = x - 1 or x + 1. */
  function Neighbour(v: int): (r: nat)
    requires -1 <= v <= 8
    ensures r < 8 && r == (v + 8) % 8
  {
    WrappedNeighbour(v);
    WrappedIndex(v, 8)
  }

  /** The neighbourhood of a cell read as a three-bit number, the left cell most significant. */
  function Pattern(left: nat, centre: nat, right: nat): nat
  {
    4 * left + 2 * centre + right
  }

  /** `CA_OUT_ADDRESS_SPREAD_FACTOR * pattern`: the genome address holding the rule bit for a pattern. */
  function RuleAddress(spread: nat, pattern: nat): nat
  {
    spread * pattern
  }

  /** Cell `x` of the next row: the one-bit genome read at the spread pattern of its neighbourhood. */
  function NextCell(g: seq<int>, spread: nat, prev: seq<nat>, x: nat): (b: nat)
    requires |g| > 0 && IsBits(g) && |prev| == 8 && x < 8
    ensures b < 2
  {
    Decode(g, RuleAddress(spread, Pattern(prev[Neighbour(x - 1)], prev[x], prev[Neighbour(x + 1)])), 1)
  }

  /** The inner loop of `eight_from_eight`: every cell of row `y` from row `y - 1`. */
  function NextRow(g: seq<int>, spread: nat, prev: seq<nat>): (next: seq<nat>)
    requires |g| > 0 && IsBits(g) && |prev| == 8
    ensures |next| == 8 && IsBits(next)
  {
    seq(8, x requires 0 <= x < 8 => NextCell(g, spread, prev, x))
  }

  /** Row `y` of the automaton: the inputs for `y = 0`, then one step per row. */
  function Row(g: seq<int>, spread: nat, inputs: seq<nat>, y: nat): (row: seq<nat>)
    requires |g| > 0 && IsBits(g) && |inputs| == 8
    ensures |row| == 8
    ensures y > 0 ==> IsBits(row)
    decreases y
  {
    if y == 0 then inputs else NextRow(g, spread, Row(g, spread, inputs, y - 1))
  }

  /**
   `eight_from_eight`: run the automaton down to row `length - 1` and read its
   first three cells, cell 0 most significant. With a single row the inputs
   pass through unchanged; with more rows every cell is a genome bit, so the
   result is a three-bit number.
   */
  function EightFromEight(g: seq<int>, spread: nat, length: nat, inputs: seq<nat>): (r: nat)
    requires |g| > 0 && IsBits(g) && |inputs| == 8 && length >= 1
    ensures length == 1 ==> r == 4 * inputs[0] + 2 * inputs[1] + inputs[2]
    ensures length >= 2 ==> r < 8
  {
    var last := Row(g, spread, inputs, length - 1);
    4 * last[0] + 2 * last[1] + last[2]
  }

  // A reference automaton, stated without the genome or the wrap-around index.

  /** The eight rule bits, indexed by neighbourhood pattern: pattern `k` reads the genome at `spread * k`. */
  function RuleTable(g: seq<int>, spread: nat): (rule: seq<nat>)
    requires |g| > 0 && IsBits(g)
    ensures |rule| == 8 && IsBits(rule)
  {
    seq(8, k requires 0 <= k < 8 => GeneAt(g, RuleAddress(spread, k)))
  }

  /** One step of an elementary circular automaton of eight bit cells under `rule`. */
  function Step(rule: seq<nat>, row: seq<nat>): (next: seq<nat>)
    requires |rule| == 8 && |row| == 8 && IsBits(row)
    ensures |next| == 8
    ensures IsBits(rule) ==> IsBits(next)
  {
    seq(8, x requires 0 <= x < 8 => rule[4 * row[(x + 7) % 8] + 2 * row[x] + row[(x + 1) % 8]])
  }

  /** `n` steps of the reference automaton. */
  function Steps(rule: seq<nat>, row: seq<nat>, n: nat): (last: seq<nat>)
    requires |rule| == 8 && IsBits(rule) && |row| == 8 && IsBits(row)
    ensures |last| == 8 && IsBits(last)
    decreases n
  {
    if n == 0 then row else Step(rule, Steps(rule, row, n - 1))
  }

  /** On a row of bits, a genome-driven cell is the rule-table entry of its neighbourhood pattern. */
  lemma NextCellIsRule(g: seq<int>, spread: nat, prev: seq<nat>, x: nat)
    requires |g| > 0 && IsBits(g) && |prev| == 8 && IsBits(prev) && x < 8
    ensures NextCell(g, spread, prev, x) == RuleTable(g, spread)[4 * prev[(x + 7) % 8] + 2 * prev[x] + prev[(x + 1) % 8]]
  {
    var k := NeighbourPattern(prev, x);
    DecodeOneBit(g, RuleAddress(spread, k));
  }

  /** The pattern a cell reads through the wrapped neighbour indices, as a value below 8. */
  lemma NeighbourPattern(prev: seq<nat>, x: nat) returns (k: nat)
    requires |prev| == 8 && IsBits(prev) && x < 8
    ensures k == Pattern(prev[Neighbour(x - 1)], prev[x], prev[Neighbour(x + 1)])
    ensures k == 4 * prev[(x + 7) % 8] + 2 * prev[x] + prev[(x + 1) % 8] && k < 8
  {
    k := Pattern(prev[Neighbour(x - 1)], prev[x], prev[Neighbour(x + 1)]);
  }

  /** On a row of bits, the genome-driven step is the reference step under the genome's rule table. */
  lemma NextRowIsStep(g: seq<int>, spread: nat, prev: seq<nat>)
    requires |g| > 0 && IsBits(g) && |prev| == 8 && IsBits(prev)
    ensures NextRow(g, spread, prev) == Step(RuleTable(g, spread), prev)
  {
    var next, ref := NextRow(g, spread, prev), Step(RuleTable(g, spread), prev);
    forall x | 0 <= x < 8
      ensures next[x] == ref[x]
    {
      NextRowCellIsStep(g, spread, prev, x);
    }
  }

  /** One cell of `NextRowIsStep`. */
  lemma NextRowCellIsStep(g: seq<int>, spread: nat, prev: seq<nat>, x: nat)
    requires |g| > 0 && IsBits(g) && |prev| == 8 && IsBits(prev) && x < 8
    ensures NextRow(g, spread, prev)[x] == Step(RuleTable(g, spread), prev)[x]
  {
    var rule := RuleTable(g, spread);
    var k := NeighbourPattern(prev, x);
    assert Step(rule, prev)[x] == rule[k];
    assert rule[k] == GeneAt(g, RuleAddress(spread, k));
    DecodeOneBit(g, RuleAddress(spread, k));
    assert NextRow(g, spread, prev)[x] == NextCell(g, spread, prev, x);
  }

  /** From row 1 on, the automaton is the reference automaton run from row 1. */
  lemma {:induction false} RowIsSteps(g: seq<int>, spread: nat, inputs: seq<nat>, y: nat)
    requires |g| > 0 && IsBits(g) && |inputs| == 8 && y >= 1
    ensures Row(g, spread, inputs, y) == Steps(RuleTable(g, spread), Row(g, spread, inputs, 1), y - 1)
    decreases y
  {
    if y > 1 {
      RowIsSteps(g, spread, inputs, y - 1);
      NextRowIsStep(g, spread, Row(g, spread, inputs, y - 1));
    }
  }

  /** On bit inputs, every row is the reference automaton run from the inputs. */
  lemma {:induction false} RowOfBitsIsSteps(g: seq<int>, spread: nat, inputs: seq<nat>, y: nat)
    requires |g| > 0 && IsBits(g) && |inputs| == 8 && IsBits(inputs)
    ensures Row(g, spread, inputs, y) == Steps(RuleTable(g, spread), inputs, y)
    decreases y
  {
    if y > 0 {
      var prev := Row(g, spread, inputs, y - 1);
      RowOfBitsIsSteps(g, spread, inputs, y - 1);
      assert IsBits(prev);
      NextRowIsStep(g, spread, prev);
      assert Row(g, spread, inputs, y) == NextRow(g, spread, prev);
    }
  }

  /**
   The engine reads the genome at the eight rule addresses and nowhere else:
   two genomes with the same rule table give the same result on bit inputs.
   */
  lemma EightFromEightDependsOnlyOnRules(g1: seq<int>, g2: seq<int>, spread: nat, length: nat, inputs: seq<nat>)
    requires |g1| > 0 && IsBits(g1) && |g2| > 0 && IsBits(g2) && |inputs| == 8 && IsBits(inputs) && length >= 1
    requires RuleTable(g1, spread) == RuleTable(g2, spread)
    ensures EightFromEight(g1, spread, length, inputs) == EightFromEight(g2, spread, length, inputs)
  {
    SameRulesSameRow(g1, g2, spread, inputs, length - 1);
  }

  /** Two genomes with the same rule table compute the same rows from bit inputs. */
  lemma SameRulesSameRow(g1: seq<int>, g2: seq<int>, spread: nat, inputs: seq<nat>, y: nat)
    requires |g1| > 0 && IsBits(g1) && |g2| > 0 && IsBits(g2) && |inputs| == 8 && IsBits(inputs)
    requires RuleTable(g1, spread) == RuleTable(g2, spread)
    ensures Row(g1, spread, inputs, y) == Row(g2, spread, inputs, y)
  {
    RowOfBitsIsSteps(g1, spread, inputs, y);
    RowOfBitsIsSteps(g2, spread, inputs, y);
  }

  /** A constant rule drives every row after the first to that constant. */
  lemma {:induction false} StepsOfConstantRule(rule: seq<nat>, row: seq<nat>, n: nat, b: nat)
    requires |rule| == 8 && IsBits(rule) && |row| == 8 && IsBits(row) && n >= 1
    requires forall k :: 0 <= k < 8 ==> rule[k] == b
    ensures forall x :: 0 <= x < 8 ==> Steps(rule, row, n)[x] == b
    decreases n
  {
    if n > 1 {
      StepsOfConstantRule(rule, row, n - 1, b);
    }
  }

  /**
   If all eight rule bits are equal to `b`, the result is 7 when `b` is 1 and 0
   when `b` is 0, as soon as a row has been computed from bits: from row 1 on
   bit inputs, from row 2 on any inputs.
   */
  lemma EightFromEightConstantRule(g: seq<int>, spread: nat, length: nat, inputs: seq<nat>, b: nat)
    requires |g| > 0 && IsBits(g) && |inputs| == 8
    requires (length >= 2 && IsBits(inputs)) || length >= 3
    requires forall k :: 0 <= k < 8 ==> RuleTable(g, spread)[k] == b
    ensures EightFromEight(g, spread, length, inputs) == 7 * b
  {
    RowOfConstantRule(g, spread, length - 1, inputs, b);
  }

  /** Under a constant rule, every cell of a row computed from bits holds the constant. */
  lemma RowOfConstantRule(g: seq<int>, spread: nat, y: nat, inputs: seq<nat>, b: nat)
    requires |g| > 0 && IsBits(g) && |inputs| == 8
    requires (y >= 1 && IsBits(inputs)) || y >= 2
    requires forall k :: 0 <= k < 8 ==> RuleTable(g, spread)[k] == b
    ensures forall x :: 0 <= x < 8 ==> Row(g, spread, inputs, y)[x] == b
  {
    var rule := RuleTable(g, spread);
    if IsBits(inputs) {
      RowOfBitsIsSteps(g, spread, inputs, y);
      StepsOfConstantRule(rule, inputs, y, b);
    } else {
      RowIsSteps(g, spread, inputs, y);
      StepsOfConstantRule(rule, Row(g, spread, inputs, 1), y - 1, b);
    }
  }

  /** Column `y` of the cell table holds `row`. */
  ghost predicate HoldsRow(cells: array2<nat>, y: nat, row: seq<nat>)
    reads cells
    requires cells.Length0 == 8 && y < cells.Length1 && |row| == 8
  {
    forall x :: 0 <= x < 8 ==> cells[x, y] == row[x]
  }

  /**
   `eight_from_eight` as efe.c computes it: a table `cells[x, y]` filled
   row by row, each cell from the three cells above it, then the three-bit
   read of the last row. Every row of the table is the matching row of
   `Row`, not only the last one.
   */
  method EightFromEightLoop(g: seq<int>, spread: nat, length: nat, inputs: seq<nat>) returns (r: nat, cells: array2<nat>)
    requires |g| > 0 && IsBits(g) && |inputs| == 8 && length >= 1
    ensures r == EightFromEight(g, spread, length, inputs)
    ensures cells.Length0 == 8 && cells.Length1 == length
    ensures forall x, j :: 0 <= x < 8 && 0 <= j < length ==> cells[x, j] == Row(g, spread, inputs, j)[x]
  {
    cells := new nat[8, length];
    FillTable(g, spread, inputs, cells);
    r := 4 * cells[0, length - 1] + 2 * cells[1, length - 1] + cells[2, length - 1];
    ResultOfLastRow(g, spread, inputs, length, Row(g, spread, inputs, length - 1));
  }

  /** The outer loop of `eight_from_eight`: row 0 from the inputs, then every later row from the one above. */
  method FillTable(g: seq<int>, spread: nat, inputs: seq<nat>, cells: array2<nat>)
    requires |g| > 0 && IsBits(g) && |inputs| == 8
    requires cells.Length0 == 8 && cells.Length1 >= 1
    modifies cells
    ensures forall x, j :: 0 <= x < 8 && 0 <= j < cells.Length1 ==> cells[x, j] == Row(g, spread, inputs, j)[x]
  {
    FillInputs(inputs, cells);
    var y := 1;
    var prev := inputs;
    while y < cells.Length1
      invariant 1 <= y <= cells.Length1
      invariant |prev| == 8 && prev == Row(g, spread, inputs, y - 1)
      invariant HoldsRow(cells, y - 1, prev)
      invariant forall x, j :: 0 <= x < 8 && 0 <= j < y ==> cells[x, j] == Row(g, spread, inputs, j)[x]
    {
      FillRow(g, spread, prev, cells, y);
      prev := NextRow(g, spread, prev);
      y := y + 1;
    }
  }

  /** The result is read from the row the loop ends on. */
  lemma ResultOfLastRow(g: seq<int>, spread: nat, inputs: seq<nat>, length: nat, last: seq<nat>)
    requires |g| > 0 && IsBits(g) && |inputs| == 8 && length >= 1
    requires last == Row(g, spread, inputs, length - 1)
    ensures EightFromEight(g, spread, length, inputs) == 4 * last[0] + 2 * last[1] + last[2]
  {
  }

  /** Row 0 of the table: the eight inputs in order. */
  method FillInputs(inputs: seq<nat>, cells: array2<nat>)
    requires |inputs| == 8 && cells.Length0 == 8 && 0 < cells.Length1
    modifies cells
    ensures HoldsRow(cells, 0, inputs)
    ensures forall i, j :: 0 <= i < 8 && 0 < j < cells.Length1 ==> cells[i, j] == old(cells[i, j])
  {
    var x := 0;
    while x < 8
      invariant 0 <= x <= 8
      invariant forall i :: 0 <= i < x ==> cells[i, 0] == inputs[i]
      invariant forall i, j :: 0 <= i < 8 && 0 < j < cells.Length1 ==> cells[i, j] == old(cells[i, j])
    {
      cells[x, 0] := inputs[x];
      x := x + 1;
    }
  }

  /** The inner loop of `eight_from_eight`: fill column `y` of the table from column `y - 1`. */
  method FillRow(g: seq<int>, spread: nat, prev: seq<nat>, cells: array2<nat>, y: nat)
    requires |g| > 0 && IsBits(g) && |prev| == 8
    requires cells.Length0 == 8 && 1 <= y < cells.Length1
    requires HoldsRow(cells, y - 1, prev)
    modifies cells
    ensures HoldsRow(cells, y, NextRow(g, spread, prev))
    ensures forall i, j :: 0 <= i < 8 && 0 <= j < cells.Length1 && j != y ==> cells[i, j] == old(cells[i, j])
  {
    var x := 0;
    while x < 8
      invariant 0 <= x <= 8
      invariant HoldsRow(cells, y - 1, prev)
      invariant forall i, j :: 0 <= i < 8 && 0 <= j < cells.Length1 && j != y ==> cells[i, j] == old(cells[i, j])
      invariant forall i :: 0 <= i < x ==> cells[i, y] == NextCell(g, spread, prev, i)
    {
      var out := CellOut(g, spread, prev, cells, x, y);
      cells[x, y] := out;
      x := x + 1;
    }
    assert forall i :: 0 <= i < 8 ==> NextRow(g, spread, prev)[i] == NextCell(g, spread, prev, i);
  }

  /** One step of the inner loop: read the three cells above cell `x` and look up the genome bit. */
  method CellOut(g: seq<int>, spread: nat, prev: seq<nat>, cells: array2<nat>, x: nat, y: nat) returns (out: nat)
    requires |g| > 0 && IsBits(g) && |prev| == 8 && x < 8
    requires cells.Length0 == 8 && 1 <= y < cells.Length1
    requires HoldsRow(cells, y - 1, prev)
    ensures out == NextCell(g, spread, prev, x)
  {
    var left, right := Neighbour(x - 1), Neighbour(x + 1);
    var inLeft, inCentre, inRight := cells[left, y - 1], cells[x, y - 1], cells[right, y - 1];
    assert inLeft == prev[left] && inCentre == prev[x] && inRight == prev[right];
    out := UnsignedIntFromGenome(g, RuleAddress(spread, Pattern(inLeft, inCentre, inRight)), 1);
  }
}
