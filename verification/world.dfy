/**
 The world: a WORLD_WIDTH x WORLD_HEIGHT grid of organisms, one per cell,
 with the sizes every organism shares. A world step gives every organism one
 turn, visiting the grid column by column (x outer, y inner).
 */
module World {
  import opened Bits
  import opened Genome
  import opened Organism

  const WORLD_WIDTH: nat := 128
  const WORLD_HEIGHT: nat := 64
  const NEIGHBORHOOD_RADIUS: nat := 1

  /** `calculate_neighborhood_size_in_cells`: the square of side `2 r + 1` around a cell, computed exactly rather than with `pow`. */
  function NeighborhoodSizeInCells(): (n: nat)
    ensures n == 9
  {
    (1 + 2 * NEIGHBORHOOD_RADIUS) * (1 + 2 * NEIGHBORHOOD_RADIUS)
  }

  /**
   `calculate_neighborhood_address_size`: starting from one bit, widen the
   address until it can address `cells * genomeSize` positions. The result
   is the least width of at least one bit that does.
   */
  method CalculateNeighborhoodAddressSize(cells: nat, genomeSize: nat) returns (k: nat)
    ensures k >= 1 && Pow2(k) >= cells * genomeSize
    ensures k == 1 || Pow2(k - 1) < cells * genomeSize
  {
    var minimum := cells * genomeSize;
    k := 1;
    var addressable := Pow2(k);
    while addressable < minimum
      invariant k >= 1 && addressable == Pow2(k)
      invariant k == 1 || Pow2(k - 1) < minimum
      decreases minimum - addressable
    {
      k := k + 1;
      addressable := Pow2(k);
    }
  }

  /** No narrower width of at least one bit suffices: the computed width is the least one. */
  lemma AddressSizeIsLeast(k: nat, minimum: nat, j: nat)
    requires k >= 1 && Pow2(k) >= minimum && (k == 1 || Pow2(k - 1) < minimum)
    requires 1 <= j < k
    ensures Pow2(j) < minimum
  {
    if j < k - 1 {
      Pow2Strict(j, k - 1);
    }
  }

  /** For this world's sizes (9 cells of 256 bits, 2304 positions) the width is 12 bits. */
  lemma WorldAddressSize(k: nat)
    requires k >= 1 && Pow2(k) >= 9 * 256 && (k == 1 || Pow2(k - 1) < 9 * 256)
    ensures k == 12
  {
    assert Pow2(11) == 2048 && Pow2(12) == 4096;
    if k < 12 {
      if k < 11 {
        Pow2Strict(k, 11);
      }
      assert false;
    } else if k > 12 {
      Pow2Strict(12, k - 1);
      assert false;
    }
  }

  datatype World = World(genomeSize: nat, neighborhoodSizeInCells: nat, neighborhoodAddressSize: nat,
                         organisms: seq<seq<Organism>>)

  /** A grid of the world's size whose organism at `(x, y)` is valid and sits at `(x, y)`. */
  predicate WellFormedGrid(organisms: seq<seq<Organism>>) {
    && |organisms| == WORLD_WIDTH
    && (forall x :: 0 <= x < WORLD_WIDTH ==> |organisms[x]| == WORLD_HEIGHT)
    && (forall x, y :: 0 <= x < WORLD_WIDTH && 0 <= y < WORLD_HEIGHT ==>
          Valid(organisms[x][y]) && organisms[x][y].position == Position(x, y))
  }

  /** What `new_world` establishes. */
  predicate WellFormed(w: World) {
    && w.genomeSize == GenomeSize()
    && w.neighborhoodSizeInCells == NeighborhoodSizeInCells()
    && w.neighborhoodAddressSize == 12
    && WellFormedGrid(w.organisms)
  }

  /** Initial contents for every cell of the grid, indexed `[x][y]`: full-size bit strings. */
  predicate GridContents(bits: seq<seq<seq<int>>>, size: nat) {
    && |bits| == WORLD_WIDTH
    && (forall x :: 0 <= x < WORLD_WIDTH ==> |bits[x]| == WORLD_HEIGHT)
    && (forall x, y :: 0 <= x < WORLD_WIDTH && 0 <= y < WORLD_HEIGHT ==>
          |bits[x][y]| == size && IsBits(bits[x][y]))
  }

  /**
   `new_organism`: an organism at `(x, y)` with the given genome and bit
   history, which ninex draws one random bit at a time.
   */
  function NewOrganism(x: nat, y: nat, genome: seq<int>, history: seq<int>): (o: Organism)
    requires |genome| == GenomeSize() && IsBits(genome)
    requires |history| == BIT_HISTORY_SIZE && IsBits(history)
    ensures Valid(o) && o.position == Position(x, y)
    ensures o.genome == genome && o.history == history
  {
    Organism(Position(x, y), genome, history)
  }

  /**
   `new_world` with `new_organism` for every cell. ninex draws every
   genome and history bit at random; here they are given.
   */
  method NewWorld(genomes: seq<seq<seq<int>>>, histories: seq<seq<seq<int>>>) returns (w: World)
    requires GridContents(genomes, GenomeSize()) && GridContents(histories, BIT_HISTORY_SIZE)
    ensures WellFormed(w)
    ensures forall x, y :: 0 <= x < WORLD_WIDTH && 0 <= y < WORLD_HEIGHT ==>
      w.organisms[x][y].genome == genomes[x][y] && w.organisms[x][y].history == histories[x][y]
  {
    var genomeSize := GenomeSize();
    var cells := NeighborhoodSizeInCells();
    var addressSize := CalculateNeighborhoodAddressSize(cells, genomeSize);
    WorldAddressSize(addressSize);
    var organisms := seq(WORLD_WIDTH, x requires 0 <= x < WORLD_WIDTH =>
      seq(WORLD_HEIGHT, y requires 0 <= y < WORLD_HEIGHT =>
        NewOrganism(x, y, genomes[x][y], histories[x][y])));
    w := World(genomeSize, cells, addressSize, organisms);
  }

  predicate ValidColumn(column: seq<Organism>) {
    forall y :: 0 <= y < |column| ==> Valid(column[y])
  }

  /**
   One turn for every organism of a column: each keeps its position and
   genome, its history moves one place down and takes in genome bit 0, and
   the column stays valid.
   */
  function IterateColumn(column: seq<Organism>): (r: seq<Organism>)
    requires ValidColumn(column)
    ensures |r| == |column| && ValidColumn(r)
    ensures forall y :: 0 <= y < |column| ==>
      && r[y].position == column[y].position
      && r[y].genome == column[y].genome
      && r[y].history == column[y].history[1..] + [column[y].genome[0]]
  {
    seq(|column|, y requires 0 <= y < |column| && Valid(column[y]) => IterateOrganism(column[y]))
  }

  /**
   `iterate_world`: every organism takes one turn; the organisms are
   independent, so the result does not depend on the visiting order.
   */
  function IterateWorld(w: World): (r: World)
    requires WellFormed(w)
    ensures WellFormed(r)
    ensures r.genomeSize == w.genomeSize && r.neighborhoodAddressSize == w.neighborhoodAddressSize
    ensures forall x, y :: 0 <= x < WORLD_WIDTH && 0 <= y < WORLD_HEIGHT ==>
      r.organisms[x][y].genome == w.organisms[x][y].genome &&
      r.organisms[x][y].history == w.organisms[x][y].history[1..] + [w.organisms[x][y].genome[0]]
  {
    w.(organisms := seq(WORLD_WIDTH, x requires 0 <= x < WORLD_WIDTH && ValidColumn(w.organisms[x]) => IterateColumn(w.organisms[x])))
  }

  /** `n` world steps, as the simulator's main loop performs them. */
  function IterateWorldTimes(w: World, n: nat): (r: World)
    requires WellFormed(w)
    ensures WellFormed(r)
    decreases n
  {
    if n == 0 then w else IterateWorld(IterateWorldTimes(w, n - 1))
  }

  /** After `n` world steps every organism has had exactly `n` turns of its own. */
  lemma {:induction false} IterateWorldTimesPerOrganism(w: World, n: nat)
    requires WellFormed(w)
    ensures forall x, y :: 0 <= x < WORLD_WIDTH && 0 <= y < WORLD_HEIGHT ==>
      IterateWorldTimes(w, n).organisms[x][y] == IterateOrganismTimes(w.organisms[x][y], n)
    decreases n
  {
    if n > 0 {
      IterateWorldTimesPerOrganism(w, n - 1);
    }
  }

  /**
   After as many world steps as the bit history is long, every history in the
   world consists only of its organism's genome bit 0.
   */
  lemma WorldHistoriesAfterFullTurn(w: World)
    requires WellFormed(w)
    ensures forall x, y :: 0 <= x < WORLD_WIDTH && 0 <= y < WORLD_HEIGHT ==>
      IterateWorldTimes(w, BIT_HISTORY_SIZE).organisms[x][y].history == Repeat(w.organisms[x][y].genome[0], BIT_HISTORY_SIZE)
  {
    IterateWorldTimesPerOrganism(w, BIT_HISTORY_SIZE);
    forall x, y | 0 <= x < WORLD_WIDTH && 0 <= y < WORLD_HEIGHT {
      HistoryAfterFullTurn(w.organisms[x][y]);
    }
  }

  // The order in which `iterate_world`'s nested loops visit the grid.

  /** Column `x` visited from the top: `(x, 0), (x, 1), ..., (x, h - 1)`. */
  function Column(x: nat, h: nat): (c: seq<Position>)
    ensures |c| == h
  {
    seq(h, y requires 0 <= y < h => Position(x, y))
  }

  /** The first `w` columns of a grid of height `h`, x outer and y inner. */
  function ScanOrder(w: nat, h: nat): (s: seq<Position>)
    ensures |s| == w * h
  {
    if w == 0 then [] else ScanOrder(w - 1, h) + Column(w - 1, h)
  }

  /** `p` comes before `q` in x-major order. */
  predicate Before(p: Position, q: Position) {
    p.x < q.x || (p.x == q.x && p.y < q.y)
  }

  /** The scan visits only positions inside the first `w` columns and the grid's height. */
  lemma {:induction false} ScanOrderInside(w: nat, h: nat)
    ensures forall i :: 0 <= i < |ScanOrder(w, h)| ==> ScanOrder(w, h)[i].x < w && ScanOrder(w, h)[i].y < h
  {
    if w > 0 {
      ScanOrderInside(w - 1, h);
    }
  }

  /** The scan visits every position strictly after the previous ones, so it never repeats. */
  lemma {:induction false} ScanOrderSorted(w: nat, h: nat)
    ensures forall i, j :: 0 <= i < j < |ScanOrder(w, h)| ==> Before(ScanOrder(w, h)[i], ScanOrder(w, h)[j])
  {
    if w > 0 {
      ScanOrderSorted(w - 1, h);
      ScanOrderInside(w - 1, h);
    }
  }

  /** Position `(x, y)` is visited at step `x h + y`. */
  lemma {:induction false} ScanOrderAt(w: nat, h: nat, x: nat, y: nat)
    requires x < w && y < h
    ensures x * h + y < |ScanOrder(w, h)| && ScanOrder(w, h)[x * h + y] == Position(x, y)
  {
    if x < w - 1 {
      ScanOrderAt(w - 1, h, x, y);
      assert x * h + y < (w - 1) * h by {
        MulLeq(x, w - 2, h);
      }
    } else {
      assert (w - 1) * h + y < w * h;
    }
  }

  lemma MulLeq(a: nat, b: nat, h: nat)
    requires a <= b
    ensures a * h <= b * h
  {
  }

  /**
   `iterate_world` as ninex's nested loops perform it: for each x, for each y,
   one turn for the organism at `(x, y)`. The visits are logged in order.
   */
  method IterateWorldLoop(w: World) returns (r: World, visits: seq<Position>)
    requires WellFormed(w)
    ensures r == IterateWorld(w)
    ensures visits == ScanOrder(WORLD_WIDTH, WORLD_HEIGHT)
  {
    var organisms := w.organisms;
    visits := [];
    var x := 0;
    while x < WORLD_WIDTH
      invariant 0 <= x <= WORLD_WIDTH && |organisms| == WORLD_WIDTH
      invariant forall i :: 0 <= i < x ==> organisms[i] == IterateColumn(w.organisms[i])
      invariant forall i :: x <= i < WORLD_WIDTH ==> organisms[i] == w.organisms[i]
      invariant visits == ScanOrder(x, WORLD_HEIGHT)
    {
      var column, columnVisits := IterateColumnLoop(x, organisms[x]);
      organisms := organisms[x := column];
      visits := visits + columnVisits;
      x := x + 1;
    }
    r := w.(organisms := organisms);
  }

  /** The inner loop of `iterate_world` for column `x`. */
  method IterateColumnLoop(x: nat, column: seq<Organism>) returns (r: seq<Organism>, visits: seq<Position>)
    requires ValidColumn(column)
    ensures r == IterateColumn(column)
    ensures visits == Column(x, |column|)
  {
    r := column;
    visits := [];
    var y := 0;
    while y < |column|
      invariant 0 <= y <= |column| && |r| == |column|
      invariant forall i :: 0 <= i < y ==> r[i] == IterateOrganism(column[i])
      invariant forall i :: y <= i < |column| ==> r[i] == column[i]
      invariant visits == Column(x, y)
    {
      r := r[y := IterateOrganism(r[y])];
      visits := visits + [Position(x, y)];
      y := y + 1;
    }
  }
}
