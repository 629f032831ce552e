/** The "droplet" cellular automaton of lab_3/droplet_sim.py: a synchronous
    rule on a square 0/1 grid with toroidal 8-neighbourhood. Each cell counts
    the neighbours of the other colour, looks the count up in a nine-entry rule
    table, and flips or keeps its colour.

    The specification functions read the old grid; `Automaton.Update` fills a
    fresh grid from them and replaces the global `grid` with it. */
module Droplet {

  /** `rule`: index = number of neighbours of the other colour; 1 = flip. */
  const Rule: seq<int> := [0, 0, 0, 0, 1, 0, 1, 1, 1]

  /** An N x N grid, N being the side of the array. */
  predicate Square(g: array2<int>) { g.Length0 == g.Length1 }

  predicate IsBit(v: int) { v == 0 || v == 1 }

  /** Every cell of the grid is 0 (blue) or 1 (red). */
  ghost predicate Binary(g: array2<int>)
    reads g
  {
    forall i, j :: 0 <= i < g.Length0 && 0 <= j < g.Length1 ==> IsBit(g[i, j])
  }

  /** `(k + d) % N` as Python computes it: for a positive modulus the result
      is never negative, which Dafny's `%` agrees with. */
  function Wrapped(k: int, n: int): (r: int)
    requires n > 0
    ensures 0 <= r < n
  {
    k % n
  }

  /** Neighbour `(di, dj)` of cell `(i, j)`, on the torus, has the other colour.
      The cell itself (`di == dj == 0`) is skipped. */
  ghost predicate Differs(g: array2<int>, i: int, j: int, di: int, dj: int)
    requires Square(g) && 0 <= i < g.Length0 && 0 <= j < g.Length1
    reads g
  {
    !(di == 0 && dj == 0) &&
    g[Wrapped(i + di, g.Length0), Wrapped(j + dj, g.Length1)] != g[i, j]
  }

  /** How many of the first `b` offsets `dj = -1, 0, 1` of row `di` differ
      from the cell. The centre of row 0 never counts. */
  ghost function RowDifferent(g: array2<int>, i: int, j: int, di: int, b: nat): (r: nat)
    requires Square(g) && 0 <= i < g.Length0 && 0 <= j < g.Length1 && b <= 3
    reads g
    ensures r <= b
    ensures di == 0 && b >= 2 ==> r <= b - 1
  {
    if b == 0 then 0
    else RowDifferent(g, i, j, di, b - 1) + (if Differs(g, i, j, di, b - 2) then 1 else 0)
  }

  /** How many neighbours in the first `a` rows `di = -1, 0, 1` differ from
      the cell. */
  ghost function Different(g: array2<int>, i: int, j: int, a: nat): (r: nat)
    requires Square(g) && 0 <= i < g.Length0 && 0 <= j < g.Length1 && a <= 3
    reads g
    ensures r <= 3 * a - (if a >= 2 then 1 else 0)
  {
    if a == 0 then 0
    else Different(g, i, j, a - 1) + RowDifferent(g, i, j, a - 2, 3)
  }

  /** `neighbors`: the number of the eight neighbours of the other colour.
      It is at most 8, so `rule[neighbors]` is always in range. */
  ghost function NeighbourCount(g: array2<int>, i: int, j: int): (r: nat)
    requires Square(g) && 0 <= i < g.Length0 && 0 <= j < g.Length1
    reads g
    ensures r < |Rule|
  {
    Different(g, i, j, 3)
  }

  /** The new colour of cell `(i, j)`, computed from the old grid only: the
      cell changes exactly when its count is 4, 6, 7 or 8, and then becomes
      `1 - grid[i, j]`; a 0/1 cell stays a 0/1 cell. */
  ghost function NextCell(g: array2<int>, i: int, j: int): (r: int)
    requires Square(g) && 0 <= i < g.Length0 && 0 <= j < g.Length1
    reads g
    ensures r != g[i, j] <==> NeighbourCount(g, i, j) in {4, 6, 7, 8}
    ensures r != g[i, j] ==> r == 1 - g[i, j]
    ensures IsBit(g[i, j]) ==> IsBit(r)
  {
    if Rule[NeighbourCount(g, i, j)] == 1 then 1 - g[i, j] else g[i, j]
  }

  /** The neighbour-counting loops of `update` for one cell. */
  method CountDifferent(g: array2<int>, i: int, j: int) returns (neighbors: nat)
    requires Square(g) && 0 <= i < g.Length0 && 0 <= j < g.Length1
    ensures neighbors == NeighbourCount(g, i, j)
  {
    var n := g.Length0;
    neighbors := 0;
    for di := -1 to 2
      invariant neighbors == Different(g, i, j, di + 1)
    {
      for dj := -1 to 2
        invariant neighbors == Different(g, i, j, di + 1) + RowDifferent(g, i, j, di, dj + 1)
      {
        if di == 0 && dj == 0 {
          continue;
        }
        var ni := (i + di) % n;
        var nj := (j + dj) % n;
        if g[ni, nj] != g[i, j] {
          neighbors := neighbors + 1;
        }
      }
    }
  }

  // ------------------------------------------------------------ properties

  /** `(k + d) % N` for a neighbour offset `d` in {-1, 0, 1} is the torus
      adjacency: one step past either edge re-enters at the other. */
  lemma WrapNeighbour(k: int, d: int, n: int)
    requires 0 <= k < n && -1 <= d <= 1
    ensures Wrapped(k + d, n) == if k + d < 0 then n - 1 else if k + d >= n then 0 else k + d
  {
    if k + d < 0 {
      assert k + d == -1 && (-1) % n == n - 1;
    } else if k + d >= n {
      assert k + d == n && n % n == 0;
    }
  }

  /** On a grid of side at least 3 none of the eight neighbours of a cell is
      the cell itself, so the count really is over eight other cells. */
  lemma NeighbourIsOther(n: int, i: int, j: int, di: int, dj: int)
    requires n >= 3 && 0 <= i < n && 0 <= j < n
    requires -1 <= di <= 1 && -1 <= dj <= 1 && !(di == 0 && dj == 0)
    ensures (Wrapped(i + di, n), Wrapped(j + dj, n)) != (i, j)
  {
    WrapNeighbour(i, di, n);
    WrapNeighbour(j, dj, n);
  }

  /** No offset of the first `b` of row `di` differs exactly when the row
      count is 0. */
  lemma {:induction false} RowDifferentZero(g: array2<int>, i: int, j: int, di: int, b: nat)
    requires Square(g) && 0 <= i < g.Length0 && 0 <= j < g.Length1 && b <= 3
    ensures RowDifferent(g, i, j, di, b) == 0 <==>
      forall dj :: -1 <= dj <= b - 2 ==> !Differs(g, i, j, di, dj)
  {
    if b > 0 {
      RowDifferentZero(g, i, j, di, b - 1);
    }
  }

  /** Every non-centre offset of the first `b` of row `di` differs exactly
      when the row count reaches its maximum. */
  lemma {:induction false} RowDifferentFull(g: array2<int>, i: int, j: int, di: int, b: nat)
    requires Square(g) && 0 <= i < g.Length0 && 0 <= j < g.Length1 && b <= 3
    ensures RowDifferent(g, i, j, di, b) == b - (if di == 0 && b >= 2 then 1 else 0) <==>
      forall dj :: -1 <= dj <= b - 2 && !(di == 0 && dj == 0) ==> Differs(g, i, j, di, dj)
  {
    if b > 0 {
      RowDifferentFull(g, i, j, di, b - 1);
    }
  }

  lemma {:induction false} DifferentZero(g: array2<int>, i: int, j: int, a: nat)
    requires Square(g) && 0 <= i < g.Length0 && 0 <= j < g.Length1 && a <= 3
    ensures Different(g, i, j, a) == 0 <==>
      forall di, dj :: -1 <= di <= a - 2 && -1 <= dj <= 1 ==> !Differs(g, i, j, di, dj)
  {
    if a > 0 {
      DifferentZero(g, i, j, a - 1);
      RowDifferentZero(g, i, j, a - 2, 3);
    }
  }

  lemma {:induction false} DifferentFull(g: array2<int>, i: int, j: int, a: nat)
    requires Square(g) && 0 <= i < g.Length0 && 0 <= j < g.Length1 && a <= 3
    ensures Different(g, i, j, a) == 3 * a - (if a >= 2 then 1 else 0) <==>
      forall di, dj :: -1 <= di <= a - 2 && -1 <= dj <= 1 && !(di == 0 && dj == 0) ==>
        Differs(g, i, j, di, dj)
  {
    if a > 0 {
      DifferentFull(g, i, j, a - 1);
      RowDifferentFull(g, i, j, a - 2, 3);
    }
  }

  /** The table flips a cell exactly for the counts 4, 6, 7 and 8. */
  lemma RuleFlips(neighbors: nat)
    requires neighbors < |Rule|
    ensures Rule[neighbors] == 1 <==> neighbors in {4, 6, 7, 8}
    ensures Rule[neighbors] == 0 <==> neighbors !in {4, 6, 7, 8}
  {
  }

  /** The count is 0 exactly when all eight neighbours have the cell's colour. */
  lemma NeighbourCountZero(g: array2<int>, i: int, j: int)
    requires Square(g) && 0 <= i < g.Length0 && 0 <= j < g.Length1
    ensures NeighbourCount(g, i, j) == 0 <==>
      forall di, dj :: -1 <= di <= 1 && -1 <= dj <= 1 ==> !Differs(g, i, j, di, dj)
  {
    DifferentZero(g, i, j, 3);
  }

  /** The count is 8 exactly when all eight neighbours have the other colour. */
  lemma NeighbourCountEight(g: array2<int>, i: int, j: int)
    requires Square(g) && 0 <= i < g.Length0 && 0 <= j < g.Length1
    ensures NeighbourCount(g, i, j) == 8 <==>
      forall di, dj :: -1 <= di <= 1 && -1 <= dj <= 1 && !(di == 0 && dj == 0) ==>
        Differs(g, i, j, di, dj)
  {
    DifferentFull(g, i, j, 3);
  }

  /** A one-colour grid is a fixed point of the rule: every count is 0 and
      `rule[0] == 0`. */
  lemma UniformIsFixed(g: array2<int>, colour: int)
    requires Square(g)
    requires forall i, j :: 0 <= i < g.Length0 && 0 <= j < g.Length1 ==> g[i, j] == colour
    ensures forall i, j :: 0 <= i < g.Length0 && 0 <= j < g.Length1 ==> NextCell(g, i, j) == g[i, j]
  {
    forall i, j | 0 <= i < g.Length0 && 0 <= j < g.Length1
      ensures NextCell(g, i, j) == g[i, j]
    {
      NeighbourCountZero(g, i, j);
    }
  }

  /** A cell whose eight neighbours all have the other colour flips, because
      `rule[8] == 1`. */
  lemma SurroundedFlips(g: array2<int>, i: int, j: int)
    requires Square(g) && 0 <= i < g.Length0 && 0 <= j < g.Length1
    requires forall di, dj :: -1 <= di <= 1 && -1 <= dj <= 1 && !(di == 0 && dj == 0) ==>
      Differs(g, i, j, di, dj)
    ensures NextCell(g, i, j) == 1 - g[i, j]
  {
    NeighbourCountEight(g, i, j);
  }

  /** The global `grid` of the simulation, which `update` replaces. */
  class Automaton {
    var grid: array2<int>

    constructor(init: array2<int>)
      requires Square(init)
      ensures Square(grid) && grid == init
    {
      grid := init;
    }

    /** `update`: `new_grid` starts as a copy of `grid`, every cell of it is
        overwritten with the rule applied to the old grid, and `grid` then
        names the new array. The old array is left untouched. */
    method Update()
      requires Square(grid)
      modifies this
      ensures Square(grid) && fresh(grid) && grid.Length0 == old(grid.Length0)
      ensures forall i, j :: 0 <= i < grid.Length0 && 0 <= j < grid.Length1 ==>
        grid[i, j] == NextCell(old(grid), i, j)
      ensures Binary(old(grid)) ==> Binary(grid)
      ensures unchanged(old(grid))
    {
      var g := grid;
      var n := g.Length0;
      var next := new int[n, n]((i, j) reads g => if 0 <= i < n && 0 <= j < n then g[i, j] else 0);
      for i := 0 to n
        invariant forall p, q :: 0 <= p < i && 0 <= q < n ==> next[p, q] == NextCell(g, p, q)
      {
        for j := 0 to n
          invariant forall p, q :: 0 <= p < i && 0 <= q < n ==> next[p, q] == NextCell(g, p, q)
          invariant forall q :: 0 <= q < j ==> next[i, q] == NextCell(g, i, q)
        {
          var neighbors := CountDifferent(g, i, j);
          if Rule[neighbors] == 1 {
            next[i, j] := 1 - g[i, j];
          } else {
            next[i, j] := g[i, j];
          }
        }
      }
      grid := next;
    }
  }
}
