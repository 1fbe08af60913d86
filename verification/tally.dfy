/** Cell-by-cell totals over a grid: how many tiles, their value sum, how
    many merge products, and so on. The move proofs are conservation laws
    stated with these totals. */
module Tally {
  import opened Wrappers
  import opened Tiles
  import opened Grids

  datatype Measure =
    | Occupancy       // one per tile
    | Values          // the tile's value
    | Merges          // one per tile produced by a merge this move
    | MergedValues    // the value of each tile produced by a merge this move
    | Wins            // one per merge product worth the winning value
    | Displacements   // one per tile that left its cell this move

  function Weight(m: Measure, c: Option<Tile>): int {
    match c
    case None => 0
    case Some(t) =>
      match m
      case Occupancy => 1
      case Values => t.value
      case Merges => if t.mergedFrom.Some? then 1 else 0
      case MergedValues => if t.mergedFrom.Some? then t.value else 0
      case Wins => if t.mergedFrom.Some? && t.value == WinningValue then 1 else 0
      case Displacements => if Displaced(t) then 1 else 0
  }

  /** Measures that count tiles, so every weight is 0 or 1. */
  predicate IsMark(m: Measure) {
    m.Occupancy? || m.Merges? || m.Wins? || m.Displacements?
  }

  function RowTotal(row: seq<Option<Tile>>, m: Measure): int
    decreases |row|
  {
    if row == [] then 0 else Weight(m, row[0]) + RowTotal(row[1..], m)
  }

  function RowsTotal(rows: seq<seq<Option<Tile>>>, m: Measure): int
    decreases |rows|
  {
    if rows == [] then 0 else RowTotal(rows[0], m) + RowsTotal(rows[1..], m)
  }

  function Total(g: Grid, m: Measure): int {
    RowsTotal(g.cells, m)
  }

  lemma {:induction false} RowUpdate(row: seq<Option<Tile>>, j: nat, c: Option<Tile>, m: Measure)
    requires j < |row|
    ensures RowTotal(row[j := c], m) == RowTotal(row, m) - Weight(m, row[j]) + Weight(m, c)
    decreases j
  {
    if j > 0 {
      assert row[j := c][1..] == row[1..][j - 1 := c];
      RowUpdate(row[1..], j - 1, c, m);
    } else {
      assert row[j := c][1..] == row[1..];
    }
  }

  lemma {:induction false} RowsUpdate(rows: seq<seq<Option<Tile>>>, i: nat, j: nat, c: Option<Tile>, m: Measure)
    requires i < |rows| && j < |rows[i]|
    ensures RowsTotal(rows[i := rows[i][j := c]], m) == RowsTotal(rows, m) - Weight(m, rows[i][j]) + Weight(m, c)
    decreases i
  {
    if i > 0 {
      assert rows[i := rows[i][j := c]][1..] == rows[1..][i - 1 := rows[1..][i - 1][j := c]];
      RowsUpdate(rows[1..], i - 1, j, c, m);
    } else {
      assert rows[i := rows[i][j := c]][1..] == rows[1..];
      RowUpdate(rows[0], j, c, m);
    }
  }

  /** Writing one cell changes a total by exactly the weight that cell loses and gains. */
  lemma TotalSetCell(g: Grid, p: Position, c: Option<Tile>, m: Measure)
    requires WellFormed(g) && WithinBounds(g, p)
    ensures Total(SetCell(g, p, c), m) == Total(g, m) - Weight(m, CellContent(g, p)) + Weight(m, c)
  {
    RowsUpdate(g.cells, p.x, p.y, c, m);
  }

  lemma {:induction false} RowsAgree(rows: seq<seq<Option<Tile>>>, others: seq<seq<Option<Tile>>>, m: Measure)
    requires |rows| == |others|
    requires forall i :: 0 <= i < |rows| ==> |rows[i]| == |others[i]|
    requires forall i, j :: 0 <= i < |rows| && 0 <= j < |rows[i]| ==> Weight(m, rows[i][j]) == Weight(m, others[i][j])
    ensures RowsTotal(rows, m) == RowsTotal(others, m)
    decreases |rows|
  {
    if rows != [] {
      RowAgree(rows[0], others[0], m);
      RowsAgree(rows[1..], others[1..], m);
    }
  }

  lemma {:induction false} RowAgree(row: seq<Option<Tile>>, other: seq<Option<Tile>>, m: Measure)
    requires |row| == |other|
    requires forall j :: 0 <= j < |row| ==> Weight(m, row[j]) == Weight(m, other[j])
    ensures RowTotal(row, m) == RowTotal(other, m)
    decreases |row|
  {
    if row != [] {
      RowAgree(row[1..], other[1..], m);
    }
  }

  /** Grids whose cells weigh the same have the same total. */
  lemma TotalsAgree(g: Grid, h: Grid, m: Measure)
    requires WellFormed(g) && WellFormed(h) && g.size == h.size
    requires forall p :: Weight(m, CellContent(g, p)) == Weight(m, CellContent(h, p))
    ensures Total(g, m) == Total(h, m)
  {
    forall i, j | 0 <= i < g.size && 0 <= j < g.size
      ensures Weight(m, g.cells[i][j]) == Weight(m, h.cells[i][j])
    {
      assert CellContent(g, Position(i, j)) == g.cells[i][j];
      assert CellContent(h, Position(i, j)) == h.cells[i][j];
    }
    RowsAgree(g.cells, h.cells, m);
  }

  lemma {:induction false} RowsNonNegative(rows: seq<seq<Option<Tile>>>, m: Measure)
    requires IsMark(m)
    ensures RowsTotal(rows, m) >= 0
    decreases |rows|
  {
    if rows != [] {
      RowNonNegative(rows[0], m);
      RowsNonNegative(rows[1..], m);
    }
  }

  lemma {:induction false} RowNonNegative(row: seq<Option<Tile>>, m: Measure)
    requires IsMark(m)
    ensures RowTotal(row, m) >= 0
    decreases |row|
  {
    if row != [] {
      RowNonNegative(row[1..], m);
    }
  }

  /** A total over cells that each weigh at least nothing is at least nothing. */
  lemma TotalNonNegative(g: Grid, m: Measure)
    requires WellFormed(g)
    requires forall p :: Weight(m, CellContent(g, p)) >= 0
    ensures Total(g, m) >= 0
  {
    forall i, j | 0 <= i < g.size && 0 <= j < g.size
      ensures Weight(m, g.cells[i][j]) >= 0
    {
      assert CellContent(g, Position(i, j)) == g.cells[i][j];
    }
    RowsAtLeastZero(g.cells, m);
  }

  lemma {:induction false} RowsAtLeastZero(rows: seq<seq<Option<Tile>>>, m: Measure)
    requires forall i, j :: 0 <= i < |rows| && 0 <= j < |rows[i]| ==> Weight(m, rows[i][j]) >= 0
    ensures RowsTotal(rows, m) >= 0
    decreases |rows|
  {
    if rows != [] {
      RowAtLeastZero(rows[0], m);
      RowsAtLeastZero(rows[1..], m);
    }
  }

  lemma {:induction false} RowAtLeastZero(row: seq<Option<Tile>>, m: Measure)
    requires forall j :: 0 <= j < |row| ==> Weight(m, row[j]) >= 0
    ensures RowTotal(row, m) >= 0
    decreases |row|
  {
    if row != [] {
      RowAtLeastZero(row[1..], m);
    }
  }

  /** A count is at least what any single cell contributes to it. */
  lemma TotalAtLeastCell(g: Grid, p: Position, m: Measure)
    requires WellFormed(g) && IsMark(m)
    ensures Total(g, m) >= 0
    ensures Total(g, m) >= Weight(m, CellContent(g, p))
  {
    RowsNonNegative(g.cells, m);
    if WithinBounds(g, p) {
      TotalSetCell(g, p, None, m);
      RowsNonNegative(SetCell(g, p, None).cells, m);
    }
  }

  lemma {:induction false} RowsPositive(rows: seq<seq<Option<Tile>>>, m: Measure) returns (i: nat, j: nat)
    requires IsMark(m) && RowsTotal(rows, m) > 0
    ensures i < |rows| && j < |rows[i]| && Weight(m, rows[i][j]) > 0
    decreases |rows|
  {
    RowNonNegative(rows[0], m);
    if RowTotal(rows[0], m) > 0 {
      i := 0;
      j := RowPositive(rows[0], m);
    } else {
      RowsNonNegative(rows[1..], m);
      var i', j' := RowsPositive(rows[1..], m);
      i, j := i' + 1, j';
    }
  }

  lemma {:induction false} RowPositive(row: seq<Option<Tile>>, m: Measure) returns (j: nat)
    requires IsMark(m) && RowTotal(row, m) > 0
    ensures j < |row| && Weight(m, row[j]) > 0
    decreases |row|
  {
    if Weight(m, row[0]) > 0 {
      j := 0;
    } else {
      var j' := RowPositive(row[1..], m);
      j := j' + 1;
    }
  }

  /** A count is positive exactly when some cell contributes to it. */
  lemma TotalPositive(g: Grid, m: Measure)
    requires WellFormed(g) && IsMark(m)
    ensures Total(g, m) > 0 <==> exists p :: Weight(m, CellContent(g, p)) > 0
  {
    if Total(g, m) > 0 {
      var i, j := RowsPositive(g.cells, m);
      assert Weight(m, CellContent(g, Position(i, j))) > 0;
    }
    if exists p :: Weight(m, CellContent(g, p)) > 0 {
      var p :| Weight(m, CellContent(g, p)) > 0;
      TotalAtLeastCell(g, p, m);
    }
  }

  /** A total is zero when every cell weighs nothing. */
  lemma TotalZero(g: Grid, m: Measure)
    requires WellFormed(g)
    requires forall p :: Weight(m, CellContent(g, p)) == 0
    ensures Total(g, m) == 0
  {
    forall i, j | 0 <= i < g.size && 0 <= j < g.size
      ensures Weight(m, g.cells[i][j]) == 0
    {
      assert CellContent(g, Position(i, j)) == g.cells[i][j];
    }
    RowsZero(g.cells, m);
  }

  lemma {:induction false} RowsZero(rows: seq<seq<Option<Tile>>>, m: Measure)
    requires forall i, j :: 0 <= i < |rows| && 0 <= j < |rows[i]| ==> Weight(m, rows[i][j]) == 0
    ensures RowsTotal(rows, m) == 0
    decreases |rows|
  {
    if rows != [] {
      RowZero(rows[0], m);
      RowsZero(rows[1..], m);
    }
  }

  lemma {:induction false} RowZero(row: seq<Option<Tile>>, m: Measure)
    requires forall j :: 0 <= j < |row| ==> Weight(m, row[j]) == 0
    ensures RowTotal(row, m) == 0
    decreases |row|
  {
    if row != [] {
      RowZero(row[1..], m);
    }
  }

  /** Every cell of the board is either listed by `availableCells` or holds a tile. */
  lemma AvailablePlusTiles(g: Grid)
    requires WellFormed(g)
    ensures |AvailableCells(g)| + Total(g, Occupancy) == g.size * g.size
  {
    AvailableRowsPlusTiles(g, 0);
  }

  lemma {:induction false} AvailableRowsPlusTiles(g: Grid, x: nat)
    requires WellFormed(g) && x <= g.size
    ensures |AvailableRows(g, x)| + RowsTotal(g.cells[x..], Occupancy) == (g.size - x) * g.size
    decreases g.size - x
  {
    if x < g.size {
      assert g.cells[x..][1..] == g.cells[x + 1..];
      AvailableInRowPlusTiles(g, x, 0);
      AvailableRowsPlusTiles(g, x + 1);
      assert (g.size - x) * g.size == g.size + (g.size - (x + 1)) * g.size;
    }
  }

  lemma {:induction false} AvailableInRowPlusTiles(g: Grid, x: nat, y: nat)
    requires WellFormed(g) && x < g.size && y <= g.size
    ensures |AvailableInRow(g, x, y)| + RowTotal(g.cells[x][y..], Occupancy) == g.size - y
    decreases g.size - y
  {
    if y < g.size {
      assert g.cells[x][y..][1..] == g.cells[x][y + 1..];
      AvailableInRowPlusTiles(g, x, y + 1);
    }
  }
}
