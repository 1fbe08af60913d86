/** The N×N board: `cells[x][y]` holds a tile or nothing. */
module Grids {
  import opened Wrappers
  import opened Tiles

  datatype Grid = Grid(size: nat, cells: seq<seq<Option<Tile>>>)

  /** The serialised form of a grid: its size and, cell by cell, a tile record or null. */
  datatype SerializedGrid = SerializedGrid(size: nat, cells: seq<seq<Option<SerializedTile>>>)

  /** `cells` really is `size` rows of `size` cells. */
  predicate WellFormed(g: Grid) {
    && |g.cells| == g.size
    && forall x :: 0 <= x < |g.cells| ==> |g.cells[x]| == g.size
  }

  predicate WithinBounds(g: Grid, p: Position) {
    0 <= p.x < g.size && 0 <= p.y < g.size
  }

  /** `cellContent`: the cell's tile, and nothing at all outside the board. */
  function CellContent(g: Grid, p: Position): (r: Option<Tile>)
    requires WellFormed(g)
    ensures r.Some? ==> WithinBounds(g, p)
    ensures WithinBounds(g, p) ==> r == g.cells[p.x][p.y]
  {
    if WithinBounds(g, p) then g.cells[p.x][p.y] else None
  }

  predicate Occupied(g: Grid, p: Position)
    requires WellFormed(g)
  {
    CellContent(g, p).Some?
  }

  /** `available` is the negation of `occupied`, so it holds off the board too. */
  predicate Available(g: Grid, p: Position)
    requires WellFormed(g)
  {
    !Occupied(g, p)
  }

  /** The position invariant: every stored tile records the cell it sits in. */
  ghost predicate Valid(g: Grid) {
    && WellFormed(g)
    && forall p :: CellContent(g, p).Some? ==> CellContent(g, p).value.Pos() == p
  }

  /** Every tile carries a tile value. */
  ghost predicate TileValues(g: Grid)
    requires WellFormed(g)
  {
    forall p :: CellContent(g, p).Some? ==> IsTileValue(CellContent(g, p).value.value)
  }

  /** Off the board a cell counts as available; callers must check bounds themselves. */
  lemma AvailableOffBoard(g: Grid, p: Position)
    requires WellFormed(g) && !WithinBounds(g, p)
    ensures Available(g, p) && CellContent(g, p).None?
  {
  }

  /** `new Grid(size)` / `empty()`: a board of `size` rows of `size` empty cells. */
  function Empty(size: nat): (g: Grid)
    ensures Valid(g) && g.size == size
    ensures forall p :: Available(g, p)
  {
    Grid(size, seq(size, _ => seq(size, _ => None)))
  }

  /** Writes one cell; the shared effect of `insertTile`, `removeTile` and `moveTile`. */
  function SetCell(g: Grid, p: Position, c: Option<Tile>): (r: Grid)
    requires WellFormed(g) && WithinBounds(g, p)
    ensures WellFormed(r) && r.size == g.size
    ensures CellContent(r, p) == c
    ensures forall q :: q != p ==> CellContent(r, q) == CellContent(g, q)
  {
    Grid(g.size, g.cells[p.x := g.cells[p.x][p.y := c]])
  }

  /** Writing a cell back with what it holds, or writing it twice, is the same as one write. */
  lemma SetCellAgain(g: Grid, p: Position, a: Option<Tile>, b: Option<Tile>)
    requires WellFormed(g) && WithinBounds(g, p)
    ensures SetCell(g, p, CellContent(g, p)) == g
    ensures SetCell(SetCell(g, p, a), p, b) == SetCell(g, p, b)
  {
    var row := g.cells[p.x];
    assert row[p.y := row[p.y]] == row;
    assert g.cells[p.x := row] == g.cells;
    var once := SetCell(g, p, a);
    assert once.cells[p.x][p.y := b] == row[p.y := b];
    assert once.cells[p.x := once.cells[p.x][p.y := b]] == g.cells[p.x := row[p.y := b]];
  }

  /** `insertTile`: the tile lands on the cell its own position names. */
  function InsertTile(g: Grid, t: Tile): (r: Grid)
    requires WellFormed(g) && WithinBounds(g, t.Pos())
    ensures WellFormed(r) && r.size == g.size
    ensures CellContent(r, t.Pos()) == Some(t)
    ensures forall q :: q != t.Pos() ==> CellContent(r, q) == CellContent(g, q)
  {
    SetCell(g, t.Pos(), Some(t))
  }

  /** `removeTile`: clears the cell the tile's own position names. */
  function RemoveTile(g: Grid, t: Tile): (r: Grid)
    requires WellFormed(g) && WithinBounds(g, t.Pos())
    ensures WellFormed(r) && r.size == g.size
    ensures Available(r, t.Pos())
    ensures forall q :: q != t.Pos() ==> CellContent(r, q) == CellContent(g, q)
  {
    SetCell(g, t.Pos(), None)
  }

  /** Row-major order, the order of `eachCell`. */
  predicate RowMajorBefore(p: Position, q: Position) {
    p.x < q.x || (p.x == q.x && p.y < q.y)
  }

  predicate RowMajorSorted(ps: seq<Position>) {
    forall i, j :: 0 <= i < j < |ps| ==> RowMajorBefore(ps[i], ps[j])
  }

  /** `availableCells`: every empty cell of the board, each once, in row-major order. */
  function AvailableCells(g: Grid): (r: seq<Position>)
    requires WellFormed(g)
    ensures forall p :: p in r <==> WithinBounds(g, p) && Available(g, p)
    ensures RowMajorSorted(r)
  {
    AvailableRows(g, 0)
  }

  /** The empty cells of rows `x` .. size-1. */
  function AvailableRows(g: Grid, x: nat): (r: seq<Position>)
    requires WellFormed(g) && x <= g.size
    ensures forall p :: p in r <==> x <= p.x && WithinBounds(g, p) && Available(g, p)
    ensures RowMajorSorted(r)
    decreases g.size - x
  {
    if x == g.size then []
    else
      var row := AvailableInRow(g, x, 0);
      var rest := AvailableRows(g, x + 1);
      assert forall i, j :: 0 <= i < |row| && 0 <= j < |rest| ==> RowMajorBefore(row[i], rest[j]) by {
        forall i, j | 0 <= i < |row| && 0 <= j < |rest|
          ensures RowMajorBefore(row[i], rest[j])
        {
          assert row[i] in row && rest[j] in rest;
        }
      }
      row + rest
  }

  /** The empty cells of row `x` from column `y` on. */
  function AvailableInRow(g: Grid, x: nat, y: nat): (r: seq<Position>)
    requires WellFormed(g) && x < g.size && y <= g.size
    ensures forall p :: p in r <==> p.x == x && y <= p.y && WithinBounds(g, p) && Available(g, p)
    ensures RowMajorSorted(r)
    ensures forall i :: 0 <= i < |r| ==> r[i].x == x && y <= r[i].y
    decreases g.size - y
  {
    if y == g.size then []
    else
      var rest := AvailableInRow(g, x, y + 1);
      if g.cells[x][y].None? then [Position(x, y)] + rest else rest
  }

  /** `randomAvailableCell`, with `Math.floor(Math.random() * n)` replaced by
      `pick % n`: some empty cell, or nothing when the board is full. */
  function RandomAvailableCell(g: Grid, pick: nat): (r: Option<Position>)
    requires WellFormed(g)
    ensures r.None? <==> forall p :: WithinBounds(g, p) ==> Occupied(g, p)
    ensures r.Some? ==> WithinBounds(g, r.value) && Available(g, r.value)
  {
    var cells := AvailableCells(g);
    if |cells| == 0 then None
    else
      assert cells[pick % |cells|] in cells;
      Some(cells[pick % |cells|])
  }

  /** Every empty cell can be the one `randomAvailableCell` picks. */
  lemma EveryEmptyCellCanBePicked(g: Grid, p: Position)
    requires WellFormed(g) && WithinBounds(g, p) && Available(g, p)
    ensures exists pick: nat :: RandomAvailableCell(g, pick) == Some(p)
  {
    var cells := AvailableCells(g);
    assert p in cells;
    var i :| 0 <= i < |cells| && cells[i] == p;
    ModOfSmaller(i, |cells|);
    assert RandomAvailableCell(g, i) == Some(p);
  }

  lemma ModOfSmaller(i: nat, n: nat)
    requires i < n
    ensures i % n == i
  {
  }

  /** `Grid.serialize`, for a grid that keeps the position invariant. */
  function SerializeGrid(g: Grid): (r: SerializedGrid)
    requires Valid(g)
    ensures r.size == g.size && |r.cells| == g.size
    ensures forall x :: 0 <= x < g.size ==> |r.cells[x]| == g.size
    ensures forall p :: WithinBounds(g, p) ==>
      r.cells[p.x][p.y] == if Available(g, p) then None
                           else Some(SerializedTile(p, CellContent(g, p).value.value))
  {
    SerializedGrid(g.size, seq(g.size, x requires 0 <= x < g.size =>
      seq(g.size, y requires 0 <= y < g.size =>
        if g.cells[x][y].Some? then Some(SerializeTile(g.cells[x][y].value)) else None)))
  }

  /** Two boards with the same occupancy and the same values cell by cell. */
  ghost predicate SameBoard(g: Grid, h: Grid)
    requires WellFormed(g) && WellFormed(h)
  {
    && g.size == h.size
    && forall p :: WithinBounds(g, p) ==>
         && CellContent(g, p).Some? == CellContent(h, p).Some?
         && (CellContent(g, p).Some? ==> CellContent(g, p).value.value == CellContent(h, p).value.value)
  }

  /** Serialisation forgets exactly the per-move annotations: two valid grids
      serialise alike if and only if they hold the same values in the same cells. */
  lemma SerializeGridIsBoard(g: Grid, h: Grid)
    requires Valid(g) && Valid(h)
    ensures SerializeGrid(g) == SerializeGrid(h) <==> SameBoard(g, h)
  {
    var sg, sh := SerializeGrid(g), SerializeGrid(h);
    if sg == sh {
      forall p | WithinBounds(g, p)
        ensures CellContent(g, p).Some? == CellContent(h, p).Some?
        ensures CellContent(g, p).Some? ==> CellContent(g, p).value.value == CellContent(h, p).value.value
      {
        assert sg.cells[p.x][p.y] == sh.cells[p.x][p.y];
      }
    }
    if SameBoard(g, h) {
      assert |sg.cells| == |sh.cells|;
      forall x | 0 <= x < g.size
        ensures sg.cells[x] == sh.cells[x]
      {
        forall y | 0 <= y < g.size
          ensures sg.cells[x][y] == sh.cells[x][y]
        {
          assert WithinBounds(g, Position(x, y));
        }
      }
    }
  }
}
