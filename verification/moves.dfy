/** Move resolution: direction vectors, the traversal order, the search for
    the farthest free cell, and the single farthest-first pass that slides
    and merges tiles. */
module Moves {
  import opened Wrappers
  import opened Tiles
  import opened Grids

  /** The four move commands, numbered 0 to 3 in this order by the input layer. */
  datatype Direction = Up | Right | Down | Left

  datatype Vector = Vector(x: int, y: int)

  /** The order in which rows (`x`) and columns (`y`) are visited. */
  datatype Traversals = Traversals(x: seq<int>, y: seq<int>)

  /** The last free cell of a slide and the first cell after it. */
  datatype Farthest = Farthest(farthest: Position, next: Position)

  /** What one pass accumulates: the board, the score gained, whether any
      tile left its cell, whether a merge made the winning value. */
  datatype Sweep = Sweep(grid: Grid, score: int, moved: bool, won: bool)

  predicate Unit(v: Vector) {
    || (v.x == 0 && (v.y == 1 || v.y == -1))
    || (v.y == 0 && (v.x == 1 || v.x == -1))
  }

  /** `getVector`: Up and Down run along `x`, Right and Left along `y`;
      Down and Right point towards larger indices. */
  function GetVector(d: Direction): (v: Vector)
    ensures Unit(v)
    ensures v.x == 1 <==> d.Down?
    ensures v.x == -1 <==> d.Up?
    ensures v.y == 1 <==> d.Right?
    ensures v.y == -1 <==> d.Left?
  {
    match d
    case Up => Vector(-1, 0)
    case Right => Vector(0, 1)
    case Down => Vector(1, 0)
    case Left => Vector(0, -1)
  }

  /** The four directions and the four unit vectors correspond one to one. */
  lemma GetVectorIsBijective(d: Direction, e: Direction, v: Vector)
    ensures GetVector(d) == GetVector(e) ==> d == e
    ensures Unit(v) ==> exists c :: GetVector(c) == v
  {
    if Unit(v) {
      if v.x == 1 { assert GetVector(Down) == v; }
      else if v.x == -1 { assert GetVector(Up) == v; }
      else if v.y == 1 { assert GetVector(Right) == v; }
      else { assert GetVector(Left) == v; }
    }
  }

  function Add(p: Position, v: Vector): Position {
    Position(p.x + v.x, p.y + v.y)
  }

  /** How far along the vector a position lies. */
  function Along(p: Position, v: Vector): int {
    if v.x == 1 then p.x
    else if v.x == -1 then -p.x
    else if v.y == 1 then p.y
    else -p.y
  }

  /** The coordinate the vector does not change: which line a position is on. */
  function Across(p: Position, v: Vector): int {
    if v.x != 0 then p.y else p.x
  }

  lemma StepAlong(p: Position, v: Vector)
    requires Unit(v)
    ensures Along(Add(p, v), v) == Along(p, v) + 1
    ensures Across(Add(p, v), v) == Across(p, v)
  {
  }

  /** On a given line, the distance along the line pins a position down. */
  lemma AlongAcrossDetermine(p: Position, q: Position, v: Vector)
    requires Unit(v)
    requires Along(p, v) == Along(q, v) && Across(p, v) == Across(q, v)
    ensures p == q
  {
  }

  /** Where coordinate `c` comes in the traversal of an axis whose vector
      component is `comp`: reversed exactly when `comp` is +1. */
  function Rank(size: int, c: int, comp: int): int {
    if comp == 1 then size - 1 - c else c
  }

  function Reverse(s: seq<int>): (r: seq<int>)
    ensures |r| == |s|
    ensures forall i :: 0 <= i < |s| ==> r[i] == s[|s| - 1 - i]
  {
    seq(|s|, i requires 0 <= i < |s| => s[|s| - 1 - i])
  }

  /** `buildTraversals`: each axis lists every index once; the `k`-th entry
      is the index of rank `k`, so the axis runs backwards exactly when the
      vector points towards larger indices on it. */
  function BuildTraversals(size: nat, v: Vector): (t: Traversals)
    ensures |t.x| == size && |t.y| == size
    ensures forall k :: 0 <= k < size ==> 0 <= t.x[k] < size && Rank(size, t.x[k], v.x) == k
    ensures forall k :: 0 <= k < size ==> 0 <= t.y[k] < size && Rank(size, t.y[k], v.y) == k
  {
    var ordered := seq(size, k => k);
    Traversals(if v.x == 1 then Reverse(ordered) else ordered,
               if v.y == 1 then Reverse(ordered) else ordered)
  }

  /** How many steps along `v` may still land on the board; the search below shrinks it. */
  function Room(size: int, p: Position, v: Vector): nat {
    var k := if v.x == 1 then size - p.x
             else if v.x == -1 then p.x + 1
             else if v.y == 1 then size - p.y
             else p.y + 1;
    if k < 0 then 0 else k
  }

  /** `findFarthestPosition`: walks from `cell` along `v` while the next cell
      is on the board and free. `farthest` is `cell` or a free cell on that
      walk, every cell passed is free, and `next`, one step beyond, is the
      first cell off the board or occupied. */
  function FindFarthestPosition(g: Grid, cell: Position, v: Vector): (r: Farthest)
    requires WellFormed(g) && Unit(v)
    ensures r.next == Add(r.farthest, v)
    ensures !(WithinBounds(g, r.next) && Available(g, r.next))
    ensures Across(r.farthest, v) == Across(cell, v) && Along(r.farthest, v) >= Along(cell, v)
    ensures r.farthest == cell || (WithinBounds(g, r.farthest) && Available(g, r.farthest))
    ensures forall q :: Across(q, v) == Across(cell, v) && Along(cell, v) < Along(q, v) <= Along(r.farthest, v)
                        ==> WithinBounds(g, q) && Available(g, q)
    decreases Room(g.size, cell, v)
  {
    var next := Add(cell, v);
    StepAlong(cell, v);
    if WithinBounds(g, next) && Available(g, next) then
      var r := FindFarthestPosition(g, next, v);
      assert forall q :: Across(q, v) == Across(cell, v) && Along(q, v) == Along(next, v) ==> q == next by {
        forall q | Across(q, v) == Across(cell, v) && Along(q, v) == Along(next, v)
          ensures q == next
        {
          AlongAcrossDetermine(q, next, v);
        }
      }
      r
    else
      Farthest(cell, next)
  }

  /** The test of `tileMatchesAvailable` for one tile and one direction: the
      neighbouring cell holds a tile of the same value. */
  predicate AdjacentEqual(g: Grid, p: Position, d: Direction)
    requires WellFormed(g)
  {
    && CellContent(g, p).Some?
    && CellContent(g, Add(p, GetVector(d))).Some?
    && CellContent(g, Add(p, GetVector(d))).value.value == CellContent(g, p).value.value
  }

  /** A tile as `prepareTiles` leaves it: no merge record, its position saved. */
  function PrepareCell(c: Option<Tile>): Option<Tile> {
    match c
    case None => None
    case Some(t) => Some(SavePosition(t).(mergedFrom := None))
  }

  /** Every tile is as `prepareTiles` leaves it. */
  ghost predicate Prepared(g: Grid)
    requires WellFormed(g)
  {
    forall p :: CellContent(g, p).Some? ==>
      && CellContent(g, p).value.mergedFrom.None?
      && CellContent(g, p).value.previousPosition == Some(CellContent(g, p).value.Pos())
  }

  /** `prepareTiles`: every tile forgets its merge record and saves its
      position; which cells hold tiles, and the tiles' positions and values,
      do not change. */
  function PrepareTiles(g: Grid): (r: Grid)
    requires WellFormed(g)
    ensures WellFormed(r) && r.size == g.size && Prepared(r)
    ensures forall p :: CellContent(r, p).Some? == CellContent(g, p).Some?
    ensures forall p :: CellContent(g, p).Some? ==>
      CellContent(r, p).value.Pos() == CellContent(g, p).value.Pos() &&
      CellContent(r, p).value.value == CellContent(g, p).value.value
    ensures Valid(g) ==> Valid(r)
  {
    Grid(g.size, seq(g.size, x requires 0 <= x < g.size =>
      seq(g.size, y requires 0 <= y < g.size => PrepareCell(g.cells[x][y]))))
  }

  /** Preparing twice is preparing once, and a prepared grid is left as it is. */
  lemma PrepareTilesIdempotent(g: Grid)
    requires WellFormed(g)
    ensures PrepareTiles(PrepareTiles(g)) == PrepareTiles(g)
    ensures Prepared(g) ==> PrepareTiles(g) == g
  {
    var r := PrepareTiles(g);
    assert PrepareTiles(r).cells == r.cells by {
      forall x | 0 <= x < g.size
        ensures PrepareTiles(r).cells[x] == r.cells[x]
      {
        forall y | 0 <= y < g.size
          ensures PrepareTiles(r).cells[x][y] == r.cells[x][y]
        {
          assert CellContent(r, Position(x, y)) == r.cells[x][y];
        }
      }
    }
    if Prepared(g) {
      assert r.cells == g.cells by {
        forall x | 0 <= x < g.size
          ensures r.cells[x] == g.cells[x]
        {
          forall y | 0 <= y < g.size
            ensures r.cells[x][y] == g.cells[x][y]
          {
            assert CellContent(g, Position(x, y)) == g.cells[x][y];
          }
        }
      }
    }
  }

  /** `moveTile`: clears the tile's cell, then stores the tile, relocated, at
      `cell`; every other cell keeps its content, and moving a tile onto its
      own cell changes nothing. */
  function MoveTile(g: Grid, t: Tile, cell: Position): (r: Grid)
    requires WellFormed(g) && WithinBounds(g, t.Pos()) && WithinBounds(g, cell)
    ensures WellFormed(r) && r.size == g.size
    ensures CellContent(r, cell) == Some(UpdatePosition(t, cell))
    ensures cell != t.Pos() ==> Available(r, t.Pos())
    ensures forall q :: q != cell && q != t.Pos() ==> CellContent(r, q) == CellContent(g, q)
    ensures CellContent(g, t.Pos()) == Some(t) && cell == t.Pos() ==> r == g
  {
    var cleared := SetCell(g, t.Pos(), None);
    SetCellAgain(g, t.Pos(), None, Some(t));
    SetCell(cleared, cell, Some(UpdatePosition(t, cell)))
  }

  /** The tile `move` creates when `tile` merges into `target` at `at`. */
  function MergedTile(tile: Tile, target: Tile, at: Position): (r: Tile)
    ensures r.Pos() == at && r.previousPosition.None?
    ensures tile.value != 0 ==> r.value == 2 * tile.value
    ensures r.mergedFrom == Some(Merge(UpdatePosition(tile, at), target))
    ensures tile.value == target.value && tile.value != 0 ==> r.value == tile.value + target.value
    ensures IsTileValue(tile.value) ==> IsTileValue(r.value)
    ensures r.mergedFrom.value.first.Pos() == at && r.mergedFrom.value.first.value == tile.value
  {
    assert IsTileValue(tile.value) ==> IsTileValue(2 * tile.value) by {
      if IsTileValue(tile.value) {
        DoubleTileValue(tile.value);
      }
    }
    NewTile(at, tile.value * 2).(mergedFrom := Some(Merge(UpdatePosition(tile, at), target)))
  }

  /** The merge rule: the first blocking cell holds a tile of equal value
      that is not itself the product of a merge in this move. */
  predicate CanMerge(tile: Tile, next: Option<Tile>) {
    next.Some? && next.value.value == tile.value && next.value.mergedFrom.None?
  }

  /** The body of the traversal loop for one cell: an empty cell is skipped;
      a tile merges into `next` when the merge rule allows it and otherwise
      slides to `farthest`. The position invariant is kept. */
  function Visit(s: Sweep, v: Vector, cell: Position): (r: Sweep)
    requires Valid(s.grid) && Unit(v)
    ensures Valid(r.grid) && r.grid.size == s.grid.size
    ensures s.moved ==> r.moved
    ensures s.won ==> r.won
  {
    match CellContent(s.grid, cell)
    case None => s
    case Some(tile) =>
      var positions := FindFarthestPosition(s.grid, cell, v);
      var next := CellContent(s.grid, positions.next);
      if CanMerge(tile, next) then
        var merged := MergedTile(tile, next.value, positions.next);
        var grid := RemoveTile(InsertTile(s.grid, merged), tile);
        assert Valid(grid) by {
          forall p | CellContent(grid, p).Some?
            ensures CellContent(grid, p).value.Pos() == p
          {
            if p != positions.next {
              assert CellContent(grid, p) == CellContent(s.grid, p);
            }
          }
        }
        Sweep(grid, s.score + merged.value, s.moved || cell != positions.next,
              s.won || merged.value == WinningValue)
      else
        var grid := MoveTile(s.grid, tile, positions.farthest);
        assert Valid(grid) by {
          forall p | CellContent(grid, p).Some?
            ensures CellContent(grid, p).value.Pos() == p
          {
            if p != positions.farthest {
              assert CellContent(grid, p) == CellContent(s.grid, p);
            }
          }
        }
        Sweep(grid, s.score, s.moved || cell != positions.farthest, s.won)
  }

  /** The inner `forEach`: visits row `t.x[i]` at columns `t.y[j..]`. */
  function SweepRow(s: Sweep, v: Vector, t: Traversals, i: nat, j: nat): (r: Sweep)
    requires Valid(s.grid) && Unit(v) && i < |t.x| && j <= |t.y|
    ensures Valid(r.grid) && r.grid.size == s.grid.size
    ensures s.moved ==> r.moved
    ensures s.won ==> r.won
    decreases |t.y| - j
  {
    if j == |t.y| then s
    else SweepRow(Visit(s, v, Position(t.x[i], t.y[j])), v, t, i, j + 1)
  }

  /** The outer `forEach`: visits rows `t.x[i..]`. */
  function SweepRows(s: Sweep, v: Vector, t: Traversals, i: nat): (r: Sweep)
    requires Valid(s.grid) && Unit(v) && i <= |t.x|
    ensures Valid(r.grid) && r.grid.size == s.grid.size
    ensures s.moved ==> r.moved
    ensures s.won ==> r.won
    decreases |t.x| - i
  {
    if i == |t.x| then s
    else SweepRows(SweepRow(s, v, t, i, 0), v, t, i + 1)
  }

  /** The part of `move` between the termination check and the spawn: prepare
      the tiles, then one farthest-first pass. The score and win flag start at
      zero and false, so they report what this move adds. */
  function Slide(g: Grid, d: Direction): (r: Sweep)
    requires Valid(g)
    ensures Valid(r.grid) && r.grid.size == g.size
  {
    var v := GetVector(d);
    SweepRows(Sweep(PrepareTiles(g), 0, false, false), v, BuildTraversals(g.size, v), 0)
  }
}
