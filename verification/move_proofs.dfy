/** Properties of one farthest-first pass. The pass is proved against an
    invariant that holds after every visited cell: cells not yet visited are
    as `prepareTiles` left them, visited tiles are packed against the wall
    they move towards, and the counts of tiles, values, merges and score
    balance. */
module MoveProofs {
  import opened Wrappers
  import opened Tiles
  import opened Grids
  import opened Tally
  import opened Moves

  /** The cells the pass has visited once it is at column index `j` of row index `i`. */
  ghost predicate Visited(n: int, v: Vector, i: int, j: int, p: Position) {
    && 0 <= p.x < n && 0 <= p.y < n
    && (Rank(n, p.x, v.x) < i || (Rank(n, p.x, v.x) == i && Rank(n, p.y, v.y) < j))
  }

  /** A tile is packed when the cell one step further along `v` is off the board or occupied. */
  ghost predicate PackedAt(g: Grid, v: Vector, p: Position)
    requires WellFormed(g)
  {
    Occupied(g, p) && WithinBounds(g, Add(p, v)) ==> Occupied(g, Add(p, v))
  }

  /** The tile on `p` could still merge into the tile one step further along
      `v`: it is not a merge product, and the merge rule allows it. */
  ghost predicate MergeableAt(g: Grid, v: Vector, p: Position)
    requires WellFormed(g)
  {
    && CellContent(g, p).Some? && CellContent(g, p).value.mergedFrom.None?
    && CanMerge(CellContent(g, p).value, CellContent(g, Add(p, v)))
  }

  /** Every merge product was made from two tiles of equal value, neither of
      them itself a merge product, both now on the product's cell. */
  ghost predicate MergesAreSingle(g: Grid)
    requires WellFormed(g)
  {
    forall p :: CellContent(g, p).Some? && CellContent(g, p).value.mergedFrom.Some? ==>
      var t := CellContent(g, p).value;
      var m := t.mergedFrom.value;
      && m.first.mergedFrom.None? && m.second.mergedFrom.None?
      && m.first.value == m.second.value
      && t.value == m.first.value + m.second.value
      && m.first.Pos() == p && m.second.Pos() == p
  }

  /** The board side of the pass invariant: the position invariant, cells
      not yet visited as the pass found them, visited tiles packed. */
  ghost predicate Frame(g0: Grid, v: Vector, i: int, j: int, g: Grid)
    requires WellFormed(g0)
  {
    && Valid(g) && g.size == g0.size
    && (forall p {:trigger CellContent(g, p)} :: !Visited(g0.size, v, i, j, p) ==> CellContent(g, p) == CellContent(g0, p))
    && (forall p {:trigger PackedAt(g, v, p)} :: Visited(g0.size, v, i, j, p) ==> PackedAt(g, v, p))
  }

  /** The merge side of the pass invariant: no visited tile could still merge
      into the tile ahead of it. */
  ghost predicate Settled(g0: Grid, v: Vector, i: int, j: int, g: Grid)
    requires WellFormed(g0) && WellFormed(g)
  {
    forall p {:trigger MergeableAt(g, v, p)} :: Visited(g0.size, v, i, j, p) ==> !MergeableAt(g, v, p)
  }

  /** The tile side: merges are single and values stay tile values. */
  ghost predicate TileFacts(g: Grid)
    requires WellFormed(g)
  {
    MergesAreSingle(g) && TileValues(g)
  }

  /** The accounting side: value sum kept, one tile fewer per merge, score
      and flags read off the merge products and displaced tiles. */
  ghost predicate Balance(g0: Grid, s: Sweep)
    requires WellFormed(g0) && WellFormed(s.grid)
  {
    && Total(s.grid, Values) == Total(g0, Values)
    && Total(s.grid, Occupancy) + Total(s.grid, Merges) == Total(g0, Occupancy)
    && s.score == Total(s.grid, MergedValues)
    && (s.won <==> Total(s.grid, Wins) > 0)
    && (s.moved <==> Total(s.grid, Displacements) > 0)
    && (s.moved ==> |AvailableCells(s.grid)| > 0)
    && (!s.moved ==> s.grid == g0)
  }

  /** What holds of the pass after the cells of rank below (`i`, `j`), given
      that it started from the prepared grid `g0` with no score and no flags. */
  ghost predicate SweepInv(g0: Grid, v: Vector, i: int, j: int, s: Sweep)
    requires WellFormed(g0)
  {
    Frame(g0, v, i, j, s.grid) && Settled(g0, v, i, j, s.grid) && TileFacts(s.grid) && Balance(g0, s)
  }

  /** The grid a pass starts from. */
  ghost predicate Start(g0: Grid)
  {
    Valid(g0) && Prepared(g0) && TileValues(g0)
  }

  /** A cell further along `v` on the same line as the cell being visited has
      already been visited: the traversal goes farthest first. */
  lemma AheadVisited(n: int, v: Vector, i: int, j: int, c: Position, q: Position)
    requires Unit(v)
    requires Rank(n, c.x, v.x) == i && Rank(n, c.y, v.y) == j
    requires 0 <= q.x < n && 0 <= q.y < n
    requires Across(q, v) == Across(c, v) && Along(q, v) > Along(c, v)
    ensures Visited(n, v, i, j, q)
  {
  }

  /** The visited cells are closed under stepping along `v` within the board. */
  lemma VisitedClosedAhead(n: int, v: Vector, i: int, j: int, p: Position, q: Position)
    requires Unit(v) && Visited(n, v, i, j, p)
    requires 0 <= q.x < n && 0 <= q.y < n
    requires Across(q, v) == Across(p, v) && Along(q, v) > Along(p, v)
    ensures Visited(n, v, i, j, q)
  {
  }

  /** The cell of ranks (`i`, `j`) is the only one visited at `j + 1` but not at `j`. */
  lemma VisitedNext(n: int, v: Vector, i: int, j: int, c: Position, p: Position)
    requires Unit(v)
    requires 0 <= c.x < n && 0 <= c.y < n
    requires Rank(n, c.x, v.x) == i && Rank(n, c.y, v.y) == j
    ensures Visited(n, v, i, j + 1, p) <==> Visited(n, v, i, j, p) || p == c
  {
  }

  lemma FreeCellLeavesRoom(g: Grid, p: Position)
    requires WellFormed(g) && WithinBounds(g, p) && Available(g, p)
    ensures |AvailableCells(g)| > 0
  {
    assert p in AvailableCells(g);
  }

  /** The pass starts in the invariant. */
  lemma SweepInvInit(g0: Grid, v: Vector)
    requires Start(g0)
    ensures SweepInv(g0, v, 0, 0, Sweep(g0, 0, false, false))
  {
    TotalZero(g0, Merges);
    TotalZero(g0, MergedValues);
    TotalZero(g0, Wins);
    TotalZero(g0, Displacements);
  }

  /** The tile found on the visited cell is as the pass found it: prepared,
      sitting on its cell, with a tile value. */
  lemma VisitedTile(g0: Grid, v: Vector, i: int, j: int, c: Position, g: Grid)
    requires Start(g0) && Frame(g0, v, i, j, g)
    requires WithinBounds(g0, c) && Rank(g0.size, c.x, v.x) == i && Rank(g0.size, c.y, v.y) == j
    requires CellContent(g, c).Some?
    ensures var tile := CellContent(g, c).value;
      && CellContent(g0, c) == Some(tile)
      && tile.Pos() == c && tile.mergedFrom.None? && tile.previousPosition == Some(c)
      && IsTileValue(tile.value)
  {
    assert !Visited(g0.size, v, i, j, c);
  }

  /** After a visit that empties the visited cell `c` and fills `dst`,
      further along the same line, the visited tiles are still packed. */
  lemma PackedAfterVisit(sg: Grid, g: Grid, v: Vector, i: int, j: int, c: Position, dst: Position)
    requires Unit(v) && WellFormed(sg) && WellFormed(g) && g.size == sg.size
    requires WithinBounds(sg, c) && Rank(sg.size, c.x, v.x) == i && Rank(sg.size, c.y, v.y) == j
    requires WithinBounds(sg, dst) && Across(dst, v) == Across(c, v) && Along(dst, v) > Along(c, v)
    requires forall q :: q != c && q != dst ==> CellContent(g, q) == CellContent(sg, q)
    requires Available(g, c) && Occupied(g, dst)
    requires WithinBounds(sg, Add(dst, v)) ==> Occupied(sg, Add(dst, v))
    requires forall p {:trigger PackedAt(sg, v, p)} :: Visited(sg.size, v, i, j, p) ==> PackedAt(sg, v, p)
    ensures forall p {:trigger PackedAt(g, v, p)} :: Visited(sg.size, v, i, j + 1, p) ==> PackedAt(g, v, p)
  {
    var n := sg.size;
    StepAlong(dst, v);
    forall p | Visited(n, v, i, j + 1, p)
      ensures PackedAt(g, v, p)
    {
      VisitedNext(n, v, i, j, c, p);
      if p != c && p != dst && Occupied(g, p) && WithinBounds(g, Add(p, v)) {
        assert PackedAt(sg, v, p);
        StepAlong(p, v);
        if Add(p, v) == c {
          VisitedClosedAhead(n, v, i, j, p, c);
        }
      }
    }
  }

  /** After a visit that empties the visited cell `c` and writes `dst`, no
      visited tile can still merge, given that neither the tile on `dst` nor
      the one behind it can. */
  lemma SettledAfterVisit(g0: Grid, sg: Grid, g: Grid, v: Vector, i: int, j: int, c: Position, dst: Position)
    requires Unit(v) && WellFormed(g0) && WellFormed(sg) && WellFormed(g)
    requires WithinBounds(g0, c) && Rank(g0.size, c.x, v.x) == i && Rank(g0.size, c.y, v.y) == j
    requires forall q :: q != c && q != dst ==> CellContent(g, q) == CellContent(sg, q)
    requires Available(g, c) && !MergeableAt(g, v, dst)
    requires forall p :: Add(p, v) == dst ==> !MergeableAt(g, v, p)
    requires Settled(g0, v, i, j, sg)
    ensures Settled(g0, v, i, j + 1, g)
  {
    var n := g0.size;
    forall p | Visited(n, v, i, j + 1, p)
      ensures !MergeableAt(g, v, p)
    {
      VisitedNext(n, v, i, j, c, p);
      if p != c && p != dst && Add(p, v) != dst {
        StepAlong(p, v);
        if Add(p, v) == c {
          VisitedClosedAhead(n, v, i, j, p, c);
        }
        assert !MergeableAt(sg, v, p);
      }
    }
  }

  /** A visit that only writes the visited cell and one already visited keeps
      the unvisited cells as they were at the start of the pass. */
  lemma UnvisitedAfterVisit(g0: Grid, sg: Grid, g: Grid, v: Vector, i: int, j: int, c: Position, dst: Position)
    requires Unit(v) && WellFormed(g0) && WellFormed(sg) && WellFormed(g)
    requires WithinBounds(g0, c) && Rank(g0.size, c.x, v.x) == i && Rank(g0.size, c.y, v.y) == j
    requires Visited(g0.size, v, i, j, dst)
    requires forall q :: q != c && q != dst ==> CellContent(g, q) == CellContent(sg, q)
    requires forall p {:trigger CellContent(sg, p)} :: !Visited(g0.size, v, i, j, p) ==> CellContent(sg, p) == CellContent(g0, p)
    ensures forall p {:trigger CellContent(g, p)} :: !Visited(g0.size, v, i, j + 1, p) ==> CellContent(g, p) == CellContent(g0, p)
  {
    forall p | !Visited(g0.size, v, i, j + 1, p)
      ensures CellContent(g, p) == CellContent(g0, p)
    {
      VisitedNext(g0.size, v, i, j, c, p);
    }
  }

  /** A visit that empties `c` and stores `t`, which sits on `dst`, at `dst`
      keeps the position invariant. */
  lemma ValidAfterVisit(sg: Grid, g: Grid, c: Position, dst: Position, t: Tile)
    requires Valid(sg) && WellFormed(g)
    requires forall q :: q != c && q != dst ==> CellContent(g, q) == CellContent(sg, q)
    requires CellContent(g, c).None? && CellContent(g, dst) == Some(t) && t.Pos() == dst
    ensures Valid(g)
  {
    forall p | CellContent(g, p).Some?
      ensures CellContent(g, p).value.Pos() == p
    {
      if p != dst {
        assert CellContent(g, p) == CellContent(sg, p);
      }
    }
  }

  /** A visit that empties `c` and stores `t` at `dst` keeps the tile-level
      facts, provided `t` satisfies them. */
  lemma TilesAfterVisit(sg: Grid, g: Grid, c: Position, dst: Position, t: Tile)
    requires WellFormed(sg) && WellFormed(g)
    requires forall q :: q != c && q != dst ==> CellContent(g, q) == CellContent(sg, q)
    requires CellContent(g, c).None? && CellContent(g, dst) == Some(t)
    requires TileFacts(sg) && IsTileValue(t.value)
    requires t.mergedFrom.Some? ==>
      var m := t.mergedFrom.value;
      && m.first.mergedFrom.None? && m.second.mergedFrom.None?
      && m.first.value == m.second.value
      && t.value == m.first.value + m.second.value
      && m.first.Pos() == dst && m.second.Pos() == dst
    ensures TileFacts(g)
  {
    forall p | CellContent(g, p).Some?
      ensures IsTileValue(CellContent(g, p).value.value)
    {
      if p != dst {
        assert CellContent(g, p) == CellContent(sg, p);
      }
    }
    forall p | CellContent(g, p).Some? && CellContent(g, p).value.mergedFrom.Some? && p != dst
      ensures CellContent(g, p) == CellContent(sg, p)
    {
    }
  }

  /** A slide moves one unmerged, undisplaced tile to a free cell: only the
      count of displaced tiles changes, by one. */
  lemma SlideTotals(sg: Grid, tile: Tile, f: Position)
    requires WellFormed(sg) && WithinBounds(sg, tile.Pos()) && WithinBounds(sg, f) && f != tile.Pos()
    requires CellContent(sg, tile.Pos()) == Some(tile) && Available(sg, f)
    requires tile.mergedFrom.None? && tile.previousPosition == Some(tile.Pos())
    ensures forall m :: m != Displacements ==> Total(MoveTile(sg, tile, f), m) == Total(sg, m)
    ensures Total(MoveTile(sg, tile, f), Displacements) == Total(sg, Displacements) + 1
  {
    var cleared := SetCell(sg, tile.Pos(), None);
    var moved := Some(UpdatePosition(tile, f));
    assert MoveTile(sg, tile, f) == SetCell(cleared, f, moved);
    forall m: Measure
      ensures Total(MoveTile(sg, tile, f), m) == Total(sg, m) - Weight(m, Some(tile)) + Weight(m, moved)
    {
      TotalSetCell(sg, tile.Pos(), None, m);
      TotalSetCell(cleared, f, moved, m);
    }
  }

  /** A merge removes one unmerged, undisplaced tile and replaces an
      unmerged tile of the same value by their merge product. */
  lemma MergeTotals(sg: Grid, tile: Tile, target: Tile, nx: Position)
    requires WellFormed(sg) && WithinBounds(sg, tile.Pos()) && WithinBounds(sg, nx) && nx != tile.Pos()
    requires CellContent(sg, tile.Pos()) == Some(tile) && CellContent(sg, nx) == Some(target)
    requires tile.mergedFrom.None? && tile.previousPosition == Some(tile.Pos())
    requires target.mergedFrom.None? && target.value == tile.value && tile.value != 0
    ensures var g := RemoveTile(InsertTile(sg, MergedTile(tile, target, nx)), tile);
      && Total(g, Occupancy) == Total(sg, Occupancy) - 1
      && Total(g, Merges) == Total(sg, Merges) + 1
      && Total(g, Values) == Total(sg, Values)
      && Total(g, MergedValues) == Total(sg, MergedValues) + 2 * tile.value
      && Total(g, Wins) == Total(sg, Wins) + (if 2 * tile.value == WinningValue then 1 else 0)
      && Total(g, Displacements) == Total(sg, Displacements) - Weight(Displacements, Some(target)) + 1
  {
    var merged := MergedTile(tile, target, nx);
    var inserted := InsertTile(sg, merged);
    assert CellContent(inserted, tile.Pos()) == Some(tile);
    forall m: Measure
      ensures Total(RemoveTile(inserted, tile), m)
              == Total(sg, m) - Weight(m, Some(target)) + Weight(m, Some(merged)) - Weight(m, Some(tile))
    {
      TotalSetCell(sg, nx, Some(merged), m);
      TotalSetCell(inserted, tile.Pos(), None, m);
    }
  }

  /** The board side of a slide of the tile on `c` to the free cell `f`
      further along its line, where the cell after `f` is blocked. */
  lemma SlideFrame(g0: Grid, v: Vector, i: int, j: int, c: Position, g: Grid, tile: Tile, f: Position)
    requires WellFormed(g0) && Unit(v) && Frame(g0, v, i, j, g)
    requires WithinBounds(g0, c) && Rank(g0.size, c.x, v.x) == i && Rank(g0.size, c.y, v.y) == j
    requires CellContent(g, c) == Some(tile) && tile.Pos() == c
    requires WithinBounds(g0, f) && Available(g, f) && f != c
    requires Across(f, v) == Across(c, v) && Along(f, v) > Along(c, v)
    requires WithinBounds(g0, Add(f, v)) ==> Occupied(g, Add(f, v))
    ensures Frame(g0, v, i, j + 1, MoveTile(g, tile, f))
  {
    var r := MoveTile(g, tile, f);
    ValidAfterVisit(g, r, c, f, UpdatePosition(tile, f));
    AheadVisited(g0.size, v, i, j, c, f);
    PackedAfterVisit(g, r, v, i, j, c, f);
    UnvisitedAfterVisit(g0, g, r, v, i, j, c, f);
  }

  /** The merge side of a slide: the tile stops short of `next` only when the
      merge rule forbids the merge, and every cell it passed stays empty. */
  lemma SlideSettled(g0: Grid, v: Vector, i: int, j: int, c: Position, g: Grid, tile: Tile, f: Position)
    requires WellFormed(g0) && Unit(v) && Valid(g) && g.size == g0.size && Settled(g0, v, i, j, g)
    requires WithinBounds(g0, c) && Rank(g0.size, c.x, v.x) == i && Rank(g0.size, c.y, v.y) == j
    requires CellContent(g, c) == Some(tile) && tile.Pos() == c
    requires WithinBounds(g0, f) && f != c
    requires Across(f, v) == Across(c, v) && Along(f, v) > Along(c, v)
    requires forall q :: Across(q, v) == Across(c, v) && Along(c, v) < Along(q, v) <= Along(f, v)
                         ==> WithinBounds(g, q) && Available(g, q)
    requires !CanMerge(tile, CellContent(g, Add(f, v)))
    ensures Settled(g0, v, i, j + 1, MoveTile(g, tile, f))
  {
    var r := MoveTile(g, tile, f);
    StepAlong(f, v);
    assert Add(f, v) != c;
    assert !MergeableAt(r, v, f);
    forall p | Add(p, v) == f
      ensures !MergeableAt(r, v, p)
    {
      StepAlong(p, v);
      if Along(p, v) == Along(c, v) {
        AlongAcrossDetermine(p, c, v);
      } else {
        assert Available(g, p);
      }
    }
    SettledAfterVisit(g0, g, r, v, i, j, c, f);
  }

  lemma SlideTileFacts(g: Grid, tile: Tile, f: Position)
    requires WellFormed(g) && TileFacts(g)
    requires WithinBounds(g, tile.Pos()) && CellContent(g, tile.Pos()) == Some(tile)
    requires WithinBounds(g, f) && f != tile.Pos()
    requires tile.mergedFrom.None? && IsTileValue(tile.value)
    ensures TileFacts(MoveTile(g, tile, f))
  {
    TilesAfterVisit(g, MoveTile(g, tile, f), tile.Pos(), f, UpdatePosition(tile, f));
  }

  lemma SlideBalance(g0: Grid, s: Sweep, tile: Tile, f: Position)
    requires WellFormed(g0) && WellFormed(s.grid) && Balance(g0, s)
    requires WithinBounds(s.grid, tile.Pos()) && CellContent(s.grid, tile.Pos()) == Some(tile)
    requires WithinBounds(s.grid, f) && Available(s.grid, f) && f != tile.Pos()
    requires tile.mergedFrom.None? && tile.previousPosition == Some(tile.Pos())
    ensures Balance(g0, Sweep(MoveTile(s.grid, tile, f), s.score, true, s.won))
  {
    var g := MoveTile(s.grid, tile, f);
    SlideTotals(s.grid, tile, f);
    assert Total(g, Values) == Total(s.grid, Values);
    assert Total(g, Occupancy) == Total(s.grid, Occupancy);
    assert Total(g, Merges) == Total(s.grid, Merges);
    assert Total(g, MergedValues) == Total(s.grid, MergedValues);
    assert Total(g, Wins) == Total(s.grid, Wins);
    TotalAtLeastCell(s.grid, f, Displacements);
    FreeCellLeavesRoom(g, tile.Pos());
  }

  /** The board side of a merge of the tile on `c` into `target`, the first
      tile further along its line. */
  lemma MergeFrame(g0: Grid, v: Vector, i: int, j: int, c: Position, g: Grid, tile: Tile, target: Tile, nx: Position)
    requires WellFormed(g0) && Unit(v) && Frame(g0, v, i, j, g)
    requires WithinBounds(g0, c) && Rank(g0.size, c.x, v.x) == i && Rank(g0.size, c.y, v.y) == j
    requires CellContent(g, c) == Some(tile) && tile.Pos() == c
    requires CellContent(g, nx) == Some(target)
    requires Across(nx, v) == Across(c, v) && Along(nx, v) > Along(c, v)
    ensures Frame(g0, v, i, j + 1, RemoveTile(InsertTile(g, MergedTile(tile, target, nx)), tile))
  {
    var merged := MergedTile(tile, target, nx);
    var r := RemoveTile(InsertTile(g, merged), tile);
    ValidAfterVisit(g, r, c, nx, merged);
    AheadVisited(g0.size, v, i, j, c, nx);
    assert PackedAt(g, v, nx);
    PackedAfterVisit(g, r, v, i, j, c, nx);
    UnvisitedAfterVisit(g0, g, r, v, i, j, c, nx);
  }

  /** The merge side of a merge: the product is a merge product, so neither it
      nor the tile behind it can merge again. */
  lemma MergeSettled(g0: Grid, v: Vector, i: int, j: int, c: Position, g: Grid, tile: Tile, target: Tile, nx: Position)
    requires WellFormed(g0) && Unit(v) && Valid(g) && g.size == g0.size && Settled(g0, v, i, j, g)
    requires WithinBounds(g0, c) && Rank(g0.size, c.x, v.x) == i && Rank(g0.size, c.y, v.y) == j
    requires CellContent(g, c) == Some(tile) && tile.Pos() == c
    requires CellContent(g, nx) == Some(target) && nx != c
    ensures Settled(g0, v, i, j + 1, RemoveTile(InsertTile(g, MergedTile(tile, target, nx)), tile))
  {
    var r := RemoveTile(InsertTile(g, MergedTile(tile, target, nx)), tile);
    assert CellContent(r, nx).value.mergedFrom.Some?;
    SettledAfterVisit(g0, g, r, v, i, j, c, nx);
  }

  lemma MergeTileFacts(g: Grid, tile: Tile, target: Tile, nx: Position)
    requires Valid(g) && TileFacts(g)
    requires WithinBounds(g, tile.Pos()) && CellContent(g, tile.Pos()) == Some(tile)
    requires CellContent(g, nx) == Some(target) && nx != tile.Pos()
    requires tile.mergedFrom.None? && IsTileValue(tile.value) && CanMerge(tile, Some(target))
    ensures TileFacts(RemoveTile(InsertTile(g, MergedTile(tile, target, nx)), tile))
  {
    var merged := MergedTile(tile, target, nx);
    DoubleTileValue(tile.value);
    TilesAfterVisit(g, RemoveTile(InsertTile(g, merged), tile), tile.Pos(), nx, merged);
  }

  lemma MergeBalance(g0: Grid, s: Sweep, tile: Tile, target: Tile, nx: Position)
    requires WellFormed(g0) && WellFormed(s.grid) && Balance(g0, s)
    requires WithinBounds(s.grid, tile.Pos()) && CellContent(s.grid, tile.Pos()) == Some(tile)
    requires CellContent(s.grid, nx) == Some(target) && nx != tile.Pos()
    requires tile.mergedFrom.None? && tile.previousPosition == Some(tile.Pos())
    requires IsTileValue(tile.value) && CanMerge(tile, Some(target))
    ensures var merged := MergedTile(tile, target, nx);
      Balance(g0, Sweep(RemoveTile(InsertTile(s.grid, merged), tile),
                        s.score + merged.value, true, s.won || merged.value == WinningValue))
  {
    var g := RemoveTile(InsertTile(s.grid, MergedTile(tile, target, nx)), tile);
    MergeTotals(s.grid, tile, target, nx);
    TotalAtLeastCell(s.grid, nx, Displacements);
    TotalAtLeastCell(s.grid, nx, Wins);
    FreeCellLeavesRoom(g, tile.Pos());
  }

  /** The loop body on a tile that can merge with the next tile along `v`.
      Only unfolds the definition, so that the proofs using it stay small. */
  lemma VisitMergeShape(s: Sweep, v: Vector, c: Position, tile: Tile)
    requires Valid(s.grid) && Unit(v) && CellContent(s.grid, c) == Some(tile)
    requires CanMerge(tile, CellContent(s.grid, FindFarthestPosition(s.grid, c, v).next))
    ensures var nx := FindFarthestPosition(s.grid, c, v).next;
      var merged := MergedTile(tile, CellContent(s.grid, nx).value, nx);
      Visit(s, v, c) == Sweep(RemoveTile(InsertTile(s.grid, merged), tile), s.score + merged.value,
                              true, s.won || merged.value == WinningValue)
  {
  }

  /** The loop body on a tile that cannot merge and has room to slide.
      Only unfolds the definition, so that the proofs using it stay small. */
  lemma VisitSlideShape(s: Sweep, v: Vector, c: Position, tile: Tile)
    requires Valid(s.grid) && Unit(v) && CellContent(s.grid, c) == Some(tile)
    requires !CanMerge(tile, CellContent(s.grid, FindFarthestPosition(s.grid, c, v).next))
    ensures var f := FindFarthestPosition(s.grid, c, v).farthest;
      Visit(s, v, c) == Sweep(MoveTile(s.grid, tile, f), s.score, s.moved || f != c, s.won)
  {
  }

  /** A slide keeps the invariant. */
  lemma SlideKeepsInv(g0: Grid, v: Vector, i: int, j: int, c: Position, s: Sweep, tile: Tile)
    requires WellFormed(g0) && Unit(v) && SweepInv(g0, v, i, j, s)
    requires WithinBounds(g0, c) && Rank(g0.size, c.x, v.x) == i && Rank(g0.size, c.y, v.y) == j
    requires CellContent(s.grid, c) == Some(tile) && tile.Pos() == c
    requires tile.mergedFrom.None? && tile.previousPosition == Some(c) && IsTileValue(tile.value)
    requires !CanMerge(tile, CellContent(s.grid, FindFarthestPosition(s.grid, c, v).next))
    requires FindFarthestPosition(s.grid, c, v).farthest != c
    ensures SweepInv(g0, v, i, j + 1, Visit(s, v, c))
    ensures var r := Visit(s, v, c); var f := FindFarthestPosition(s.grid, c, v).farthest;
      && CellContent(r.grid, f) == Some(UpdatePosition(tile, f))
      && Available(r.grid, c)
      && r.moved && r.score == s.score && r.won == s.won
  {
    var pos := FindFarthestPosition(s.grid, c, v);
    var f := pos.farthest;
    StepAlong(f, v);
    VisitSlideShape(s, v, c, tile);
    SlideFrame(g0, v, i, j, c, s.grid, tile, f);
    SlideSettled(g0, v, i, j, c, s.grid, tile, f);
    SlideTileFacts(s.grid, tile, f);
    SlideBalance(g0, s, tile, f);
  }

  /** A merge keeps the invariant. */
  lemma MergeKeepsInv(g0: Grid, v: Vector, i: int, j: int, c: Position, s: Sweep, tile: Tile)
    requires WellFormed(g0) && Unit(v) && SweepInv(g0, v, i, j, s)
    requires WithinBounds(g0, c) && Rank(g0.size, c.x, v.x) == i && Rank(g0.size, c.y, v.y) == j
    requires CellContent(s.grid, c) == Some(tile) && tile.Pos() == c
    requires tile.mergedFrom.None? && tile.previousPosition == Some(c) && IsTileValue(tile.value)
    requires CanMerge(tile, CellContent(s.grid, FindFarthestPosition(s.grid, c, v).next))
    ensures SweepInv(g0, v, i, j + 1, Visit(s, v, c))
    ensures var r := Visit(s, v, c); var nx := FindFarthestPosition(s.grid, c, v).next;
      var target := CellContent(s.grid, nx).value;
      && CellContent(r.grid, nx).Some?
      && CellContent(r.grid, nx).value.value == tile.value + target.value
      && CellContent(r.grid, nx).value.mergedFrom == Some(Merge(UpdatePosition(tile, nx), target))
      && Available(r.grid, c)
      && r.moved && r.score == s.score + 2 * tile.value
      && (r.won <==> s.won || 2 * tile.value == WinningValue)
  {
    var nx := FindFarthestPosition(s.grid, c, v).next;
    var target := CellContent(s.grid, nx).value;
    StepAlong(FindFarthestPosition(s.grid, c, v).farthest, v);
    VisitMergeShape(s, v, c, tile);
    MergeFrame(g0, v, i, j, c, s.grid, tile, target, nx);
    MergeSettled(g0, v, i, j, c, s.grid, tile, target, nx);
    MergeTileFacts(s.grid, tile, target, nx);
    MergeBalance(g0, s, tile, target, nx);
  }

  /** One loop body keeps the invariant. */
  lemma VisitKeepsInv(g0: Grid, v: Vector, i: int, j: int, c: Position, s: Sweep)
    requires Start(g0) && Unit(v) && SweepInv(g0, v, i, j, s)
    requires WithinBounds(g0, c) && Rank(g0.size, c.x, v.x) == i && Rank(g0.size, c.y, v.y) == j
    ensures SweepInv(g0, v, i, j + 1, Visit(s, v, c))
  {
    match CellContent(s.grid, c)
    case None =>
      assert Visit(s, v, c) == s;
      StayFrame(g0, v, i, j, c, s.grid);
      StaySettled(g0, v, i, j, c, s.grid);
    case Some(tile) =>
      VisitedTile(g0, v, i, j, c, s.grid);
      var pos := FindFarthestPosition(s.grid, c, v);
      if CanMerge(tile, CellContent(s.grid, pos.next)) {
        MergeKeepsInv(g0, v, i, j, c, s, tile);
      } else if pos.farthest != c {
        SlideKeepsInv(g0, v, i, j, c, s, tile);
      } else {
        VisitSlideShape(s, v, c, tile);
        assert MoveTile(s.grid, tile, c) == s.grid;
        StayFrame(g0, v, i, j, c, s.grid);
        StaySettled(g0, v, i, j, c, s.grid);
      }
  }

  /** A visit that leaves the grid alone keeps the invariant, given that the
      visited cell is packed. */
  lemma StayFrame(g0: Grid, v: Vector, i: int, j: int, c: Position, g: Grid)
    requires WellFormed(g0) && Unit(v) && Frame(g0, v, i, j, g)
    requires WithinBounds(g0, c) && Rank(g0.size, c.x, v.x) == i && Rank(g0.size, c.y, v.y) == j
    requires PackedAt(g, v, c)
    ensures Frame(g0, v, i, j + 1, g)
  {
    forall p | Visited(g0.size, v, i, j + 1, p)
      ensures PackedAt(g, v, p)
    {
      VisitedNext(g0.size, v, i, j, c, p);
    }
    forall p | !Visited(g0.size, v, i, j + 1, p)
      ensures CellContent(g, p) == CellContent(g0, p)
    {
      VisitedNext(g0.size, v, i, j, c, p);
    }
  }

  /** A visit that leaves the grid alone keeps the merge side, given that the
      visited cell cannot merge. */
  lemma StaySettled(g0: Grid, v: Vector, i: int, j: int, c: Position, g: Grid)
    requires WellFormed(g0) && Unit(v) && WellFormed(g) && Settled(g0, v, i, j, g)
    requires WithinBounds(g0, c) && Rank(g0.size, c.x, v.x) == i && Rank(g0.size, c.y, v.y) == j
    requires !MergeableAt(g, v, c)
    ensures Settled(g0, v, i, j + 1, g)
  {
    forall p | Visited(g0.size, v, i, j + 1, p)
      ensures !MergeableAt(g, v, p)
    {
      VisitedNext(g0.size, v, i, j, c, p);
    }
  }

  /** Having visited the whole of row `i` is having visited up to row `i + 1`. */
  lemma RowDone(g0: Grid, v: Vector, i: int, g: Grid)
    requires WellFormed(g0) && Frame(g0, v, i, g0.size, g) && Settled(g0, v, i, g0.size, g)
    ensures Frame(g0, v, i + 1, 0, g) && Settled(g0, v, i + 1, 0, g)
  {
    var n := g0.size;
    forall p | Visited(n, v, i + 1, 0, p)
      ensures !MergeableAt(g, v, p)
    {
      assert Visited(n, v, i, n, p);
    }
    forall p | Visited(n, v, i + 1, 0, p)
      ensures PackedAt(g, v, p)
    {
      assert Visited(n, v, i, n, p);
    }
    forall p | !Visited(n, v, i + 1, 0, p)
      ensures CellContent(g, p) == CellContent(g0, p)
    {
      assert !Visited(n, v, i, n, p);
    }
  }

  /** One step of the inner loop.
      Only unfolds the definition, so that the proofs using it stay small. */
  lemma SweepRowStep(s: Sweep, v: Vector, t: Traversals, i: nat, j: nat)
    requires Valid(s.grid) && Unit(v) && i < |t.x| && j <= |t.y|
    ensures j == |t.y| ==> SweepRow(s, v, t, i, j) == s
    ensures j < |t.y| ==> SweepRow(s, v, t, i, j) == SweepRow(Visit(s, v, Position(t.x[i], t.y[j])), v, t, i, j + 1)
  {
  }

  /** One step of the inner loop keeps the invariant. */
  lemma RowStepKeepsInv(g0: Grid, v: Vector, t: Traversals, i: nat, j: nat, s: Sweep)
    requires Start(g0) && Unit(v) && t == BuildTraversals(g0.size, v)
    requires i < g0.size && j < g0.size
    requires SweepInv(g0, v, i, j, s)
    ensures SweepInv(g0, v, i, j + 1, Visit(s, v, Position(t.x[i], t.y[j])))
    ensures SweepRow(s, v, t, i, j) == SweepRow(Visit(s, v, Position(t.x[i], t.y[j])), v, t, i, j + 1)
  {
    VisitKeepsInv(g0, v, i, j, Position(t.x[i], t.y[j]), s);
    SweepRowStep(s, v, t, i, j);
  }

  /** One step of the outer loop.
      Only unfolds the definition, so that the proofs using it stay small. */
  lemma SweepRowsStep(s: Sweep, v: Vector, t: Traversals, i: nat)
    requires Valid(s.grid) && Unit(v) && i <= |t.x|
    ensures i == |t.x| ==> SweepRows(s, v, t, i) == s
    ensures i < |t.x| ==> SweepRows(s, v, t, i) == SweepRows(SweepRow(s, v, t, i, 0), v, t, i + 1)
  {
  }

  /** The inner loop over one row keeps the invariant and completes the row. */
  lemma {:induction false} SweepRowKeepsInv(g0: Grid, v: Vector, t: Traversals, i: nat, j: nat, s: Sweep)
    requires Start(g0) && Unit(v) && t == BuildTraversals(g0.size, v)
    requires i < g0.size && j <= g0.size
    requires SweepInv(g0, v, i, j, s)
    ensures SweepInv(g0, v, i + 1, 0, SweepRow(s, v, t, i, j))
    decreases g0.size - j
  {
    if j == g0.size {
      SweepRowStep(s, v, t, i, j);
      RowDone(g0, v, i, s.grid);
    } else {
      var next := Visit(s, v, Position(t.x[i], t.y[j]));
      RowStepKeepsInv(g0, v, t, i, j, s);
      SweepRowKeepsInv(g0, v, t, i, j + 1, next);
    }
  }

  /** The outer loop keeps the invariant up to the last row. */
  lemma {:induction false} SweepRowsKeepsInv(g0: Grid, v: Vector, t: Traversals, i: nat, s: Sweep)
    requires Start(g0) && Unit(v) && t == BuildTraversals(g0.size, v)
    requires i <= g0.size
    requires SweepInv(g0, v, i, 0, s)
    ensures SweepInv(g0, v, g0.size, 0, SweepRows(s, v, t, i))
    decreases g0.size - i
  {
    if i < g0.size {
      var row := SweepRow(s, v, t, i, 0);
      SweepRowKeepsInv(g0, v, t, i, 0, s);
      SweepRowsKeepsInv(g0, v, t, i + 1, row);
      assert SweepRows(s, v, t, i) == SweepRows(row, v, t, i + 1);
    }
  }
}
