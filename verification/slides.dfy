/** What one slide of the board does, stated for any grid that satisfies the
    position invariant and holds only tile values. The pass invariant of
    `MoveProofs`, taken at the end of the pass, gives each property. */
module Slides {
  import opened Wrappers
  import opened Tiles
  import opened Grids
  import opened Tally
  import opened Moves
  import opened MoveProofs

  /** The preconditions of every theorem below: the grids a game holds. */
  ghost predicate Sane(g: Grid) {
    Valid(g) && TileValues(g)
  }

  /** At the end of the pass every cell of the board has been visited. */
  lemma AllVisited(n: int, v: Vector, p: Position)
    requires Unit(v) && 0 <= p.x < n && 0 <= p.y < n
    ensures Visited(n, v, n, 0, p)
  {
  }

  /** The pass invariant at the end of the pass. */
  lemma SlideEnds(g: Grid, d: Direction)
    requires Sane(g)
    ensures SweepInv(PrepareTiles(g), GetVector(d), g.size, 0, Slide(g, d))
  {
    var g0 := PrepareTiles(g);
    var v := GetVector(d);
    assert TileValues(g0) by {
      forall p | CellContent(g0, p).Some?
        ensures IsTileValue(CellContent(g0, p).value.value)
      {
        assert CellContent(g, p).Some?;
      }
    }
    SweepInvInit(g0, v);
    SweepRowsKeepsInv(g0, v, BuildTraversals(g.size, v), 0, Sweep(g0, 0, false, false));
  }

  /** The pass invariant at the end of the pass, spelled out. */
  lemma SlideOutcome(g: Grid, d: Direction)
    requires Sane(g)
    ensures var r := Slide(g, d);
      && Sane(r.grid) && MergesAreSingle(r.grid)
      && Total(r.grid, Values) == Total(PrepareTiles(g), Values)
      && Total(r.grid, Occupancy) + Total(r.grid, Merges) == Total(PrepareTiles(g), Occupancy)
      && r.score == Total(r.grid, MergedValues)
      && (r.won <==> Total(r.grid, Wins) > 0)
      && (r.moved <==> Total(r.grid, Displacements) > 0)
      && (r.moved ==> |AvailableCells(r.grid)| > 0)
      && (!r.moved ==> r.grid == PrepareTiles(g))
  {
    SlideEnds(g, d);
  }

  /** Preparing the tiles changes neither the tile count nor the value sum. */
  lemma PrepareKeepsTotals(g: Grid)
    requires WellFormed(g)
    ensures Total(PrepareTiles(g), Occupancy) == Total(g, Occupancy)
    ensures Total(PrepareTiles(g), Values) == Total(g, Values)
  {
    TotalsAgree(PrepareTiles(g), g, Occupancy);
    TotalsAgree(PrepareTiles(g), g, Values);
  }

  /** A slide neither creates nor destroys value: merging two tiles of value
      `k` yields one of value `2k`. */
  lemma SlideConservesValues(g: Grid, d: Direction)
    requires Sane(g)
    ensures Total(Slide(g, d).grid, Values) == Total(g, Values)
  {
    SlideOutcome(g, d);
    PrepareKeepsTotals(g);
  }

  /** Each merge removes exactly one tile from the board. */
  lemma SlideCountsMerges(g: Grid, d: Direction)
    requires Sane(g)
    ensures var r := Slide(g, d).grid;
      Total(r, Occupancy) + Total(r, Merges) == Total(g, Occupancy)
  {
    SlideOutcome(g, d);
    PrepareKeepsTotals(g);
  }

  /** The score a slide earns is the sum of the values of the tiles its
      merges produced. */
  lemma SlideScoresMerges(g: Grid, d: Direction)
    requires Sane(g)
    ensures Slide(g, d).score == Total(Slide(g, d).grid, MergedValues)
  {
    SlideOutcome(g, d);
  }

  /** After a slide the board still satisfies the position invariant, holds
      only tile values, and every merge product was made from exactly two
      unmerged tiles of equal value: no tile merges twice in one move. */
  lemma SlideMergesOnce(g: Grid, d: Direction)
    requires Sane(g)
    ensures Sane(Slide(g, d).grid)
    ensures MergesAreSingle(Slide(g, d).grid)
  {
    SlideOutcome(g, d);
  }

  /** After a slide no tile has an empty cell in front of it in the direction
      of the move. */
  lemma SlidePacks(g: Grid, d: Direction, p: Position)
    requires Sane(g)
    requires WithinBounds(g, p) && Occupied(Slide(g, d).grid, p)
    requires WithinBounds(g, Add(p, GetVector(d)))
    ensures Occupied(Slide(g, d).grid, Add(p, GetVector(d)))
  {
    SlideEnds(g, d);
    AllVisited(g.size, GetVector(d), p);
    assert PackedAt(Slide(g, d).grid, GetVector(d), p);
  }

  /** The merge rule is applied wherever it allows: after a slide, two
      neighbouring tiles along the move's direction hold equal values only
      if one of them is a merge product of this slide. */
  lemma SlideMergesMaximal(g: Grid, d: Direction, p: Position)
    requires Sane(g)
    requires WithinBounds(g, p) && WithinBounds(g, Add(p, GetVector(d)))
    requires var r := Slide(g, d).grid;
      && Occupied(r, p) && Occupied(r, Add(p, GetVector(d)))
      && CellContent(r, p).value.value == CellContent(r, Add(p, GetVector(d))).value.value
    ensures var r := Slide(g, d).grid;
      CellContent(r, p).value.mergedFrom.Some? || CellContent(r, Add(p, GetVector(d))).value.mergedFrom.Some?
  {
    SlideEnds(g, d);
    AllVisited(g.size, GetVector(d), p);
    assert !MergeableAt(Slide(g, d).grid, GetVector(d), p);
  }

  /** A 2 by 2 board whose first row holds two 2s: moving left merges them
      into one 4 on the wall side and scores 4. */
  lemma SlideTwoTwoLeft()
    ensures var g := Grid(2, [[Some(NewTile(Position(0, 0), 2)), Some(NewTile(Position(0, 1), 2))], [None, None]]);
      var r := Slide(g, Left);
      && CellContent(r.grid, Position(0, 0)).Some?
      && CellContent(r.grid, Position(0, 0)).value.value == 4
      && CellContent(r.grid, Position(0, 0)).value.mergedFrom.Some?
      && Available(r.grid, Position(0, 1))
      && Available(r.grid, Position(1, 0)) && Available(r.grid, Position(1, 1))
      && r.score == 4 && r.moved && !r.won
  {
    var g := Grid(2, [[Some(NewTile(Position(0, 0), 2)), Some(NewTile(Position(0, 1), 2))], [None, None]]);
    assert Valid(g) by {
      forall p | CellContent(g, p).Some?
        ensures CellContent(g, p).value.Pos() == p
      {
      }
    }
    var v := GetVector(Left);
    var t := BuildTraversals(2, v);
    assert t.x == [0, 1] && t.y == [0, 1];
    var g0 := PrepareTiles(g);
    var s0 := Sweep(g0, 0, false, false);
    var a := CellContent(g0, Position(0, 0)).value;
    var b := CellContent(g0, Position(0, 1)).value;
    assert a.value == 2 && a.mergedFrom.None? && a.Pos() == Position(0, 0);
    assert b.value == 2 && b.mergedFrom.None? && b.Pos() == Position(0, 1);
    assert Available(g0, Position(1, 0)) && Available(g0, Position(1, 1));
    // The first tile is against the wall and stays.
    assert FindFarthestPosition(g0, Position(0, 0), v).farthest == Position(0, 0);
    VisitSlideShape(s0, v, Position(0, 0), a);
    var s1 := Visit(s0, v, Position(0, 0));
    assert s1 == s0;
    // The second tile meets the first and merges into it.
    assert FindFarthestPosition(g0, Position(0, 1), v).next == Position(0, 0);
    VisitMergeShape(s0, v, Position(0, 1), b);
    var s2 := Visit(s1, v, Position(0, 1));
    assert s2.score == 4 && s2.moved && !s2.won;
    assert CellContent(s2.grid, Position(0, 0)).value.value == 4;
    // The second row is empty.
    var s3 := Visit(s2, v, Position(1, 0));
    var s4 := Visit(s3, v, Position(1, 1));
    assert s3 == s2 && s4 == s2;
    SweepRowStep(s0, v, t, 0, 0);
    SweepRowStep(s1, v, t, 0, 1);
    SweepRowStep(s2, v, t, 0, 2);
    SweepRowStep(s2, v, t, 1, 0);
    SweepRowStep(s3, v, t, 1, 1);
    SweepRowStep(s4, v, t, 1, 2);
    SweepRowsStep(s0, v, t, 0);
    SweepRowsStep(s2, v, t, 1);
    SweepRowsStep(s4, v, t, 2);
  }

  /** A board has a merge product of the winning value exactly when its
      count of wins is positive. */
  lemma WinningMerge(g: Grid)
    requires WellFormed(g)
    ensures Total(g, Wins) > 0 <==>
      exists p :: CellContent(g, p).Some? && CellContent(g, p).value.mergedFrom.Some?
                  && CellContent(g, p).value.value == WinningValue
  {
    TotalPositive(g, Wins);
    if exists p :: CellContent(g, p).Some? && CellContent(g, p).value.mergedFrom.Some?
                   && CellContent(g, p).value.value == WinningValue {
      var p :| CellContent(g, p).Some? && CellContent(g, p).value.mergedFrom.Some?
               && CellContent(g, p).value.value == WinningValue;
      assert Weight(Wins, CellContent(g, p)) > 0;
    }
  }

  /** The won flag of a slide is raised exactly when a merge produced the
      winning value. */
  lemma SlideWinsExactly(g: Grid, d: Direction)
    requires Sane(g)
    ensures var r := Slide(g, d);
      r.won <==> exists p :: CellContent(r.grid, p).Some? && CellContent(r.grid, p).value.mergedFrom.Some?
                                && CellContent(r.grid, p).value.value == WinningValue
  {
    SlideOutcome(g, d);
    WinningMerge(Slide(g, d).grid);
  }

  /** A slide reports that it moved exactly when some tile left its cell or
      was produced by a merge. */
  lemma SlideMovedExactly(g: Grid, d: Direction)
    requires Sane(g)
    ensures var r := Slide(g, d);
      r.moved <==> exists p :: CellContent(r.grid, p).Some? && Displaced(CellContent(r.grid, p).value)
  {
    var r := Slide(g, d);
    SlideOutcome(g, d);
    TotalPositive(r.grid, Displacements);
    if exists p :: CellContent(r.grid, p).Some? && Displaced(CellContent(r.grid, p).value) {
      var p :| CellContent(r.grid, p).Some? && Displaced(CellContent(r.grid, p).value);
      assert Weight(Displacements, CellContent(r.grid, p)) > 0;
    }
  }

  /** A slide that moves nothing leaves the prepared board as it was and
      earns nothing. */
  lemma SlideNoOp(g: Grid, d: Direction)
    requires Sane(g)
    ensures var r := Slide(g, d);
      !r.moved ==> r.grid == PrepareTiles(g) && r.score == 0 && !r.won
  {
    var g0 := PrepareTiles(g);
    SlideOutcome(g, d);
    TotalZero(g0, MergedValues);
    TotalZero(g0, Wins);
  }

  /** A slide that moves leaves at least one empty cell, so the random tile
      that follows always has room. */
  lemma SlideMovedLeavesRoom(g: Grid, d: Direction)
    requires Sane(g)
    ensures Slide(g, d).moved ==> |AvailableCells(Slide(g, d).grid)| > 0
  {
    SlideOutcome(g, d);
  }

  /** Neither an empty cell nor two equal neighbours in direction `d`. */
  ghost predicate Stuck(g: Grid, d: Direction)
    requires WellFormed(g)
  {
    && (forall p :: WithinBounds(g, p) ==> Occupied(g, p))
    && (forall p :: !AdjacentEqual(g, p, d))
  }

  /** On a full board with no equal neighbours in direction `d` every visit
      leaves the pass as it is. */
  lemma StuckVisit(g: Grid, d: Direction, s: Sweep, c: Position)
    requires Valid(g) && Stuck(g, d) && WithinBounds(g, c)
    requires s == Sweep(PrepareTiles(g), 0, false, false)
    ensures Visit(s, GetVector(d), c) == s
  {
    var v := GetVector(d);
    var g0 := s.grid;
    var tile := CellContent(g0, c).value;
    var pos := FindFarthestPosition(g0, c, v);
    assert pos.farthest == c;
    assert !AdjacentEqual(g, c, d);
    assert !CanMerge(tile, CellContent(g0, pos.next));
    VisitSlideShape(s, v, c, tile);
  }

  lemma {:induction false} StuckRow(g: Grid, d: Direction, s: Sweep, t: Traversals, i: nat, j: nat)
    requires Valid(g) && Stuck(g, d)
    requires s == Sweep(PrepareTiles(g), 0, false, false)
    requires t == BuildTraversals(g.size, GetVector(d)) && i < g.size && j <= g.size
    ensures SweepRow(s, GetVector(d), t, i, j) == s
    decreases g.size - j
  {
    SweepRowStep(s, GetVector(d), t, i, j);
    if j < g.size {
      StuckVisit(g, d, s, Position(t.x[i], t.y[j]));
      StuckRow(g, d, s, t, i, j + 1);
    }
  }

  lemma {:induction false} StuckRows(g: Grid, d: Direction, s: Sweep, t: Traversals, i: nat)
    requires Valid(g) && Stuck(g, d)
    requires s == Sweep(PrepareTiles(g), 0, false, false)
    requires t == BuildTraversals(g.size, GetVector(d)) && i <= g.size
    ensures SweepRows(s, GetVector(d), t, i) == s
    decreases g.size - i
  {
    SweepRowsStep(s, GetVector(d), t, i);
    if i < g.size {
      StuckRow(g, d, s, t, i, 0);
      StuckRows(g, d, s, t, i + 1);
    }
  }

  /** A full board with no equal neighbours in direction `d` cannot move in
      that direction: the slide only prepares the tiles. */
  lemma StuckSlideIsNoop(g: Grid, d: Direction)
    requires Valid(g) && Stuck(g, d)
    ensures Slide(g, d) == Sweep(PrepareTiles(g), 0, false, false)
    ensures !Slide(g, d).moved
  {
    StuckRows(g, d, Sweep(PrepareTiles(g), 0, false, false), BuildTraversals(g.size, GetVector(d)), 0);
  }
}
