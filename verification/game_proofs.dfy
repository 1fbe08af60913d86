/** What one move does to a game: the flags, the score, the board and the
    spawned tile, and an invariant every reachable game keeps. */
module GameProofs {
  import opened Wrappers
  import opened Tiles
  import opened Grids
  import opened Tally
  import opened Moves
  import opened MoveProofs
  import opened Slides
  import opened Games

  /** A terminated game ignores every move. */
  lemma MoveWhenTerminated(game: Game, d: Direction, draw: Draw)
    requires Sane(game.grid) && IsGameTerminated(game)
    ensures Move(game, d, draw) == game
  {
  }

  /** Preparing the tiles leaves the board, as the player sees it, as it was. */
  lemma PrepareKeepsBoard(g: Grid)
    requires Valid(g)
    ensures SameBoard(PrepareTiles(g), g)
    ensures SerializeGrid(PrepareTiles(g)) == SerializeGrid(g)
  {
    SerializeGridIsBoard(PrepareTiles(g), g);
  }

  /** A move in which no tile moves changes nothing the player can see or
      that is saved: no tile is spawned, and the score and flags stay. */
  lemma MoveNoOp(game: Game, d: Direction, draw: Draw)
    requires Sane(game.grid) && !Slide(game.grid, d).moved
    ensures var r := Move(game, d, draw);
      && r.score == game.score && r.over == game.over && r.won == game.won
      && SameBoard(r.grid, game.grid)
      && Serialize(r) == Serialize(game)
  {
    SlideNoOp(game.grid, d);
    PrepareKeepsBoard(game.grid);
    SerializeGridIsBoard(game.grid, game.grid);
  }

  /** The score rises by exactly the sum of the values of the tiles the
      move's merges produced; the spawned tile does not count. */
  lemma MoveScoresMerges(game: Game, d: Direction, draw: Draw)
    requires Sane(game.grid) && !IsGameTerminated(game)
    ensures var r := Move(game, d, draw);
      r.score == game.score + Total(r.grid, MergedValues)
  {
    SlideScoresMerges(game.grid, d);
  }

  /** The won flag is raised exactly when a merge of this move produced the
      winning value, and once raised it stays. */
  lemma MoveWon(game: Game, d: Direction, draw: Draw)
    requires Sane(game.grid) && !IsGameTerminated(game)
    ensures var r := Move(game, d, draw);
      r.won <==> game.won || exists p :: CellContent(r.grid, p).Some? && CellContent(r.grid, p).value.mergedFrom.Some?
                                           && CellContent(r.grid, p).value.value == WinningValue
  {
    var r := Move(game, d, draw);
    var s := Slide(game.grid, d);
    SlideOutcome(game.grid, d);
    assert Total(r.grid, Wins) == Total(s.grid, Wins);
    WinningMerge(r.grid);
  }

  /** The game becomes over exactly when a move that moved something leaves
      the board with no empty cell and no two equal neighbours. */
  lemma MoveOver(game: Game, d: Direction, draw: Draw)
    requires Sane(game.grid) && !IsGameTerminated(game)
    ensures var r := Move(game, d, draw);
      r.over <==> Slide(game.grid, d).moved
                  && (forall p :: WithinBounds(r.grid, p) ==> Occupied(r.grid, p))
                  && (forall p, e :: !AdjacentEqual(r.grid, p, e))
  {
  }

  /** A move that moved something spawns exactly one tile of value 2 or 4:
      the board then holds one tile more than it had, less one per merge,
      and its value sum grows by the spawned value. */
  lemma MoveSpawns(game: Game, d: Direction, draw: Draw)
    requires Sane(game.grid) && !IsGameTerminated(game) && Slide(game.grid, d).moved
    ensures var r := Move(game, d, draw);
      && Total(r.grid, Occupancy) + Total(r.grid, Merges) == Total(game.grid, Occupancy) + 1
      && Total(r.grid, Values) == Total(game.grid, Values) + SpawnValue(draw.four)
  {
    SlideMovedLeavesRoom(game.grid, d);
    SlideCountsMerges(game.grid, d);
    SlideConservesValues(game.grid, d);
  }

  /** The spawned tile lands on a cell the slide left empty, and every
      empty cell is a possible landing place. */
  lemma SpawnLandsOnEmptyCell(g: Grid, draw: Draw, p: Position)
    requires Valid(g)
    ensures CellContent(AddRandomTile(g, draw), p) != CellContent(g, p) ==>
      WithinBounds(g, p) && Available(g, p) && CellContent(AddRandomTile(g, draw), p).value.value == SpawnValue(draw.four)
    ensures WithinBounds(g, p) && Available(g, p) ==>
      exists pick: nat :: CellContent(AddRandomTile(g, Draw(pick, draw.four)), p) == Some(NewTile(p, SpawnValue(draw.four)))
  {
    if WithinBounds(g, p) && Available(g, p) {
      EveryEmptyCellCanBePicked(g, p);
      var pick: nat :| RandomAvailableCell(g, pick) == Some(p);
      assert p in AvailableCells(g);
      assert CellContent(AddRandomTile(g, Draw(pick, draw.four)), p) == Some(NewTile(p, SpawnValue(draw.four)));
    }
  }

  /** A board with no empty cell and no equal neighbours cannot move in any
      direction, so the game-over test is exact. */
  lemma NoMovesMeansStuck(g: Grid, d: Direction)
    requires Valid(g) && !MovesAvailable(g)
    ensures !Slide(g, d).moved
  {
    StuckSlideIsNoop(g, d);
  }

  /** What every game reachable from a new game satisfies: the board keeps
      the position invariant and holds tile values, the score is never
      negative, and a game is over only when no move is possible. */
  ghost predicate GameInv(game: Game) {
    && Sane(game.grid)
    && game.score >= 0
    && (game.over ==> !MovesAvailable(game.grid))
  }

  /** A new game satisfies the invariant. */
  lemma NewGameInv(size: nat, draws: seq<Draw>)
    requires |draws| == StartTiles
    ensures GameInv(NewGame(size, draws))
  {
  }

  /** Every move keeps the invariant. */
  lemma MoveKeepsInv(game: Game, d: Direction, draw: Draw)
    requires GameInv(game)
    ensures GameInv(Move(game, d, draw))
  {
  }

  /** Continuing after a win keeps the invariant, and a won game that is
      not over can move again. */
  lemma KeepPlayingKeepsInv(game: Game)
    requires GameInv(game)
    ensures GameInv(KeepPlaying(game))
    ensures !game.over ==> !IsGameTerminated(KeepPlaying(game))
  {
  }

  /** An over game stays over and ignores moves; in an over game no
      direction would move a tile anyway. */
  lemma OverIsFinal(game: Game, d: Direction, draw: Draw)
    requires GameInv(game) && game.over
    ensures Move(game, d, draw) == game
    ensures !Slide(game.grid, d).moved
  {
    NoMovesMeansStuck(game.grid, d);
  }

  /** Two games serialise alike exactly when their boards hold the same
      values in the same cells and their score and flags agree. */
  lemma SerializeIsState(a: Game, b: Game)
    requires Valid(a.grid) && Valid(b.grid)
    ensures Serialize(a) == Serialize(b) <==>
      SameBoard(a.grid, b.grid) && a.score == b.score && a.over == b.over && a.won == b.won
      && a.keepPlaying == b.keepPlaying
  {
    SerializeGridIsBoard(a.grid, b.grid);
  }
}
