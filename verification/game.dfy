/** The game manager: the score, the three flags, spawning random tiles, the
    game-over test and one full move as the input layer triggers it. */
module Games {
  import opened Wrappers
  import opened Tiles
  import opened Grids
  import opened Tally
  import opened Moves
  import opened MoveProofs
  import opened Slides

  /** The state a game manager keeps between moves. `keepPlaying` is the
      flag that lets play continue after a win. */
  datatype Game = Game(grid: Grid, score: int, over: bool, won: bool, keepPlaying: bool)

  /** The serialised form of a game. */
  datatype SerializedGame = SerializedGame(grid: SerializedGrid, score: int, over: bool, won: bool, keepPlaying: bool)

  /** The board size when none is given. */
  const DefaultSize := 4

  /** How many tiles a new game starts with. */
  const StartTiles := 2

  /** The two random numbers one `addRandomTile` draws: `pick` selects the
      empty cell (`Math.floor(Math.random() * n)` becomes `pick % n`), and
      `four` stands for the one-in-ten draw that makes the tile a 4. */
  datatype Draw = Draw(pick: nat, four: bool)

  /** The value of a fresh tile: 4 when the draw says so, 2 otherwise. */
  function SpawnValue(four: bool): (v: int)
    ensures IsStartValue(v) && IsTileValue(v)
    ensures v == 4 <==> four
  {
    StartValueIsTileValue(2);
    StartValueIsTileValue(4);
    if four then 4 else 2
  }

  /** The input layer numbers the directions 0 to 3; other numbers are not
      directions. */
  function DirectionOf(code: int): (r: Option<Direction>)
    ensures r.Some? <==> 0 <= code < 4
  {
    if code == 0 then Some(Up)
    else if code == 1 then Some(Right)
    else if code == 2 then Some(Down)
    else if code == 3 then Some(Left)
    else None
  }

  /** The number the input layer uses for a direction. */
  function CodeOf(d: Direction): (code: int)
    ensures 0 <= code < 4
  {
    match d
    case Up => 0
    case Right => 1
    case Down => 2
    case Left => 3
  }

  /** Direction numbers and directions correspond one to one. */
  lemma DirectionCodesRoundTrip(d: Direction, code: int)
    ensures DirectionOf(CodeOf(d)) == Some(d)
    ensures DirectionOf(code).Some? ==> CodeOf(DirectionOf(code).value) == code
  {
  }

  /** `isGameTerminated`: the game is lost, or won and not continued. */
  predicate IsGameTerminated(game: Game) {
    game.over || (game.won && !game.keepPlaying)
  }

  /** `addRandomTile`: when the board has an empty cell, a fresh tile of
      value 2 or 4 lands on the empty cell `pick` selects; a full board is
      left as it is. */
  function AddRandomTile(g: Grid, draw: Draw): (r: Grid)
    requires Valid(g)
    ensures Valid(r) && r.size == g.size
    ensures forall p :: CellContent(r, p) != CellContent(g, p) ==>
      WithinBounds(g, p) && Available(g, p) && CellContent(r, p) == Some(NewTile(p, SpawnValue(draw.four)))
    ensures Total(r, Occupancy) == Total(g, Occupancy) + (if |AvailableCells(g)| > 0 then 1 else 0)
    ensures Total(r, Values) == Total(g, Values) + (if |AvailableCells(g)| > 0 then SpawnValue(draw.four) else 0)
    ensures Total(r, Merges) == Total(g, Merges)
    ensures Total(r, MergedValues) == Total(g, MergedValues)
    ensures Total(r, Wins) == Total(g, Wins)
    ensures TileValues(g) ==> TileValues(r)
  {
    if |AvailableCells(g)| == 0 then g
    else
      var p := RandomAvailableCell(g, draw.pick).value;
      var tile := NewTile(p, SpawnValue(draw.four));
      var r := InsertTile(g, tile);
      TotalSetCell(g, p, Some(tile), Occupancy);
      TotalSetCell(g, p, Some(tile), Values);
      TotalSetCell(g, p, Some(tile), Merges);
      TotalSetCell(g, p, Some(tile), MergedValues);
      TotalSetCell(g, p, Some(tile), Wins);
      assert Valid(r) by {
        forall q | CellContent(r, q).Some?
          ensures CellContent(r, q).value.Pos() == q
        {
          if q != p {
            assert CellContent(r, q) == CellContent(g, q);
          }
        }
      }
      assert TileValues(g) ==> TileValues(r) by {
        if TileValues(g) {
          forall q | CellContent(r, q).Some?
            ensures IsTileValue(CellContent(r, q).value.value)
          {
            if q != p {
              assert CellContent(r, q) == CellContent(g, q);
            }
          }
        }
      }
      r
  }

  /** Some tile has a neighbour of the same value in direction `d`, scanning
      the four directions in the order of their numbers from `code` on. */
  function MatchesAt(g: Grid, p: Position, code: nat): (r: bool)
    requires WellFormed(g) && code <= 4
    ensures r <==> exists d :: CodeOf(d) >= code && AdjacentEqual(g, p, d)
    decreases 4 - code
  {
    if code == 4 then false
    else
      var d := DirectionOf(code).value;
      assert CodeOf(d) == code;
      AdjacentEqual(g, p, d) || MatchesAt(g, p, code + 1)
  }

  /** The cells at or after (`x`, `y`) in row-major order. */
  predicate FromCell(p: Position, x: int, y: int) {
    p.x > x || (p.x == x && p.y >= y)
  }

  /** The scan of `tileMatchesAvailable` from cell (`x`, `y`) on. */
  function MatchesFrom(g: Grid, x: nat, y: nat): (r: bool)
    requires WellFormed(g) && x <= g.size && y <= g.size
    ensures r <==> exists p, d :: FromCell(p, x, y) && AdjacentEqual(g, p, d)
    decreases g.size - x, g.size - y
  {
    if x == g.size then
      assert forall p, d :: FromCell(p, x, y) ==> !AdjacentEqual(g, p, d);
      false
    else if y == g.size then
      assert forall p, d :: FromCell(p, x, y) && AdjacentEqual(g, p, d) ==> FromCell(p, x + 1, 0);
      MatchesFrom(g, x + 1, 0)
    else
      var here := MatchesAt(g, Position(x, y), 0);
      var rest := MatchesFrom(g, x, y + 1);
      assert forall p, d :: FromCell(p, x, y) && AdjacentEqual(g, p, d) ==>
        p == Position(x, y) || FromCell(p, x, y + 1);
      here || rest
  }

  /** `tileMatchesAvailable`: some tile has an orthogonal neighbour of the
      same value. */
  function TileMatchesAvailable(g: Grid): (r: bool)
    requires WellFormed(g)
    ensures r <==> exists p, d :: AdjacentEqual(g, p, d)
  {
    assert forall p, d :: AdjacentEqual(g, p, d) ==> FromCell(p, 0, 0);
    MatchesFrom(g, 0, 0)
  }

  /** `movesAvailable`: an empty cell or a pair of equal neighbours. */
  function MovesAvailable(g: Grid): (r: bool)
    requires WellFormed(g)
    ensures !r <==> (forall p :: WithinBounds(g, p) ==> Occupied(g, p)) && (forall p, d :: !AdjacentEqual(g, p, d))
  {
    if |AvailableCells(g)| > 0 then
      assert AvailableCells(g)[0] in AvailableCells(g);
      true
    else
      assert forall p :: WithinBounds(g, p) && Available(g, p) ==> p in AvailableCells(g);
      TileMatchesAvailable(g)
  }

  /** `move`: nothing happens once the game is terminated; otherwise the tiles
      are prepared and slid, the score and the won flag take what the slide
      earned, and if any tile moved a random tile is spawned and the game is
      over when no move is left. */
  function Move(game: Game, d: Direction, draw: Draw): (r: Game)
    requires Sane(game.grid)
    ensures Sane(r.grid) && r.grid.size == game.grid.size
    ensures r.keepPlaying == game.keepPlaying
    ensures game.over ==> r.over
    ensures game.won ==> r.won
    ensures r.score >= game.score
  {
    if IsGameTerminated(game) then game
    else
      var s := Slide(game.grid, d);
      SlideMergesOnce(game.grid, d);
      SlideScoresMerges(game.grid, d);
      ScoreNonNegative(s.grid);
      var score := game.score + s.score;
      var won := game.won || s.won;
      if s.moved then
        var spawned := AddRandomTile(s.grid, draw);
        Game(spawned, score, game.over || !MovesAvailable(spawned), won, game.keepPlaying)
      else
        Game(s.grid, score, game.over, won, game.keepPlaying)
  }

  /** On a board of tile values the score a slide earns is never negative. */
  lemma ScoreNonNegative(g: Grid)
    requires WellFormed(g) && TileValues(g)
    ensures Total(g, MergedValues) >= 0
  {
    forall p
      ensures Weight(MergedValues, CellContent(g, p)) >= 0
    {
      if CellContent(g, p).Some? {
        assert IsTileValue(CellContent(g, p).value.value);
      }
    }
    TotalNonNegative(g, MergedValues);
  }

  /** `addStartTiles`, for any number of draws: one random tile per draw,
      as long as the board has room. */
  function AddTiles(g: Grid, draws: seq<Draw>): (r: Grid)
    requires Valid(g)
    ensures Valid(r) && r.size == g.size
    ensures TileValues(g) ==> TileValues(r)
    ensures Total(r, Occupancy) == Min(Total(g, Occupancy) + |draws|, g.size * g.size)
    decreases |draws|
  {
    AvailablePlusTiles(g);
    if draws == [] then g
    else AddTiles(AddRandomTile(g, draws[0]), draws[1..])
  }

  function Min(a: int, b: int): int {
    if a < b then a else b
  }

  /** The constructor's game: a board of the given size (4 when none is
      given), `StartTiles` random tiles, no score and no flags raised. */
  function NewGame(size: nat, draws: seq<Draw>): (r: Game)
    requires |draws| == StartTiles
    ensures r.grid.size == (if size == 0 then DefaultSize else size)
    ensures Sane(r.grid)
    ensures Total(r.grid, Occupancy) == Min(StartTiles, r.grid.size * r.grid.size)
    ensures r.score == 0 && !r.over && !r.won && !r.keepPlaying
  {
    var n := if size == 0 then DefaultSize else size;
    TotalZero(Empty(n), Occupancy);
    Game(AddTiles(Empty(n), draws), 0, false, false, false)
  }

  /** `keepPlaying`: the player chooses to continue after a win. */
  function KeepPlaying(game: Game): (r: Game)
    ensures r.keepPlaying
    ensures r.grid == game.grid && r.score == game.score && r.over == game.over && r.won == game.won
    ensures !r.over ==> !IsGameTerminated(r)
  {
    game.(keepPlaying := true)
  }

  /** `serialize`: the board without the per-move annotations, the score and
      the three flags. */
  function Serialize(game: Game): (r: SerializedGame)
    requires Valid(game.grid)
    ensures r.grid == SerializeGrid(game.grid)
    ensures r.score == game.score && r.over == game.over && r.won == game.won
    ensures r.keepPlaying == game.keepPlaying
  {
    SerializedGame(SerializeGrid(game.grid), game.score, game.over, game.won, game.keepPlaying)
  }
}
