/** Tiles of the 2048 game: a position, a value and two per-move annotations. */
module Tiles {
  import opened Wrappers

  /** A cell address: `x` indexes the outer array of the grid, `y` the inner one. */
  datatype Position = Position(x: int, y: int)

  /** The two tiles a merge consumed: the moving tile (already relocated onto
      the target cell) and the tile that was sitting on that cell. */
  datatype Merge = Merge(first: Tile, second: Tile)

  /** `previousPosition` is the animation hint saved at the start of a move;
      `mergedFrom` is present exactly on tiles produced by a merge during the
      current move. */
  datatype Tile = Tile(x: int, y: int, value: int,
                       previousPosition: Option<Position>,
                       mergedFrom: Option<Merge>)
  {
    function Pos(): Position {
      Position(x, y)
    }
  }

  /** The serialised form of a tile. */
  datatype SerializedTile = SerializedTile(position: Position, value: int)

  /** A merge producing this value wins the game. */
  const WinningValue := 2048

  /** A tile that, during the current move, left the cell it was on when the
      move began: either it slid (its saved position differs from its
      position) or it is the product of a merge. */
  predicate Displaced(t: Tile) {
    t.mergedFrom.Some? || t.previousPosition != Some(t.Pos())
  }

  /** The value a game places on a fresh tile is 2 or 4. */
  predicate IsStartValue(v: int) {
    v == 2 || v == 4
  }

  predicate IsPowerOfTwo(n: int)
    decreases if n > 0 then n else 0
  {
    n == 1 || (n > 1 && n % 2 == 0 && IsPowerOfTwo(n / 2))
  }

  /** A value a tile can carry in play: a power of two, at least 2. */
  predicate IsTileValue(v: int) {
    v >= 2 && IsPowerOfTwo(v)
  }

  /** `new Tile(position, value)`: a missing or zero value becomes 2, and a
      fresh tile carries neither annotation. */
  function NewTile(p: Position, value: int): (t: Tile)
    ensures t.Pos() == p
    ensures value != 0 ==> t.value == value
    ensures value == 0 ==> t.value == 2
    ensures t.previousPosition.None? && t.mergedFrom.None?
  {
    Tile(p.x, p.y, if value == 0 then 2 else value, None, None)
  }

  /** `savePosition`: remembers where the tile is now; nothing else changes. */
  function SavePosition(t: Tile): (r: Tile)
    ensures r.previousPosition == Some(t.Pos())
    ensures r.Pos() == t.Pos() && r.value == t.value && r.mergedFrom == t.mergedFrom
  {
    t.(previousPosition := Some(Position(t.x, t.y)))
  }

  /** `updatePosition`: moves the tile to `p`; value and annotations are kept. */
  function UpdatePosition(t: Tile, p: Position): (r: Tile)
    ensures r.Pos() == p
    ensures r.value == t.value && r.previousPosition == t.previousPosition && r.mergedFrom == t.mergedFrom
    ensures p == t.Pos() ==> r == t
  {
    t.(x := p.x, y := p.y)
  }

  /** `Tile.serialize`: keeps position and value and drops both annotations. */
  function SerializeTile(t: Tile): (r: SerializedTile)
    ensures r.position == t.Pos() && r.value == t.value
  {
    SerializedTile(Position(t.x, t.y), t.value)
  }

  /** Two tiles serialise alike exactly when they agree on position and value. */
  lemma SerializeTileForgetsAnnotations(t: Tile, u: Tile)
    ensures SerializeTile(t) == SerializeTile(u) <==> (t.Pos() == u.Pos() && t.value == u.value)
  {
  }

  /** Doubling a tile value, as a merge does, gives a tile value. */
  lemma DoubleTileValue(n: int)
    requires IsTileValue(n)
    ensures IsTileValue(2 * n)
  {
    assert (2 * n) / 2 == n;
  }

  /** The values fresh tiles get are tile values. */
  lemma StartValueIsTileValue(v: int)
    requires IsStartValue(v)
    ensures IsTileValue(v)
  {
    assert IsPowerOfTwo(1);
    assert IsPowerOfTwo(2);
  }
}
