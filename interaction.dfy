/** Breaking and placing blocks with the mouse, as a function on the world.

    The world is a grid of block ids, indexed row first (`g[tileY][tileX]`),
    `mapHeight` rows of `mapWidth` cells. A click names a target tile and a
    mouse button. It is ignored when the tile is outside the map or when the
    tile's centre is farther than the build range (five tiles) from the
    player's centre. Otherwise button 0 clears the cell, and button 2 writes
    the selected block into the cell when the cell is empty and the selection
    is not the bare hand. */
module Interaction {

  import opened Hotbar

  type Grid = seq<seq<int>>

  /** `g` has `height` rows of `width` cells. */
  predicate IsGrid(g: Grid, width: int, height: int)
  {
    |g| == height && forall y :: 0 <= y < |g| ==> |g[y]| == width
  }

  /** The player's rectangle: top-left corner, width and height, in pixels. */
  datatype Player = Player(x: real, y: real, w: real, h: real)

  /** What a click is judged against: the map size in tiles, the edge of a
      tile in pixels and where the player stands. */
  datatype Scene = Scene(mapWidth: int, mapHeight: int, tileSize: real, player: Player)

  /** One mouse press: the tile under the pointer and the button. */
  datatype Mouse = Mouse(tileX: int, tileY: int, button: int)

  const BreakButton: int := 0
  const PlaceButton: int := 2

  /** The reach of the player, in tiles. */
  const ReachTiles: int := 5

  /** The reach of the player, in pixels. */
  function BuildRange(tileSize: real): real
  {
    ReachTiles as real * tileSize
  }

  predicate InBounds(s: Scene, m: Mouse)
  {
    0 <= m.tileX < s.mapWidth && 0 <= m.tileY < s.mapHeight
  }

  /** The offset from the player's centre to the centre of the target tile. */
  function OffsetX(s: Scene, m: Mouse): real
  {
    (m.tileX as real * s.tileSize + s.tileSize / 2.0) - (s.player.x + s.player.w / 2.0)
  }

  function OffsetY(s: Scene, m: Mouse): real
  {
    (m.tileY as real * s.tileSize + s.tileSize / 2.0) - (s.player.y + s.player.h / 2.0)
  }

  /** The Euclidean distance `dist` from the origin to (dx, dy) is at most
      `range`, written without the square root: `dist` is not negative, so
      `dist > range` fails exactly when `range` is not negative and
      `dx*dx + dy*dy <= range*range`. */
  predicate WithinRange(dx: real, dy: real, range: real)
  {
    range >= 0.0 && dx * dx + dy * dy <= range * range
  }

  predicate InReach(s: Scene, m: Mouse)
  {
    WithinRange(OffsetX(s, m), OffsetY(s, m), BuildRange(s.tileSize))
  }

  /** A click passes both guards: it will act on a cell of the map. */
  predicate Accepted(s: Scene, m: Mouse)
  {
    InBounds(s, m) && InReach(s, m)
  }

  /** `g` with the cell at column `x`, row `y` set to `v`. */
  function Put(g: Grid, x: int, y: int, v: int): (r: Grid)
    requires 0 <= y < |g| && 0 <= x < |g[y]|
    ensures |r| == |g| && forall i :: 0 <= i < |g| ==> |r[i]| == |g[i]|
    ensures r[y][x] == v
    ensures forall i, j :: 0 <= i < |g| && 0 <= j < |g[i]| && (i != y || j != x) ==>
      r[i][j] == g[i][j]
  {
    g[y := g[y][x := v]]
  }

  /** The world after the click `m`, with `selected` the selected block. */
  function Click(g: Grid, s: Scene, selected: int, m: Mouse): (r: Grid)
    requires IsGrid(g, s.mapWidth, s.mapHeight)
    ensures IsGrid(r, s.mapWidth, s.mapHeight)
  {
    if !Accepted(s, m) then g
    else if m.button == BreakButton then Put(g, m.tileX, m.tileY, 0)
    else if m.button == PlaceButton && g[m.tileY][m.tileX] == 0 && selected != Hand then
      Put(g, m.tileX, m.tileY, selected)
    else g
  }

  // ---------------------------------------------------------------------
  // The reach test

  lemma MulPositive(x: real, y: real)
    requires x > 0.0 && y > 0.0
    ensures x * y > 0.0
  {
  }

  lemma MulNonNegative(x: real, y: real)
    requires x >= 0.0 && y >= 0.0
    ensures x * y >= 0.0
  {
  }

  /** On numbers that are not negative, squaring keeps the order. */
  lemma SquareMonotone(a: real, b: real)
    requires a >= 0.0 && b >= 0.0
    ensures a <= b <==> a * a <= b * b
  {
    if a <= b {
      var d, s := b - a, b + a;
      MulNonNegative(d, s);
      assert b * b - a * a == d * s;
    } else {
      var d, s := a - b, a + b;
      MulPositive(d, s);
      assert a * a - b * b == d * s;
    }
  }

  /** With `dist` the square root of `dx*dx + dy*dy`, the squared test
      accepts exactly the offsets that `dist > range` does not reject. */
  lemma ReachMatchesDistance(dx: real, dy: real, range: real, dist: real)
    requires dist >= 0.0 && dist * dist == dx * dx + dy * dy
    ensures WithinRange(dx, dy, range) <==> !(dist > range)
  {
    if range >= 0.0 {
      SquareMonotone(dist, range);
    }
  }

  /** Along a row through the player's centre, a tile whose centre is `k`
      tiles away is in reach exactly when `k` is at most 5: the boundary
      itself is still in reach. */
  lemma ReachAlongRow(s: Scene, m: Mouse, k: int)
    requires s.tileSize > 0.0 && OffsetY(s, m) == 0.0
    requires k >= 0
    requires OffsetX(s, m) == k as real * s.tileSize || OffsetX(s, m) == -(k as real) * s.tileSize
    ensures InReach(s, m) <==> k <= ReachTiles
  {
    var t := s.tileSize;
    var d := k as real * t;
    var range := BuildRange(t);
    assert OffsetX(s, m) * OffsetX(s, m) == d * d;
    MulNonNegative(k as real, t);
    SquareMonotone(d, range);
    var gap := ReachTiles as real - k as real;
    assert range - d == gap * t;
    if k <= ReachTiles {
      MulNonNegative(gap, t);
    } else {
      MulPositive(-gap, t);
    }
  }

  // ---------------------------------------------------------------------
  // Properties of a click

  /** A tile outside the map is never touched. */
  lemma OutOfBoundsIgnored(g: Grid, s: Scene, selected: int, m: Mouse)
    requires IsGrid(g, s.mapWidth, s.mapHeight)
    requires !InBounds(s, m)
    ensures Click(g, s, selected, m) == g
  {
  }

  /** A tile out of reach is never touched. */
  lemma OutOfReachIgnored(g: Grid, s: Scene, selected: int, m: Mouse)
    requires IsGrid(g, s.mapWidth, s.mapHeight)
    requires !InReach(s, m)
    ensures Click(g, s, selected, m) == g
  {
  }

  /** Button 0 on an accepted tile empties it, whatever it held. */
  lemma BreakEmpties(g: Grid, s: Scene, selected: int, m: Mouse)
    requires IsGrid(g, s.mapWidth, s.mapHeight)
    requires Accepted(s, m) && m.button == BreakButton
    ensures Click(g, s, selected, m)[m.tileY][m.tileX] == 0
  {
  }

  /** Breaking twice leaves the world as breaking once. */
  lemma BreakIdempotent(g: Grid, s: Scene, selected: int, m: Mouse)
    requires IsGrid(g, s.mapWidth, s.mapHeight)
    requires m.button == BreakButton
    ensures Click(Click(g, s, selected, m), s, selected, m) == Click(g, s, selected, m)
  {
    if Accepted(s, m) {
      var once := Put(g, m.tileX, m.tileY, 0);
      assert once[m.tileY][m.tileX := 0] == once[m.tileY];
    }
  }

  /** Button 2 on an accepted empty tile, with a block selected, puts that
      block there. */
  lemma PlaceFillsEmpty(g: Grid, s: Scene, selected: int, m: Mouse)
    requires IsGrid(g, s.mapWidth, s.mapHeight)
    requires Accepted(s, m) && m.button == PlaceButton
    requires g[m.tileY][m.tileX] == 0 && selected != Hand
    ensures Click(g, s, selected, m)[m.tileY][m.tileX] == selected
  {
  }

  /** Button 2 on an occupied tile, or with the bare hand selected, changes
      nothing. */
  lemma PlaceBlocked(g: Grid, s: Scene, selected: int, m: Mouse)
    requires IsGrid(g, s.mapWidth, s.mapHeight)
    requires m.button == PlaceButton
    requires (InBounds(s, m) && g[m.tileY][m.tileX] != 0) || selected == Hand
    ensures Click(g, s, selected, m) == g
  {
  }

  /** Only buttons 0 and 2 do anything. */
  lemma OtherButtonsIgnored(g: Grid, s: Scene, selected: int, m: Mouse)
    requires IsGrid(g, s.mapWidth, s.mapHeight)
    requires m.button != BreakButton && m.button != PlaceButton
    ensures Click(g, s, selected, m) == g
  {
  }

  /** A click changes at most the target cell: every other cell keeps its
      value, and the target either keeps its value, becomes empty (button 0)
      or becomes the selected block (button 2, onto an empty cell). */
  lemma OnlyTargetChanges(g: Grid, s: Scene, selected: int, m: Mouse)
    requires IsGrid(g, s.mapWidth, s.mapHeight)
    ensures forall y, x ::
      0 <= y < s.mapHeight && 0 <= x < s.mapWidth && (y != m.tileY || x != m.tileX) ==>
        Click(g, s, selected, m)[y][x] == g[y][x]
    ensures InBounds(s, m) ==>
      var after := Click(g, s, selected, m)[m.tileY][m.tileX];
      var before := g[m.tileY][m.tileX];
      after == before
      || (after == 0 && m.button == BreakButton)
      || (after == selected && before == 0 && m.button == PlaceButton)
  {
  }

  /** Placing never overwrites a block, and breaking never creates one. */
  lemma NoOverwriteNoCreation(g: Grid, s: Scene, selected: int, m: Mouse)
    requires IsGrid(g, s.mapWidth, s.mapHeight)
    ensures m.button == PlaceButton ==>
      forall y, x :: 0 <= y < s.mapHeight && 0 <= x < s.mapWidth && g[y][x] != 0 ==>
        Click(g, s, selected, m)[y][x] == g[y][x]
    ensures m.button != PlaceButton ==>
      forall y, x :: 0 <= y < s.mapHeight && 0 <= x < s.mapWidth && Click(g, s, selected, m)[y][x] != 0 ==>
        Click(g, s, selected, m)[y][x] == g[y][x]
  {
    OnlyTargetChanges(g, s, selected, m);
  }

  /** Placing onto an empty tile and then breaking it gives back the world
      as it was, whatever the selection and wherever the tile. */
  lemma BreakUndoesPlace(g: Grid, s: Scene, selected: int, m: Mouse)
    requires IsGrid(g, s.mapWidth, s.mapHeight)
    requires m.button == PlaceButton
    requires InBounds(s, m) ==> g[m.tileY][m.tileX] == 0
    ensures Click(Click(g, s, selected, m), s, selected, m.(button := BreakButton)) == g
  {
    var b := m.(button := BreakButton);
    assert Accepted(s, b) == Accepted(s, m);
    if Accepted(s, m) {
      assert g[m.tileY][m.tileX := 0] == g[m.tileY];
      if selected != Hand {
        var placed := Put(g, m.tileX, m.tileY, selected);
        assert placed[m.tileY][m.tileX := 0] == g[m.tileY];
      }
    }
  }
}
