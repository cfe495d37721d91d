/** The game state the two input handlers change: the world grid and the
    selected block.

    `KeyDown` is the keyboard handler (it only changes the selection) and
    `MouseDown` the mouse handler (it only changes one cell of the world).
    Each is proved against the pure definitions in `Hotbar` and
    `Interaction`, so the lemmas there apply to the object. */
module Game {

  import opened Hotbar
  import opened Interaction

  class GameState {
    /** The world, `mapHeight` rows of `mapWidth` block ids: `world[tileY, tileX]`. */
    const world: array2<int>
    const mapWidth: int
    const mapHeight: int
    /** The edge of a tile, in pixels. */
    const tileSize: real
    /** How far from the player's centre a tile's centre may be, in pixels. */
    const buildRange: real
    /** Moved by the physics code, which is not part of this model. */
    var player: Player
    var selectedBlock: int
    /** The keys pressed so far, oldest first. */
    ghost var keysPressed: seq<string>

    ghost predicate Valid()
      reads this
    {
      && world.Length0 == mapHeight
      && world.Length1 == mapWidth
      && buildRange == BuildRange(tileSize)
      && selectedBlock == SelectionAfter(keysPressed)
    }

    /** What a click is judged against. */
    function CurrentScene(): Scene
      reads this
    {
      Interaction.Scene(mapWidth, mapHeight, tileSize, player)
    }

    /** The world as a grid of rows. */
    ghost function Tiles(): (g: Grid)
      reads world
      ensures IsGrid(g, world.Length1, world.Length0)
      ensures forall y, x :: 0 <= y < world.Length0 && 0 <= x < world.Length1 ==> g[y][x] == world[y, x]
    {
      seq(world.Length0, y requires 0 <= y < world.Length0 reads world =>
        seq(world.Length1, x requires 0 <= x < world.Length1 reads world => world[y, x]))
    }

    constructor (world: array2<int>, tileSize: real, player: Player)
      ensures Valid()
      ensures this.world == world && mapWidth == world.Length1 && mapHeight == world.Length0
      ensures this.tileSize == tileSize && this.player == player
      ensures selectedBlock == InitialSelection && keysPressed == []
    {
      this.world := world;
      mapWidth := world.Length1;
      mapHeight := world.Length0;
      this.tileSize := tileSize;
      buildRange := ReachTiles as real * tileSize;
      this.player := player;
      selectedBlock := InitialSelection;
      keysPressed := [];
    }

    /** The selection is always one of the hotbar's ids. */
    lemma SelectionInHotbar()
      requires Valid()
      ensures IsHotbarBlock(selectedBlock)
    {
      SelectionStaysInHotbar(keysPressed);
    }

    /** The keyboard handler. */
    method KeyDown(key: string)
      requires Valid()
      modifies this`selectedBlock, this`keysPressed
      ensures Valid()
      ensures keysPressed == old(keysPressed) + [key]
      ensures selectedBlock == AfterKey(old(selectedBlock), key)
    {
      if key == "1" { selectedBlock := Dirt; }
      if key == "2" { selectedBlock := Stone; }
      if key == "3" { selectedBlock := Hand; }
      keysPressed := keysPressed + [key];
      assert keysPressed[..|keysPressed| - 1] == old(keysPressed);
    }

    /** The mouse handler, for a press of `button` over the tile at column
        `tileX`, row `tileY`. */
    method MouseDown(tileX: int, tileY: int, button: int)
      requires Valid()
      modifies world
      ensures Valid()
      ensures Tiles() == Click(old(Tiles()), CurrentScene(), selectedBlock, Mouse(tileX, tileY, button))
      ensures forall y, x :: 0 <= y < mapHeight && 0 <= x < mapWidth && (y != tileY || x != tileX) ==>
        world[y, x] == old(world[y, x])
    {
      ghost var before := Tiles();
      ghost var m := Mouse(tileX, tileY, button);
      if tileX < 0 || tileY < 0 || tileX >= mapWidth || tileY >= mapHeight {
        return;
      }

      var blockCenterX := tileX as real * tileSize + tileSize / 2.0;
      var blockCenterY := tileY as real * tileSize + tileSize / 2.0;
      var dx := blockCenterX - (player.x + player.w / 2.0);
      var dy := blockCenterY - (player.y + player.h / 2.0);
      // `dist > buildRange`, with `dist` the square root of dx*dx + dy*dy
      if !(buildRange >= 0.0 && dx * dx + dy * dy <= buildRange * buildRange) {
        return;
      }
      assert Accepted(CurrentScene(), m);

      if button == 0 {
        world[tileY, tileX] := 0;
        SameGrid(before, tileX, tileY, 0);
      } else if button == 2 {
        if world[tileY, tileX] == 0 && selectedBlock != 0 {
          world[tileY, tileX] := selectedBlock;
          SameGrid(before, tileX, tileY, selectedBlock);
        }
      }
    }

    /** After `world[y, x] := v`, the grid is `before` with that cell set. */
    lemma SameGrid(before: Grid, x: int, y: int, v: int)
      requires IsGrid(before, world.Length1, world.Length0)
      requires 0 <= y < world.Length0 && 0 <= x < world.Length1
      requires world[y, x] == v
      requires forall i, j :: 0 <= i < world.Length0 && 0 <= j < world.Length1 && (i != y || j != x) ==>
        world[i, j] == before[i][j]
      ensures Tiles() == Put(before, x, y, v)
    {
      var now, want := Tiles(), Put(before, x, y, v);
      forall i | 0 <= i < world.Length0
        ensures now[i] == want[i]
      {
        assert |now[i]| == |want[i]|;
      }
    }
  }
}
