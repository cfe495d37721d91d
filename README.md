# Block interaction in kaniria

This project models the block interaction of kaniria, a 2D tile-world game played in
the browser (`public/game.js`). The model covers two parts:

- **The hotbar selection.** One integer, `selectedBlock`, starts at 1 (dirt). The keys
  "1", "2" and "3" select dirt (1), stone (2) and the bare hand (0). Any other key
  leaves the selection as it is.
- **The mouse handler.** It breaks or places the block under the pointer. The target
  tile (`tileX`, `tileY`) must lie on the map. The tile's centre must also be at most
  `buildRange = 5 * tileSize` pixels from the player's centre; a tile exactly at that
  distance still counts. If both checks pass, button 0 sets the cell to 0. Button 2
  writes the selected block into the cell, but only when the cell is 0 and the
  selection is not the hand. Every other case changes nothing.

Layout:

- `hotbar.dfy` (module `Hotbar`): the block ids and the selection after a key or a
  sequence of keys. It also holds an independent "last selection key wins"
  definition, with the lemmas that tie the two together.
- `interaction.dfy` (module `Interaction`): the bounds and reach guards as predicates.
  `Click` gives the world after a click, with the world as a grid of rows
  (`seq<seq<int>>`). The lemmas here are the properties of a click.
- `game.dfy` (module `Game`): class `GameState` holds the module-level state of
  `game.js`:
  - `world` as an `array2<int>` indexed `[tileY, tileX]`;
  - `selectedBlock`;
  - the map size, the tile size, `buildRange` and the player rectangle.

  `KeyDown` and `MouseDown` are the two handlers, written imperatively. They are
  proved against `AfterKey` and `Click`: `Tiles()` is the array read as a grid.

The square root in the reach test is replaced by a comparison of squares. The source
rejects a tile when `dist > buildRange`. Since `dist` is never negative, that check
fails exactly when `buildRange >= 0` and `dx*dx + dy*dy <= buildRange*buildRange`.
`ReachMatchesDistance` proves this equivalence for any `dist >= 0` with
`dist*dist == dx*dx + dy*dy`. It holds for every sign of `tileSize`: a negative
range rejects every tile, as `dist > buildRange` does.

In the code, button 0 breaks and button 2 places; other buttons do nothing.

## Model

The definitions without a contract of their own are covered by the rows below:
`Hotbar.SelectionAfter` (public/game.js:2, 5-9) is `AfterKey` applied over a session's
key presses from the initial selection, and is what `SelectionStaysInHotbar` and
`LastSelectionKeyWins` are about. `Interaction.InBounds` (public/game.js:17),
`Interaction.BuildRange` (public/game.js:12), `Interaction.OffsetX` and
`Interaction.OffsetY` (public/game.js:20-23), and `Interaction.WithinRange` and
`Interaction.InReach` (public/game.js:24-27) are `Click`'s two guards and their parts;
`ReachMatchesDistance`, `ReachAlongRow`, `OutOfBoundsIgnored` and `OutOfReachIgnored`
state what they mean.

| member | source | states |
|---|---|---|
| `Hotbar.KeyBlock` | public/game.js:4-9 | each of the keys "1", "2", "3" stands for a hotbar block id (dirt, stone or the hand) |
| `Hotbar.AfterKey` | public/game.js:5-9 | key "1" selects 1, "2" selects 2, "3" selects 0; every other key leaves the selection unchanged; a hotbar selection stays a hotbar selection |
| `Hotbar.LastSelectionKey` | public/game.js:5-9 | finds the last selection key of a key sequence: the key at that index is a selection key and none after it is; with no result, no key in the sequence is a selection key |
| `Hotbar.SelectionStaysInHotbar` | public/game.js:2-9 | starting from 1, after any sequence of key presses the selection is 0, 1 or 2 |
| `Hotbar.LastSelectionKeyWins` | public/game.js:2-9 | the selection after a key sequence is the block of the last selection key pressed, or the initial 1 when there was none |
| `Interaction.Put` | public/game.js:31-35 | writing one cell changes that cell to the new value and leaves every other cell and every row length as it was |
| `Interaction.Click` | public/game.js:15-38 | a click keeps the world a grid of `mapHeight` rows of `mapWidth` cells |
| `Interaction.SquareMonotone` | public/game.js:24-27 | for numbers that are not negative, comparing squares gives the same order as comparing the numbers, which is why the square root can be dropped |
| `Interaction.ReachMatchesDistance` | public/game.js:19-27 | the squared reach test accepts a target exactly when `dist > buildRange` is false, for `dist` the Euclidean distance |
| `Interaction.ReachAlongRow` | public/game.js:12-27 | a tile centre `k` tiles from the player along a row is in reach exactly when `k <= 5`; the boundary is inclusive |
| `Interaction.OutOfBoundsIgnored` | public/game.js:17 | a target outside `0 <= tileX < mapWidth`, `0 <= tileY < mapHeight` leaves the world unchanged |
| `Interaction.OutOfReachIgnored` | public/game.js:20-27 | a target whose centre is farther than the build range leaves the world unchanged |
| `Interaction.BreakEmpties` | public/game.js:29-31 | button 0 on an accepted target sets the cell to 0, whatever it held |
| `Interaction.BreakIdempotent` | public/game.js:29-31 | breaking twice gives the same world as breaking once |
| `Interaction.PlaceFillsEmpty` | public/game.js:32-35 | button 2 on an accepted empty cell with a non-hand selection writes the selected block |
| `Interaction.PlaceBlocked` | public/game.js:32-36 | button 2 on an occupied cell, or with the hand selected, leaves the world unchanged |
| `Interaction.OtherButtonsIgnored` | public/game.js:29-37 | any button other than 0 and 2 leaves the world unchanged |
| `Interaction.OnlyTargetChanges` | public/game.js:29-37 | no cell but `[tileY][tileX]` changes; that cell keeps its value, becomes 0 on button 0, or becomes the selection on button 2 when it was empty |
| `Interaction.NoOverwriteNoCreation` | public/game.js:32-36 | button 2 never changes an occupied cell; no other button ever creates a block |
| `Interaction.BreakUndoesPlace` | public/game.js:29-36 | placing onto an empty cell and then breaking the same tile gives back the original world |
| `Game.GameState.constructor` | public/game.js:2-12 | the game starts with selection 1 (dirt) and `buildRange == 5 * tileSize`, and the world's dimensions are the map's |
| `Game.GameState.SelectionInHotbar` | public/game.js:2-9 | in every reachable state the selected block is 0, 1 or 2 |
| `Game.GameState.KeyDown` | public/game.js:5-9 | the key handler sets `selectedBlock` to `AfterKey` of the old selection and changes nothing else |
| `Game.GameState.MouseDown` | public/game.js:15-38 | the mouse handler leaves the array equal to `Click` of the old world, and every cell but the target keeps its old value |

## Left out

- Rendering (`draw`, `drawInventory`, the canvas calls, zoom and camera, the visible
  tile clamps, public/game.js:44-103): these only draw the state and never change it.
- Event-listener wiring and the context-menu suppression (public/game.js:5, 15, 41):
  browser I/O. The handlers are plain methods that take a key, or a tile and a button.
- `getWorldTileFromMouse` (public/game.js:16) is not part of this model. It turns a
  browser event into a tile using zoom and camera state. The tile coordinates are
  inputs here.
- `Math.sqrt` and JavaScript floating point (public/game.js:20-27): pixel quantities are
  exact reals, so rounding and `NaN` are not modelled. The square root is replaced by
  the squared comparison, which `ReachMatchesDistance` proves equivalent.
- The world's generation and the globals `mapWidth`, `mapHeight`, `tileSize` and
  `player`: they are defined outside `game.js`. They are constructor arguments, and
  the world array's dimensions give `mapWidth` and `mapHeight`.
- The player's movement (physics, collision, gravity, jumps, fall damage) and the camera
  are not part of this model. `player` is a field that nothing here changes.
- Inventory counts and crafting: the modelled code has neither. Placing consumes nothing
  and breaking credits nothing.
