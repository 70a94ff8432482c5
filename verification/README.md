# Map conversion of the raycasting engine's game screen

The raycasting engine's game screen gets its level from a map editor as a
flat, row-major list of cells plus a column count. Before the engine starts,
six small functions in `src/components/game.tsx` convert that list:

- `indexToCoordinates` turns a flat index into `(x, y)`.
- `buildMap` cuts the list into rows of wall-colour tags. A wall cell gets the
  tag of its colour from the `outieToInnerMap` table; every other cell gets 0.
- `buildPlayer` finds the first spawn cell. It returns that cell's
  coordinates and the direction the `playerPosMapping` table gives it.
- `buildEnemies` lists the enemy cells, each with a `Circle` or `Square` sprite.
- `buildFinals` lists the coordinates of the goal (`end`) cells.
- `buildDeaths` lists the coordinates of the hazard (`death`) cells.

The model has four modules:

- `Cells` (`cells.dfy`) holds the cell values. The editor's cell type lives
  in `src/components/map/map-builder`, which is not part of this model. The
  model has one value per tag the converter refers to, plus `Empty` for the
  unset (falsy) cell. Spawn cells are recognised by the `"player_"` prefix of
  their tag, as the source does (`IsSpawn`). The source finds walls by looking
  the tag up in the `outieToInnerMap` table, with 0 for anything else. `IsWall`
  is the model's own `"wall_"`-prefix predicate, and `WallCells` proves that it
  holds exactly for the table's six wall keys.
- `ArrayOps` (`array_ops.dfy`) states the JavaScript array operations the
  converter uses over sequences: `findIndex`, and `filter(Boolean)` over a
  list of objects and `undefined`.
- `Arithmetic` (`arithmetic.dfy`) holds the integer facts the index proofs need.
- `Game` (`game.dfy`) holds the two tables and the six converters.

`buildMap` is a `method` with the source's loop, which steps `i` by `columns`
and pushes one slice per step. It is proved equal to the function `Grid`, and
the lemmas state what `Grid` promises. The other converters are pure
functions, as in the source.

Index arithmetic follows JavaScript. `%` truncates, so `JsRemainder` writes
it out. `Math.floor(i / columns)` is Dafny's `/`, because the divisor is
positive. So `buildPlayer` is total: on a map without a spawn cell,
`findIndex` gives -1. The position is then `(-1 % columns, -1)` and the
direction is undefined (`None`).

`buildMap` does not reject a ragged map. When `columns` does not divide the
map's length, the last row is short (`GridRowLengths`, `GridRectangular`).
The hazard list is computed (`src/components/game.tsx:143`) but never passed
to `GameModal` (`src/components/game.tsx:253`), so the model stops at
`BuildDeaths`.

## Model

| member | source | states |
|---|---|---|
| `Game.IndexToCoordinates` | src/components/game.tsx:77-79 | With a non-negative index, `x` is in `[0, columns)`, `y >= 0` and `y * columns + x` is the index. With a negative index (JavaScript `%` and `Math.floor`), `y < 0` and `x` is in `(-columns, 0]`. In every case `y` is the floor of `index / columns`. |
| `Game.CoordinatesRoundTrip` | src/components/game.tsx:77-79 | Each cell `(x, y)` of a `columns`-wide grid is the image of exactly the index `y * columns + x`. |
| `Game.MinusOneCoordinates` | src/components/game.tsx:78 | Index -1, which `findIndex` gives when nothing matches, becomes `(-1, -1)`. It becomes `(0, -1)` when `columns` is 1. |
| `Game.WallTag` | src/components/game.tsx:57-64 | Each cell gets a tag in {0, 1, 2, 3, 5, 6, 7}, so 4 is never produced. The tag is non-zero exactly for the wall cells; empty, goal, hazard, spawn and enemy cells get 0. |
| `Game.WallTagInjective` | src/components/game.tsx:57-64 | Two different wall colours never share a tag. |
| `Cells.WallCells` | src/components/game.tsx:57-64 | The `wall_` cells are exactly the six keys of the colour table. |
| `Game.BuildMap` | src/components/game.tsx:123-132 | The loop that steps `i` by `columns` and pushes `transformed.slice(i, i + columns)` returns exactly `Grid`. |
| `Game.GridRowCount` | src/components/game.tsx:127-129 | The grid has the fewest `columns`-wide rows that hold the whole map, i.e. `ceil(len / columns)`. |
| `Game.GridRowLengths` | src/components/game.tsx:127-129 | Every row but the last has exactly `columns` cells. The last row has `len % columns` cells, or a full row when `columns` divides `len`. |
| `Game.GridRectangular` | src/components/game.tsx:127-129 | All rows are `columns` wide exactly when `columns` divides the map's length. |
| `Game.GridFlatten` | src/components/game.tsx:123-131 | The rows laid end to end have the map's length and hold the tag of every cell, in order. |
| `Game.GridAgreesWithCoordinates` | src/components/game.tsx:77-79 | The grid cell at `indexToCoordinates(i)` exists and holds the tag of cell `i`. Conversely, each grid cell `(x, y)` holds the tag of the map cell at index `y * columns + x`. |
| `Game.CellAtCoordinates` | src/components/game.tsx:123-131 | For one index: its coordinates fall inside the grid, and the grid holds that cell's tag there. |
| `Game.CellAtIndex` | src/components/game.tsx:123-131 | For one grid cell: its row-major index lies inside the map, and the grid holds that map cell's tag. |
| `ArrayOps.FindIndex` | src/components/game.tsx:82 | `findIndex` returns -1 exactly when no element matches. Otherwise it returns a matching index with no match before it. |
| `Cells.SpawnCells` | src/components/game.tsx:82 | The `startsWith("player_")` test picks exactly the eight spawn cells. |
| `Game.DirectionOf` | src/components/game.tsx:66-75 | The direction table yields a direction exactly for a spawn cell. A lookup of anything else, including `undefined`, yields none. Every direction has both components in {-1, 0, 1} and is not zero. |
| `Game.SpawnDirectionsDistinct` | src/components/game.tsx:66-75 | The eight spawn cells have pairwise different directions. |
| `Game.SpawnDirectionsCover` | src/components/game.tsx:66-75 | Each of the eight unit grid steps is the direction of some spawn cell. |
| `Game.BuildPlayer` | src/components/game.tsx:81-89 | If the map has a spawn cell, the player stands at the coordinates of the lowest-index one. `x` is in range, and the direction is that cell's table entry. Without a spawn cell, the position is index -1's coordinates and the direction is undefined. |
| `ArrayOps.Compact` | src/components/game.tsx:103 | `filter(Boolean)` keeps the defined entries in their original order: entry `j` of the result is the `j`-th defined entry. |
| `ArrayOps.Kept` | src/components/game.tsx:103 | The kept positions are strictly increasing and all hold defined entries. Every defined entry is among them. |
| `Game.TargetEntries` | src/components/game.tsx:107-121 | Entry `j` of the filtered list is the coordinates of the `j`-th cell equal to the target. |
| `Game.TargetsComplete` | src/components/game.tsx:107-121 | Every cell equal to the target has its coordinates in the filtered list. |
| `Game.CoordinatesOf` | src/components/game.tsx:107-121 | The result has one coordinate per cell equal to the target and nothing else. Each entry maps back to such a cell. The entries are in strictly increasing index order, so there are no duplicates. |
| `Game.BuildFinals` | src/components/game.tsx:107-113 | The goal list has exactly one coordinate per `end` cell, in increasing index order, and nothing else. |
| `Game.BuildDeaths` | src/components/game.tsx:115-121 | The hazard list has exactly one coordinate per `death` cell, in increasing index order, and nothing else. |
| `Game.EnemyEntries` | src/components/game.tsx:91-104 | Entry `j` of the filtered enemy list sits at the `j`-th enemy cell. Its sprite is `Circle` exactly when that cell is `enemy_circle`. |
| `Game.EnemiesComplete` | src/components/game.tsx:91-104 | Every enemy cell has an entry in the filtered enemy list. |
| `Game.BuildEnemies` | src/components/game.tsx:91-104 | The enemy list has one entry per enemy cell, in increasing index order, and nothing else. The sprite is `Circle` exactly for `enemy_circle` cells and `Square` for the rest. |
| `Game.TargetsOnOpenCells` | src/components/game.tsx:107-131 | Coordinates collected for a non-wall target lie inside the grid, on cells with tag 0. |
| `Game.EnemiesOnOpenCells` | src/components/game.tsx:91-131 | Every enemy stands inside the grid on a cell with tag 0. |
| `Game.ObjectsOnOpenCells` | src/components/game.tsx:81-131 | The lists agree with the grid. The player (when there is a spawn cell), every enemy, goal and hazard stands inside the grid on a cell with tag 0. |

## Left out

- The React component `Game` (game.tsx:134-284) is left out. It holds the hooks, JSX, event-listener wiring, pointer-lock and fullscreen requests, and the error toast: browser plumbing with no logic to model.
- The engine classes (`InputManager`, `Core`, `Player`, `Enemy`, `GameModal`, `Renderer`, `CanvasPaint`, `Settings`) are not part of this model. They are only imported here, so raycasting, movement, collision and the win/loss machine are not modelled.
- The minimap size and position arithmetic (game.tsx:39-41, 195-214) is left out. It is floating-point division that only feeds configuration.
- The fixture `MAP` and the other constants at game.tsx:21-49 are left out, because the converters do not use them.
- `src/components/map/map-builder` is not part of this model. Its `CellValue` is modelled by the tags the converters mention. Its `isEnemyCell` is taken to hold for `enemy_circle` and `enemy_square` only.
- Every converter requires `columns > 0`. With `columns <= 0` the `buildMap` loop never ends on a non-empty map. With `columns == 0`, `%` yields `NaN` as well. Non-integer column counts are not modelled.
- JavaScript's `-1 % 1` is negative zero. The model gives the integer 0, which equals it numerically.
- The engine colour type `ColorOptions` is modelled as a natural number.
- A map without a spawn cell makes the direction `undefined`. Reading it when the engine's player is built (game.tsx:229) lies outside the converters and is not modelled.
