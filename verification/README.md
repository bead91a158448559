# Grid tile store

A Dafny model of the `Grid` class of `a3/Grid.C`. The class stores a
`width` by `height` tile map as one flat, row-major buffer of C++ `int`s.
Cell (x, y) lives at `x + y*width`. On top of the store sit two queries.
`isConnected` checks that a footprint fits at the origin and is otherwise a
stub. `findShortestPath` is a stub.

Layout:

- `cint.dfy`, module `CInt`: the 32-bit `int` range, and one monotonicity
  fact about multiplication.
- `tile_grid.dfy`, module `TileGrid`: the grid as an immutable value.
  `New`, `GetWidth`, `GetHeight`, `GetTile`, `SetTile`, `IsConnected` and
  `FindShortestPath` follow the source's members one for one. `Index` and
  `Coord` are row-major indexing and its inverse. `View` is the 2-D picture
  the buffer stands for.
- `grid_object.dfy`, module `GridObject`: the class itself, with constant
  dimensions and an `array<int32>` buffer. Its constructor, `GetTile`,
  `SetTile`, `IsConnected` and `FindShortestPath` are each proved to act on
  the array as the value model says. The constructor is specified through
  `TileGrid.New`, and `SetTile` through `TileGrid.SetTile`. Width and height
  are constant fields, read directly.

Modelling choices:

- `Tile` and `Direction` are enumerations declared in `Grid.H`, which is not
  part of this model. Each is a datatype wrapping its enumerator's integer
  value. Storing a tile keeps that integer; `static_cast<Tile>` wraps it again.
- The buffer comes from `new int[width*height]` and is not initialised.
  `New` therefore takes a function `junk` giving each cell's initial value.
  `NewAnyContents` shows that every buffer of the right length is a possible
  initial state.
- A negative `width*height` makes `new[]` throw `std::bad_array_new_length`.
  This is the `BadArrayNewLength` outcome of `New`. Signed overflow of the
  product is undefined behaviour, so `New` requires the product to be
  representable. The code accepts two negative dimensions whose product is
  non-negative. The model keeps such grids; they have no in-bounds cell.
- `canFit` is called but not defined in `Grid.C`. It becomes a function
  parameter over the grid state, the size and the origin.
- Neither accessor checks bounds. `GetTile` and `SetTile` require in-grid
  coordinates, which is what their callers are meant to pass. Off-grid
  coordinates are discussed under "Left out".
- The getters and `isConnected` are `const` in C++. In `TileGrid` every
  operation returns a new value and leaves its argument alone. In
  `GridObject` the queries are functions with a `reads` clause and no
  `modifies`.

## Model

| member | source | states |
|---|---|---|
| TileGrid.New | a3/Grid.C:3-10 | Construction succeeds exactly when `width*height` is non-negative. On success, the getters return the `width` and `height` passed in and the buffer holds exactly `width*height` cells. |
| TileGrid.NewAnyContents | a3/Grid.C:9 | The buffer is uninitialised: for every sequence of `width*height` ints there is a construction whose buffer is that sequence. |
| TileGrid.GetWidth | a3/Grid.C:19-21 | For a constructed grid, the width times the height is the buffer length. `New` makes it the constructor's `width`, and `SetTile` keeps it unchanged. |
| TileGrid.GetHeight | a3/Grid.C:23-25 | For a constructed grid, the width times the height is the buffer length. `New` makes it the constructor's `height`, and `SetTile` keeps it unchanged. |
| TileGrid.GetTile | a3/Grid.C:27-29 | The tile read at (x, y) is the buffer cell that `Coord` places at (x, y), cast back to `Tile`. |
| TileGrid.RowMajorInRange | a3/Grid.C:28 | For `0 <= x < width` and `0 <= y < height`, `y*width` is non-negative and `x + y*width` is below `width*height`. |
| TileGrid.Index | a3/Grid.C:28 | The row-major position of an in-bounds cell is inside the buffer, and neither `y*width` nor the sum overflows a 32-bit `int`. |
| TileGrid.RowMajorInjective | a3/Grid.C:53 | Two cells with columns in `[0, width)` and the same value of `x + y*width` are the same cell. |
| TileGrid.IndexDistinct | a3/Grid.C:53 | Distinct in-bounds cells have distinct buffer positions. |
| TileGrid.Coord | a3/Grid.C:28 | Every buffer position of a grid with positive width belongs to an in-bounds cell whose row-major index is that position. |
| TileGrid.CoordOfIndex | a3/Grid.C:28 | `Coord` recovers the cell from its index, so indexing is a bijection between in-bounds cells and buffer positions. |
| TileGrid.SetTile | a3/Grid.C:52-54 | After a write of `t` at (x, y), `GetTile(x, y)` returns `t`. Every other in-bounds cell reads what it read before. Width, height and buffer length are unchanged. |
| TileGrid.View | a3/Grid.C:27-29 | The 2-D picture read through `GetTile` has `height` rows of `width` tiles; it is empty when a dimension is negative. |
| TileGrid.SetTileUpdatesView | a3/Grid.C:52-54 | A write is a point update of the 2-D picture: row `y`, column `x` becomes `t` and nothing else changes. |
| TileGrid.SetTileOwnValue | a3/Grid.C:27-29 | Writing back the tile just read leaves the grid unchanged, so the int store and the cast to `Tile` round-trip. |
| TileGrid.SetTileOverwrite | a3/Grid.C:52-54 | A second write to the same cell hides the first. |
| TileGrid.SetTileCommute | a3/Grid.C:52-54 | Writes to two different cells give the same grid in either order. |
| TileGrid.IsConnected | a3/Grid.C:31-45 | The answer is false whenever the footprint does not fit at the origin. Otherwise the stub answers true. |
| TileGrid.IsConnectedIgnoresDestination | a3/Grid.C:31-45 | The answer does not depend on the destination, since only the origin's fit is checked. |
| TileGrid.FindShortestPath | a3/Grid.C:47-50 | The stub reports 1 for every grid and query. It leaves the caller's path vector as it was. |
| GridObject.Grid.constructor | a3/Grid.C:3-10 | The object gets a newly allocated buffer that it owns, shared with no other object or array. Its state is the successful outcome of `TileGrid.New` for the same width, height and initial contents. |
| GridObject.Grid.GetTile | a3/Grid.C:27-29 | Reading `tiles[x + y*width]` from the array gives the value model's `GetTile`. |
| GridObject.Grid.SetTile | a3/Grid.C:52-54 | Writing `tiles[x + y*width]` turns the object's state into the value model's `SetTile` of the old state. Its dimensions are constant fields. |
| GridObject.Grid.IsConnected | a3/Grid.C:31-45 | The query on the object reads the object and modifies nothing. It answers as the value model's `IsConnected`. |
| GridObject.Grid.FindShortestPath | a3/Grid.C:47-50 | The query on the object reads the object and modifies nothing. It answers as the value model's `FindShortestPath`: 1, with the path unchanged. |

## Left out

- The destructor and `new[]`/`delete[]`. The buffer is a sequence or a
  Dafny array, so there is nothing to free.
- `std::bad_alloc` when memory runs out. Allocation is assumed to succeed
  whenever the length is non-negative.
- Flood-fill reachability, a reachability cache, movement and diagonal rules,
  and A* search. The source holds only comments and stubs for these, so any
  model of them would be invented behaviour.
- The body of `canFit`. It is not defined in `Grid.C` and stays a parameter.
- Off-grid reads and writes. The code does not check bounds. When the flat
  index `x + y*width` falls outside the buffer, the access is undefined
  behaviour. When it falls inside, the access is well defined and reaches a
  different cell. With width 3 and height 2, `getTile(3, 0)` reads cell
  (0, 1) and `setTile(-1, 1, t)` writes cell (2, 0). The model requires
  `InBounds`, so neither kind of off-grid access is modelled.
- TileGrid.GetTile: requires in-grid coordinates, so it says nothing about
  off-grid coordinates whose flat index lands on another cell.
- TileGrid.SetTile: requires in-grid coordinates. Its promise that no other
  cell changes is proved only for in-grid writes. An off-grid write whose
  flat index lands inside the buffer changes the cell it aliases.
- The concrete enumerators of `Tile` and `Direction`. They are declared in
  `Grid.H`, which is not part of this model.
