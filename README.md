# Flowmap water automaton in Dafny

A model of the water-flow cellular automaton in `src/flowmap.rs`. A
`Landscape` is a row-major grid of `LandCell`s. Each cell has a land level,
a standing-water level (both 8-bit) and a "water is flowing over me" flag.
The grid keeps two cached counters: how many cells are wet and how many are
flowing. The border is a wall of land 255.

One `tick` computes the next state of every interior cell from the same
pre-tick snapshot:

- a cell that some neighbour pours into (a neighbour that is wet or flowing,
  and whose surface is strictly higher) starts flowing;
- if that cell is also the lowest of its eight neighbours (ties count as
  lowest), it gains 0 or 1 unit of water and stops flowing.

Then both counters are recounted. `reset` drains the interior. `set_water`
and `make_stream` edit one cell. `new_bowl` and `new_from_dem` build a
landscape.

Modules:

- `Cells` (`cells.dfy`): the cell value, `total_level` and `is_wet`.
- `Rules` (`rules.dfy`): `is_lowest`, `is_about_to_be_wet` and the update
  rule of one interior cell, as pure functions with their properties.
- `Grid` (`grid.dfy`): row-major index arithmetic, the neighbourhood, and
  specification functions for tick, reset and both constructors, with the
  lemmas about them.
- `Flowmap` (`flowmap.dfy`): the `Landscape` class. Its methods update the
  `cells` field and the counters as the source does, with the source's nested
  loops. `Tick`, `Reset`, `GetNeighbours`, `Bowl` and `FromDem` are proved
  against specification functions from `Grid`. `NextState` is proved against
  `Rules.NextCell`. `SetWater` and `MakeStream` are proved against a
  one-position update of the old cells.
- `Scenarios` (`scenarios.dfy`): the `is_lowest` unit test from
  `tests/web.rs`, and single ticks of a 3x3 pit.
- `Wrappers` (`wrappers.dfy`): `Option` and `Result`.

Modelling choices:

- `Level` is the subset type `0..255`. `total_level` is a plain `u8`
  addition, so it is only defined when land plus water fits (`Fits`).
  If every cell fits, a cell that pools has a strictly higher neighbour.
  So its surface is below 255, `water_level += 1` cannot overflow, and a
  tick keeps every cell fitting (`Rules.RoomToPool`, `Grid.TickCellBounds`).
- The random pick from `[0, 1, 1]` is a parameter: `choices` holds one
  `Choice` (0 or 1) per grid position. Border entries are never read.
- The cell vector is a `seq<LandCell>` field that the methods reassign. The
  tick builds a copy and swaps it in, as the source does.
- Panics become explicit outcomes. `get_neigbours` on a border cell returns
  `None`. `new_from_dem` with a buffer of the wrong length returns
  `Failure(DemSizeMismatch)`. An out-of-range vector index becomes a
  precondition.

Where the code differs from what a reader might expect, the model follows the
code:

- A cell pools only when something pours into it. Being flowing and lowest
  is not enough. A stream placed in a pit with a dry rim stays as it is
  (`Scenarios.StillRimKeepsPit`).
- `reset` sets only the water level of interior cells to 0. It keeps the
  flowing flags, and it does not recount the cached counters.
- `set_water` and `make_stream` check no coordinates of their own. Only the
  vector index `row * width + column` must exist, so `column == width`
  addresses column 0 of the next row.
- `total_level` does not saturate. A cell whose land plus water exceeds 255
  is outside the model.

## Model

| member | source | states |
|---|---|---|
| Cells.TotalLevel | src/flowmap.rs:50-56 | The surface is at least the land and at least the water, and it is strictly above the land exactly when the cell is wet. |
| Cells.IsWet | src/flowmap.rs:51-53 | `is_wet`: the cell holds standing water (water level above 0). It is the condition counted by `Flowmap.Landscape.CountWater`, and `Cells.TotalLevel` proves it equivalent to the surface standing above the land. |
| Rules.IsLowestIff | src/flowmap.rs:100-104 | `is_lowest` holds iff every neighbour's total level is at least the target's. Ties count as lowest, and an empty neighbour list gives true. |
| Rules.IsAboutToBeWetIff | src/flowmap.rs:106-111 | `is_about_to_be_wet` holds iff some neighbour is flowing or wet and has a strictly higher total level. |
| Rules.RoomToPool | src/flowmap.rs:125-131 | A cell that something pours into has a total level below 255, so adding one unit of water cannot overflow. |
| Rules.NextCellRule | src/flowmap.rs:121-134 | One interior cell's next state. Land is unchanged and the result still fits. Water grows by at most one, and only when the cell is lowest and about to be wet; then it grows by the pick and the cell stops flowing. About to be wet but not lowest: it only starts flowing. Not about to be wet: unchanged. |
| Grid.IndexInGrid | src/flowmap.rs:76-78 | `get_index` of a row and column inside the grid is below `width * height`. |
| Grid.IndexInjective | src/flowmap.rs:76-78 | Two positions with columns inside the width have the same index only if they are the same position. |
| Grid.IndexSplit | src/flowmap.rs:76-78 | Every index below `width * height` is `get_index` of a row below the height and a column below the width. |
| Grid.RowColumn | src/flowmap.rs:76-78 | Row and column are recovered from the index by division and remainder by the width. |
| Grid.NeighbourPositions | src/flowmap.rs:87-91 | The visiting order has eight positions, each within one row and one column of the centre and none equal to it. |
| Grid.NeighbourPositionsExact | src/flowmap.rs:87-91 | Every adjacent position appears in the visiting order, and no position appears twice. |
| Grid.NeighbourAt | src/flowmap.rs:87-94 | The neighbour at offset (i, j) of the 3x3 block is entry `3i + j` of the list, or one earlier once past the skipped centre. |
| Grid.NeighbourIndicesDistinct | src/flowmap.rs:80-98 | There is no wraparound: the eight neighbours of an interior cell lie at eight distinct in-grid indices, none of them the centre's. |
| Grid.NeighboursFit | src/flowmap.rs:92-94 | If every cell fits, every neighbour read for an interior cell fits. |
| Grid.WalledKeptByLand | src/flowmap.rs:244-255 | Any change that keeps every land level keeps the wall of 255 around the border. |
| Grid.TickedAt | src/flowmap.rs:113-136 | Position (row, column) after a tick: the cell rule applied to the pre-tick neighbours for an interior cell, the old cell otherwise. |
| Grid.TickKeepsBorder | src/flowmap.rs:118-120 | A tick leaves every border cell exactly as it was. |
| Grid.TickCellBounds | src/flowmap.rs:113-138 | After a tick every cell still fits and keeps its land. Its water is unchanged or one more. |
| Grid.TickInteriorRule | src/flowmap.rs:121-134 | The cell rule at an interior position, stated with row and column and with both predicates evaluated on the pre-tick neighbours. |
| Grid.TickIsLocal | src/flowmap.rs:116-124 | A cell's next state depends only on its pre-tick 3x3 block and its own pick. Cells updated earlier in the same tick play no part. |
| Grid.TickKeepsWater | src/flowmap.rs:131-139 | A tick never removes water. Every wet cell stays wet, and the fresh `total_water` count does not decrease. |
| Grid.TickFixesDryGrid | src/flowmap.rs:106-134 | On a grid with no standing water and nothing flowing, a tick changes nothing. |
| Grid.DryGridCountsZero | src/flowmap.rs:139-140 | On a grid with no wet cell and no flowing cell, both counts are zero. |
| Grid.ResetAt | src/flowmap.rs:152-158 | Position (row, column) after reset: interior water set to 0, the border unchanged. |
| Grid.ResetRule | src/flowmap.rs:148-162 | Reset keeps every land level and every flowing flag, never raises water, leaves the border alone, and keeps the walls and the fit condition. |
| Grid.ResetDriesGrid | src/flowmap.rs:148-162 | On a walled grid where every cell fits, a fresh count after reset finds no wet cell, since a wall of 255 holds no water. |
| Grid.BowlShape | src/flowmap.rs:164-197 | The bowl is 64x64 with walls of 255 and land `200 - (row + column)` inside. It is dry, still and walled, and both counts are zero. |
| Grid.DemCellAt | src/flowmap.rs:207-220 | The cell at (row, column) of a landscape built from a buffer: 255 on the border, `dem[get_index]` inside, dry and still. |
| Grid.DemStep | src/flowmap.rs:207-220 | Appending the next cell in position order extends the prefix of the expected cells by one. |
| Grid.DemShape | src/flowmap.rs:199-230 | A landscape built from a buffer of the right length has one cell per entry, is walled, fits, and has both counts zero. |
| Flowmap.Landscape.Bowl | src/flowmap.rs:164-197 | `new_bowl` builds the bowl cells with width and height 64 and zero counters. The grid is walled and the counters are fresh. |
| Flowmap.Landscape.FromDem | src/flowmap.rs:204-229 | From a buffer of the right length, `new_from_dem` builds exactly the expected cells with the given dimensions and zero counters. The grid is walled and the counters are fresh. |
| Flowmap.Landscape.NewFromDem | src/flowmap.rs:199-230 | Fails iff the buffer length is not `height * width`. Otherwise it returns a fresh, walled landscape holding the expected cells. |
| Flowmap.Landscape.GetNeighbours | src/flowmap.rs:80-98 | Returns nothing exactly for border cells (where the source panics). Otherwise it returns the eight neighbours in visiting order. |
| Flowmap.Landscape.CountWater | src/flowmap.rs:139 | The scan counts exactly the cells with water above 0. |
| Flowmap.Landscape.CountFlowing | src/flowmap.rs:140 | The scan counts exactly the flowing cells. |
| Flowmap.Landscape.NextState | src/flowmap.rs:121-134 | The loop body of `tick` for one interior cell returns the cell rule applied to the current cells' neighbours. |
| Flowmap.Landscape.Tick | src/flowmap.rs:113-146 | The cells become the tick of the old cells under the picks. Dimensions are unchanged, the grid stays walled and fitting, and both counters equal fresh counts. |
| Flowmap.Landscape.Reset | src/flowmap.rs:148-162 | The cells become the reset of the old cells. Dimensions and both cached counters are unchanged, and the grid stays walled. |
| Flowmap.Landscape.SetWater | src/flowmap.rs:244-249 | Only the addressed cell's water level is overwritten. The counters and dimensions are unchanged, and the grid stays walled. |
| Flowmap.Landscape.MakeStream | src/flowmap.rs:250-255 | Only the addressed cell's flowing flag is set. The counters and dimensions are unchanged, and the grid stays walled. |
| Scenarios.LowestAmongHigherLand | tests/web.rs:44-58 | A cell of land 100 among three dry cells of land 200 is lowest. |
| Scenarios.RimStreamFillsPit | src/flowmap.rs:113-136 | On a 3x3 pit with a wall of 255, a stream at rim position (0, 1) makes a pit that is not full gain its pick and stop flowing. The rim is unchanged. |
| Scenarios.StillRimKeepsPit | src/flowmap.rs:113-136 | On a 3x3 pit with a dry, still rim, a tick changes nothing, even when the pit itself is flowing. |
| Scenarios.FedPitPools | src/flowmap.rs:113-136 | The pit of land 100 under a stream at (0, 1) holds exactly its pick of water after one tick. |
| Scenarios.FedSlopeFlows | src/flowmap.rs:121-134 | A cell fed from above but with a lower neighbour starts flowing and gains no water, whatever the pick. |

## Left out

- `LandscapeArtist`, the colour mapping and the drawing into a pixel buffer, and the JavaScript/TypeScript host files: these are rendering and binding code, outside the automaton.
- `log!` messages, `set_panic_hook` and the `Display` implementation of `LandCell`: output only.
- The random generator: the pick is the `choices` parameter. The model allows any 0 or 1 at each cell and does not model the 1/3 and 2/3 weights of `[0, 1, 1]`.
- `width()` and `height()` are the public fields `width` and `height`. `cells()` returns a raw pointer for the host and is not modelled.
- `u32` arithmetic: `get_index`, `height * width` and the `dem.len() as u32` cast are computed on unbounded integers. `get_index` multiplies `row * width` in `u32` for any grid, so a large `row` overflows even on a small grid: a debug build panics and a release build uses the index modulo 2^32. The `dem.len() as u32` cast and `height * width` in `new_from_dem` wrap in the same way. None of this wrap-around is modelled.
- Flowmap.Landscape.Tick: requires every cell's land plus water to be at most 255. Beyond that, the source's `u8` addition in `total_level` panics in a debug build and wraps in a release build; neither is modelled. The requirement also applies to a grid with no interior cell (height or width at most 2), where the source computes no `total_level` and so cannot overflow; such a grid is excluded too.
- Flowmap.Landscape.Tick: requires `height >= 1`, and `width >= 1` when there are interior rows. Otherwise the source's `height - 1` or `width - 1` underflows `u32`.
- Flowmap.Landscape.Reset: requires the same dimension bounds as `Tick`, for the same `u32` underflow.
- Flowmap.Landscape.SetWater: does not promise that the grid still fits. Water set on a high cell can push land plus water past 255, and then the next `Tick`'s precondition fails.
- Flowmap.Landscape.SetWater and Flowmap.Landscape.MakeStream: require the unbounded `row * width + column` to be a position of the cell vector. Below 2^32 this is where the source's vector indexing panics otherwise. A `row` or `column` for which `row * width + column` reaches 2^32 is excluded too: there the source panics on the `u32` overflow in a debug build, and in a release build it writes the cell at `(row * width + column) mod 2^32` without panicking. Neither is modelled. There is no separate row or column check, as in the source.
- Flowmap.Landscape.Bowl: the source builds the bowl with 8-bit row and column counters. With 64 rows and columns, `200 - (row + column)` stays between 76 and 198 inside, so this changes nothing.
