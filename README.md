# Background pass of a tile-map viewer

This project models the core of `src/main.rs`, the small program that draws the layer named "background" of a Tiled map with macroquad once per frame. The model has three modules.

- `SpriteSheet` (`sprite_sheet.dfy`) covers the `u32` arithmetic that maps a tile id to its source rectangle in the sheet texture. It computes `tiles_per_row` from the texture width, the margin, the spacing and the tile width. It then computes the column `tile_id % tiles_per_row`, the row `tile_id / tiles_per_row`, and the rectangle `(column * tile_width, row * tile_height, tile_width, tile_height)`.
- `Background` (`background.dfy`) covers one frame of the pass. The outer loop runs over `x in 0..width` and the inner loop over `y in 0..height`. The layer is looked up with `get_tile(x as i32, y as i32)`, and each occupied cell issues one `draw_texture_ex` call. A draw call is modelled as a `Draw` record appended to the frame's sequence of draws. `DrawBackground` (the outer loop) and `DrawColumn` (the inner loop) are methods with loops. `VisitCell` (the loop body) and `IssueDraw` (one draw call) are methods without loops. `DrawBackground` is proved equal to the reference definition `BackgroundDraws`, which folds the per-cell draws over the visiting order `GridOrder`. The other three are proved equal to the matching pieces of that definition: `DrawsFor` of one column, `CellDraws` and `TileDraw`.
- `TiledReader` (`tiled_reader.dfy`) covers `TiledReader::read_from`, the resource reader handed to the map loader. It serves the two embedded files `data/world.tmx` and `data/background_tiles.tsx`. Every other path gets an `io::Error` of kind `NotFound` with message "file not found". Paths are compared the way Rust's `Path` equality compares them: component by component. So `data//world.tmx` and `data/./world.tmx` name the map, while `./data/world.tmx` and `/data/world.tmx` do not.

Rust's `u32` arithmetic panics in a debug build on underflow, on overflow and on division or remainder by zero. Each of these conditions is a named predicate (`ColumnCountDefined`, `Resolvable`, `DrawDefined`, `FrameDefined`), and the operations that would panic require it. The arithmetic runs only for occupied cells, so `FrameDefined` constrains the geometry only at occupied cells. On the non-negative operands that occur here, Dafny's `/` and `%` agree with Rust's.

## Model

| member | source | states |
|---|---|---|
| SpriteSheet.TilesPerRow | src/main.rs:59-60 | `tiles_per_row` fits in a `u32`, and it is the largest `n` such that `n` tiles with their `n - 1` gaps fit in the texture width minus the margin |
| SpriteSheet.TilesPerRowIsLargestFit | src/main.rs:59-60 | for every `m`, `m` tiles fit exactly when `m <= tiles_per_row` |
| SpriteSheet.HasColumnIff | src/main.rs:59-60 | `tiles_per_row` is non-zero (so the later `%` and `/` do not panic) exactly when `margin + tile_width <= texture_width` |
| SpriteSheet.Column | src/main.rs:61 | the sheet column `tile_id % tiles_per_row` is below `tiles_per_row` |
| SpriteSheet.Row | src/main.rs:62 | the sheet row `tile_id / tiles_per_row` is the floor quotient: `row * tiles_per_row <= tile_id < row * tiles_per_row + tiles_per_row` |
| SpriteSheet.ColumnWithinWidth | src/main.rs:61 | a column below `tiles_per_row` ends within the texture width minus the margin, so `column * tile_width` cannot overflow |
| SpriteSheet.SourceRect | src/main.rs:59-77 | the source rectangle has the tile's size, its right edge stays within the texture width minus the margin, and its `y` fits in a `u32`. The pass checks no bound against the texture height; `SourceRectWithinTexture` gives that bound for tile ids within the sheet |
| SpriteSheet.RowWithinHeight | src/main.rs:62 | with the row count taken from the texture height by the `tiles_per_row` rule, every row below that count ends within the texture height minus the margin |
| SpriteSheet.SourceRectWithinTexture | src/main.rs:59-77 | a tile id below `tiles_per_row` times that row count is read from a rectangle inside the texture, in both width and height; the pass itself never checks this bound |
| SpriteSheet.SplitJoin | src/main.rs:61-62 | row and column recombine to the tile id: `row * tiles_per_row + column == tile_id` |
| SpriteSheet.JoinSplit | src/main.rs:61-62 | splitting `row * tiles_per_row + column` (with `column < tiles_per_row`) gives back that row and that column |
| SpriteSheet.SheetCellOrigin | src/main.rs:61-62 | the tile in sheet row `r` and column `c` is read from `(c * tile_width, r * tile_height)`, with no margin or spacing offset |
| SpriteSheet.OnlyColumnCountMatters | src/main.rs:57-62 | two tilesets with the same tile size and the same `tiles_per_row` give the same source rectangle, whatever their margin and spacing |
| SpriteSheet.SourceRectRoundTrip | src/main.rs:61-62 | for non-empty tiles, the tile id can be read back from its source rectangle's origin |
| SpriteSheet.SourceRectInjective | src/main.rs:61-62 | for non-empty tiles, distinct tile ids have distinct source rectangles |
| Background.IssueDraw | src/main.rs:54-80 | the `u32` computation of one draw yields the draw of the tile at `(x, y)`: its source rectangle, destination `(x * tile_width, y * tile_height)` and the tile's flip flags |
| Background.AsI32 | src/main.rs:53 | `n as i32` lies in the `i32` range, is congruent to `n` modulo 2^32, and is `n` itself when `n < 2^31` |
| Background.TileAt | src/main.rs:53 | `get_tile(x as i32, y as i32)` is the plain lookup of `(x, y)` when both are below 2^31, and `None` when either is a `u32` of 2^31 or more (it turns negative) |
| Background.VisitCell | src/main.rs:53-80 | looking up a grid position yields one draw for an occupied cell and none for an empty one |
| Background.DrawColumn | src/main.rs:52-82 | the inner loop yields the draws of column `x`, top to bottom |
| Background.DrawBackground | src/main.rs:51-83 | the double loop yields exactly the reference frame `BackgroundDraws` |
| Background.DrawsForAppend | src/main.rs:51-52 | the draws of two visiting orders, one after the other, are the concatenation of their draws |
| Background.ColumnOrderExact | src/main.rs:52 | the inner loop visits `(x, 0), …, (x, height - 1)` in that order |
| Background.ColumnOrderMember | src/main.rs:52 | a position is visited by the inner loop exactly when it is `(x, y)` with `y < height` |
| Background.GridOrderLength | src/main.rs:51-52 | the pass visits `width * height` positions |
| Background.GridOrderMember | src/main.rs:51-52 | a position is visited exactly when it lies in the grid |
| Background.GridOrderIncreasing | src/main.rs:51-52 | positions are visited in strictly increasing column-major order (x outer, y inner), so none is visited twice |
| Background.GridOrderExact | src/main.rs:51-52 | the three facts above together: every cell exactly once, in column-major order |
| Background.OccupiedExact | src/main.rs:53 | the occupied positions of a visiting order are exactly its positions that hold a tile, in the same order |
| Background.DrawsForOccupied | src/main.rs:53-80 | the draws of a visiting order are, one for one and in order, the draws of its occupied positions |
| Background.IncreasingCardinality | src/main.rs:51-52 | a strictly increasing visiting order has as many distinct positions as entries |
| Background.OccupiedCellsExact | src/main.rs:51-53 | the cells drawn are exactly the occupied cells of the grid, in column-major order |
| Background.DrawsFollowOccupiedCells | src/main.rs:53-80 | the i-th draw belongs to the i-th occupied cell. Its source rectangle is that of the cell's tile id, its destination is `(x * tile_width, y * tile_height)`, and its flip flags are the tile's `flip_h` and `flip_v` |
| Background.DrawCountIsOccupiedCount | src/main.rs:53-80 | the number of draws equals the number of occupied cells |
| Background.CellTilesApart | src/main.rs:66-67 | the destination tiles of two cells, one visited before the other, are separated horizontally or vertically |
| Background.DestinationsDisjoint | src/main.rs:66-67 | no two destination tiles of one frame overlap, for every tileset (a tile of width or height zero covers no pixel) |
| TiledReader.ReadFrom | src/main.rs:13-27 | the read succeeds exactly when the path equals `data/world.tmx` or `data/background_tiles.tsx` as a `Path`. A path equal to the first reads the world map, and one equal to the second reads the background tileset. Every failure is `NotFound` with "file not found" |
| TiledReader.PieceComponents | src/main.rs:17-19 | the pieces of a path after its first yield no root and no current-directory component, and at most one component each |
| TiledReader.Components | src/main.rs:17-19 | as Rust's `Path::components`: the first component is the root exactly when the path starts with '/', it is the current directory exactly when the path is "." or starts with "./", and neither appears later |
| TiledReader.SamePath | src/main.rs:17-19 | as Rust's `Path ==`: two equal paths are both absolute or both relative, and both or neither start with the current directory |
| TiledReader.SegmentsRoundTrip | src/main.rs:17-19 | splitting a path at its separators loses nothing, and no piece holds a separator |
| TiledReader.JoinSegmentsRoundTrip | src/main.rs:17-19 | joining separator-free pieces with '/' and splitting again gives them back |
| TiledReader.ComponentsOfJoin | src/main.rs:17-19 | a relative path whose first piece is a plain name has the components of its pieces |
| TiledReader.PieceComponentsAppend | src/main.rs:17-19 | the components of concatenated pieces are those of each part |
| TiledReader.WorldMapComponents | src/main.rs:17 | `data/world.tmx` has the two components `data` and `world.tmx` |
| TiledReader.BackgroundTilesComponents | src/main.rs:19 | `data/background_tiles.tsx` has the two components `data` and `background_tiles.tsx` |
| TiledReader.ReadsEmbeddedFiles | src/main.rs:17-20 | each of the two paths reads its own embedded file |
| TiledReader.IgnoredPiecesComponents | src/main.rs:17-19 | an empty or "." piece after the first piece does not change a path's components |
| TiledReader.IgnoredPiecesDoNotMatter | src/main.rs:17-26 | such a piece does not change what is read, e.g. `data//world.tmx` reads the map |
| TiledReader.LeadingCurrentDirectoryNotFound | src/main.rs:21-26 | every path that starts with "./" is not found |
| TiledReader.AbsolutePathNotFound | src/main.rs:21-26 | every absolute path is not found |

## Left out

- Rendering is not modelled: `clear_background`, the `WHITE` tint, the other `DrawTextureParams` defaults and `next_frame`. A draw call is a `Draw` record, and the endless frame loop is one call of `DrawBackground`.
- Texture loading (`load_texture`) is not modelled. The texture width is a parameter, and the `as u32` and `as f32` casts are taken as exact.
- Map and tileset parsing are not modelled: `load_tmx_map`, `load_tsx_tileset`, the lookup of the layer named "background", `as_tile_layer` and the `unwrap`s. Their results are parameters (`TileLayer`, `Tileset`), and a failing `unwrap` is outside the model. The layer's `width()` and `height()` are taken to be present, as for a finite layer.
- The bytes of the embedded files are not modelled. A successful read returns a `Resource` tag naming the file.
- `Tiled` GID decoding is not modelled. A layer tile carries its already decoded id and `flip_h`/`flip_v` flags, the diagonal flip is dropped because the pass ignores it, and the tile's tileset index is not represented because the pass always draws from the one background tileset.
- The `tiled` crate's own `get_tile` is not part of this model. `GetTile` stands for it: it reads the stored grid and gives `None` outside it.
- Release builds are not modelled. Where a debug build panics on `u32` overflow, underflow or division by zero, the model has a precondition, so release-build wrap-around is outside it.
- `TiledReader.ReadFrom`: paths use '/' separators only. Windows separators and prefixes are not modelled.
- `SpriteSheet.SourceRect`: the exact origin of the rectangle is stated by `SheetCellOrigin` rather than in `SourceRect`'s own contract.
