/** One frame of the background-layer pass (src/main.rs:51-81): every cell
    of the layer named "background" is visited, column by column, and each
    occupied cell issues one textured draw of its sheet tile. A draw call is
    modelled as a Draw record appended to the frame's sequence of draws. */
module Background {
  import opened SpriteSheet

  datatype Option<T> = None | Some(value: T)

  /** A tile of a tile layer, as `tiled` hands it out with its flip bits
      already decoded: `id` is the tile's index within its tileset. */
  datatype LayerTile = LayerTile(id: U32, flipH: bool, flipV: bool)

  /** A finite tile layer: its declared `width` and `height` and its cells,
      `cells[y][x]` being the cell in column `x` of row `y`. */
  datatype TileLayer = TileLayer(width: U32, height: U32, cells: seq<seq<Option<LayerTile>>>)

  /** One `draw_texture_ex` call: the sheet rectangle, the destination
      position and the two flip flags. */
  datatype Draw = Draw(source: Rect, destX: nat, destY: nat, flipX: bool, flipY: bool)

  /** A grid position `(x, y)`. */
  type Cell = (nat, nat)

  const I32_BOUND: int := 0x8000_0000

  /** Rust's `n as i32` for a `u32` value `n` (two's-complement reinterpretation). */
  function AsI32(n: nat): (r: int)
    ensures -I32_BOUND <= r < I32_BOUND
    ensures (r - n) % U32_MODULUS == 0
    ensures n < I32_BOUND ==> r == n
  {
    var v := n % U32_MODULUS;
    if v < I32_BOUND then v else v - U32_MODULUS
  }

  /** The layer lookup `get_tile(x, y)`: no tile outside the stored grid. */
  function GetTile(layer: TileLayer, x: int, y: int): Option<LayerTile> {
    if 0 <= y < |layer.cells| && 0 <= x < |layer.cells[y]| then layer.cells[y][x] else None
  }

  /** What the pass finds at loop position `(x, y)`: `get_tile(x as i32, y as i32)`. */
  function TileAt(layer: TileLayer, x: nat, y: nat): (r: Option<LayerTile>)
    ensures x < I32_BOUND && y < I32_BOUND ==> r == GetTile(layer, x, y)
    ensures I32_BOUND <= x < U32_MODULUS || I32_BOUND <= y < U32_MODULUS ==> r == None
  {
    GetTile(layer, AsI32(x), AsI32(y))
  }

  predicate InGrid(layer: TileLayer, c: Cell) {
    c.0 < layer.width && c.1 < layer.height
  }

  /** The draw for a tile at `(x, y)` evaluates without a panic: its source
      rectangle is resolvable and `x * tile_width`, `y * tile_height` do not
      overflow. */
  predicate DrawDefined(g: Tileset, textureWidth: U32, t: LayerTile, x: nat, y: nat) {
    && Resolvable(t.id, g, textureWidth)
    && x * g.tileWidth < U32_MODULUS
    && y * g.tileHeight < U32_MODULUS
  }

  /** The whole frame runs without a panic. The arithmetic is evaluated only
      for occupied cells, so only those constrain the geometry. */
  predicate FrameDefined(layer: TileLayer, g: Tileset, textureWidth: U32) {
    forall x: nat, y: nat | x < layer.width && y < layer.height && TileAt(layer, x, y).Some? ::
      DrawDefined(g, textureWidth, TileAt(layer, x, y).value, x, y)
  }

  /** The draw issued for tile `t` found at `(x, y)` (src/main.rs:64-80). */
  function TileDraw(g: Tileset, textureWidth: U32, t: LayerTile, x: nat, y: nat): Draw
    requires DrawDefined(g, textureWidth, t, x, y)
  {
    Draw(SourceRect(t.id, g, textureWidth), x * g.tileWidth, y * g.tileHeight, t.flipH, t.flipV)
  }

  // ---------------------------------------------------------------------
  // The visiting order: `for x in 0..width { for y in 0..height { .. } }`

  /** The positions `(x, 0), .., (x, h - 1)`: the inner loop. */
  function ColumnOrder(x: nat, h: nat): seq<Cell> {
    if h == 0 then [] else ColumnOrder(x, h - 1) + [(x, h - 1)]
  }

  /** The positions visited by the first `w` rounds of the outer loop. */
  function GridOrder(w: nat, h: nat): seq<Cell> {
    if w == 0 then [] else GridOrder(w - 1, h) + ColumnOrder(w - 1, h)
  }

  /** Column-major order: `a` is visited before `b`. */
  predicate Before(a: Cell, b: Cell) {
    a.0 < b.0 || (a.0 == b.0 && a.1 < b.1)
  }

  predicate StrictlyIncreasing(s: seq<Cell>) {
    forall i, j | 0 <= i < j < |s| :: Before(s[i], s[j])
  }

  // ---------------------------------------------------------------------
  // The draws of a sequence of visited positions

  predicate AllInGrid(layer: TileLayer, cells: seq<Cell>) {
    forall c | c in cells :: InGrid(layer, c)
  }

  /** The draws (none or one) issued at position `c`: one for an occupied
      cell of the grid, none elsewhere. */
  function CellDraws(layer: TileLayer, g: Tileset, textureWidth: U32, c: Cell): seq<Draw>
    requires FrameDefined(layer, g, textureWidth)
  {
    if InGrid(layer, c) && TileAt(layer, c.0, c.1).Some? then
      [TileDraw(g, textureWidth, TileAt(layer, c.0, c.1).value, c.0, c.1)]
    else []
  }

  /** The draws issued while visiting `cells` in order. */
  function DrawsFor(layer: TileLayer, g: Tileset, textureWidth: U32, cells: seq<Cell>): seq<Draw>
    requires FrameDefined(layer, g, textureWidth)
  {
    if cells == [] then []
    else
      var last := cells[|cells| - 1];
      DrawsFor(layer, g, textureWidth, cells[..|cells| - 1]) + CellDraws(layer, g, textureWidth, last)
  }

  /** The occupied positions among `cells`, in the same order. */
  function Occupied(layer: TileLayer, cells: seq<Cell>): seq<Cell> {
    if cells == [] then []
    else
      var last := cells[|cells| - 1];
      Occupied(layer, cells[..|cells| - 1]) + (if TileAt(layer, last.0, last.1).Some? then [last] else [])
  }

  /** The occupied cells of the layer, in the order the pass visits them. */
  function OccupiedCells(layer: TileLayer): seq<Cell> {
    Occupied(layer, GridOrder(layer.width, layer.height))
  }

  /** The occupied cells of the layer, as a set. */
  function OccupiedSet(layer: TileLayer): set<Cell> {
    set x: nat, y: nat | x < layer.width && y < layer.height && TileAt(layer, x, y).Some? :: (x, y)
  }

  /** The reference definition of one frame's background draws. */
  function BackgroundDraws(layer: TileLayer, g: Tileset, textureWidth: U32): seq<Draw>
    requires FrameDefined(layer, g, textureWidth)
  {
    DrawsFor(layer, g, textureWidth, GridOrder(layer.width, layer.height))
  }

  // ---------------------------------------------------------------------
  // The pass itself

  /** The draw call of one occupied cell, in the source's `u32` arithmetic
      (src/main.rs:54-80); each typed local is a place where the source
      would panic on underflow, overflow or a zero divisor. */
  method IssueDraw(tileset: Tileset, textureWidth: U32, tile: LayerTile, x: U32, y: U32) returns (d: Draw)
    requires DrawDefined(tileset, textureWidth, tile, x, y)
    ensures d == TileDraw(tileset, textureWidth, tile, x, y)
  {
    var tileId := tile.id;
    var tileWidth := tileset.tileWidth;
    var tileHeight := tileset.tileHeight;
    var spacing := tileset.spacing;
    var margin := tileset.margin;
    var available: U32 := textureWidth - margin;
    var numerator: U32 := available + spacing;
    var stride: U32 := tileWidth + spacing;
    var tilesPerRow: U32 := numerator / stride;
    ghost var source := SourceRect(tileId, tileset, textureWidth);
    assert tilesPerRow == TilesPerRow(tileset, textureWidth);
    assert source.x == Column(tileId, tilesPerRow) * tileWidth == tileId % tilesPerRow * tileWidth;
    assert source.y == Row(tileId, tilesPerRow) * tileHeight == tileId / tilesPerRow * tileHeight;
    var sheetX: U32 := tileId % tilesPerRow * tileWidth;
    var sheetY: U32 := tileId / tilesPerRow * tileHeight;
    MulLeft(0, x, tileWidth);
    MulLeft(0, y, tileHeight);
    var destX: U32 := x * tileWidth;
    var destY: U32 := y * tileHeight;
    d := Draw(Rect(sheetX, sheetY, tileWidth, tileHeight), destX, destY, tile.flipH, tile.flipV);
  }

  /** The body of the inner loop (src/main.rs:64-80): look the cell up and,
      when it holds a tile, issue its draw. */
  method VisitCell(layer: TileLayer, tileset: Tileset, textureWidth: U32, x: U32, y: U32) returns (cellDraws: seq<Draw>)
    requires FrameDefined(layer, tileset, textureWidth)
    requires x < layer.width && y < layer.height
    ensures cellDraws == CellDraws(layer, tileset, textureWidth, (x, y))
  {
    var cell := TileAt(layer, x, y);
    if cell.Some? {
      var d := IssueDraw(tileset, textureWidth, cell.value, x, y);
      cellDraws := [d];
    } else {
      cellDraws := [];
    }
  }

  /** The inner loop `for y in 0..height` for column `x` (src/main.rs:52-80):
      the draws of the column's cells, top to bottom. */
  method DrawColumn(layer: TileLayer, tileset: Tileset, textureWidth: U32, x: U32) returns (draws: seq<Draw>)
    requires FrameDefined(layer, tileset, textureWidth)
    requires x < layer.width
    ensures draws == DrawsFor(layer, tileset, textureWidth, ColumnOrder(x, layer.height))
  {
    draws := [];
    for y := 0 to layer.height
      invariant draws == DrawsFor(layer, tileset, textureWidth, ColumnOrder(x, y))
    {
      ColumnStep(layer, tileset, textureWidth, x, y);
      var cellDraws := VisitCell(layer, tileset, textureWidth, x, y);
      draws := draws + cellDraws;
    }
  }

  /** The background double loop of one frame (src/main.rs:51-81): the
      outer loop `for x in 0..width` runs the inner loop once per column. */
  method DrawBackground(layer: TileLayer, tileset: Tileset, textureWidth: U32) returns (draws: seq<Draw>)
    requires FrameDefined(layer, tileset, textureWidth)
    ensures draws == BackgroundDraws(layer, tileset, textureWidth)
  {
    draws := [];
    for x := 0 to layer.width
      invariant draws == DrawsFor(layer, tileset, textureWidth, GridOrder(x, layer.height))
    {
      var column := DrawColumn(layer, tileset, textureWidth, x);
      DrawsForAppend(layer, tileset, textureWidth, GridOrder(x, layer.height), ColumnOrder(x, layer.height));
      draws := draws + column;
    }
  }

  // ---------------------------------------------------------------------
  // Lemmas: the visiting order

  /** One round of the inner loop visits `(x, y)` next. */
  lemma ColumnStep(layer: TileLayer, g: Tileset, textureWidth: U32, x: nat, y: nat)
    requires FrameDefined(layer, g, textureWidth)
    ensures DrawsFor(layer, g, textureWidth, ColumnOrder(x, y + 1))
         == DrawsFor(layer, g, textureWidth, ColumnOrder(x, y)) + CellDraws(layer, g, textureWidth, (x, y))
  {
    DrawsForSnoc(layer, g, textureWidth, ColumnOrder(x, y), (x, y));
  }

  /** Visiting one more position appends that position's draws. */
  lemma DrawsForSnoc(layer: TileLayer, g: Tileset, textureWidth: U32, cells: seq<Cell>, c: Cell)
    requires FrameDefined(layer, g, textureWidth)
    ensures DrawsFor(layer, g, textureWidth, cells + [c])
         == DrawsFor(layer, g, textureWidth, cells) + CellDraws(layer, g, textureWidth, c)
  {
    assert (cells + [c])[..|cells|] == cells;
  }

  /** The draws of two visiting orders run one after the other. */
  lemma {:induction false} DrawsForAppend(layer: TileLayer, g: Tileset, textureWidth: U32, a: seq<Cell>, b: seq<Cell>)
    requires FrameDefined(layer, g, textureWidth)
    ensures DrawsFor(layer, g, textureWidth, a + b)
         == DrawsFor(layer, g, textureWidth, a) + DrawsFor(layer, g, textureWidth, b)
    decreases |b|
  {
    if b == [] {
      assert a + b == a;
    } else {
      var front, last := b[..|b| - 1], b[|b| - 1];
      assert a + b == (a + front) + [last];
      assert b == front + [last];
      calc {
        DrawsFor(layer, g, textureWidth, a + b);
      == { DrawsForSnoc(layer, g, textureWidth, a + front, last); }
        DrawsFor(layer, g, textureWidth, a + front) + CellDraws(layer, g, textureWidth, last);
      == { DrawsForAppend(layer, g, textureWidth, a, front); }
        DrawsFor(layer, g, textureWidth, a) + DrawsFor(layer, g, textureWidth, front) + CellDraws(layer, g, textureWidth, last);
      == { DrawsForSnoc(layer, g, textureWidth, front, last); }
        DrawsFor(layer, g, textureWidth, a) + DrawsFor(layer, g, textureWidth, b);
      }
    }
  }

  lemma {:induction false} ColumnOrderExact(x: nat, h: nat)
    ensures |ColumnOrder(x, h)| == h
    ensures forall c :: c in ColumnOrder(x, h) <==> c.0 == x && c.1 < h
    ensures forall i | 0 <= i < h :: ColumnOrder(x, h)[i] == (x, i)
  {
    if h > 0 {
      ColumnOrderExact(x, h - 1);
    }
  }

  lemma {:induction false} ColumnOrderMember(x: nat, h: nat, c: Cell)
    ensures c in ColumnOrder(x, h) <==> c.0 == x && c.1 < h
  {
    if h == 0 {
      assert ColumnOrder(x, h) == [];
    } else {
      var front := ColumnOrder(x, h - 1);
      assert ColumnOrder(x, h) == front + [(x, h - 1)];
      ColumnOrderMember(x, h - 1, c);
      assert c in front + [(x, h - 1)] <==> c in front || c == (x, h - 1);
    }
  }

  /** Two visiting orders, each increasing, whose every element of the
      first comes before every element of the second, concatenate to one. */
  lemma ConcatIncreasing(a: seq<Cell>, b: seq<Cell>)
    requires StrictlyIncreasing(a) && StrictlyIncreasing(b)
    requires forall i, j | 0 <= i < |a| && 0 <= j < |b| :: Before(a[i], b[j])
    ensures StrictlyIncreasing(a + b)
  {
    forall i, j | 0 <= i < j < |a + b| ensures Before((a + b)[i], (a + b)[j]) {
      if j < |a| {
        assert Before(a[i], a[j]);
      } else if i < |a| {
        assert Before(a[i], b[j - |a|]);
      } else {
        assert Before(b[i - |a|], b[j - |a|]);
      }
    }
  }

  /** The pass visits exactly the `w * h` cells of the grid, each once, in
      column-major order (x outer, y inner). */
  lemma GridOrderExact(w: nat, h: nat)
    ensures |GridOrder(w, h)| == w * h
    ensures forall c :: c in GridOrder(w, h) <==> c.0 < w && c.1 < h
    ensures StrictlyIncreasing(GridOrder(w, h))
  {
    GridOrderLength(w, h);
    GridOrderMembers(w, h);
    GridOrderIncreasing(w, h);
  }

  lemma {:induction false} GridOrderLength(w: nat, h: nat)
    ensures |GridOrder(w, h)| == w * h
  {
    if w > 0 {
      GridOrderLength(w - 1, h);
      ColumnOrderExact(w - 1, h);
      assert (w - 1) * h + h == w * h;
    }
  }

  lemma GridOrderMembers(w: nat, h: nat)
    ensures forall c :: c in GridOrder(w, h) <==> c.0 < w && c.1 < h
  {
    forall c: Cell ensures c in GridOrder(w, h) <==> c.0 < w && c.1 < h {
      GridOrderMember(w, h, c);
    }
  }

  lemma {:induction false} GridOrderMember(w: nat, h: nat, c: Cell)
    ensures c in GridOrder(w, h) <==> c.0 < w && c.1 < h
  {
    if w == 0 {
      assert GridOrder(w, h) == [];
    } else {
      var done, column := GridOrder(w - 1, h), ColumnOrder(w - 1, h);
      assert GridOrder(w, h) == done + column;
      GridOrderMember(w - 1, h, c);
      ColumnOrderMember(w - 1, h, c);
      assert c in done + column <==> c in done || c in column;
    }
  }

  lemma {:induction false} GridOrderIncreasing(w: nat, h: nat)
    ensures StrictlyIncreasing(GridOrder(w, h))
  {
    if w > 0 {
      var done, column := GridOrder(w - 1, h), ColumnOrder(w - 1, h);
      GridOrderIncreasing(w - 1, h);
      GridOrderMembers(w - 1, h);
      ColumnOrderExact(w - 1, h);
      forall i, j | 0 <= i < |done| && 0 <= j < |column| ensures Before(done[i], column[j]) {
        assert done[i] in done;
      }
      ConcatIncreasing(done, column);
    }
  }

  /** Restricting a visiting order to its occupied cells keeps exactly those
      cells, in the same order. */
  lemma {:induction false} OccupiedExact(layer: TileLayer, cells: seq<Cell>)
    ensures forall c :: c in Occupied(layer, cells) <==> c in cells && TileAt(layer, c.0, c.1).Some?
    ensures StrictlyIncreasing(cells) ==> StrictlyIncreasing(Occupied(layer, cells))
  {
    if cells != [] {
      var prefix, last := cells[..|cells| - 1], cells[|cells| - 1];
      assert cells == prefix + [last];
      OccupiedExact(layer, prefix);
      if StrictlyIncreasing(cells) {
        var kept := Occupied(layer, prefix);
        var tail := if TileAt(layer, last.0, last.1).Some? then [last] else [];
        forall i, j | 0 <= i < |kept| && 0 <= j < |tail| ensures Before(kept[i], tail[j]) {
          assert kept[i] in prefix;
          var k :| 0 <= k < |prefix| && prefix[k] == kept[i];
          assert Before(cells[k], cells[|cells| - 1]);
        }
        ConcatIncreasing(kept, tail);
      }
    }
  }

  /** The draws of a visiting order are those of its occupied cells, one
      each, in the same order. */
  lemma {:induction false} DrawsForOccupied(layer: TileLayer, g: Tileset, textureWidth: U32, cells: seq<Cell>)
    requires FrameDefined(layer, g, textureWidth) && AllInGrid(layer, cells)
    ensures |DrawsFor(layer, g, textureWidth, cells)| == |Occupied(layer, cells)|
    ensures forall i | 0 <= i < |Occupied(layer, cells)| ::
      var c := Occupied(layer, cells)[i];
      && c in cells
      && TileAt(layer, c.0, c.1).Some?
      && DrawsFor(layer, g, textureWidth, cells)[i] == TileDraw(g, textureWidth, TileAt(layer, c.0, c.1).value, c.0, c.1)
  {
    if cells != [] {
      var prefix, last := cells[..|cells| - 1], cells[|cells| - 1];
      assert cells == prefix + [last];
      assert AllInGrid(layer, prefix);
      DrawsForOccupied(layer, g, textureWidth, prefix);
    }
  }

  /** Sequences in strictly increasing order hold no element twice. */
  lemma {:induction false} IncreasingCardinality(s: seq<Cell>)
    requires StrictlyIncreasing(s)
    ensures |set c | c in s| == |s|
  {
    if s != [] {
      var prefix, last := s[..|s| - 1], s[|s| - 1];
      assert s == prefix + [last];
      IncreasingCardinality(prefix);
      assert (set c | c in s) == (set c | c in prefix) + {last};
    }
  }

  // ---------------------------------------------------------------------
  // Lemmas: one frame of the background pass

  /** Every occupied cell of the grid, and no other position, is drawn, each
      once and in column-major order. */
  lemma OccupiedCellsExact(layer: TileLayer)
    ensures forall c :: c in OccupiedCells(layer) <==> InGrid(layer, c) && TileAt(layer, c.0, c.1).Some?
    ensures StrictlyIncreasing(OccupiedCells(layer))
  {
    GridOrderExact(layer.width, layer.height);
    OccupiedExact(layer, GridOrder(layer.width, layer.height));
  }

  /** The i-th draw of the frame is that of the i-th occupied cell: its
      sheet rectangle is that of the cell's tile id, its destination is
      `(x * tile_width, y * tile_height)`, and the flip flags are the cell's. */
  lemma DrawsFollowOccupiedCells(layer: TileLayer, g: Tileset, textureWidth: U32)
    requires FrameDefined(layer, g, textureWidth)
    ensures |BackgroundDraws(layer, g, textureWidth)| == |OccupiedCells(layer)|
    ensures forall i | 0 <= i < |OccupiedCells(layer)| ::
      var c, d := OccupiedCells(layer)[i], BackgroundDraws(layer, g, textureWidth)[i];
      && InGrid(layer, c)
      && TileAt(layer, c.0, c.1).Some?
      && Resolvable(TileAt(layer, c.0, c.1).value.id, g, textureWidth)
      && d.source == SourceRect(TileAt(layer, c.0, c.1).value.id, g, textureWidth)
      && d.destX == c.0 * g.tileWidth && d.destY == c.1 * g.tileHeight
      && d.flipX == TileAt(layer, c.0, c.1).value.flipH
      && d.flipY == TileAt(layer, c.0, c.1).value.flipV
  {
    GridOrderExact(layer.width, layer.height);
    DrawsForOccupied(layer, g, textureWidth, GridOrder(layer.width, layer.height));
  }

  /** The number of draws is the number of occupied cells. */
  lemma DrawCountIsOccupiedCount(layer: TileLayer, g: Tileset, textureWidth: U32)
    requires FrameDefined(layer, g, textureWidth)
    ensures |BackgroundDraws(layer, g, textureWidth)| == |OccupiedSet(layer)|
  {
    DrawsFollowOccupiedCells(layer, g, textureWidth);
    OccupiedCellsExact(layer);
    var cells := OccupiedCells(layer);
    IncreasingCardinality(cells);
    assert (set c | c in cells) == OccupiedSet(layer);
  }

  /** The destination tiles of two draws overlap. */
  predicate Overlap(a: Draw, b: Draw, w: nat, h: nat) {
    a.destX < b.destX + w && b.destX < a.destX + w && a.destY < b.destY + h && b.destY < a.destY + h
  }

  /** No two draws of a frame cover the same pixel (a tile of width or
      height zero covers none). */
  lemma DestinationsDisjoint(layer: TileLayer, g: Tileset, textureWidth: U32)
    requires FrameDefined(layer, g, textureWidth)
    ensures forall i, j | 0 <= i < j < |BackgroundDraws(layer, g, textureWidth)| ::
      !Overlap(BackgroundDraws(layer, g, textureWidth)[i], BackgroundDraws(layer, g, textureWidth)[j], g.tileWidth, g.tileHeight)
  {
    var draws, cells := BackgroundDraws(layer, g, textureWidth), OccupiedCells(layer);
    DrawsFollowOccupiedCells(layer, g, textureWidth);
    OccupiedCellsExact(layer);
    forall i, j | 0 <= i < j < |draws| ensures !Overlap(draws[i], draws[j], g.tileWidth, g.tileHeight) {
      if g.tileWidth > 0 && g.tileHeight > 0 {
        var a, b := cells[i], cells[j];
        assert Before(a, b);
        assert draws[i].destX == a.0 * g.tileWidth && draws[i].destY == a.1 * g.tileHeight;
        assert draws[j].destX == b.0 * g.tileWidth && draws[j].destY == b.1 * g.tileHeight;
        CellTilesApart(a, b, g.tileWidth, g.tileHeight);
      }
    }
  }

  /** The tiles of two cells, one visited before the other, do not overlap. */
  lemma CellTilesApart(a: Cell, b: Cell, w: nat, h: nat)
    requires Before(a, b) && w > 0 && h > 0
    ensures a.0 * w + w <= b.0 * w || (a.0 == b.0 && a.1 * h + h <= b.1 * h)
  {
    if a.0 < b.0 {
      MulLeft(a.0 + 1, b.0, w);
    } else {
      MulLeft(a.1 + 1, b.1, h);
    }
  }
}
