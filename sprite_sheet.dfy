/** The tile-id to sheet-rectangle arithmetic of the background pass
    (src/main.rs:55-62). Every quantity of the source is a Rust `u32`;
    the conditions under which that arithmetic panics in a debug build
    (underflow, overflow, division or remainder by zero) are spelled out
    as predicates and required by the operations that would panic. */
module SpriteSheet {

  const U32_MODULUS: int := 0x1_0000_0000

  /** The values of a Rust `u32`. */
  type U32 = n: int | 0 <= n < U32_MODULUS

  /** The geometry of a `tiled` tileset: how tiles are packed in the sheet. */
  datatype Tileset = Tileset(tileWidth: U32, tileHeight: U32, margin: U32, spacing: U32)

  /** A pixel rectangle of the sheet texture (the `as f32` casts are taken as exact). */
  datatype Rect = Rect(x: nat, y: nat, w: nat, h: nat)

  /** `(texture_width - margin + spacing) / (tile_width + spacing)` evaluates
      without a panic: no underflow in the subtraction, no overflow in either
      addition, and a non-zero divisor. */
  predicate ColumnCountDefined(g: Tileset, textureWidth: U32) {
    && g.margin <= textureWidth
    && textureWidth - g.margin + g.spacing < U32_MODULUS
    && g.tileWidth + g.spacing < U32_MODULUS
    && g.tileWidth + g.spacing != 0
  }

  /** `n` tiles, with the `n - 1` gaps between them, fit in the texture width
      that is left after the margin. */
  predicate TilesFit(g: Tileset, textureWidth: U32, n: nat)
    requires g.margin <= textureWidth
  {
    n * (g.tileWidth + g.spacing) <= textureWidth - g.margin + g.spacing
  }

  /** `tiles_per_row` (src/main.rs:59-60): the largest number of tiles that fit. */
  function TilesPerRow(g: Tileset, textureWidth: U32): (n: nat)
    requires ColumnCountDefined(g, textureWidth)
    ensures n < U32_MODULUS
    ensures TilesFit(g, textureWidth, n) && !TilesFit(g, textureWidth, n + 1)
  {
    (textureWidth - g.margin + g.spacing) / (g.tileWidth + g.spacing)
  }

  /** The sheet column of a tile: `tile_id % tiles_per_row`. */
  function Column(tileId: nat, perRow: nat): (c: nat)
    requires perRow >= 1
    ensures c < perRow
  {
    tileId % perRow
  }

  /** The sheet row of a tile: `tile_id / tiles_per_row`. */
  function Row(tileId: nat, perRow: nat): (r: nat)
    requires perRow >= 1
    ensures r * perRow <= tileId < r * perRow + perRow
  {
    tileId / perRow
  }

  /** The source rectangle of `tile_id` can be computed without a panic:
      `tiles_per_row` is defined and non-zero (it is the divisor of `%` and
      `/`), and the row offset `tile_id / tiles_per_row * tile_height` does
      not overflow. The column offset cannot overflow (see SourceRect). */
  predicate Resolvable(tileId: U32, g: Tileset, textureWidth: U32) {
    && ColumnCountDefined(g, textureWidth)
    && TilesPerRow(g, textureWidth) >= 1
    && Row(tileId, TilesPerRow(g, textureWidth)) * g.tileHeight < U32_MODULUS
  }

  /** The sheet rectangle drawn for `tile_id` (src/main.rs:61-62, 72-77). */
  function SourceRect(tileId: U32, g: Tileset, textureWidth: U32): (r: Rect)
    requires Resolvable(tileId, g, textureWidth)
    ensures r.w == g.tileWidth && r.h == g.tileHeight
    ensures r.x + r.w <= textureWidth - g.margin
    ensures r.y < U32_MODULUS
  {
    var perRow := TilesPerRow(g, textureWidth);
    var column, row := Column(tileId, perRow), Row(tileId, perRow);
    ColumnWithinWidth(g, textureWidth, column);
    Rect(column * g.tileWidth, row * g.tileHeight, g.tileWidth, g.tileHeight)
  }

  /** The tile id whose source rectangle has origin `(r.x, r.y)`: the inverse of SourceRect. */
  function TileIdAt(r: Rect, g: Tileset, textureWidth: U32): int
    requires ColumnCountDefined(g, textureWidth)
    requires g.tileWidth > 0 && g.tileHeight > 0
  {
    (r.y / g.tileHeight) * TilesPerRow(g, textureWidth) + r.x / g.tileWidth
  }

  // ---------------------------------------------------------------------
  // Arithmetic helpers

  lemma MulLeft(a: nat, b: nat, k: nat)
    requires a <= b
    ensures a * k <= b * k
  {
    var d := b - a;
    assert b * k == a * k + d * k;
  }

  lemma DivModUnique(q: nat, r: nat, d: nat)
    requires r < d
    ensures (q * d + r) / d == q && (q * d + r) % d == r
  {
    var n := q * d + r;
    var q', r' := n / d, n % d;
    assert n == q' * d + r';
    if q' < q {
      MulLeft(q' + 1, q, d);
      assert false;
    } else if q < q' {
      MulLeft(q + 1, q', d);
      assert false;
    }
  }

  lemma MulDivCancel(a: nat, d: nat)
    requires d > 0
    ensures (a * d) / d == a
  {
    DivModUnique(a, 0, d);
  }

  // ---------------------------------------------------------------------
  // Properties of the column count

  /** With `n` tiles per row, column `c < n` ends within the usable width.
      This is also why `tile_id % tiles_per_row * tile_width` cannot overflow. */
  lemma ColumnWithinWidth(g: Tileset, textureWidth: U32, c: nat)
    requires ColumnCountDefined(g, textureWidth)
    requires c < TilesPerRow(g, textureWidth)
    ensures c * g.tileWidth + g.tileWidth <= textureWidth - g.margin
  {
    var n := TilesPerRow(g, textureWidth);
    MulLeft(c + 1, n, g.tileWidth);
    MulLeft(1, n, g.spacing);
    assert n * (g.tileWidth + g.spacing) == n * g.tileWidth + n * g.spacing;
  }

  /** The number of tile rows of a sheet `textureHeight` pixels high, by the
      rule that gives `tiles_per_row` applied to the height. The pass never
      computes it, so nothing stops a tile id beyond the last row. */
  function RowsPerColumn(g: Tileset, textureHeight: nat): (n: nat)
    requires g.margin <= textureHeight && g.tileHeight + g.spacing > 0
    ensures n * (g.tileHeight + g.spacing) <= textureHeight - g.margin + g.spacing
  {
    (textureHeight - g.margin + g.spacing) / (g.tileHeight + g.spacing)
  }

  /** With `n` rows, row `r < n` ends within the texture height minus the margin. */
  lemma RowWithinHeight(g: Tileset, textureHeight: nat, r: nat)
    requires g.margin <= textureHeight && g.tileHeight + g.spacing > 0
    requires r < RowsPerColumn(g, textureHeight)
    ensures r * g.tileHeight + g.tileHeight <= textureHeight - g.margin
  {
    var n := RowsPerColumn(g, textureHeight);
    MulLeft(r + 1, n, g.tileHeight);
    MulLeft(1, n, g.spacing);
    assert n * (g.tileHeight + g.spacing) == n * g.tileHeight + n * g.spacing;
  }

  /** TilesFit is monotone, so TilesPerRow is exactly the bound of the
      numbers of tiles that fit. */
  lemma {:induction false} TilesPerRowIsLargestFit(g: Tileset, textureWidth: U32, m: nat)
    requires ColumnCountDefined(g, textureWidth)
    ensures TilesFit(g, textureWidth, m) <==> m <= TilesPerRow(g, textureWidth)
  {
    var n := TilesPerRow(g, textureWidth);
    if m <= n {
      MulLeft(m, n, g.tileWidth + g.spacing);
    } else {
      MulLeft(n + 1, m, g.tileWidth + g.spacing);
    }
  }

  /** A sheet has at least one column exactly when one tile fits after the margin. */
  lemma HasColumnIff(g: Tileset, textureWidth: U32)
    requires ColumnCountDefined(g, textureWidth)
    ensures TilesPerRow(g, textureWidth) >= 1 <==> g.margin + g.tileWidth <= textureWidth
  {
    TilesPerRowIsLargestFit(g, textureWidth, 1);
  }

  // ---------------------------------------------------------------------
  // Properties of the index split and of the source rectangle

  /** Splitting a tile id into row and column loses nothing. */
  lemma SplitJoin(tileId: nat, perRow: nat)
    requires perRow >= 1
    ensures Row(tileId, perRow) * perRow + Column(tileId, perRow) == tileId
  {
  }

  /** Joining a row and a column and splitting again gives them back. */
  lemma JoinSplit(row: nat, column: nat, perRow: nat)
    requires column < perRow
    ensures Row(row * perRow + column, perRow) == row
    ensures Column(row * perRow + column, perRow) == column
  {
    DivModUnique(row, column, perRow);
  }

  /** The tile at `row`, `column` of the sheet is read from
      `(column * tile_width, row * tile_height)`: a plain multiple of the tile
      size, with no margin or spacing offset, and with no bound on the row. */
  lemma SheetCellOrigin(tileId: U32, row: nat, column: nat, g: Tileset, textureWidth: U32)
    requires ColumnCountDefined(g, textureWidth)
    requires column < TilesPerRow(g, textureWidth)
    requires tileId == row * TilesPerRow(g, textureWidth) + column
    requires row * g.tileHeight < U32_MODULUS
    ensures Resolvable(tileId, g, textureWidth)
    ensures SourceRect(tileId, g, textureWidth).x == column * g.tileWidth
    ensures SourceRect(tileId, g, textureWidth).y == row * g.tileHeight
  {
    var perRow := TilesPerRow(g, textureWidth);
    assert Row(tileId, perRow) == row && Column(tileId, perRow) == column by {
      JoinSplit(row, column, perRow);
    }
  }

  /** A tile id within the sheet's columns and rows is read from inside the
      texture: the rectangle ends within both the width and the height left
      after the margin. */
  lemma SourceRectWithinTexture(tileId: U32, g: Tileset, textureWidth: U32, textureHeight: nat)
    requires Resolvable(tileId, g, textureWidth)
    requires g.margin <= textureHeight && g.tileHeight + g.spacing > 0
    requires tileId < TilesPerRow(g, textureWidth) * RowsPerColumn(g, textureHeight)
    ensures SourceRect(tileId, g, textureWidth).x + g.tileWidth <= textureWidth - g.margin
    ensures SourceRect(tileId, g, textureWidth).y + g.tileHeight <= textureHeight - g.margin
  {
    var perRow, rows := TilesPerRow(g, textureWidth), RowsPerColumn(g, textureHeight);
    var row := Row(tileId, perRow);
    assert row < rows by {
      if rows <= row {
        SplitJoin(tileId, perRow);
        MulLeft(rows, row, perRow);
        assert false;
      }
    }
    RowWithinHeight(g, textureHeight, row);
    assert SourceRect(tileId, g, textureWidth).y == row * g.tileHeight;
  }

  /** Margin and spacing reach the source rectangle only through the column count. */
  lemma OnlyColumnCountMatters(tileId: U32, g: Tileset, textureWidth: U32, g': Tileset, textureWidth': U32)
    requires Resolvable(tileId, g, textureWidth) && Resolvable(tileId, g', textureWidth')
    requires g.tileWidth == g'.tileWidth && g.tileHeight == g'.tileHeight
    requires TilesPerRow(g, textureWidth) == TilesPerRow(g', textureWidth')
    ensures SourceRect(tileId, g, textureWidth) == SourceRect(tileId, g', textureWidth')
  {
  }

  /** The tile id can be read back from its source rectangle. */
  lemma SourceRectRoundTrip(tileId: U32, g: Tileset, textureWidth: U32)
    requires Resolvable(tileId, g, textureWidth)
    requires g.tileWidth > 0 && g.tileHeight > 0
    ensures TileIdAt(SourceRect(tileId, g, textureWidth), g, textureWidth) == tileId
  {
    var perRow := TilesPerRow(g, textureWidth);
    MulDivCancel(Column(tileId, perRow), g.tileWidth);
    MulDivCancel(Row(tileId, perRow), g.tileHeight);
    SplitJoin(tileId, perRow);
  }

  /** Distinct tiles are read from distinct places of the sheet. */
  lemma SourceRectInjective(a: U32, b: U32, g: Tileset, textureWidth: U32)
    requires Resolvable(a, g, textureWidth) && Resolvable(b, g, textureWidth)
    requires g.tileWidth > 0 && g.tileHeight > 0
    requires a != b
    ensures SourceRect(a, g, textureWidth) != SourceRect(b, g, textureWidth)
  {
    SourceRectRoundTrip(a, g, textureWidth);
    SourceRectRoundTrip(b, g, textureWidth);
  }
}
