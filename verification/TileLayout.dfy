/** The GK6323 tiled plane: 64-byte-wide tiles, stored band by band, with the rows of a tile
    permuted by an XOR mask that depends on the tile's column. */
module TileLayout {
  import opened Arith
  import opened Bytes

  /** `rows` is the height of a tile (16 for luma, 8 for interleaved chroma). The row mask of
      tile column `tx` is `(tx & (lanes - 1)) << 2`; one lane means no permutation. */
  datatype Layout = Layout(rows: nat, lanes: nat) {
    predicate Valid() {
      (rows == 8 || rows == 16) && (lanes == 1 || lanes == 2 || lanes == 4) && 4 * lanes <= rows
    }

    /** Offset of the tile with the given number: a tile holds `64 * rows` bytes. */
    function TileStart(tile: nat): nat { if rows == 8 then tile * 512 else tile * 1024 }

    function TileOf(a: nat): nat { if rows == 8 then a / 512 else a / 1024 }

    function InTile(a: nat): nat { if rows == 8 then a % 512 else a % 1024 }

    /** The band of tiles that holds an image row, and the row's place in it. */
    function BandOf(row: nat): nat { if rows == 8 then row / 8 else row / 16 }

    function InBand(row: nat): nat { if rows == 8 then row % 8 else row % 16 }

    function BandStart(band: nat): nat { if rows == 8 then band * 8 else band * 16 }

    function Mask(tx: nat): nat
      requires Valid()
    {
      if lanes == 4 then tx % 4 * 4 else if lanes == 2 then tx % 2 * 4 else 0
    }

    /** The row of the tile in column `tx` that holds row `ty` of the band. */
    function StoredRow(ty: nat, tx: nat): nat
      requires Valid()
    {
      Xor(ty, Mask(tx))
    }
  }

  const LUMA_XOR := Layout(16, 4)
  const CHROMA_XOR := Layout(8, 2)
  const LUMA_PLAIN := Layout(16, 1)
  const CHROMA_PLAIN := Layout(8, 1)

  /** Offset of column `col` of row `ty` within a band of tiles. */
  function BandOffset(l: Layout, ty: nat, col: nat): nat
    requires l.Valid()
  {
    l.TileStart(col / 64) + l.StoredRow(ty, col / 64) * 64 + col % 64
  }

  /** Offset of pixel byte (row, col) in a plane whose bands hold `tiles` tiles each. */
  function Addr(l: Layout, tiles: nat, row: nat, col: nat): nat
    requires l.Valid()
  {
    l.TileStart(l.BandOf(row) * tiles) + BandOffset(l, l.InBand(row), col)
  }

  /** The pixel stored at offset `a`. */
  function RowAt(l: Layout, tiles: nat, a: nat): nat
    requires l.Valid() && 0 < tiles
  {
    l.BandStart(l.TileOf(a) / tiles) + l.StoredRow(l.InTile(a) / 64, l.TileOf(a) % tiles)
  }

  function ColAt(l: Layout, tiles: nat, a: nat): nat
    requires l.Valid() && 0 < tiles
  {
    l.TileOf(a) % tiles * 64 + a % 64
  }

  lemma StoredRowPermutes(l: Layout, ty: nat, tx: nat)
    requires l.Valid() && ty < l.rows
    ensures l.StoredRow(ty, tx) < l.rows
    ensures l.StoredRow(l.StoredRow(ty, tx), tx) == ty
  {
    XorInvolution(ty, l.Mask(tx));
    assert Pow2(3) == 8 && Pow2(4) == 16;
    XorBound(ty, l.Mask(tx), if l.rows == 8 then 3 else 4);
  }

  /** With one lane the rows of a tile are stored in order. */
  lemma PlainRowsInOrder(l: Layout, ty: nat, tx: nat)
    requires l.Valid() && l.lanes == 1
    ensures l.StoredRow(ty, tx) == ty
  {
    XorZero(ty);
  }

  /** Where the four-row blocks of a luma tile are stored, by tile column modulo 4: block `b` of the
      image is block `LUMA_BLOCKS[lane][b]` of the tile. */
  const LUMA_BLOCKS: seq<seq<nat>> := [[0, 1, 2, 3], [1, 0, 3, 2], [2, 3, 0, 1], [3, 2, 1, 0]]

  /** The same for the two blocks of a chroma tile, by tile column modulo 2. */
  const CHROMA_BLOCKS: seq<seq<nat>> := [[0, 1], [1, 0]]

  /** A number whose low bit is clear leaves the low bit alone. */
  lemma {:induction false} XorAbove(p: nat, bit: nat, q: nat, a: nat, b: nat)
    requires bit < 2 && a == 2 * p + bit && b == 2 * q
    ensures Xor(a, b) == 2 * Xor(p, q) + bit
  {
    XorBits(p, bit, q, 0);
  }

  lemma {:induction false} XorBlocks(b: nat, r: nat, lane: nat)
    requires r < 4
    ensures Xor(4 * b + r, 4 * lane) == 4 * Xor(b, lane) + r
  {
    var high, low := r / 2, r % 2;
    assert r == 2 * high + low && high < 2;
    XorAbove(b, high, lane, 2 * b + high, 2 * lane);
    XorAbove(2 * b + high, low, 2 * lane, 4 * b + r, 4 * lane);
  }

  lemma {:induction false} XorTable(b: nat, lane: nat)
    requires b < 4 && lane < 4
    ensures Xor(b, lane) == LUMA_BLOCKS[lane][b]
    ensures b < 2 && lane < 2 ==> Xor(b, lane) == CHROMA_BLOCKS[lane][b]
  {
    XorBits(b / 2, b % 2, lane / 2, lane % 2);
    XorBits(0, b / 2, 0, lane / 2);
  }

  lemma {:induction false} RowByBlock(ty: nat, lane: nat)
    requires ty < 16 && lane < 4
    ensures Xor(ty, lane * 4) == 4 * LUMA_BLOCKS[lane][ty / 4] + ty % 4
    ensures ty < 8 && lane < 2 ==> Xor(ty, lane * 4) == 4 * CHROMA_BLOCKS[lane][ty / 4] + ty % 4
  {
    XorBlocks(ty / 4, ty % 4, lane);
    XorTable(ty / 4, lane);
  }

  /** The XOR swaps whole four-row blocks and keeps the order of the rows in a block. */
  lemma {:induction false} RowsByBlocks(ty: nat, tx: nat)
    ensures ty < 16 ==> LUMA_XOR.StoredRow(ty, tx) == 4 * LUMA_BLOCKS[tx % 4][ty / 4] + ty % 4
    ensures ty < 8 ==> CHROMA_XOR.StoredRow(ty, tx) == 4 * CHROMA_BLOCKS[tx % 2][ty / 4] + ty % 4
  {
    if ty < 16 { RowByBlock(ty, tx % 4); }
    if ty < 8 { RowByBlock(ty, tx % 2); }
  }

  /** Tile numbers and tile columns determine each other. */
  lemma TileNumber(tiles: nat, bands: nat, band: nat, tx: nat)
    requires band < bands && tx < tiles
    ensures (band * tiles + tx) / tiles == band && (band * tiles + tx) % tiles == tx
    ensures band * tiles + tx + 1 <= bands * tiles
  {
    DivUnique(band * tiles + tx, tiles, band);
    MulMono(band + 1, bands, tiles);
    assert (band + 1) * tiles == band * tiles + tiles;
  }

  lemma TileNumberSplit(tiles: nat, bands: nat, tile: nat)
    requires 0 < tiles && tile < bands * tiles
    ensures 0 <= tile / tiles < bands && 0 <= tile % tiles < tiles
    ensures tile == tile / tiles * tiles + tile % tiles
  {
    DivLess(tile, tiles, bands);
    DivBounds(tile, tiles);
  }

  lemma TileSplit(l: Layout, tile: nat, stored: nat, k: nat, size: nat)
    requires l.Valid() && stored < l.rows && k < 64 && tile < size
    ensures var a := l.TileStart(tile) + stored * 64 + k;
            l.TileOf(a) == tile && l.InTile(a) / 64 == stored && a % 64 == k && a < l.TileStart(size)
  {
    var inner := stored * 64 + k;
    DivUnique(inner, 64, stored);
    if l.rows == 8 {
      DivUnique(512 * tile + inner, 512, tile);
      DivUnique(512 * tile + inner, 64, 8 * tile + stored);
    } else {
      DivUnique(1024 * tile + inner, 1024, tile);
      DivUnique(1024 * tile + inner, 64, 16 * tile + stored);
    }
  }

  lemma TileJoin(l: Layout, a: nat, size: nat)
    requires l.Valid() && a < l.TileStart(size)
    ensures l.TileOf(a) < size && l.InTile(a) / 64 < l.rows
    ensures a == l.TileStart(l.TileOf(a)) + l.InTile(a) / 64 * 64 + a % 64
  {
    var inner := l.InTile(a);
    DivBounds(inner, 64);
    if l.rows == 8 {
      DivBounds(a, 512);
      DivUnique(a, 64, 8 * (a / 512) + inner / 64);
    } else {
      DivBounds(a, 1024);
      DivUnique(a, 64, 16 * (a / 1024) + inner / 64);
    }
  }

  lemma BandSplit(l: Layout, band: nat, ty: nat, bands: nat)
    requires l.Valid() && ty < l.rows && band < bands
    ensures var row := l.BandStart(band) + ty;
            l.BandOf(row) == band && l.InBand(row) == ty && row < l.BandStart(bands)
  {
  }

  lemma BandJoin(l: Layout, row: nat, bands: nat)
    requires l.Valid() && row < l.BandStart(bands)
    ensures l.BandOf(row) < bands && l.InBand(row) < l.rows
    ensures row == l.BandStart(l.BandOf(row)) + l.InBand(row)
  {
  }

  lemma AddrIsTile(l: Layout, tiles: nat, row: nat, col: nat)
    requires l.Valid()
    ensures Addr(l, tiles, row, col) ==
            l.TileStart(l.BandOf(row) * tiles + col / 64) + l.StoredRow(l.InBand(row), col / 64) * 64 + col % 64
  {
    var base := l.BandOf(row) * tiles;
    assert l.TileStart(base + col / 64) == l.TileStart(base) + l.TileStart(col / 64);
  }

  /** Within a plane of `bands` bands, addresses stay inside the plane. */
  lemma AddrInRange(l: Layout, tiles: nat, bands: nat, row: nat, col: nat)
    requires l.Valid() && row < l.BandStart(bands) && col < tiles * 64
    ensures Addr(l, tiles, row, col) < l.TileStart(bands * tiles)
  {
    var band, tx, ty := l.BandOf(row), col / 64, l.InBand(row);
    BandJoin(l, row, bands);
    TileNumber(tiles, bands, band, tx);
    StoredRowPermutes(l, ty, tx);
    AddrIsTile(l, tiles, row, col);
    TileSplit(l, band * tiles + tx, l.StoredRow(ty, tx), col % 64, bands * tiles);
  }

  /** ... and determine the pixel. */
  lemma AddrInvertible(l: Layout, tiles: nat, bands: nat, row: nat, col: nat)
    requires l.Valid() && row < l.BandStart(bands) && col < tiles * 64
    ensures RowAt(l, tiles, Addr(l, tiles, row, col)) == row
    ensures ColAt(l, tiles, Addr(l, tiles, row, col)) == col
  {
    var band, tx, ty := l.BandOf(row), col / 64, l.InBand(row);
    BandJoin(l, row, bands);
    TileNumber(tiles, bands, band, tx);
    StoredRowPermutes(l, ty, tx);
    AddrIsTile(l, tiles, row, col);
    TileSplit(l, band * tiles + tx, l.StoredRow(ty, tx), col % 64, bands * tiles);
  }

  /** Every offset of the plane holds exactly one pixel of the padded image. */
  lemma AddrOnto(l: Layout, tiles: nat, bands: nat, a: nat)
    requires l.Valid() && 0 < tiles && a < l.TileStart(bands * tiles)
    ensures RowAt(l, tiles, a) < l.BandStart(bands) && ColAt(l, tiles, a) < tiles * 64
    ensures Addr(l, tiles, RowAt(l, tiles, a), ColAt(l, tiles, a)) == a
  {
    TileJoin(l, a, bands * tiles);
    var tile, stored := l.TileOf(a), l.InTile(a) / 64;
    TileNumberSplit(tiles, bands, tile);
    var band, tx: nat := tile / tiles, tile % tiles;
    StoredRowPermutes(l, stored, tx);
    AddrOfParts(l, tiles, bands, band, tx, l.StoredRow(stored, tx), a % 64);
  }

  lemma AddrOfParts(l: Layout, tiles: nat, bands: nat, band: nat, tx: nat, ty: nat, k: nat)
    requires l.Valid() && band < bands && tx < tiles && ty < l.rows && k < 64
    ensures l.BandStart(band) + ty < l.BandStart(bands) && tx * 64 + k < tiles * 64
    ensures Addr(l, tiles, l.BandStart(band) + ty, tx * 64 + k) ==
            l.TileStart(band * tiles + tx) + l.StoredRow(ty, tx) * 64 + k
  {
    BandSplit(l, band, ty, bands);
    ColumnSplit(tx, k, tiles);
    AddrIsTile(l, tiles, l.BandStart(band) + ty, tx * 64 + k);
  }

  lemma ColumnSplit(tx: nat, k: nat, tiles: nat)
    requires tx < tiles && k < 64
    ensures (tx * 64 + k) / 64 == tx && (tx * 64 + k) % 64 == k && tx * 64 + k < tiles * 64
  {
  }

  /** Consecutive columns of one tile are consecutive bytes. */
  lemma AddrRun(l: Layout, tiles: nat, row: nat, tx: nat, k: nat)
    requires l.Valid() && k < 64
    ensures Addr(l, tiles, row, tx * 64 + k) ==
            l.TileStart(l.BandOf(row) * tiles + tx) + l.StoredRow(l.InBand(row), tx) * 64 + k
  {
    var base := l.BandOf(row) * tiles;
    assert (tx * 64 + k) / 64 == tx && (tx * 64 + k) % 64 == k;
  }

  // ----- whole planes

  /** The bytes of a mapped buffer seen as a tiled plane that starts at `off`. */
  datatype Source = Source(mem: seq<byte>, off: nat, layout: Layout, tiles: nat, bands: nat) {
    predicate Valid() {
      layout.Valid() && 0 < tiles && off + layout.TileStart(bands * tiles) <= |mem|
    }

    function Width(): nat { tiles * 64 }

    function Height(): nat { layout.BandStart(bands) }

    function At(row: nat, col: nat): byte
      requires Valid() && row < Height() && col < Width()
    {
      AddrInRange(layout, tiles, bands, row, col);
      mem[off + Addr(layout, tiles, row, col)]
    }
  }

  /** The first `w` columns of a row, in image order. */
  function UntiledRow(s: Source, row: nat, w: nat): (r: seq<byte>)
    requires s.Valid() && row < s.Height() && w <= s.Width()
  {
    seq(w, col requires 0 <= col < w => s.At(row, col))
  }

  /** The top `rows` rows, `w` bytes each, one after the other. */
  function UntiledPlane(s: Source, rows: nat, w: nat): (r: seq<byte>)
    requires s.Valid() && rows <= s.Height() && w <= s.Width()
    ensures |r| == rows * w
  {
    if rows == 0 then [] else UntiledPlane(s, rows - 1, w) + UntiledRow(s, rows - 1, w)
  }

  lemma RowMajor(rows: nat, w: nat, row: nat, col: nat)
    requires row < rows && col < w
    ensures row * w + col < rows * w
  {
    MulMono(row + 1, rows, w);
    assert (row + 1) * w == row * w + w;
  }

  lemma RowMajorSplit(i: nat, w: nat, rows: nat)
    requires 0 < w && i < rows * w
    ensures 0 <= i / w < rows && 0 <= i % w < w && i == i / w * w + i % w
  {
    DivLess(i, w, rows);
    DivBounds(i, w);
  }

  lemma {:induction false} UntiledPlaneAt(s: Source, rows: nat, w: nat, row: nat, col: nat)
    requires s.Valid() && rows <= s.Height() && w <= s.Width() && row < rows && col < w
    ensures row * w + col < rows * w
    ensures UntiledPlane(s, rows, w)[row * w + col] == s.At(row, col)
  {
    RowMajor(rows, w, row, col);
    if row < rows - 1 {
      RowMajor(rows - 1, w, row, col);
      UntiledPlaneAt(s, rows - 1, w, row, col);
    }
  }

  lemma PixelIndexInRange(l: Layout, tiles: nat, bands: nat, a: nat)
    requires l.Valid() && 0 < tiles && a < l.TileStart(bands * tiles)
    ensures RowAt(l, tiles, a) * (tiles * 64) + ColAt(l, tiles, a) < l.BandStart(bands) * (tiles * 64)
  {
    AddrOnto(l, tiles, bands, a);
    RowMajor(l.BandStart(bands), tiles * 64, RowAt(l, tiles, a), ColAt(l, tiles, a));
  }

  /** The tiled form of a padded image. */
  function TiledPlane(image: seq<byte>, l: Layout, tiles: nat, bands: nat): (r: seq<byte>)
    requires l.Valid() && 0 < tiles && |image| == l.BandStart(bands) * (tiles * 64)
  {
    seq(l.TileStart(bands * tiles), a requires 0 <= a < l.TileStart(bands * tiles) =>
      PixelIndexInRange(l, tiles, bands, a);
      image[RowAt(l, tiles, a) * (tiles * 64) + ColAt(l, tiles, a)])
  }

  /** Untiling recovers every image that was tiled. */
  lemma UntileTile(image: seq<byte>, l: Layout, tiles: nat, bands: nat)
    requires l.Valid() && 0 < tiles && |image| == l.BandStart(bands) * (tiles * 64)
    ensures var s := Source(TiledPlane(image, l, tiles, bands), 0, l, tiles, bands);
            s.Valid() && UntiledPlane(s, s.Height(), s.Width()) == image
  {
    var s := Source(TiledPlane(image, l, tiles, bands), 0, l, tiles, bands);
    var w, height := s.Width(), s.Height();
    var back := UntiledPlane(s, height, w);
    forall i | 0 <= i < |image| ensures back[i] == image[i] {
      RowMajorSplit(i, w, height);
      UntileTileAt(image, l, tiles, bands, i / w, i % w);
    }
  }

  lemma UntileTileAt(image: seq<byte>, l: Layout, tiles: nat, bands: nat, row: nat, col: nat)
    requires l.Valid() && 0 < tiles && |image| == l.BandStart(bands) * (tiles * 64)
    requires row < l.BandStart(bands) && col < tiles * 64
    ensures row * (tiles * 64) + col < |image|
    ensures var s := Source(TiledPlane(image, l, tiles, bands), 0, l, tiles, bands);
            && s.Valid()
            && UntiledPlane(s, s.Height(), s.Width())[row * (tiles * 64) + col] == image[row * (tiles * 64) + col]
  {
    var s := Source(TiledPlane(image, l, tiles, bands), 0, l, tiles, bands);
    UntiledPlaneAt(s, s.Height(), s.Width(), row, col);
    AddrInRange(l, tiles, bands, row, col);
    AddrInvertible(l, tiles, bands, row, col);
  }

  /** Tiling the untiled plane restores the mapped bytes. */
  lemma TileUntile(mem: seq<byte>, l: Layout, tiles: nat, bands: nat)
    requires l.Valid() && 0 < tiles && |mem| == l.TileStart(bands * tiles)
    ensures var s := Source(mem, 0, l, tiles, bands);
            s.Valid() && TiledPlane(UntiledPlane(s, s.Height(), s.Width()), l, tiles, bands) == mem
  {
    var s := Source(mem, 0, l, tiles, bands);
    var image := UntiledPlane(s, s.Height(), s.Width());
    var back := TiledPlane(image, l, tiles, bands);
    forall a | 0 <= a < |mem| ensures back[a] == mem[a] {
      AddrOnto(l, tiles, bands, a);
      PixelIndexInRange(l, tiles, bands, a);
      UntiledPlaneAt(s, s.Height(), s.Width(), RowAt(l, tiles, a), ColAt(l, tiles, a));
    }
  }
}
