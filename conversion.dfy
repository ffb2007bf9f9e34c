/**
 * What the conversion of PicToLev/src/main.cpp guarantees, stated over the
 * pixels of the two decoded images: which inputs are rejected and why, how
 * the layer indices relate to the content of the grid cells, and where the
 * content of every cell ends up in the tilesets.
 */
module Conversion {

  import opened Arithmetic
  import opened Tiles
  import opened Dictionary
  import opened DataStreams
  import opened Tileset
  import opened PicToLev

  /** Position in the pixel buffer of sample x of row y of grid cell (ty, tx). */
  function PixelOffset(width: nat, ty: nat, tx: nat, y: nat, x: nat): nat
  {
    (ty * TileSize + y) * width + tx * TileSize + x
  }

  /** Row y of every grid cell lies inside the pixel buffer. */
  lemma CellRowWithin(width: nat, height: nat, ty: nat, tx: nat, y: nat)
    requires width % TileSize == 0 && height % TileSize == 0
    requires ty < height / TileSize && tx < width / TileSize && y < TileSize
    ensures PixelOffset(width, ty, tx, y, 0) + TileSize <= width * height
  {
    TileRowsInImage(height, TileSize, ty);
    RowEndWithin(width, height, ty * TileSize + y);
    MulMono(TileSize, tx + 1, width / TileSize);
    DivExact(width, TileSize);
  }

  /** The content of grid cell (ty, tx), read straight from the pixel buffer: 32 rows of 32 samples. */
  ghost function CellPixels(image: seq<byte>, width: nat, height: nat, ty: nat, tx: nat): (cell: seq<seq<byte>>)
    requires |image| == width * height && width % TileSize == 0 && height % TileSize == 0
    requires ty < height / TileSize && tx < width / TileSize
    ensures |cell| == TileSize
    ensures forall y, x :: 0 <= y < TileSize && 0 <= x < TileSize ==>
      && |cell[y]| == TileSize
      && PixelOffset(width, ty, tx, y, x) < |image|
      && cell[y][x] == image[PixelOffset(width, ty, tx, y, x)]
  {
    CellRowsWithin(width, height, ty, tx);
    seq(TileSize, y requires 0 <= y < TileSize =>
      image[PixelOffset(width, ty, tx, y, 0)..PixelOffset(width, ty, tx, y, 0) + TileSize])
  }

  lemma CellRowsWithin(width: nat, height: nat, ty: nat, tx: nat)
    requires width % TileSize == 0 && height % TileSize == 0
    requires ty < height / TileSize && tx < width / TileSize
    ensures forall y :: 0 <= y < TileSize ==> PixelOffset(width, ty, tx, y, 0) + TileSize <= width * height
  {
    forall y | 0 <= y < TileSize ensures PixelOffset(width, ty, tx, y, 0) + TileSize <= width * height {
      CellRowWithin(width, height, ty, tx, y);
    }
  }

  /** Entry t of the tile list is 32 views, row y viewing the 32 samples of cell (t / columns, t % columns) in that row. */
  lemma TileListOffset(width: nat, height: nat, t: nat, y: nat)
    requires width % TileSize == 0 && height % TileSize == 0
    requires t < |TileList(ImageRows(0, width, height), TileSize)| && y < TileSize
    ensures width / TileSize > 0 && t / (width / TileSize) < height / TileSize
    ensures |TileList(ImageRows(0, width, height), TileSize)[t]| == TileSize
    ensures TileList(ImageRows(0, width, height), TileSize)[t][y].offset
      == PixelOffset(width, t / (width / TileSize), t % (width / TileSize), y, 0)
  {
    var image := ImageRows(0, width, height);
    var columns := width / TileSize;
    assert FragmentWidth(image) == width;
    RowMajorCell(t, columns, height / TileSize);
    var ty, tx := t / columns, t % columns;
    TileRowsInImage(height, TileSize, ty);
    assert TileList(image, TileSize)[t] == TileAt(image, TileSize, ty, tx);
  }

  /** Sample c of view y of entry t of the tile list of a `width` x `height` buffer is sample p of the buffer. */
  ghost predicate TileListShows(width: nat, height: nat, t: nat, y: nat, c: nat, p: nat)
    requires width % TileSize == 0 && height % TileSize == 0
  {
    var tiles := TileList(ImageRows(0, width, height), TileSize);
    t < |tiles| && y < |tiles[t]| && c < tiles[t][y].length && tiles[t][y].offset + c == p
  }

  /**
   * Every sample of a `width` x `height` buffer is shown by some view of
   * the tile list: with `TileListInjective`, by exactly one (entry, row,
   * column) triple.
   */
  lemma TileListCovers(width: nat, height: nat, p: nat)
    requires width % TileSize == 0 && height % TileSize == 0 && p < width * height
    ensures exists t, y, c :: TileListShows(width, height, t, y, c, p)
  {
    var ty, tx, y, c := PixelCell(width, height, p);
    TileListAt(width, height, ty, tx, y);
    assert TileListShows(width, height, ty * (width / TileSize) + tx, y, c, p);
  }

  /** Row y of the tile list entry of cell (ty, tx) starts at the offset of that cell's row y. */
  lemma TileListAt(width: nat, height: nat, ty: nat, tx: nat, y: nat)
    requires width % TileSize == 0 && height % TileSize == 0
    requires ty < height / TileSize && tx < width / TileSize && y < TileSize
    ensures ty * (width / TileSize) + tx < |TileList(ImageRows(0, width, height), TileSize)|
    ensures |TileList(ImageRows(0, width, height), TileSize)[ty * (width / TileSize) + tx]| == TileSize
    ensures TileList(ImageRows(0, width, height), TileSize)[ty * (width / TileSize) + tx][y]
      == Span(PixelOffset(width, ty, tx, y, 0), TileSize)
  {
    var columns := width / TileSize;
    var t := ty * columns + tx;
    RowMajorBound(ty, tx, columns, height / TileSize);
    DivUnique(t, columns, ty, tx);
    TileListOffset(width, height, t, y);
  }

  /** Splitting a sample's row and column by the tile size gives the grid cell, row and column that PixelOffset maps back to it. */
  lemma PixelCell(width: nat, height: nat, p: nat) returns (ty: nat, tx: nat, y: nat, c: nat)
    requires width % TileSize == 0 && height % TileSize == 0 && p < width * height
    ensures ty < height / TileSize && tx < width / TileSize && y < TileSize && c < TileSize
    ensures PixelOffset(width, ty, tx, y, 0) + c == p
  {
    var row, col := p / width, p % width;
    RowMajorCell(p, width, height);
    RowMajorCell(row, TileSize, height / TileSize);
    RowMajorCell(col, TileSize, width / TileSize);
    ty, tx, y, c := row / TileSize, col / TileSize, row % TileSize, col % TileSize;
  }

  /** No sample is shown twice: two (entry, row, column) triples of the tile list showing the same sample are equal. */
  lemma TileListInjective(width: nat, height: nat, p: nat, t: nat, y: nat, c: nat, t': nat, y': nat, c': nat)
    requires width % TileSize == 0 && height % TileSize == 0
    requires TileListShows(width, height, t, y, c, p) && TileListShows(width, height, t', y', c', p)
    ensures t == t' && y == y' && c == c'
  {
    var ty, tx := TileListShowsAt(width, height, t, y, c, p);
    var ty', tx' := TileListShowsAt(width, height, t', y', c', p);
    PixelOffsetInjective(width, ty, tx, y, c, ty', tx', y', c');
  }

  /** The cell (ty, tx) of entry t, and the offset of the sample that entry shows at (y, c). */
  lemma TileListShowsAt(width: nat, height: nat, t: nat, y: nat, c: nat, p: nat) returns (ty: nat, tx: nat)
    requires width % TileSize == 0 && height % TileSize == 0
    requires TileListShows(width, height, t, y, c, p)
    ensures t == ty * (width / TileSize) + tx && tx < width / TileSize && y < TileSize && c < TileSize
    ensures PixelOffset(width, ty, tx, y, 0) + c == p
  {
    var tiles := TileList(ImageRows(0, width, height), TileSize);
    assert t < |tiles|;
    TileListOffset(width, height, t, 0);
    TileListOffset(width, height, t, y);
    ty, tx := t / (width / TileSize), t % (width / TileSize);
  }

  /** Distinct (cell, row, column) positions of a `width`-wide buffer have distinct offsets. */
  lemma PixelOffsetInjective(width: nat, ty: nat, tx: nat, y: nat, c: nat, ty': nat, tx': nat, y': nat, c': nat)
    requires width % TileSize == 0 && tx < width / TileSize && tx' < width / TileSize
    requires y < TileSize && c < TileSize && y' < TileSize && c' < TileSize
    requires PixelOffset(width, ty, tx, y, 0) + c == PixelOffset(width, ty', tx', y', 0) + c'
    ensures ty == ty' && tx == tx' && y == y' && c == c'
  {
    var p := PixelOffset(width, ty, tx, y, 0) + c;
    CellColumnWithin(width, tx, c);
    CellColumnWithin(width, tx', c');
    DivUnique(p, width, ty * TileSize + y, tx * TileSize + c);
    DivUnique(p, width, ty' * TileSize + y', tx' * TileSize + c');
    DivUnique(ty * TileSize + y, TileSize, ty, y);
    DivUnique(ty' * TileSize + y', TileSize, ty', y');
    DivUnique(tx * TileSize + c, TileSize, tx, c);
    DivUnique(tx' * TileSize + c', TileSize, tx', c');
  }

  /** Column c of a cell in tile column tx lies inside a row `width` samples wide. */
  lemma CellColumnWithin(width: nat, tx: nat, c: nat)
    requires width % TileSize == 0 && tx < width / TileSize && c < TileSize
    ensures tx * TileSize + c < width
  {
    MulMono(TileSize, tx + 1, width / TileSize);
  }

  /** The tile cut for grid cell (ty, tx) shows exactly the cell's pixels. */
  lemma TileShowsCell(image: seq<byte>, width: nat, height: nat, ty: nat, tx: nat)
    requires |image| == width * height && width % TileSize == 0 && height % TileSize == 0
    requires ty < height / TileSize && tx < width / TileSize
    ensures (ty + 1) * TileSize <= height
    ensures ViewsWithin(image, TileAt(ImageRows(0, width, height), TileSize, ty, tx))
    ensures FragmentSamples(image, TileAt(ImageRows(0, width, height), TileSize, ty, tx)) == CellPixels(image, width, height, ty, tx)
  {
    TileRowsInImage(height, TileSize, ty);
    CellRowsWithin(width, height, ty, tx);
    var tile := TileAt(ImageRows(0, width, height), TileSize, ty, tx);
    forall y | 0 <= y < TileSize ensures tile[y] == Span(PixelOffset(width, ty, tx, y, 0), TileSize) {
    }
  }

  /** Grid cell (ty, tx) is entry `ty * columns + tx` of the cell sequence, and its key is its content in both images. */
  lemma CellKey(image: seq<byte>, mask: seq<byte>, width: nat, height: nat, ty: nat, tx: nat)
    requires Decoded(image, width, height) && Decoded(mask, width, height)
    requires width % TileSize == 0 && height % TileSize == 0
    requires ty < height / TileSize && tx < width / TileSize
    ensures ty * (width / TileSize) + tx < |GridKeys(image, mask, width, height)|
    ensures GridKeys(image, mask, width, height)[ty * (width / TileSize) + tx]
      == [CellPixels(image, width, height, ty, tx), CellPixels(mask, width, height, ty, tx)]
  {
    var rows := ImageRows(0, width, height);
    var columns := width / TileSize;
    var t := ty * columns + tx;
    assert FragmentWidth(rows) == width;
    RowMajorBound(ty, tx, columns, height / TileSize);
    DivUnique(t, columns, ty, tx);
    TileListWithin(image, width, height);
    TileListWithin(mask, width, height);
    assert TileList(rows, TileSize)[t] == TileAt(rows, TileSize, ty, tx);
    TileShowsCell(image, width, height, ty, tx);
    TileShowsCell(mask, width, height, ty, tx);
  }

  /** The layer index of grid cell (ty, tx). */
  ghost function CellIndex(image: seq<byte>, mask: seq<byte>, width: nat, height: nat, ty: nat, tx: nat): nat
    requires Decoded(image, width, height) && Decoded(mask, width, height)
    requires width % TileSize == 0 && height % TileSize == 0
    requires ty < height / TileSize && tx < width / TileSize
  {
    RowMajorBound(ty, tx, width / TileSize, height / TileSize);
    CellIndices(image, mask, width, height)[ty * (width / TileSize) + tx]
  }

  /**
   * The size checks: a first image whose sides are not both multiples of 32
   * is rejected as such; otherwise a second image of another size is
   * rejected as a mismatch. No other input draws either error.
   */
  lemma ConvertSizeErrors(image0: seq<byte>, width0: nat, height0: nat, image1: seq<byte>, width1: nat, height1: nat)
    requires Decoded(image0, width0, height0) && Decoded(image1, width1, height1)
    ensures Convert(image0, width0, height0, image1, width1, height1) == Err(NotMultipleOfTileSize) <==>
      width0 % TileSize != 0 || height0 % TileSize != 0
    ensures Convert(image0, width0, height0, image1, width1, height1) == Err(SizeMismatch) <==>
      width0 % TileSize == 0 && height0 % TileSize == 0 && (width1 != width0 || height1 != height0)
  {
    CheckSizeIff(false, 0, 0, width0, height0);
    CheckSizeIff(true, width0, height0, width1, height1);
  }

  /**
   * The capacity check: two images of the same size, a multiple of 32, are
   * converted exactly when their grid has at most 4090 distinct composite
   * tiles, the empty one included, and rejected otherwise.
   */
  lemma ConvertCapacity(image0: seq<byte>, image1: seq<byte>, width: nat, height: nat)
    requires Decoded(image0, width, height) && Decoded(image1, width, height)
    requires width % TileSize == 0 && height % TileSize == 0
    ensures var d := TileDictionary(image0, Binarized(image1), width, height);
      && (Convert(image0, width, height, image1, width, height).Ok? <==> |d| <= MaxTiles)
      && (Convert(image0, width, height, image1, width, height) == Err(TooManyTiles) <==> |d| > MaxTiles)
  {
    CheckSizeIff(false, 0, 0, width, height);
    CheckSizeIff(true, width, height, width, height);
  }

  /**
   * Two grid cells get the same layer index exactly when they show the same
   * pixels in the visual image and the same pixels in the mask.
   */
  lemma SameIndexIffSameContent(image: seq<byte>, mask: seq<byte>, width: nat, height: nat,
                                ty: nat, tx: nat, ty': nat, tx': nat)
    requires Decoded(image, width, height) && Decoded(mask, width, height)
    requires width % TileSize == 0 && height % TileSize == 0
    requires ty < height / TileSize && tx < width / TileSize
    requires ty' < height / TileSize && tx' < width / TileSize
    ensures CellIndex(image, mask, width, height, ty, tx) == CellIndex(image, mask, width, height, ty', tx') <==>
      && CellPixels(image, width, height, ty, tx) == CellPixels(image, width, height, ty', tx')
      && CellPixels(mask, width, height, ty, tx) == CellPixels(mask, width, height, ty', tx')
  {
    var columns := width / TileSize;
    CellKey(image, mask, width, height, ty, tx);
    CellKey(image, mask, width, height, ty', tx');
    SeedDense(EmptyComposite());
    SameIndexIffSameKey(TileSeed(), GridKeys(image, mask, width, height), ty * columns + tx, ty' * columns + tx');
  }

  /** A grid cell gets layer index 0 exactly when it is all zero in both images. */
  lemma EmptyCellIndex(image: seq<byte>, mask: seq<byte>, width: nat, height: nat, ty: nat, tx: nat)
    requires Decoded(image, width, height) && Decoded(mask, width, height)
    requires width % TileSize == 0 && height % TileSize == 0
    requires ty < height / TileSize && tx < width / TileSize
    ensures CellIndex(image, mask, width, height, ty, tx) == 0 <==>
      CellPixels(image, width, height, ty, tx) == EmptyTile() && CellPixels(mask, width, height, ty, tx) == EmptyTile()
  {
    var keys := GridKeys(image, mask, width, height);
    CellKey(image, mask, width, height, ty, tx);
    SeedDense(EmptyComposite());
    InternAllDense(TileSeed(), keys);
    InternAllLookup(TileSeed(), keys);
  }

  /**
   * Indices are handed out in order of first occurrence: a non-empty
   * composite tile not met in an earlier cell gets one more than the number
   * of distinct non-empty composite tiles before it.
   */
  lemma NewContentIndex(image: seq<byte>, mask: seq<byte>, width: nat, height: nat, t: nat)
    requires Decoded(image, width, height) && Decoded(mask, width, height)
    requires width % TileSize == 0 && height % TileSize == 0
    requires t < |GridKeys(image, mask, width, height)|
    requires GridKeys(image, mask, width, height)[t] != EmptyComposite()
    requires GridKeys(image, mask, width, height)[t] !in GridKeys(image, mask, width, height)[..t]
    ensures CellIndices(image, mask, width, height)[t] == 1 + |Fresh(TileSeed(), GridKeys(image, mask, width, height)[..t])|
  {
    FirstOccurrenceCount(TileSeed(), GridKeys(image, mask, width, height), t);
  }

  /** Slot `CellIndex` of the tileset of member image i shows grid cell (ty, tx) of that image. */
  lemma CellInTileset(image: seq<byte>, mask: seq<byte>, width: nat, height: nat,
                      ty: nat, tx: nat, i: nat, y: nat, x: nat)
    requires Decoded(image, width, height) && Decoded(mask, width, height)
    requires width % TileSize == 0 && height % TileSize == 0
    requires ty < height / TileSize && tx < width / TileSize && i < ImageCount && y < TileSize && x < TileSize
    ensures var d := TileDictionary(image, mask, width, height);
      var tileset := TilesetImage(Ordered(d), i, TilesetHeight(|d|));
      var slot := SlotOffset(CellIndex(image, mask, width, height, ty, tx), y, x);
      slot < |tileset| && tileset[slot] == CellPixels(if i == 0 then image else mask, width, height, ty, tx)[y][x]
  {
    var key := CellEntry(image, mask, width, height, ty, tx);
    TileDictionaryFacts(GridKeys(image, mask, width, height));
    EntryPlacement(TileDictionary(image, mask, width, height), key, i, y, x);
  }

  /** The composite tile of grid cell (ty, tx) is in the dictionary, under the cell's layer index. */
  lemma CellEntry(image: seq<byte>, mask: seq<byte>, width: nat, height: nat, ty: nat, tx: nat)
      returns (key: Composite)
    requires Decoded(image, width, height) && Decoded(mask, width, height)
    requires width % TileSize == 0 && height % TileSize == 0
    requires ty < height / TileSize && tx < width / TileSize
    ensures key == [CellPixels(image, width, height, ty, tx), CellPixels(mask, width, height, ty, tx)]
    ensures var d := TileDictionary(image, mask, width, height);
      key in d && d[key] == CellIndex(image, mask, width, height, ty, tx)
  {
    var keys := GridKeys(image, mask, width, height);
    CellKey(image, mask, width, height, ty, tx);
    key := keys[ty * (width / TileSize) + tx];
    InternAllLookup(TileSeed(), keys);
  }

  /**
   * The layer index of every grid cell names the tileset slot that shows the
   * cell: the visual tileset holds the cell's pixels there, the mask tileset
   * its binarised mask pixels.
   */
  lemma TilesetsShowCells(image0: seq<byte>, image1: seq<byte>, width: nat, height: nat,
                          ty: nat, tx: nat, y: nat, x: nat)
    requires Decoded(image0, width, height) && Decoded(image1, width, height)
    requires width % TileSize == 0 && height % TileSize == 0
    requires ty < height / TileSize && tx < width / TileSize && y < TileSize && x < TileSize
    requires Convert(image0, width, height, image1, width, height).Ok?
    ensures var o := Convert(image0, width, height, image1, width, height).value;
      var slot := SlotOffset(CellIndex(image0, Binarized(image1), width, height, ty, tx), y, x);
      var p := PixelOffset(width, ty, tx, y, x);
      && p < |image0|
      && slot < |o.tileset0| && slot < |o.tileset1|
      && o.tileset0[slot] == image0[p]
      && o.tileset1[slot] == if image1[p] == 0 then 0 else 1
  {
    var mask := Binarized(image1);
    ConvertIsAssemble(image0, image1, width, height);
    CellInTileset(image0, mask, width, height, ty, tx, 0, y, x);
    CellInTileset(image0, mask, width, height, ty, tx, 1, y, x);
  }

  /** Two images of the same size, a multiple of 32, pass both size checks. */
  lemma ConvertIsAssemble(image0: seq<byte>, image1: seq<byte>, width: nat, height: nat)
    requires Decoded(image0, width, height) && Decoded(image1, width, height)
    requires width % TileSize == 0 && height % TileSize == 0
    ensures Convert(image0, width, height, image1, width, height) == Assemble(image0, Binarized(image1), width, height)
  {
    CheckSizeIff(false, 0, 0, width, height);
    CheckSizeIff(true, width, height, width, height);
  }

  /**
   * The shape of the outputs: both tilesets are 320 samples wide and 32 rows
   * per started row of ten tiles tall, and Stream4 holds two bytes per word
   * of the padded layer.
   */
  lemma ConvertOutputShape(image0: seq<byte>, image1: seq<byte>, width: nat, height: nat)
    requires Decoded(image0, width, height) && Decoded(image1, width, height)
    requires width % TileSize == 0 && height % TileSize == 0
    requires Convert(image0, width, height, image1, width, height).Ok?
    ensures var o, d := Convert(image0, width, height, image1, width, height).value,
                        TileDictionary(image0, Binarized(image1), width, height);
      && o.tilesetImageHeight == TilesetHeight(|d|) * TileSize
      && |o.tileset0| == TilesetImageWidth * o.tilesetImageHeight
      && |o.tileset1| == TilesetImageWidth * o.tilesetImageHeight
      && |o.stream4| == 2 * ((height / TileSize) * ReducedWidth(width / TileSize))
  {
    var mask := Binarized(image1);
    CheckSizeIff(false, 0, 0, width, height);
    CheckSizeIff(true, width, height, width, height);
    var layer := Grid(CellIndices(image0, mask, width, height), width / TileSize, height / TileSize);
    StreamLengths(layer, width / TileSize);
  }

  /** Every grid cell of an image whose samples are all `v` is 32 rows of 32 samples `v`. */
  lemma UniformCell(image: seq<byte>, width: nat, height: nat, v: byte, ty: nat, tx: nat)
    requires |image| == width * height && width % TileSize == 0 && height % TileSize == 0
    requires ty < height / TileSize && tx < width / TileSize
    requires forall k :: 0 <= k < |image| ==> image[k] == v
    ensures CellPixels(image, width, height, ty, tx) == seq(TileSize, _ => seq(TileSize, _ => v))
  {
    var cell := CellPixels(image, width, height, ty, tx);
    forall y | 0 <= y < TileSize ensures cell[y] == seq(TileSize, _ => v) {
    }
  }

  /**
   * A 64 x 32 visual image whose samples are all 5 and an all-zero mask:
   * both grid cells have the composite tile (all-5 tile, empty tile).
   */
  lemma TwoByOneKeys()
    ensures var image, mask := seq(64 * 32, _ => 5 as byte), Binarized(seq(64 * 32, _ => 0 as byte));
      var key := [seq(TileSize, _ => seq(TileSize, _ => 5 as byte)), EmptyTile()];
      && Decoded(image, 64, 32) && Decoded(mask, 64, 32)
      && GridKeys(image, mask, 64, 32) == [key, key]
      && key != EmptyComposite()
  {
    var image: seq<byte> := seq(64 * 32, _ => 5);
    var mask := Binarized(seq(64 * 32, _ => 0));
    var five: seq<seq<byte>> := seq(TileSize, _ => seq(TileSize, _ => 5));
    UniformCell(image, 64, 32, 5, 0, 0);
    UniformCell(image, 64, 32, 5, 0, 1);
    UniformCell(mask, 64, 32, 0, 0, 0);
    UniformCell(mask, 64, 32, 0, 0, 1);
    CellKey(image, mask, 64, 32, 0, 0);
    CellKey(image, mask, 64, 32, 0, 1);
    assert five[0][0] != EmptyTile()[0][0];
  }

  /** Two cells with the same non-empty composite tile: it is emplaced once, at index 1, and both cells get 1. */
  lemma RepeatedKey(key: Composite)
    requires key != EmptyComposite()
    ensures InternAll(TileSeed(), [key, key]) == (map[EmptyComposite() := 0, key := 1], [1, 1])
  {
    var d := map[EmptyComposite() := 0, key := 1];
    assert |TileSeed()| == 1 && TileSeed()[key := 1] == d;
    assert key !in TileSeed() && Emplace(TileSeed(), key) == (d, 1);
    assert InternAll(TileSeed(), []) == (TileSeed(), []);
    InternAllSnoc(TileSeed(), [], key);
    assert [] + [key] == [key] && [] + [1] == [1];
    assert InternAll(TileSeed(), [key]) == (d, [1]);
    assert key in d && Emplace(d, key) == (d, 1);
    InternAllSnoc(TileSeed(), [key], key);
    assert [key] + [key] == [key, key] && [1] + [1] == [1, 1];
  }

  /**
   * The same pair of images: the dictionary holds the empty tile and the
   * cells' tile, and both cells get index 1.
   */
  lemma TwoByOneCells()
    ensures var image, mask := seq(64 * 32, _ => 5 as byte), Binarized(seq(64 * 32, _ => 0 as byte));
      && Decoded(image, 64, 32) && Decoded(mask, 64, 32)
      && |TileDictionary(image, mask, 64, 32)| == 2
      && CellIndices(image, mask, 64, 32) == [1, 1]
  {
    var key := [seq(TileSize, _ => seq(TileSize, _ => 5 as byte)), EmptyTile()];
    TwoByOneKeys();
    RepeatedKey(key);
    assert |map[EmptyComposite() := 0, key := 1]| == 2;
  }

  /**
   * The same pair of images through the whole conversion: it succeeds with
   * one row of ten tile slots (32 rows of samples), the layer `[[1, 1]]`
   * pads to the single word `[1, 1, 0, 0]`, Stream4 holds its index 1 and
   * Stream3 holds the zero word and that word.
   */
  lemma TwoByOneConversion()
    ensures var image0, image1 := seq(64 * 32, _ => 5 as byte), seq(64 * 32, _ => 0 as byte);
      && Decoded(image0, 64, 32) && Decoded(image1, 64, 32)
      && Convert(image0, 64, 32, image1, 64, 32).Ok?
      && Convert(image0, 64, 32, image1, 64, 32).value.tilesetImageHeight == TileSize
      && Convert(image0, 64, 32, image1, 64, 32).value.stream4 == [1, 0]
      && Convert(image0, 64, 32, image1, 64, 32).value.stream3 == [0, 0, 0, 0, 0, 0, 0, 0] + [1, 0, 1, 0, 0, 0, 0, 0]
  {
    var image0: seq<byte> := seq(64 * 32, _ => 5);
    var image1: seq<byte> := seq(64 * 32, _ => 0);
    TwoByOneCells();
    ConvertIsAssemble(image0, image1, 64, 32);
    assert Grid([1, 1], 2, 1)[0] == [1, 1];
    TwoByOnePadding();
    TwoByOneStream4();
    TwoByOneStream3();
  }
}
