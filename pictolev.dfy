/**
 * Model of the conversion PicToLev/src/main.cpp performs between decoding
 * its two input images and encoding its outputs.
 *
 * Both images are cut into 32 x 32 tiles. Grid cell by grid cell, in
 * row-major order, the pair (visual tile, mask tile) is looked up by content
 * in a dictionary seeded with the all-zero pair at index 0; an unseen pair
 * gets the next index. The index of every cell goes into the level layer.
 * When the dictionary holds at most 4090 entries, every entry is copied into
 * one tileset image per input, and the layer is written out as Stream3 and
 * Stream4.
 */
module PicToLev {

  import opened Arithmetic
  import opened Tiles
  import opened Dictionary
  import opened DataStreams
  import opened Tileset

  const MaxTiles: nat := 4090

  datatype Option<T> = None | Some(value: T)

  /** Why the conversion stops with exit status 1 (each comes with its own message). */
  datatype Error = SizeMismatch | NotMultipleOfTileSize | TooManyTiles

  datatype Result<T> = Ok(value: T) | Err(error: Error)

  /**
   * What the conversion hands on: the pixel buffers of the two tilesets
   * (320 samples wide, `tilesetImageHeight` rows tall) that are given to the
   * PNG encoder, and the bytes of the two stream files.
   */
  datatype Output = Output(tileset0: seq<byte>, tileset1: seq<byte>, tilesetImageHeight: nat,
                           stream3: seq<byte>, stream4: seq<byte>)

  function Pow2(k: nat): (p: nat)
    ensures p >= 1
  {
    if k == 0 then 1 else 2 * Pow2(k - 1)
  }

  /** `a & b` on unsigned integers, bit by bit from the least significant one. */
  function BitAnd(a: nat, b: nat): nat
    decreases a
  {
    if a == 0 || b == 0 then 0 else (a % 2) * (b % 2) + 2 * BitAnd(a / 2, b / 2)
  }

  /** Masking with `2^k - 1` keeps the low k bits: the remainder modulo `2^k`. */
  lemma {:induction false} BitAndLowMask(w: nat, k: nat)
    ensures BitAnd(w, Pow2(k) - 1) == w % Pow2(k)
    decreases k
  {
    if k > 0 && w > 0 {
      var m := Pow2(k - 1);
      var mask := 2 * m - 1;
      assert Pow2(k) - 1 == mask;
      BitAndLowMask(w / 2, k - 1);
      assert mask % 2 == 1 && mask / 2 == m - 1;
      assert BitAnd(w, mask) == w % 2 + 2 * BitAnd(w / 2, m - 1);
      RemainderOfDouble(w, m);
      assert Pow2(k) == 2 * m;
      assert BitAnd(w, mask) == w % (2 * m);
    } else if k == 0 {
      assert Pow2(k) == 1;
      assert BitAnd(w, 0) == 0;
    } else {
      var p := Pow2(k);
      assert 0 % p == 0 by { DivUnique(0, p, 0, 0); }
    }
  }

  /** The remainder modulo `2m` from the remainder of the halved value modulo `m` and the low bit. */
  lemma RemainderOfDouble(w: nat, m: nat)
    requires m >= 1
    ensures w % (2 * m) == w % 2 + 2 * ((w / 2) % m)
  {
    var q, r := (w / 2) / m, (w / 2) % m;
    assert w / 2 == m * q + r;
    assert w == (2 * m) * q + (w % 2 + 2 * r);
    DivUnique(w, 2 * m, q, w % 2 + 2 * r);
  }

  /**
   * The dimension checks of `get_tile_list`, in order: an image after the
   * first must have the first one's size, and `width & 31 || height & 31`
   * rejects sizes that are not multiples of 32.
   */
  function CheckSize(knownSize: bool, knownWidth: nat, knownHeight: nat, width: nat, height: nat): Option<Error>
  {
    if knownSize && (width != knownWidth || height != knownHeight) then Some(SizeMismatch)
    else if BitAnd(width, 31) != 0 || BitAnd(height, 31) != 0 then Some(NotMultipleOfTileSize)
    else None
  }

  /** The checks pass exactly for a matching size that is a multiple of 32 both ways; a mismatch is reported first. */
  lemma CheckSizeIff(knownSize: bool, knownWidth: nat, knownHeight: nat, width: nat, height: nat)
    ensures CheckSize(knownSize, knownWidth, knownHeight, width, height) == None <==>
      && (!knownSize || (width == knownWidth && height == knownHeight))
      && width % TileSize == 0 && height % TileSize == 0
    ensures CheckSize(knownSize, knownWidth, knownHeight, width, height) == Some(SizeMismatch) <==>
      knownSize && (width != knownWidth || height != knownHeight)
  {
    assert Pow2(5) == 32;
    BitAndLowMask(width, 5);
    BitAndLowMask(height, 5);
  }

  /** The mask pass of `main`: every non-zero sample becomes 1. */
  function Binarized(samples: seq<byte>): (binary: seq<byte>)
    ensures |binary| == |samples|
    ensures forall k :: 0 <= k < |samples| ==> binary[k] <= 1 && (binary[k] == 0 <==> samples[k] == 0)
  {
    seq(|samples|, k requires 0 <= k < |samples| => if samples[k] != 0 then 1 else 0)
  }

  /** All views of every tile stay inside the buffer. */
  ghost predicate TilesWithin(buffer: seq<byte>, tiles: seq<seq<Span>>)
  {
    forall t :: 0 <= t < |tiles| ==> ViewsWithin(buffer, tiles[t])
  }

  /** Every tile is `TileSize` views of `TileSize` samples. */
  ghost predicate TilesShaped(tiles: seq<seq<Span>>)
  {
    && (forall t :: 0 <= t < |tiles| ==> |tiles[t]| == TileSize)
    && (forall t, y :: 0 <= t < |tiles| && 0 <= y < TileSize ==> tiles[t][y].length == TileSize)
  }

  /** The composite tile of one grid cell, by content: the visual tile first, the mask tile second. */
  function CompositeKey(buffer0: seq<byte>, tile0: seq<Span>, buffer1: seq<byte>, tile1: seq<Span>): Composite
    requires ViewsWithin(buffer0, tile0) && ViewsWithin(buffer1, tile1)
  {
    [FragmentSamples(buffer0, tile0), FragmentSamples(buffer1, tile1)]
  }

  /** The composite tiles of all grid cells, in the order the dedup loop visits them. */
  function CompositeKeys(buffer0: seq<byte>, tiles0: seq<seq<Span>>, buffer1: seq<byte>, tiles1: seq<seq<Span>>): (keys: seq<Composite>)
    requires |tiles0| == |tiles1| && TilesWithin(buffer0, tiles0) && TilesWithin(buffer1, tiles1)
    ensures |keys| == |tiles0|
  {
    seq(|tiles0|, t requires 0 <= t < |tiles0| => CompositeKey(buffer0, tiles0[t], buffer1, tiles1[t]))
  }

  /** Composite tiles cut from well-shaped tiles are well shaped. */
  lemma CompositeKeysShaped(buffer0: seq<byte>, tiles0: seq<seq<Span>>, buffer1: seq<byte>, tiles1: seq<seq<Span>>)
    requires |tiles0| == |tiles1| && TilesWithin(buffer0, tiles0) && TilesWithin(buffer1, tiles1)
    requires TilesShaped(tiles0) && TilesShaped(tiles1)
    ensures forall t :: 0 <= t < |tiles0| ==> Shaped(CompositeKeys(buffer0, tiles0, buffer1, tiles1)[t])
  {
  }

  function EmptyTile(): seq<seq<byte>>
  {
    seq(TileSize, _ => seq(TileSize, _ => 0))
  }

  /** `empty_tile`: both member tiles all zero (rows of `empty_tile_row`). */
  function EmptyComposite(): (c: Composite)
    ensures Shaped(c)
  {
    [EmptyTile(), EmptyTile()]
  }

  /** The tile dictionary before the loop: `{{std::move(empty_tile), 0}}`. */
  function TileSeed(): map<Composite, nat>
  {
    map[EmptyComposite() := 0]
  }

  /** A dictionary built from the seed and well-shaped composites is dense, non-empty and well shaped. */
  lemma TileDictionaryFacts(keys: seq<Composite>)
    requires forall t :: 0 <= t < |keys| ==> Shaped(keys[t])
    ensures var d := InternAll(TileSeed(), keys).0;
      && Dense(d) && |d| >= 1
      && (forall c :: c in d ==> Shaped(c))
      && (forall s :: 0 <= s < |d| ==> Shaped(Ordered(d)[s]))
      && EmptyComposite() in d && d[EmptyComposite()] == 0
  {
    var d := InternAll(TileSeed(), keys).0;
    SeedDense(EmptyComposite());
    InternAllDense(TileSeed(), keys);
    TileDictionaryShaped(keys);
    forall s | 0 <= s < |d| ensures Shaped(Ordered(d)[s]) {
      assert Ordered(d)[s] in d;
    }
  }

  lemma TileDictionaryShaped(keys: seq<Composite>)
    requires forall t :: 0 <= t < |keys| ==> Shaped(keys[t])
    ensures forall c :: c in InternAll(TileSeed(), keys).0 ==> Shaped(c)
  {
    InternAllKeys(TileSeed(), keys);
    forall c | c in InternAll(TileSeed(), keys).0 ensures Shaped(c) {
      if c != EmptyComposite() {
        assert c in keys;
      }
    }
  }

  /** `image_file_context`: an input image with its decoded samples, its size and its tiles. */
  class ImageFile {
    var buffer: seq<byte>
    var knownSize: bool
    var width: nat
    var height: nat
    var tiles: seq<seq<Span>>
    var tilesIt: nat

    /** An input context before decoding: the first image's size is unknown, later ones must match it. */
    constructor (knownSize: bool, width: nat, height: nat)
      ensures this.knownSize == knownSize && this.width == width && this.height == height
      ensures buffer == [] && tiles == [] && tilesIt == 0
    {
      this.knownSize := knownSize;
      this.width := width;
      this.height := height;
      buffer := [];
      tiles := [];
      tilesIt := 0;
    }

    /**
     * `get_tile_list` from the decoder's output on: keeps the samples,
     * records or checks the size, and slices the image into tiles.
     */
    method GetTileList(decoded: seq<byte>, decodedWidth: nat, decodedHeight: nat) returns (failure: Option<Error>)
      requires decodedWidth >= 1 && decodedHeight >= 1 && |decoded| == decodedWidth * decodedHeight
      modifies this`buffer, this`width, this`height, this`tiles
      ensures buffer == decoded
      ensures failure == CheckSize(knownSize, old(width), old(height), decodedWidth, decodedHeight)
      ensures failure == None ==> width == decodedWidth && height == decodedHeight
      ensures failure == None ==> decodedWidth % TileSize == 0 && decodedHeight % TileSize == 0
      ensures failure == None ==> tiles == TileList(ImageRows(0, decodedWidth, decodedHeight), TileSize)
      ensures failure != None ==> tiles == old(tiles)
      ensures knownSize ==> width == old(width) && height == old(height)
      ensures !knownSize ==> width == decodedWidth && height == decodedHeight
    {
      buffer := decoded;
      if knownSize {
        if decodedWidth != width || decodedHeight != height {
          return Some(SizeMismatch);
        }
      } else {
        width := decodedWidth;
        height := decodedHeight;
      }
      if BitAnd(decodedWidth, 31) != 0 || BitAnd(decodedHeight, 31) != 0 {
        return Some(NotMultipleOfTileSize);
      }
      CheckSizeIff(knownSize, old(width), old(height), decodedWidth, decodedHeight);
      var image := BufferToImage(Span(0, |buffer|), decodedWidth, decodedHeight);
      BufferToImageRows(Span(0, |buffer|), decodedWidth, decodedHeight, image);
      tiles := ImageToTileList(image, TileSize);
      RowMajorTilesUnique(image, TileSize, tiles);
      failure := None;
    }

    /** `for (auto&& index : inputs[1].buffer) index = index != 0;` */
    method Binarize()
      modifies this`buffer
      ensures buffer == Binarized(old(buffer))
    {
      var k := 0;
      while k < |buffer|
        invariant k <= |buffer| == |old(buffer)|
        invariant forall j :: 0 <= j < k ==> buffer[j] == Binarized(old(buffer))[j]
        invariant forall j :: k <= j < |buffer| ==> buffer[j] == old(buffer)[j]
      {
        buffer := buffer[k := if buffer[k] != 0 then 1 else 0];
        k := k + 1;
      }
    }
  }

  /** The tiles of an image of `width * height` samples are well shaped and inside its buffer. */
  lemma TileListWithin(buffer: seq<byte>, width: nat, height: nat)
    requires height >= 1 && width % TileSize == 0 && height % TileSize == 0 && |buffer| == width * height
    ensures TilesWithin(buffer, TileList(ImageRows(0, width, height), TileSize))
    ensures TilesShaped(TileList(ImageRows(0, width, height), TileSize))
  {
    var tiles: seq<seq<Span>> := TileList(ImageRows(0, width, height), TileSize);
    forall t, y | 0 <= t < |tiles| && 0 <= y < TileSize
      ensures |tiles[t]| == TileSize && tiles[t][y].length == TileSize
      ensures tiles[t][y].offset + tiles[t][y].length <= |buffer|
    {
      TileViewWithin(width, height, t, y);
    }
  }

  lemma TileViewWithin(width: nat, height: nat, t: nat, y: nat)
    requires height >= 1 && width % TileSize == 0 && height % TileSize == 0
    requires t < |TileList(ImageRows(0, width, height), TileSize)| && y < TileSize
    ensures |TileList(ImageRows(0, width, height), TileSize)[t]| == TileSize
    ensures TileList(ImageRows(0, width, height), TileSize)[t][y].length == TileSize
    ensures TileList(ImageRows(0, width, height), TileSize)[t][y].offset + TileSize <= width * height
  {
    var image := ImageRows(0, width, height);
    var bands, columns := height / TileSize, width / TileSize;
    assert FragmentWidth(image) == width;
    RowMajorCell(t, columns, bands);
    var ty, tx := t / columns, t % columns;
    TileRowsInImage(height, TileSize, ty);
    assert TileList(image, TileSize)[t] == TileAt(image, TileSize, ty, tx);
    RowEndWithin(width, height, ty * TileSize + y);
    MulMono(TileSize, tx + 1, columns);
    DivExact(width, TileSize);
  }

  /** The layer as `height` rows of `width` cells, cut from the row-major cell sequence. */
  function Grid(cells: seq<nat>, width: nat, height: nat): (rows: seq<seq<nat>>)
    requires |cells| == width * height
    ensures |rows| == height && forall r :: 0 <= r < height ==> |rows[r]| == width
  {
    seq(height, r requires 0 <= r < height =>
      seq(width, c requires 0 <= c < width => RowMajorBound(r, c, width, height); cells[r * width + c]))
  }

  lemma {:induction false} FlattenRowsLength(rows: seq<seq<nat>>, width: nat)
    requires forall k :: 0 <= k < |rows| ==> |rows[k]| == width
    ensures |Flatten(rows)| == |rows| * width
    decreases |rows|
  {
    if rows != [] {
      FlattenRowsLength(rows[..|rows| - 1], width);
      assert |rows| * width == (|rows| - 1) * width + width;
    }
  }

  /** Cell c of row r is element `r * width + c` of the flattened rows. */
  lemma {:induction false} FlattenAt(rows: seq<seq<nat>>, width: nat, r: nat, c: nat)
    requires forall k :: 0 <= k < |rows| ==> |rows[k]| == width
    requires r < |rows| && c < width
    ensures r * width + c < |Flatten(rows)|
    ensures Flatten(rows)[r * width + c] == rows[r][c]
    decreases |rows|
  {
    var n := |rows|;
    var init := rows[..n - 1];
    FlattenRowsLength(init, width);
    FlattenRowsLength(rows, width);
    if r < n - 1 {
      FlattenAt(init, width, r, c);
      assert rows[r] == init[r];
    } else {
      assert r * width == |Flatten(init)|;
    }
  }

  /** Rows of equal width are the grid of their concatenation. */
  lemma FlattenGrid(rows: seq<seq<nat>>, width: nat)
    requires forall k :: 0 <= k < |rows| ==> |rows[k]| == width
    ensures |Flatten(rows)| == width * |rows|
    ensures rows == Grid(Flatten(rows), width, |rows|)
  {
    FlattenRowsLength(rows, width);
    var grid := Grid(Flatten(rows), width, |rows|);
    forall r | 0 <= r < |rows| ensures rows[r] == grid[r] {
      forall c | 0 <= c < width ensures rows[r][c] == grid[r][c] {
        FlattenAt(rows, width, r, c);
      }
    }
  }

  /** One pass of the dedup loop emplaces the composite tile of the next cell. */
  lemma DeduplicateStep(keys: seq<Composite>, n: nat, d: map<Composite, nat>, ids: seq<nat>)
    requires n < |keys|
    requires d == InternAll(TileSeed(), keys[..n]).0 && ids == InternAll(TileSeed(), keys[..n]).1
    ensures Emplace(d, keys[n]).0 == InternAll(TileSeed(), keys[..n + 1]).0
    ensures ids + [Emplace(d, keys[n]).1] == InternAll(TileSeed(), keys[..n + 1]).1
  {
    assert keys[..n + 1] == keys[..n] + [keys[n]];
    InternAllSnoc(TileSeed(), keys[..n], keys[n]);
  }

  /**
   * The inner loop of the dedup pass over one layer row: for each cell the
   * composite tile under the two tile iterators is emplaced, the iterators
   * advance, and the cell receives the index. `row'` is the row afterwards,
   * `start` where the iterators stood before it.
   */
  method EmplaceRow(buffer0: seq<byte>, tiles0: seq<seq<Span>>, buffer1: seq<byte>, tiles1: seq<seq<Span>>,
                    ghost keys: seq<Composite>, start: nat, row: seq<nat>,
                    tileDictionary: map<Composite, nat>, ghost indices: seq<nat>)
      returns (row': seq<nat>, tileDictionary': map<Composite, nat>)
    requires |tiles0| == |tiles1| == |keys|
    requires TilesWithin(buffer0, tiles0) && TilesWithin(buffer1, tiles1)
    requires keys == CompositeKeys(buffer0, tiles0, buffer1, tiles1)
    requires start + |row| <= |keys|
    requires tileDictionary == InternAll(TileSeed(), keys[..start]).0
    requires indices == InternAll(TileSeed(), keys[..start]).1
    ensures |row'| == |row|
    ensures tileDictionary' == InternAll(TileSeed(), keys[..start + |row|]).0
    ensures indices + row' == InternAll(TileSeed(), keys[..start + |row|]).1
  {
    tileDictionary' := tileDictionary;
    row' := row;
    var it := start;
    var c := 0;
    while c < |row|
      invariant c <= |row| == |row'|
      invariant it == start + c
      invariant tileDictionary' == InternAll(TileSeed(), keys[..it]).0
      invariant indices + row'[..c] == InternAll(TileSeed(), keys[..it]).1
    {
      var tile := CompositeKey(buffer0, tiles0[it], buffer1, tiles1[it]);
      DeduplicateStep(keys, it, tileDictionary', indices + row'[..c]);
      it := it + 1;
      var index;
      tileDictionary', index := Emplace(tileDictionary', tile).0, Emplace(tileDictionary', tile).1;
      assert (row'[c := index])[..c + 1] == row'[..c] + [index];
      row' := row'[c := index];
      c := c + 1;
    }
    assert row'[..c] == row';
  }

  /**
   * The two nested dedup loops over a layer of `height` rows of `width`
   * cells: every cell, row by row, receives the index of the composite tile
   * at the same position of the tile lists.
   */
  method EmplaceLayer(buffer0: seq<byte>, tiles0: seq<seq<Span>>, buffer1: seq<byte>, tiles1: seq<seq<Span>>,
                      layer: seq<seq<nat>>, width: nat)
      returns (layer': seq<seq<nat>>, tileDictionary: map<Composite, nat>)
    requires |tiles0| == |tiles1| == width * |layer|
    requires forall r :: 0 <= r < |layer| ==> |layer[r]| == width
    requires TilesWithin(buffer0, tiles0) && TilesWithin(buffer1, tiles1)
    ensures var keys := CompositeKeys(buffer0, tiles0, buffer1, tiles1);
      && tileDictionary == InternAll(TileSeed(), keys).0
      && layer' == Grid(InternAll(TileSeed(), keys).1, width, |layer|)
  {
    ghost var keys := CompositeKeys(buffer0, tiles0, buffer1, tiles1);
    layer' := layer;
    var it: nat := 0;
    tileDictionary := TileSeed();
    assert keys[..0] == [] && layer'[..0] == [];
    var r := 0;
    while r < |layer'|
      invariant |layer'| == |layer| && LayerFilled(keys, layer', width, r, it, tileDictionary)
    {
      RowEndWithin(width, |layer|, r);
      var row, tileDictionary';
      row, tileDictionary' := EmplaceRow(buffer0, tiles0, buffer1, tiles1,
                                         keys, it, layer'[r], tileDictionary, Flatten(layer'[..r]));
      ghost var before := layer';
      layer' := layer'[r := row];
      LayerFilledStep(keys, before, width, r, it, row, tileDictionary', layer');
      tileDictionary := tileDictionary';
      it := it + width;
      r := r + 1;
    }
    assert layer'[..r] == layer';
    assert it == |keys|;
    assert keys[..it] == keys;
    FlattenGrid(layer', width);
  }

  /** After r rows of the layer: the rows keep their width, the iterators stand at `width * r`, and the dictionary and the filled rows are those of the keys so far. */
  ghost predicate LayerFilled(keys: seq<Composite>, layer: seq<seq<nat>>, width: nat, r: nat, it: nat, d: map<Composite, nat>)
  {
    && r <= |layer|
    && (forall k :: 0 <= k < |layer| ==> |layer[k]| == width)
    && it == width * r && width * |layer| == |keys|
    && d == InternAll(TileSeed(), keys[..it]).0
    && Flatten(layer[..r]) == InternAll(TileSeed(), keys[..it]).1
  }

  /** Filling row r as `EmplaceRow` promises extends the filled prefix by one row. */
  lemma LayerFilledStep(keys: seq<Composite>, layer: seq<seq<nat>>, width: nat, r: nat, it: nat,
                        row: seq<nat>, d: map<Composite, nat>, layer': seq<seq<nat>>)
    requires r < |layer| && it + width <= |keys| && |row| == width && layer' == layer[r := row]
    requires LayerFilled(keys, layer, width, r, it, InternAll(TileSeed(), keys[..it]).0)
    requires d == InternAll(TileSeed(), keys[..it + width]).0
    requires Flatten(layer[..r]) + row == InternAll(TileSeed(), keys[..it + width]).1
    ensures LayerFilled(keys, layer', width, r + 1, it + width, d)
  {
    StoreRow(layer, r, width, row, layer');
    assert width * (r + 1) == it + width;
  }

  /** Storing a filled row of the right width keeps the layer's shape and appends the row to the filled prefix. */
  lemma StoreRow(layer: seq<seq<nat>>, r: nat, width: nat, row: seq<nat>, layer': seq<seq<nat>>)
    requires r < |layer| && |row| == width && layer' == layer[r := row]
    requires forall k :: 0 <= k < |layer| ==> |layer[k]| == width
    ensures |layer'| == |layer| && forall k :: 0 <= k < |layer'| ==> |layer'[k]| == width
    ensures Flatten(layer'[..r + 1]) == Flatten(layer[..r]) + row
  {
    FlattenSnoc(layer[..r], row);
    assert layer'[..r + 1] == layer[..r] + [row];
  }

  /**
   * The dedup pass of `main`: the tile iterators start at the first tile,
   * the layer is filled by the nested loops, and afterwards both iterators
   * stand past the last tile.
   */
  method Deduplicate(level: Level, first: ImageFile, second: ImageFile) returns (tileDictionary: map<Composite, nat>)
    requires first != second
    requires |level.layer| == level.layerHeight
    requires forall r :: 0 <= r < |level.layer| ==> |level.layer[r]| == level.layerWidth
    requires |first.tiles| == |second.tiles| == level.layerWidth * level.layerHeight
    requires TilesWithin(first.buffer, first.tiles) && TilesWithin(second.buffer, second.tiles)
    modifies level`layer, first`tilesIt, second`tilesIt
    ensures first.tilesIt == second.tilesIt == |first.tiles|
    ensures var keys := CompositeKeys(first.buffer, first.tiles, second.buffer, second.tiles);
      && tileDictionary == InternAll(TileSeed(), keys).0
      && level.layer == Grid(InternAll(TileSeed(), keys).1, level.layerWidth, level.layerHeight)
  {
    first.tilesIt := 0;
    second.tilesIt := 0;
    level.layer, tileDictionary := EmplaceLayer(first.buffer, first.tiles, second.buffer, second.tiles,
                                                level.layer, level.layerWidth);
    first.tilesIt := |first.tiles|;
    second.tilesIt := |second.tiles|;
  }

  /** The grid keys of two images of the same size: cell t pairs tile t of the first with tile t of the second. */
  ghost function GridKeys(image0: seq<byte>, image1: seq<byte>, width: nat, height: nat): (keys: seq<Composite>)
    requires height >= 1 && width % TileSize == 0 && height % TileSize == 0
    requires |image0| == |image1| == width * height
    ensures |keys| == (width / TileSize) * (height / TileSize)
    ensures forall t :: 0 <= t < |keys| ==> Shaped(keys[t])
  {
    var tiles := TileList(ImageRows(0, width, height), TileSize);
    TileListWithin(image0, width, height);
    TileListWithin(image1, width, height);
    CompositeKeysShaped(image0, tiles, image1, tiles);
    CompositeKeys(image0, tiles, image1, tiles)
  }

  /** The codec delivers one sample per pixel and images of at least one pixel each way. */
  ghost predicate Decoded(image: seq<byte>, width: nat, height: nat)
  {
    width >= 1 && height >= 1 && |image| == width * height
  }

  /** Both size checks pass. */
  ghost predicate ValidSizes(width0: nat, height0: nat, width1: nat, height1: nat)
  {
    CheckSize(false, 0, 0, width0, height0) == None && CheckSize(true, width0, height0, width1, height1) == None
  }

  /** The tile dictionary after the dedup pass over a visual image and a binarised mask of the same size. */
  ghost function TileDictionary(image: seq<byte>, mask: seq<byte>, width: nat, height: nat): (d: map<Composite, nat>)
    requires Decoded(image, width, height) && Decoded(mask, width, height)
    requires width % TileSize == 0 && height % TileSize == 0
    ensures Dense(d) && |d| >= 1 && forall s :: 0 <= s < |d| ==> Shaped(Ordered(d)[s])
  {
    var keys := GridKeys(image, mask, width, height);
    TileDictionaryFacts(keys);
    InternAll(TileSeed(), keys).0
  }

  /** The layer index of every grid cell, row-major. */
  ghost function CellIndices(image: seq<byte>, mask: seq<byte>, width: nat, height: nat): (ids: seq<nat>)
    requires Decoded(image, width, height) && Decoded(mask, width, height)
    requires width % TileSize == 0 && height % TileSize == 0
    ensures |ids| == (width / TileSize) * (height / TileSize)
  {
    InternAll(TileSeed(), GridKeys(image, mask, width, height)).1
  }

  /**
   * What follows the size checks: the capacity check, then the two tilesets
   * (visual and mask) and the two streams of the layer.
   */
  ghost function Assemble(image: seq<byte>, mask: seq<byte>, width: nat, height: nat): Result<Output>
    requires Decoded(image, width, height) && Decoded(mask, width, height)
    requires width % TileSize == 0 && height % TileSize == 0
  {
    var d := TileDictionary(image, mask, width, height);
    if |d| > MaxTiles then Err(TooManyTiles)
    else
      var layer := Grid(CellIndices(image, mask, width, height), width / TileSize, height / TileSize);
      var padded := PadLayer(layer, RoundedWidth(width / TileSize));
      Ok(Output(TilesetImage(Ordered(d), 0, TilesetHeight(|d|)), TilesetImage(Ordered(d), 1, TilesetHeight(|d|)),
                TilesetHeight(|d|) * TileSize, Stream3(padded), Stream4(padded)))
  }

  /**
   * What the conversion produces for two decoded images: the first failing
   * check, or the two tilesets and the two streams.
   */
  ghost function Convert(image0: seq<byte>, width0: nat, height0: nat, image1: seq<byte>, width1: nat, height1: nat): Result<Output>
    requires Decoded(image0, width0, height0) && Decoded(image1, width1, height1)
  {
    var failure0 := CheckSize(false, 0, 0, width0, height0);
    var failure1 := CheckSize(true, width0, height0, width1, height1);
    if failure0.Some? then Err(failure0.value)
    else if failure1.Some? then Err(failure1.value)
    else
      CheckSizeIff(false, 0, 0, width0, height0);
      CheckSizeIff(true, width0, height0, width1, height1);
      Assemble(image0, Binarized(image1), width0, height0)
  }

  /**
   * `main` after the argument check and between decoding and encoding:
   * both images are checked and sliced, the mask is binarised, and the
   * outputs are assembled.
   */
  method Run(image0: seq<byte>, width0: nat, height0: nat, image1: seq<byte>, width1: nat, height1: nat)
      returns (result: Result<Output>)
    requires Decoded(image0, width0, height0) && Decoded(image1, width1, height1)
    ensures result == Convert(image0, width0, height0, image1, width1, height1)
  {
    var first := new ImageFile(false, 0, 0);
    var failure := first.GetTileList(image0, width0, height0);
    if failure.Some? {
      return Err(failure.value);
    }
    var second := new ImageFile(true, first.width, first.height);
    failure := second.GetTileList(image1, width1, height1);
    if failure.Some? {
      return Err(failure.value);
    }
    CheckSizeIff(false, 0, 0, width0, height0);
    CheckSizeIff(true, width0, height0, width1, height1);
    second.Binarize();
    result := AssembleOutputs(first, second);
  }

  /**
   * The part of `main` after binarising the mask: the layer is allocated
   * and deduplicated, the capacity is checked, both tilesets are composed
   * and the streams are produced.
   */
  method AssembleOutputs(first: ImageFile, second: ImageFile) returns (result: Result<Output>)
    requires first != second
    requires Decoded(first.buffer, first.width, first.height) && Decoded(second.buffer, first.width, first.height)
    requires first.width % TileSize == 0 && first.height % TileSize == 0
    requires first.tiles == second.tiles == TileList(ImageRows(0, first.width, first.height), TileSize)
    modifies first`tilesIt, second`tilesIt
    ensures result == Assemble(first.buffer, second.buffer, first.width, first.height)
  {
    TileListWithin(first.buffer, first.width, first.height);
    TileListWithin(second.buffer, first.width, first.height);
    assert FragmentWidth(ImageRows(0, first.width, first.height)) == first.width;
    var level := new Level(first.width / TileSize, first.height / TileSize);
    var tileDictionary := Deduplicate(level, first, second);
    ghost var keys := GridKeys(first.buffer, second.buffer, first.width, first.height);
    TileDictionaryFacts(keys);
    var tileCount := |tileDictionary|;
    if tileCount > MaxTiles {
      return Err(TooManyTiles);
    }
    var tileset0 := ComposeTileset(tileDictionary, 0);
    var tileset1 := ComposeTileset(tileDictionary, 1);
    var stream3, stream4 := level.WriteDataStreams();
    result := Ok(Output(tileset0, tileset1, TilesetHeight(tileCount) * TileSize, stream3, stream4));
  }
}
