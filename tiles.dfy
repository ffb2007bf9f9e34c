/**
 * Model of PicToLev/include/tiles.h.
 *
 * A `gsl::span` is a view into a pixel buffer, modelled by its offset and
 * length in that buffer (Span); nothing is copied. An image fragment is a
 * sequence of row views, and a tile is an image fragment of `tileSize` rows of
 * `tileSize` samples each.
 */
module Tiles {

  import opened Arithmetic

  /** `gsl::span<T>`: `length` samples of the owning buffer, starting at `offset`. */
  datatype Span = Span(offset: nat, length: nat)

  /** `span.subspan(offset, count)`; gsl terminates the program when it is out of range. */
  function Subspan(s: Span, offset: nat, count: nat): (r: Span)
    requires offset + count <= s.length
    ensures s.offset <= r.offset && r.length == count
    ensures r.offset + r.length <= s.offset + s.length
  {
    Span(s.offset + offset, count)
  }

  /** `span.subspan(offset)`: everything from `offset` on. */
  function SubspanFrom(s: Span, offset: nat): (r: Span)
    requires offset <= s.length
    ensures r.length == s.length - offset
    ensures r.offset + r.length == s.offset + s.length
  {
    Span(s.offset + offset, s.length - offset)
  }

  /** The samples a view shows. */
  function Samples(buffer: seq<byte>, s: Span): (samples: seq<byte>)
    requires s.offset + s.length <= |buffer|
    ensures |samples| == s.length
    ensures forall c :: 0 <= c < s.length ==> samples[c] == buffer[s.offset + c]
  {
    buffer[s.offset..s.offset + s.length]
  }

  ghost predicate ViewsWithin(buffer: seq<byte>, fragment: seq<Span>)
  {
    forall y :: 0 <= y < |fragment| ==> fragment[y].offset + fragment[y].length <= |buffer|
  }

  /** The samples a tile (or any image fragment) shows, row by row. */
  function FragmentSamples(buffer: seq<byte>, fragment: seq<Span>): (rows: seq<seq<byte>>)
    requires ViewsWithin(buffer, fragment)
    ensures |rows| == |fragment|
    ensures forall y :: 0 <= y < |fragment| ==> rows[y] == Samples(buffer, fragment[y])
  {
    seq(|fragment|, y requires 0 <= y < |fragment| => Samples(buffer, fragment[y]))
  }

  /**
   * `buffer_to_image`: `height` rows of `width` samples cut one after another
   * from the front of `buffer`. The generator lambda owns a copy of the span
   * and shrinks it by one row per call.
   */
  method BufferToImage(buffer: Span, width: nat, height: nat) returns (image: seq<Span>)
    requires width * height <= buffer.length
    ensures |image| == height
    ensures forall r :: 0 <= r < height ==> image[r] == Span(buffer.offset + r * width, width)
  {
    var rows := new Span[height];
    var rest := buffer;
    var i := 0;
    while i < height
      invariant 0 <= i <= height
      invariant i * width <= buffer.length
      invariant rest == Span(buffer.offset + i * width, buffer.length - i * width)
      invariant forall r :: 0 <= r < i ==> rows[r] == Span(buffer.offset + r * width, width)
    {
      MulMono(width, i + 1, height);
      assert width * (i + 1) == i * width + width;
      var row := Subspan(rest, 0, width);
      rest := SubspanFrom(rest, width);
      rows[i] := row;
      i := i + 1;
    }
    image := rows[..];
  }

  /** The rows `buffer_to_image` cuts from a buffer that starts at `offset`: row r begins `r * width` samples in. */
  function ImageRows(offset: nat, width: nat, height: nat): (image: seq<Span>)
    ensures |image| == height
    ensures forall r :: 0 <= r < height ==> image[r].length == width
  {
    seq(height, r requires 0 <= r < height => Span(offset + r * width, width))
  }

  /** BufferToImage returns exactly the rows ImageRows describes. */
  lemma BufferToImageRows(buffer: Span, width: nat, height: nat, image: seq<Span>)
    requires |image| == height
    requires forall r :: 0 <= r < height ==> image[r] == Span(buffer.offset + r * width, width)
    ensures image == ImageRows(buffer.offset, width, height)
  {
  }

  /** The row length of an image fragment, read from its first row (0 when it has none). */
  function FragmentWidth(image: seq<Span>): nat
  {
    if |image| == 0 then 0 else image[0].length
  }

  /**
   * Tile (ty, tx) of an image: the `tileSize` rows starting at image row
   * `ty * tileSize`, each narrowed to columns `[tx * tileSize, tx * tileSize + tileSize)`.
   */
  function TileAt(image: seq<Span>, tileSize: nat, ty: nat, tx: nat): (tile: seq<Span>)
    requires (ty + 1) * tileSize <= |image|
    ensures |tile| == tileSize
    ensures forall y :: 0 <= y < tileSize ==>
      tile[y] == Span(image[ty * tileSize + y].offset + tx * tileSize, tileSize)
  {
    seq(tileSize, y requires 0 <= y < tileSize => Span(image[ty * tileSize + y].offset + tx * tileSize, tileSize))
  }

  lemma TileRowsInImage(rows: nat, tileSize: nat, ty: nat)
    requires tileSize > 0 && rows % tileSize == 0 && ty < rows / tileSize
    ensures (ty + 1) * tileSize <= rows
  {
    MulMono(tileSize, ty + 1, rows / tileSize);
  }

  /** The first `n` entries of `tiles` are the tiles of `image`, `width` tiles to a band, in row-major order. */
  ghost predicate RowMajorTiles(image: seq<Span>, tileSize: nat, width: nat, tiles: seq<seq<Span>>, n: nat)
  {
    && n <= |tiles|
    && forall t :: 0 <= t < n ==>
         && width > 0
         && (t / width + 1) * tileSize <= |image|
         && tiles[t] == TileAt(image, tileSize, t / width, t % width)
  }

  /** Position t of a row-major grid `width` cells wide and `height` cells tall lies in band `t / width < height`. */
  lemma RowMajorCell(t: nat, width: nat, height: nat)
    requires t < width * height
    ensures width > 0 && t / width < height
  {
    if t / width >= height {
      MulMono(width, height, t / width);
      assert false;
    }
  }

  /** The tile list of an image: `width` tiles to a band, bands top to bottom. */
  function TileList(image: seq<Span>, tileSize: nat): (tiles: seq<seq<Span>>)
    requires tileSize > 0 && |image| % tileSize == 0
    ensures |tiles| == (FragmentWidth(image) / tileSize) * (|image| / tileSize)
  {
    var count := (FragmentWidth(image) / tileSize) * (|image| / tileSize);
    seq(count, t requires 0 <= t < count => CellTile(image, tileSize, t))
  }

  /** Entry t of the tile list: the tile in band `t / width`, column `t % width`. */
  function CellTile(image: seq<Span>, tileSize: nat, t: nat): (tile: seq<Span>)
    requires tileSize > 0 && |image| % tileSize == 0
    requires t < (FragmentWidth(image) / tileSize) * (|image| / tileSize)
    ensures FragmentWidth(image) / tileSize > 0
    ensures (t / (FragmentWidth(image) / tileSize) + 1) * tileSize <= |image|
    ensures tile == TileAt(image, tileSize, t / (FragmentWidth(image) / tileSize), t % (FragmentWidth(image) / tileSize))
  {
    var width := FragmentWidth(image) / tileSize;
    var height := |image| / tileSize;
    RowMajorCell(t, width, height);
    TileRowsInImage(|image|, tileSize, t / width);
    TileAt(image, tileSize, t / width, t % width)
  }

  /** A list of the right length holding the tiles in row-major order is the tile list. */
  lemma RowMajorTilesUnique(image: seq<Span>, tileSize: nat, tiles: seq<seq<Span>>)
    requires tileSize > 0 && |image| % tileSize == 0
    requires |tiles| == (FragmentWidth(image) / tileSize) * (|image| / tileSize)
    requires RowMajorTiles(image, tileSize, FragmentWidth(image) / tileSize, tiles, |tiles|)
    ensures tiles == TileList(image, tileSize)
  {
    var list := TileList(image, tileSize);
    var width := FragmentWidth(image) / tileSize;
    forall t | 0 <= t < |tiles| ensures tiles[t] == list[t] {
      assert tiles[t] == TileAt(image, tileSize, t / width, t % width);
    }
  }

  /**
   * `image_to_tile_list`: walks bands of `tileSize` rows top to bottom and, in
   * each band, columns left to right in steps of `tileSize`, writing one tile
   * per step into a preallocated vector. The loops stop on `!=`, so the image
   * height and the row length must be multiples of `tileSize`, and every row
   * must have the first row's length.
   */
  method ImageToTileList(image: seq<Span>, tileSize: nat) returns (tiles: seq<seq<Span>>)
    requires tileSize > 0
    requires |image| % tileSize == 0
    requires FragmentWidth(image) % tileSize == 0
    requires forall r :: 0 <= r < |image| ==> image[r].length == FragmentWidth(image)
    ensures |tiles| == (FragmentWidth(image) / tileSize) * (|image| / tileSize)
    ensures RowMajorTiles(image, tileSize, FragmentWidth(image) / tileSize, tiles, |tiles|)
  {
    var height := |image| / tileSize;
    var width := FragmentWidth(image) / tileSize;
    assert |image| == height * tileSize by { DivExact(|image|, tileSize); }
    assert FragmentWidth(image) == width * tileSize by { DivExact(FragmentWidth(image), tileSize); }
    var out := new seq<Span>[width * height];
    var first := 0;
    var o := 0;
    ghost var ty := 0;
    while first != |image|
      invariant ty <= height && first == ty * tileSize && o == ty * width
      invariant RowMajorTiles(image, tileSize, width, out[..], o)
      decreases height - ty
    {
      assert ty < height;
      assert (ty + 1) * tileSize <= |image| by { TileRowsInImage(|image|, tileSize, ty); }
      var second := first + tileSize;
      CutBand(image, tileSize, width, height, out, first, o, ty);
      o := o + width;
      assert first + tileSize == (ty + 1) * tileSize;
      assert o == (ty + 1) * width;
      first := second;
      ty := ty + 1;
    }
    assert o == width * height;
    tiles := out[..];
  }

  /**
   * One pass of the inner loop of `image_to_tile_list`: the band of rows
   * `[first, first + tileSize)` is cut into `width` tiles, left to right,
   * written from position `o` on.
   */
  method CutBand(image: seq<Span>, tileSize: nat, width: nat, height: nat, out: array<seq<Span>>, first: nat, o: nat, ghost ty: nat)
    requires tileSize > 0 && out.Length == width * height
    requires forall r :: 0 <= r < |image| ==> image[r].length == width * tileSize
    requires ty < height && first == ty * tileSize && (ty + 1) * tileSize <= |image| && o == ty * width
    requires RowMajorTiles(image, tileSize, width, out[..], o)
    modifies out
    ensures RowMajorTiles(image, tileSize, width, out[..], o + width)
    ensures forall i :: o + width <= i < out.Length ==> out[i] == old(out[i])
  {
    var x := 0;
    var o := o;
    ghost var tx := 0;
    while x != image[first].length
      invariant tx <= width && x == tx * tileSize && o == ty * width + tx
      invariant RowMajorTiles(image, tileSize, width, out[..], o)
      invariant forall i :: o <= i < out.Length ==> out[i] == old(out[i])
      decreases width - tx
    {
      ColumnStep(tileSize, width, height, ty, tx);
      CutTile(image, tileSize, width, out, first, x, o, ty, tx);
      o := o + 1;
      x := x + tileSize;
      tx := tx + 1;
    }
    MulCancel(tx, width, tileSize);
  }

  /** The arithmetic of one column step: a column short of the band's end lies inside the grid. */
  lemma ColumnStep(tileSize: nat, width: nat, height: nat, ty: nat, tx: nat)
    requires tileSize > 0 && ty < height && tx <= width && tx * tileSize != width * tileSize
    ensures tx < width && ty * width + tx < width * height
    ensures tx * tileSize + tileSize == (tx + 1) * tileSize
  {
    if tx == width {
      assert false;
    }
    RowMajorBound(ty, tx, width, height);
  }

  /** The body of the inner loop of `image_to_tile_list`: the tile at column x of the band is written at position o. */
  method CutTile(image: seq<Span>, tileSize: nat, width: nat, out: array<seq<Span>>, first: nat, x: nat, o: nat,
                 ghost ty: nat, ghost tx: nat)
    requires tx < width && first == ty * tileSize && x == tx * tileSize && (ty + 1) * tileSize <= |image|
    requires o == ty * width + tx && o < out.Length
    requires RowMajorTiles(image, tileSize, width, out[..], o)
    modifies out
    ensures RowMajorTiles(image, tileSize, width, out[..], o + 1)
    ensures forall i :: 0 <= i < out.Length && i != o ==> out[i] == old(out[i])
  {
    var tile := seq(tileSize, k requires 0 <= k < tileSize => Span(image[first + k].offset + x, tileSize));
    assert tile == TileAt(image, tileSize, ty, tx);
    ghost var before := out[..];
    out[o] := tile;
    assert out[..] == before[o := tile];
    ExtendRowMajorTiles(image, tileSize, width, before, o, ty, tx);
  }

  lemma ExtendRowMajorTiles(image: seq<Span>, tileSize: nat, width: nat, tiles: seq<seq<Span>>, o: nat, ty: nat, tx: nat)
    requires RowMajorTiles(image, tileSize, width, tiles, o) && o < |tiles|
    requires tx < width && o == ty * width + tx && (ty + 1) * tileSize <= |image|
    ensures RowMajorTiles(image, tileSize, width, tiles[o := TileAt(image, tileSize, ty, tx)], o + 1)
  {
    DivUnique(o, width, ty, tx);
  }

  /** The same tiles, addressed by band and column. */
  lemma TileListByCoordinates(image: seq<Span>, tileSize: nat, tiles: seq<seq<Span>>, ty: nat, tx: nat)
    requires tileSize > 0
    requires |tiles| == (FragmentWidth(image) / tileSize) * (|image| / tileSize)
    requires RowMajorTiles(image, tileSize, FragmentWidth(image) / tileSize, tiles, |tiles|)
    requires ty < |image| / tileSize && tx < FragmentWidth(image) / tileSize
    ensures (ty + 1) * tileSize <= |image|
    ensures ty * (FragmentWidth(image) / tileSize) + tx < |tiles|
    ensures tiles[ty * (FragmentWidth(image) / tileSize) + tx] == TileAt(image, tileSize, ty, tx)
  {
    var width := FragmentWidth(image) / tileSize;
    var t := ty * width + tx;
    RowMajorBound(ty, tx, width, |image| / tileSize);
    DivUnique(t, width, ty, tx);
    assert (t / width + 1) * tileSize <= |image| && tiles[t] == TileAt(image, tileSize, t / width, t % width);
  }

  /**
   * Every view of a tile lies inside the image row it narrows:
   * `span(row.data() + x, tile_size)` for a column x short of the row's end.
   */
  lemma TileWithinRows(image: seq<Span>, tileSize: nat, ty: nat, tx: nat)
    requires (ty + 1) * tileSize <= |image|
    requires forall r :: 0 <= r < |image| ==> (tx + 1) * tileSize <= image[r].length
    ensures forall y :: 0 <= y < tileSize ==>
      && image[ty * tileSize + y].offset <= TileAt(image, tileSize, ty, tx)[y].offset
      && TileAt(image, tileSize, ty, tx)[y].offset + TileAt(image, tileSize, ty, tx)[y].length
         <= image[ty * tileSize + y].offset + image[ty * tileSize + y].length
  {
  }
}
