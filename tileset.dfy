/**
 * Model of the tileset compositor in PicToLev/src/main.cpp.
 *
 * Once every grid cell has been deduplicated, each member image gets an
 * output image ten tiles wide and just tall enough for all dictionary
 * entries. The output buffer starts out zero-filled; for every dictionary
 * entry the member image's tile is copied row by row into tile slot `id`,
 * found with the same buffer_to_image / image_to_tile_list slicing the inputs
 * went through.
 */
module Tileset {

  import opened Arithmetic
  import opened Tiles
  import opened Dictionary

  const ImageCount: nat := 2
  const TileSize: nat := 32
  const TilesetWidth: nat := 10
  /** `tileset_width * tileset_tile_size` */
  const TilesetImageWidth: nat := 320

  /** The content of a composite tile: per member image, `TileSize` rows of `TileSize` samples. */
  type Composite = seq<seq<seq<byte>>>

  ghost predicate Shaped(c: Composite)
  {
    && |c| == ImageCount
    && (forall i :: 0 <= i < ImageCount ==> |c[i]| == TileSize)
    && (forall i, y :: 0 <= i < ImageCount && 0 <= y < TileSize ==> |c[i][y]| == TileSize)
  }

  /** Column x of row y of member image i's tile. */
  function Sample(c: Composite, i: nat, y: nat, x: nat): byte
    requires Shaped(c) && i < ImageCount && y < TileSize && x < TileSize
  {
    c[i][y][x]
  }

  /** `(tile_count - 1) / tileset_width + 1`: the number of tile rows of the tileset. */
  function TilesetHeight(tileCount: nat): nat
    requires tileCount >= 1
  {
    (tileCount - 1) / TilesetWidth + 1
  }

  /** The tileset height is the least number of rows of ten slots that holds every tile. */
  lemma TilesetHeightIsCeiling(tileCount: nat, rows: nat)
    requires tileCount >= 1
    ensures (TilesetHeight(tileCount) - 1) * TilesetWidth < tileCount <= TilesetHeight(tileCount) * TilesetWidth
    ensures tileCount <= rows * TilesetWidth ==> TilesetHeight(tileCount) <= rows
  {
  }

  /**
   * The position in the output buffer of column x of row y of tile slot s:
   * slot s is tile row `s / 10`, tile column `s % 10`.
   */
  function SlotOffset(s: nat, y: nat, x: nat): nat
  {
    ((s / TilesetWidth) * TileSize + y) * TilesetImageWidth + (s % TilesetWidth) * TileSize + x
  }

  /** Reading a buffer position back as image row and column, then as slot, tile row and tile column, inverts SlotOffset. */
  lemma SlotOffsetDecomposes(s: nat, y: nat, x: nat)
    requires y < TileSize && x < TileSize
    ensures var p := SlotOffset(s, y, x);
      && p / TilesetImageWidth == (s / TilesetWidth) * TileSize + y
      && p % TilesetImageWidth == (s % TilesetWidth) * TileSize + x
      && (p / TilesetImageWidth) / TileSize * TilesetWidth + (p % TilesetImageWidth) / TileSize == s
      && (p / TilesetImageWidth) % TileSize == y
      && (p % TilesetImageWidth) % TileSize == x
  {
    var row := (s / TilesetWidth) * TileSize + y;
    var col := (s % TilesetWidth) * TileSize + x;
    DivUnique(SlotOffset(s, y, x), TilesetImageWidth, row, col);
    DivUnique(row, TileSize, s / TilesetWidth, y);
    DivUnique(col, TileSize, s % TilesetWidth, x);
  }

  /** Distinct (slot, row, column) triples occupy distinct buffer positions. */
  lemma SlotOffsetInjective(s: nat, y: nat, x: nat, s': nat, y': nat, x': nat)
    requires y < TileSize && x < TileSize && y' < TileSize && x' < TileSize
    requires SlotOffset(s, y, x) == SlotOffset(s', y', x')
    ensures s == s' && y == y' && x == x'
  {
    SlotOffsetDecomposes(s, y, x);
    SlotOffsetDecomposes(s', y', x');
  }

  /** Every position of a tileset `height` tile rows tall belongs to some slot, row and column. */
  lemma SlotOffsetCovers(p: nat, height: nat)
    requires p < TilesetImageWidth * TileSize * height
    ensures var row, col := p / TilesetImageWidth, p % TilesetImageWidth;
      var s := row / TileSize * TilesetWidth + col / TileSize;
      && s < TilesetWidth * height
      && p == SlotOffset(s, row % TileSize, col % TileSize)
  {
    var row, col := p / TilesetImageWidth, p % TilesetImageWidth;
    var s := row / TileSize * TilesetWidth + col / TileSize;
    DivUnique(s, TilesetWidth, row / TileSize, col / TileSize);
    RowMajorCell(row, TileSize, height);
  }

  /** Row y of slot s lies entirely inside a tileset that has s among its slots. */
  lemma SlotWithin(s: nat, y: nat, height: nat)
    requires s < TilesetWidth * height && y < TileSize
    ensures SlotOffset(s, y, 0) + TileSize <= TilesetImageWidth * TileSize * height
  {
  }

  /** The sample at position p of member image i's tileset: the sample of the slot's entry, or 0 past the last entry. */
  function TilesetSample(ordered: seq<Composite>, i: nat, p: nat): byte
    requires i < ImageCount && forall s :: 0 <= s < |ordered| ==> Shaped(ordered[s])
  {
    var row, col := p / TilesetImageWidth, p % TilesetImageWidth;
    var s := row / TileSize * TilesetWidth + col / TileSize;
    if s < |ordered| then Sample(ordered[s], i, row % TileSize, col % TileSize) else 0
  }

  /** The output image of member image i: 320 samples wide and `height * 32` rows tall. */
  function TilesetImage(ordered: seq<Composite>, i: nat, height: nat): (image: seq<byte>)
    requires i < ImageCount && forall s :: 0 <= s < |ordered| ==> Shaped(ordered[s])
    ensures |image| == TilesetImageWidth * TileSize * height
  {
    seq(TilesetImageWidth * TileSize * height, p requires 0 <= p < TilesetImageWidth * TileSize * height => TilesetSample(ordered, i, p))
  }

  /** Slot s of the tileset shows entry s, and the slots past the last entry are zero. */
  lemma TilesetAtSlot(ordered: seq<Composite>, i: nat, height: nat, s: nat, y: nat, x: nat)
    requires i < ImageCount && forall k :: 0 <= k < |ordered| ==> Shaped(ordered[k])
    requires s < TilesetWidth * height && y < TileSize && x < TileSize
    ensures SlotOffset(s, y, x) < |TilesetImage(ordered, i, height)|
    ensures TilesetImage(ordered, i, height)[SlotOffset(s, y, x)] == if s < |ordered| then Sample(ordered[s], i, y, x) else 0
  {
    SlotOffsetDecomposes(s, y, x);
    SlotWithin(s, y, height);
  }

  /** Entry `id` of the dictionary sits at tile row `id / 10`, tile column `id % 10` of every tileset. */
  lemma EntryPlacement(d: map<Composite, nat>, c: Composite, i: nat, y: nat, x: nat)
    requires Dense(d) && |d| >= 1 && c in d && i < ImageCount && y < TileSize && x < TileSize
    requires forall k :: k in d ==> Shaped(k)
    ensures Shaped(c)
    ensures var ordered, p := Ordered(d), ((d[c] / TilesetWidth) * TileSize + y) * TilesetImageWidth + (d[c] % TilesetWidth) * TileSize + x;
      p < |TilesetImage(ordered, i, TilesetHeight(|d|))| && TilesetImage(ordered, i, TilesetHeight(|d|))[p] == Sample(c, i, y, x)
  {
    OrderedAt(d, c);
    TilesetAtSlot(Ordered(d), i, TilesetHeight(|d|), d[c], y, x);
  }

  /**
   * `std::copy(it->begin(), it->end(), out->begin())`: the row's samples
   * overwrite the buffer from `start` on, nothing else changes.
   */
  method CopyRow(buffer: array<byte>, start: nat, row: seq<byte>)
    requires start + |row| <= buffer.Length
    modifies buffer
    ensures forall j :: 0 <= j < buffer.Length ==>
      buffer[j] == if start <= j < start + |row| then row[j - start] else old(buffer[j])
  {
    forall j | start <= j < start + |row| {
      buffer[j] := row[j - start];
    }
  }

  /**
   * The loop over the rows of one entry: row y of the member tile `src` is
   * copied into row y of the destination tile, which is tile slot `slot`.
   */
  method CopyTile(buffer: array<byte>, dest: seq<Span>, src: seq<seq<byte>>, ghost slot: nat, ghost height: nat)
    requires buffer.Length == TilesetImageWidth * TileSize * height && slot < TilesetWidth * height
    requires |dest| == TileSize && |src| == TileSize
    requires forall y :: 0 <= y < TileSize ==> |src[y]| == TileSize && dest[y].offset == SlotOffset(slot, y, 0)
    modifies buffer
    ensures SlotsCopied(old(buffer[..]), buffer[..], src, slot, height, TileSize)
  {
    var y := 0;
    NothingCopied(buffer[..], src, slot, height);
    while y != |src|
      invariant y <= TileSize
      invariant SlotsCopied(old(buffer[..]), buffer[..], src, slot, height, y)
    {
      SlotWithin(slot, y, height);
      ghost var before := buffer[..];
      CopyRow(buffer, dest[y].offset, src[y]);
      RowCopied(old(buffer[..]), before, buffer[..], src, slot, height, y);
      y := y + 1;
    }
  }

  /**
   * `after` is `before` with rows `[0, rows)` of slot `slot` overwritten by
   * the rows of `src`; every other (slot, row, column) keeps its sample.
   */
  ghost predicate SlotsCopied(before: seq<byte>, after: seq<byte>, src: seq<seq<byte>>, slot: nat, height: nat, rows: nat)
  {
    && |before| == |after| == TilesetImageWidth * TileSize * height
    && rows <= |src|
    && forall s, y, x :: 0 <= s < TilesetWidth * height && 0 <= y < TileSize && 0 <= x < TileSize ==>
         && SlotOffset(s, y, x) < |after|
         && after[SlotOffset(s, y, x)] ==
              if s == slot && y < rows && x < |src[y]| then src[y][x] else before[SlotOffset(s, y, x)]
  }

  lemma NothingCopied(buffer: seq<byte>, src: seq<seq<byte>>, slot: nat, height: nat)
    requires |buffer| == TilesetImageWidth * TileSize * height
    ensures SlotsCopied(buffer, buffer, src, slot, height, 0)
  {
    forall s, y, x | 0 <= s < TilesetWidth * height && 0 <= y < TileSize && 0 <= x < TileSize
      ensures SlotOffset(s, y, x) < |buffer|
    {
      SlotWithin(s, y, height);
    }
  }

  /** Copying row y of the tile into its place extends the copied rows by one. */
  lemma RowCopied(original: seq<byte>, before: seq<byte>, after: seq<byte>, src: seq<seq<byte>>, slot: nat, height: nat, y: nat)
    requires y < |src| == TileSize && |src[y]| == TileSize && slot < TilesetWidth * height
    requires SlotsCopied(original, before, src, slot, height, y)
    requires |after| == |before|
    requires forall j :: 0 <= j < |after| ==>
      after[j] == if SlotOffset(slot, y, 0) <= j < SlotOffset(slot, y, 0) + |src[y]| then src[y][j - SlotOffset(slot, y, 0)] else before[j]
    ensures SlotsCopied(original, after, src, slot, height, y + 1)
  {
    var start := SlotOffset(slot, y, 0);
    forall s, y', x | 0 <= s < TilesetWidth * height && 0 <= y' < TileSize && 0 <= x < TileSize
      ensures SlotOffset(s, y', x) < |after|
      ensures after[SlotOffset(s, y', x)] ==
        if s == slot && y' < y + 1 && x < |src[y']| then src[y'][x] else original[SlotOffset(s, y', x)]
    {
      SlotWithin(s, y', height);
      var p := SlotOffset(s, y', x);
      if start <= p < start + TileSize {
        SlotOffsetInjective(s, y', x, slot, y, p - start);
      } else if s == slot && y' == y {
        assert false;
      }
    }
  }

  /**
   * The samples of a buffer are those of the tileset exactly when every
   * (slot, row, column) triple shows the sample the tileset has there.
   */
  lemma TilesetFromSlots(buffer: seq<byte>, ordered: seq<Composite>, i: nat, height: nat)
    requires i < ImageCount && forall k :: 0 <= k < |ordered| ==> Shaped(ordered[k])
    requires |buffer| == TilesetImageWidth * TileSize * height
    requires forall s, y, x :: 0 <= s < TilesetWidth * height && 0 <= y < TileSize && 0 <= x < TileSize ==>
      SlotOffset(s, y, x) < |buffer| &&
      buffer[SlotOffset(s, y, x)] == if s < |ordered| then Sample(ordered[s], i, y, x) else 0
    ensures buffer == TilesetImage(ordered, i, height)
  {
    forall p | 0 <= p < |buffer| ensures buffer[p] == TilesetImage(ordered, i, height)[p] {
      SlotOffsetCovers(p, height);
    }
  }

  /**
   * `output.buffer.assign(width * height, 0)` followed by buffer_to_image and
   * image_to_tile_list: a zero-filled buffer and its tiles, ten to a band.
   */
  method ZeroedTileset(height: nat) returns (output: array<byte>, tiles: seq<seq<Span>>)
    requires height >= 1
    ensures fresh(output) && output.Length == TilesetImageWidth * TileSize * height
    ensures forall p :: 0 <= p < output.Length ==> output[p] == 0
    ensures |tiles| == TilesetWidth * height
    ensures forall s :: 0 <= s < TilesetWidth * height ==> |tiles[s]| == TileSize
    ensures forall s, y :: 0 <= s < TilesetWidth * height && 0 <= y < TileSize ==> tiles[s][y].offset == SlotOffset(s, y, 0)
  {
    var imageHeight := height * TileSize;
    output := new byte[TilesetImageWidth * imageHeight];
    forall p | 0 <= p < output.Length {
      output[p] := 0;
    }
    var image := BufferToImage(Span(0, output.Length), TilesetImageWidth, imageHeight);
    tiles := ImageToTileList(image, TileSize);
    assert FragmentWidth(image) / TileSize == TilesetWidth;
    forall s | 0 <= s < TilesetWidth * height
      ensures |tiles[s]| == TileSize && forall y :: 0 <= y < TileSize ==> tiles[s][y].offset == SlotOffset(s, y, 0)
    {
      assert tiles[s] == TileAt(image, TileSize, s / TilesetWidth, s % TilesetWidth);
    }
  }

  /**
   * The placement loop for member image i: every dictionary entry, visited in
   * whatever order the map yields them, is copied into the slot of its id.
   */
  method PlaceEntries(output: array<byte>, tiles: seq<seq<Span>>, d: map<Composite, nat>, i: nat, ghost height: nat)
    requires Dense(d) && i < ImageCount && |d| <= TilesetWidth * height
    requires forall c :: c in d ==> Shaped(c)
    requires output.Length == TilesetImageWidth * TileSize * height
    requires forall p :: 0 <= p < output.Length ==> output[p] == 0
    requires |tiles| == TilesetWidth * height
    requires forall s :: 0 <= s < TilesetWidth * height ==> |tiles[s]| == TileSize
    requires forall s, y :: 0 <= s < TilesetWidth * height && 0 <= y < TileSize ==> tiles[s][y].offset == SlotOffset(s, y, 0)
    modifies output
    ensures forall s, y, x :: 0 <= s < TilesetWidth * height && 0 <= y < TileSize && 0 <= x < TileSize ==>
      SlotOffset(s, y, x) < output.Length &&
      output[SlotOffset(s, y, x)] == if s < |d| then Sample(Ordered(d)[s], i, y, x) else 0
  {
    ghost var ordered := Ordered(d);
    var rest := d.Keys;
    forall s, y, x | 0 <= s < TilesetWidth * height && 0 <= y < TileSize && 0 <= x < TileSize
      ensures SlotOffset(s, y, x) < output.Length && output[SlotOffset(s, y, x)] == 0
    {
      SlotWithin(s, y, height);
    }
    while rest != {}
      invariant rest <= d.Keys
      invariant forall s, y, x :: 0 <= s < TilesetWidth * height && 0 <= y < TileSize && 0 <= x < TileSize ==>
        SlotOffset(s, y, x) < output.Length &&
        output[SlotOffset(s, y, x)] == if s < |d| && ordered[s] !in rest then Sample(ordered[s], i, y, x) else 0
      decreases rest
    {
      var content :| content in rest;
      var id := d[content];
      OrderedAt(d, content);
      assert Shaped(content);
      ghost var before := output[..];
      CopyTile(output, tiles[id], content[i], id, height);
      rest := rest - {content};
    }
  }

  /**
   * The compositor for member image i: the zero-filled output is sliced into
   * tiles and the dictionary entries are placed. The result is the same for
   * every order in which the map yields its entries.
   */
  method ComposeTileset(d: map<Composite, nat>, i: nat) returns (buffer: seq<byte>)
    requires Dense(d) && |d| >= 1 && i < ImageCount
    requires forall c :: c in d ==> Shaped(c)
    ensures buffer == TilesetImage(Ordered(d), i, TilesetHeight(|d|))
  {
    var height := TilesetHeight(|d|);
    var output, tiles := ZeroedTileset(height);
    PlaceEntries(output, tiles, d, i, height);
    buffer := output[..];
    TilesetFromSlots(buffer, Ordered(d), i, height);
  }
}
