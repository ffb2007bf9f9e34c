/**
 * Model of `write_data_streams` in PicToLev/src/main.cpp.
 *
 * Every row of the level layer is padded with zeros to a whole number of
 * words of four tile indices and cut into words. The words are interned in a
 * dictionary seeded with the all-zero word at index 0. Stream3 holds the
 * dictionary in index order, Stream4 the index of every word of the layer,
 * each value as a little-endian 16-bit integer.
 */
module DataStreams {

  import opened Arithmetic
  import opened BinarySerialization
  import opened Dictionary

  const WordSize: nat := 4

  /** `(layer_width - 1) / word_size + 1`: the number of words per layer row. */
  function ReducedWidth(layerWidth: nat): nat
    requires layerWidth >= 1
  {
    (layerWidth - 1) / WordSize + 1
  }

  /** `reduced_width * word_size`: the padded length of a layer row. */
  function RoundedWidth(layerWidth: nat): nat
    requires layerWidth >= 1
  {
    ReducedWidth(layerWidth) * WordSize
  }

  /** The padded row length is the least multiple of the word size that is at least the layer width. */
  lemma RoundedWidthIsLeastMultiple(layerWidth: nat, m: nat)
    requires layerWidth >= 1
    ensures RoundedWidth(layerWidth) % WordSize == 0
    ensures layerWidth <= RoundedWidth(layerWidth) < layerWidth + WordSize
    ensures m % WordSize == 0 && layerWidth <= m ==> RoundedWidth(layerWidth) <= m
  {
  }

  function Zeros(n: nat): (z: seq<nat>)
    ensures |z| == n && forall i :: 0 <= i < n ==> z[i] == 0
  {
    seq(n, _ => 0)
  }

  /** `std::vector::resize(n)`: truncate, or append value-initialised (zero) elements. */
  function Resize(row: seq<nat>, n: nat): (r: seq<nat>)
    ensures |r| == n
  {
    if n <= |row| then row[..n] else row + Zeros(n - |row|)
  }

  /** Growing a row keeps its cells and appends zeros. */
  lemma ResizeGrows(row: seq<nat>, n: nat, i: nat)
    requires |row| <= n && i < n
    ensures Resize(row, n)[i] == if i < |row| then row[i] else 0
  {
  }

  /** The layer after the loop has resized every row. */
  function PadLayer(layer: seq<seq<nat>>, roundedWidth: nat): (padded: seq<seq<nat>>)
    ensures |padded| == |layer|
  {
    seq(|layer|, r requires 0 <= r < |layer| => Resize(layer[r], roundedWidth))
  }

  /** The words of one padded row, left to right. */
  function Chunks(row: seq<nat>): seq<seq<nat>>
  {
    seq(|row| / WordSize, j requires 0 <= j < |row| / WordSize => row[WordSize * j..WordSize * j + WordSize])
  }

  /** The words of the layer in the order the loop visits them: row by row, left to right. */
  function WordKeys(rows: seq<seq<nat>>): seq<seq<nat>>
    decreases |rows|
  {
    if rows == [] then [] else WordKeys(rows[..|rows| - 1]) + Chunks(rows[|rows| - 1])
  }

  /** Concatenation of a sequence of sequences. */
  function Flatten<T>(xs: seq<seq<T>>): seq<T>
    decreases |xs|
  {
    if xs == [] then [] else Flatten(xs[..|xs| - 1]) + xs[|xs| - 1]
  }

  /** Rows of `width` words each give `width` words per row. */
  lemma {:induction false} WordKeysLength(rows: seq<seq<nat>>, width: nat)
    requires forall k :: 0 <= k < |rows| ==> |rows[k]| == WordSize * width
    ensures |WordKeys(rows)| == |rows| * width
    decreases |rows|
  {
    if rows != [] {
      WordKeysLength(rows[..|rows| - 1], width);
      assert |rows| * width == (|rows| - 1) * width + width;
    }
  }

  /** Word `r * width + j` of the layer is cells `[4j, 4j + 4)` of row `r`. */
  lemma {:induction false} WordKeysAt(rows: seq<seq<nat>>, width: nat, r: nat, j: nat)
    requires forall k :: 0 <= k < |rows| ==> |rows[k]| == WordSize * width
    requires r < |rows| && j < width
    ensures r * width + j < |WordKeys(rows)|
    ensures WordKeys(rows)[r * width + j] == rows[r][WordSize * j..WordSize * j + WordSize]
    decreases |rows|
  {
    var n := |rows|;
    var init := rows[..n - 1];
    WordKeysLength(init, width);
    WordKeysLength(rows, width);
    assert WordKeys(rows) == WordKeys(init) + Chunks(rows[n - 1]);
    if r < n - 1 {
      WordKeysAt(init, width, r, j);
      assert rows[r] == init[r];
    } else {
      assert r * width == |WordKeys(init)|;
    }
  }

  /** `gsl::narrow_cast<std::uint16_t>`: the value modulo 2^16. */
  function Narrow16(v: nat): (r: nat)
    ensures r < 0x1_0000
  {
    v % 0x1_0000
  }

  /** The bytes of a sequence of values written as little-endian `uint16` one after the other. */
  function Stream16(values: seq<nat>): (bytes: seq<byte>)
    ensures |bytes| == 2 * |values|
    decreases |values|
  {
    if values == [] then []
    else Stream16(values[..|values| - 1]) + Encode(Narrow16(values[|values| - 1]), 2, Little)
  }

  /** Reading a stream back two bytes at a time. */
  function Decode16(bytes: seq<byte>): (values: seq<nat>)
    ensures |values| == |bytes| / 2
  {
    seq(|bytes| / 2, k requires 0 <= k < |bytes| / 2 => FromLittleEndian(bytes[2 * k..2 * k + 2]))
  }

  /** Bytes `[2k, 2k + 2)` of the stream are the encoding of value k. */
  lemma {:induction false} Stream16At(values: seq<nat>, k: nat)
    requires k < |values|
    ensures Stream16(values)[2 * k..2 * k + 2] == Encode(Narrow16(values[k]), 2, Little)
    decreases |values|
  {
    var init := values[..|values| - 1];
    if k < |init| {
      Stream16At(init, k);
      assert Stream16(values)[2 * k..2 * k + 2] == Stream16(init)[2 * k..2 * k + 2];
    }
  }

  /** Decoding a stream gives back every value modulo 2^16, in order. */
  lemma Stream16RoundTrip(values: seq<nat>)
    ensures Decode16(Stream16(values)) == seq(|values|, k requires 0 <= k < |values| => Narrow16(values[k]))
  {
    var bytes := Stream16(values);
    forall k | 0 <= k < |values|
      ensures Decode16(bytes)[k] == Narrow16(values[k])
    {
      Stream16At(values, k);
      assert Pow256(2) == 0x1_0000;
      LittleEndianRoundTrip(Narrow16(values[k]), 2);
      DivUnique(Narrow16(values[k]), 0x1_0000, 0, Narrow16(values[k]));
    }
  }

  /** Appending a value to a stream appends its two bytes. */
  lemma Stream16Snoc(values: seq<nat>, v: nat)
    ensures Stream16(values + [v]) == Stream16(values) + Encode(Narrow16(v), 2, Little)
  {
    assert (values + [v])[..|values|] == values;
  }

  /** The stream of one more element of `values` appends that element's two bytes. */
  lemma Stream16Prefix(values: seq<nat>, m: nat)
    requires m < |values|
    ensures Stream16(values[..m + 1]) == Stream16(values[..m]) + Encode(Narrow16(values[m]), 2, Little)
  {
    Stream16Snoc(values[..m], values[m]);
    assert values[..m + 1] == values[..m] + [values[m]];
  }

  /** The stream of two value sequences is the concatenation of their streams. */
  lemma {:induction false} Stream16Append(values: seq<nat>, more: seq<nat>)
    ensures Stream16(values + more) == Stream16(values) + Stream16(more)
    decreases |more|
  {
    if more == [] {
      assert values + more == values;
    } else {
      var init := more[..|more| - 1];
      Stream16Append(values, init);
      assert (values + more)[..|values + more| - 1] == values + init;
    }
  }

  lemma FlattenSnoc<T>(xs: seq<seq<T>>, x: seq<T>)
    ensures Flatten(xs + [x]) == Flatten(xs) + x
  {
    assert (xs + [x])[..|xs|] == xs;
  }

  /** A word dictionary of 4-index words flattens to four values per entry. */
  lemma {:induction false} FlattenLength(xs: seq<seq<nat>>)
    requires forall k :: 0 <= k < |xs| ==> |xs[k]| == WordSize
    ensures |Flatten(xs)| == WordSize * |xs|
    decreases |xs|
  {
    if xs != [] {
      FlattenLength(xs[..|xs| - 1]);
    }
  }

  /** The seed of the word dictionary: `{std::vector<unsigned>(word_size, 0), 0}`. */
  function WordSeed(): map<seq<nat>, nat>
  {
    map[Zeros(WordSize) := 0]
  }

  /** The word dictionary after the loop over the (padded) layer. */
  ghost function WordDictionary(padded: seq<seq<nat>>): (d: map<seq<nat>, nat>)
    ensures Dense(d)
  {
    SeedDense(Zeros(WordSize));
    InternAllDense(WordSeed(), WordKeys(padded));
    InternAll(WordSeed(), WordKeys(padded)).0
  }

  /** The `words` vector after the loop: the dictionary index of every word, in order. */
  function WordIndices(padded: seq<seq<nat>>): seq<nat>
  {
    InternAll(WordSeed(), WordKeys(padded)).1
  }

  /** The bytes written to Stream3: every entry of the ordered dictionary, value by value. */
  ghost function Stream3(padded: seq<seq<nat>>): seq<byte>
  {
    Stream16(Flatten(Ordered(WordDictionary(padded))))
  }

  /** The bytes written to Stream4: the index of every word. */
  function Stream4(padded: seq<seq<nat>>): seq<byte>
  {
    Stream16(WordIndices(padded))
  }

  /** Padding makes every row `RoundedWidth` long, a whole number of words. */
  lemma PadLayerRows(layer: seq<seq<nat>>, layerWidth: nat)
    requires layerWidth >= 1
    ensures forall r :: 0 <= r < |layer| ==>
      |PadLayer(layer, RoundedWidth(layerWidth))[r]| == WordSize * ReducedWidth(layerWidth)
  {
  }

  /** Exactly `layer_height * reduced_width` word indices are produced. */
  lemma WordCount(layer: seq<seq<nat>>, layerWidth: nat)
    requires layerWidth >= 1
    ensures |WordIndices(PadLayer(layer, RoundedWidth(layerWidth)))| == |layer| * ReducedWidth(layerWidth)
  {
    PadLayerRows(layer, layerWidth);
    WordKeysLength(PadLayer(layer, RoundedWidth(layerWidth)), ReducedWidth(layerWidth));
  }

  /** The dictionary keeps its seed: the all-zero word has index 0. */
  lemma WordSeedKept(padded: seq<seq<nat>>)
    ensures Zeros(WordSize) in WordDictionary(padded) && WordDictionary(padded)[Zeros(WordSize)] == 0
  {
    SeedDense(Zeros(WordSize));
    InternAllDense(WordSeed(), WordKeys(padded));
  }

  /** Entry `words[k]` of the ordered dictionary is the k-th word of the padded layer. */
  lemma WordDictionaryLookup(padded: seq<seq<nat>>, k: nat)
    requires k < |WordKeys(padded)|
    ensures WordIndices(padded)[k] < |WordDictionary(padded)|
    ensures Ordered(WordDictionary(padded))[WordIndices(padded)[k]] == WordKeys(padded)[k]
  {
    InternAllLookup(WordSeed(), WordKeys(padded));
    OrderedAt(WordDictionary(padded), WordKeys(padded)[k]);
  }

  /** Two words of the layer get the same index exactly when they hold the same four tile indices. */
  lemma SameWordIndexIffSameWord(padded: seq<seq<nat>>, k: nat, l: nat)
    requires k < |WordKeys(padded)| && l < |WordKeys(padded)|
    ensures WordIndices(padded)[k] == WordIndices(padded)[l] <==> WordKeys(padded)[k] == WordKeys(padded)[l]
  {
    SeedDense(Zeros(WordSize));
    SameIndexIffSameKey(WordSeed(), WordKeys(padded), k, l);
  }

  /** Every word of a layer of whole-word rows holds four indices. */
  lemma {:induction false} WordKeysAreWords(rows: seq<seq<nat>>, w: seq<nat>)
    requires forall r :: 0 <= r < |rows| ==> |rows[r]| % WordSize == 0
    requires w in WordKeys(rows)
    ensures |w| == WordSize
    decreases |rows|
  {
    if rows != [] {
      var init := rows[..|rows| - 1];
      if w in WordKeys(init) {
        WordKeysAreWords(init, w);
      } else {
        assert w in Chunks(rows[|rows| - 1]);
      }
    }
  }

  /** Every entry of the word dictionary of a padded layer holds four tile indices. */
  lemma WordDictionaryEntries(padded: seq<seq<nat>>)
    requires forall r :: 0 <= r < |padded| ==> |padded[r]| % WordSize == 0
    ensures forall k :: 0 <= k < |WordDictionary(padded)| ==> |Ordered(WordDictionary(padded))[k]| == WordSize
  {
    var ordered := Ordered(WordDictionary(padded));
    InternAllKeys(WordSeed(), WordKeys(padded));
    forall k | 0 <= k < |ordered| ensures |ordered[k]| == WordSize {
      if ordered[k] != Zeros(WordSize) {
        WordKeysAreWords(padded, ordered[k]);
      }
    }
  }

  /** Stream3 holds 8 bytes per dictionary entry, Stream4 2 bytes per word of the layer. */
  lemma StreamLengths(layer: seq<seq<nat>>, layerWidth: nat)
    requires layerWidth >= 1
    ensures var padded := PadLayer(layer, RoundedWidth(layerWidth));
      && |Stream3(padded)| == 2 * (WordSize * |WordDictionary(padded)|)
      && |Stream4(padded)| == 2 * (|layer| * ReducedWidth(layerWidth))
  {
    var padded := PadLayer(layer, RoundedWidth(layerWidth));
    var d := WordDictionary(padded);
    PadLayerRows(layer, layerWidth);
    WordDictionaryEntries(padded);
    FlattenLength(Ordered(d));
    WordCount(layer, layerWidth);
  }

  /** The 2 x 1 example, first step: the layer row `[1, 1]` pads to `[1, 1, 0, 0]`. */
  lemma TwoByOnePadding()
    ensures PadLayer([[1, 1]], RoundedWidth(2)) == [[1, 1, 0, 0]]
  {
    assert PadLayer([[1, 1]], RoundedWidth(2))[0] == [1, 1, 0, 0];
  }

  /** The 2 x 1 example, second step: the dictionary becomes `{[0,0,0,0] -> 0, [1,1,0,0] -> 1}` and `words` is `[1]`. */
  lemma TwoByOneDictionary()
    ensures WordDictionary([[1, 1, 0, 0]]) == map[[0, 0, 0, 0] := 0, [1, 1, 0, 0] := 1]
    ensures WordIndices([[1, 1, 0, 0]]) == [1]
  {
    var row: seq<nat> := [1, 1, 0, 0];
    var zero: seq<nat> := [0, 0, 0, 0];
    assert Zeros(WordSize) == zero;
    assert row[0..4] == row;
    assert Chunks(row) == [row];
    assert [row][..0] == [];
    assert WordKeys([row]) == [row];
    assert |WordSeed()| == 1;
    var d := map[zero := 0, row := 1];
    assert WordSeed()[row := 1] == d;
    assert row[0] != zero[0];
    assert row !in WordSeed();
    assert Emplace(WordSeed(), row) == (d, 1);
    InternAllSnoc(WordSeed(), [], row);
    assert [] + [row] == [row];
    var none: seq<nat> := [];
    assert none + [1] == [1];
  }

  /** The 2 x 1 example: the dictionary in index order, flattened, is the zero word followed by `[1, 1, 0, 0]`. */
  lemma TwoByOneOrdered()
    ensures Flatten(Ordered(WordDictionary([[1, 1, 0, 0]]))) == [0, 0, 0, 0] + [1, 1, 0, 0]
  {
    TwoByOneDictionary();
    assert [0, 0, 0, 0][0] != [1, 1, 0, 0][0];
    FlattenOrderedOfTwo([[1, 1, 0, 0]], [0, 0, 0, 0], [1, 1, 0, 0]);
  }

  lemma FlattenOrderedOfTwo(padded: seq<seq<nat>>, a: seq<nat>, b: seq<nat>)
    requires a != b && WordDictionary(padded) == map[a := 0, b := 1]
    ensures Flatten(Ordered(WordDictionary(padded))) == a + b
  {
    OrderedOfTwo(WordDictionary(padded), a, b);
    FlattenTwo(a, b);
  }

  /** A dense dictionary of two keys, inverted. */
  lemma OrderedOfTwo<K>(d: map<K, nat>, a: K, b: K)
    requires a != b && d == map[a := 0, b := 1]
    ensures Dense(d) && Ordered(d) == [a, b]
  {
    assert |d| == 2 && d.Keys == {a, b};
    assert Taken(d, 0) && Taken(d, 1);
    assert Ordered(d)[0] == a && Ordered(d)[1] == b;
  }

  lemma FlattenTwo(a: seq<nat>, b: seq<nat>)
    ensures Flatten([a, b]) == a + b
  {
    FlattenSnoc([], a);
    FlattenSnoc([a], b);
    assert [] + [a] == [a] && [a] + [b] == [a, b];
  }

  /** The 2 x 1 example: Stream4 is the single index 1 as a little-endian `uint16`. */
  lemma TwoByOneStream4()
    ensures Stream4([[1, 1, 0, 0]]) == [1, 0]
  {
    TwoByOneDictionary();
    assert Narrow16(1) == 1;
    SmallLittleEndian16(1);
    Stream16Snoc([], 1);
    assert [] + [1] == [1];
  }

  /** The 2 x 1 example: Stream3 is the eight dictionary values as little-endian `uint16`s. */
  lemma TwoByOneStream3()
    ensures Stream3([[1, 1, 0, 0]]) == [0, 0, 0, 0, 0, 0, 0, 0] + [1, 0, 1, 0, 0, 0, 0, 0]
  {
    TwoByOneOrdered();
    SmallStream16(0, 0, 0, 0);
    SmallStream16(1, 1, 0, 0);
    Stream3Split([[1, 1, 0, 0]], [0, 0, 0, 0], [1, 1, 0, 0]);
  }

  lemma Stream3Split(padded: seq<seq<nat>>, low: seq<nat>, high: seq<nat>)
    requires Flatten(Ordered(WordDictionary(padded))) == low + high
    ensures Stream3(padded) == Stream16(low) + Stream16(high)
  {
    Stream16Append(low, high);
  }

  /** Four values below 256 take two bytes each: the value, then zero. */
  lemma SmallStream16(a: nat, b: nat, c: nat, d: nat)
    requires a < 256 && b < 256 && c < 256 && d < 256
    ensures Stream16([a, b, c, d]) == [a as byte, 0, b as byte, 0, c as byte, 0, d as byte, 0]
  {
    SmallStream16Snoc([], a, []);
    assert [] + [a] == [a];
    SmallStream16Snoc([a], b, [a as byte, 0]);
    assert [a] + [b] == [a, b];
    SmallStream16Snoc([a, b], c, [a as byte, 0, b as byte, 0]);
    assert [a, b] + [c] == [a, b, c];
    SmallStream16Snoc([a, b, c], d, [a as byte, 0, b as byte, 0, c as byte, 0]);
    assert [a, b, c] + [d] == [a, b, c, d];
  }

  lemma SmallStream16Snoc(values: seq<nat>, v: nat, bytes: seq<byte>)
    requires v < 256 && Stream16(values) == bytes
    ensures Stream16(values + [v]) == bytes + [v as byte, 0]
  {
    Stream16Snoc(values, v);
    assert Narrow16(v) == v;
    SmallLittleEndian16(v);
  }

  /** A byte sequence that holds the encoding of value k at bytes `[2k, 2k + 2)`, for every k, is the stream of the values. */
  lemma Stream16Pairs(values: seq<nat>, bytes: seq<byte>)
    requires |bytes| == 2 * |values|
    requires forall k :: 0 <= k < |values| ==> bytes[2 * k..2 * k + 2] == Encode(Narrow16(values[k]), 2, Little)
    ensures Stream16(values) == bytes
  {
    var s := Stream16(values);
    forall i | 0 <= i < |bytes| ensures s[i] == bytes[i] {
      var k := i / 2;
      assert 2 * k <= i < 2 * k + 2;
      Stream16At(values, k);
      assert s[i] == s[2 * k..2 * k + 2][i - 2 * k];
      assert bytes[i] == bytes[2 * k..2 * k + 2][i - 2 * k];
    }
  }

  /** The level layer: `layer_height` rows of `layer_width` tile indices. */
  class Level {
    var layerWidth: nat
    var layerHeight: nat
    var layer: seq<seq<nat>>

    /** `layer.assign(layer_height, std::vector<unsigned>(layer_width))`. */
    constructor (layerWidth: nat, layerHeight: nat)
      ensures this.layerWidth == layerWidth && this.layerHeight == layerHeight
      ensures layer == seq(layerHeight, _ => Zeros(layerWidth))
    {
      this.layerWidth := layerWidth;
      this.layerHeight := layerHeight;
      layer := seq(layerHeight, _ => Zeros(layerWidth));
    }

    /**
     * `write_data_streams`: pads the rows in place, fills `words` and the
     * dictionary, inverts the dictionary and writes both streams.
     */
    method WriteDataStreams() returns (stream3: seq<byte>, stream4: seq<byte>)
      requires layerWidth >= 1 && |layer| == layerHeight
      modifies this`layer
      ensures layer == PadLayer(old(layer), RoundedWidth(layerWidth))
      ensures stream3 == Stream3(layer)
      ensures stream4 == Stream4(layer)
    {
      var words := new nat[layerHeight * ReducedWidth(layerWidth)];
      var dictionary := EncodeLayer(words);
      SeedDense(Zeros(WordSize));
      InternAllDense(WordSeed(), WordKeys(layer));
      var ordered := Invert(dictionary);
      stream3 := WriteDictionary(ordered);
      stream4 := WriteWords(words[..]);
    }

    /**
     * The loop over the layer rows in `write_data_streams`: each row is
     * resized in place to the rounded width, then its words are emplaced in
     * the dictionary and their indices stored in `words`, front to back.
     */
    method EncodeLayer(words: array<nat>) returns (dictionary: map<seq<nat>, nat>)
      requires layerWidth >= 1 && |layer| == layerHeight
      requires words.Length == layerHeight * ReducedWidth(layerWidth)
      modifies this`layer, words
      ensures layer == PadLayer(old(layer), RoundedWidth(layerWidth))
      ensures dictionary == InternAll(WordSeed(), WordKeys(layer)).0
      ensures words[..] == InternAll(WordSeed(), WordKeys(layer)).1
    {
      var reducedWidth := ReducedWidth(layerWidth);
      var roundedWidth := RoundedWidth(layerWidth);
      dictionary := map[Zeros(WordSize) := 0];
      var o: nat := 0;
      var r := 0;
      while r < |layer|
        invariant r <= |layer| == layerHeight
        invariant forall k :: 0 <= k < r ==> layer[k] == Resize(old(layer)[k], roundedWidth)
        invariant forall k :: r <= k < |layer| ==> layer[k] == old(layer)[k]
        invariant o == r * reducedWidth && o <= words.Length
        invariant dictionary == InternAll(WordSeed(), WordKeys(layer[..r])).0
        invariant words[..o] == InternAll(WordSeed(), WordKeys(layer[..r])).1
      {
        ghost var done := layer[..r];
        layer := layer[r := Resize(layer[r], roundedWidth)];
        assert layer[..r] == done;
        NextRowStart(reducedWidth, layerHeight, r);
        dictionary, o := EncodeRow(layer[r], dictionary, words, o, WordKeys(done), reducedWidth);
        assert layer[..r + 1] == done + [layer[r]];
        r := r + 1;
      }
      assert layer[..r] == layer;
      assert words[..] == words[..o];
    }
  }

  /** The Stream3 loop of `write_data_streams`: every index of every word, in dictionary order. */
  method WriteDictionary(ordered: seq<seq<nat>>) returns (bytes: seq<byte>)
    ensures bytes == Stream16(Flatten(ordered))
  {
    var stream := new ByteStream();
    var k := 0;
    while k < |ordered|
      invariant k <= |ordered|
      invariant stream.bytes == Stream16(Flatten(ordered[..k]))
    {
      WriteValues(stream, ordered[k]);
      Stream16Append(Flatten(ordered[..k]), ordered[k]);
      FlattenSnoc(ordered[..k], ordered[k]);
      assert ordered[..k + 1] == ordered[..k] + [ordered[k]];
      k := k + 1;
    }
    assert ordered[..k] == ordered;
    bytes := stream.bytes;
  }

  /** Writing the values one by one with `write_binary<endian::little>` after a 16-bit narrowing. */
  method WriteValues(stream: ByteStream, values: seq<nat>)
    modifies stream
    ensures stream.bytes == old(stream.bytes) + Stream16(values)
  {
    var m := 0;
    while m < |values|
      invariant m <= |values|
      invariant stream.bytes == old(stream.bytes) + Stream16(values[..m])
    {
      Stream16Prefix(values, m);
      stream.WriteBinary(Narrow16(values[m]), 2, Little);
      m := m + 1;
    }
    assert values[..m] == values;
  }

  /** The Stream4 loop of `write_data_streams`: the index of every word of the layer. */
  method WriteWords(words: seq<nat>) returns (bytes: seq<byte>)
    ensures bytes == Stream16(words)
  {
    var stream := new ByteStream();
    WriteValues(stream, words);
    bytes := stream.bytes;
  }

  /**
   * The inner loop of `write_data_streams` over one padded row: every word of
   * four indices is emplaced in the dictionary and its index stored at
   * `*word_it++`.
   */
  method EncodeRow(row: seq<nat>, dictionary: map<seq<nat>, nat>, words: array<nat>, o: nat,
                   ghost before: seq<seq<nat>>, ghost width: nat)
      returns (dictionary': map<seq<nat>, nat>, o': nat)
    requires |row| == WordSize * width && o + width <= words.Length
    requires dictionary == InternAll(WordSeed(), before).0 && words[..o] == InternAll(WordSeed(), before).1
    modifies words
    ensures o' == o + width
    ensures dictionary' == InternAll(WordSeed(), before + Chunks(row)).0
    ensures words[..o'] == InternAll(WordSeed(), before + Chunks(row)).1
  {
    dictionary', o' := dictionary, o;
    var it := 0;
    ghost var j := 0;
    assert before + Chunks(row)[..0] == before;
    while it != |row|
      invariant j <= width && it == WordSize * j
      invariant o' == o + j
      invariant dictionary' == InternAll(WordSeed(), before + Chunks(row)[..j]).0
      invariant words[..o'] == InternAll(WordSeed(), before + Chunks(row)[..j]).1
      decreases width - j
    {
      var word := row[it..it + WordSize];
      EncodeStep(row, before, j, word, dictionary', words[..o']);
      var index;
      dictionary', index := Emplace(dictionary', word).0, Emplace(dictionary', word).1;
      ghost var done := words[..o'];
      words[o'] := index;
      assert words[..o' + 1] == done + [index];
      o' := o' + 1;
      it := it + WordSize;
      j := j + 1;
    }
    assert Chunks(row)[..j] == Chunks(row);
  }

  /** One pass of the inner loop emplaces the next word of the row. */
  lemma EncodeStep(row: seq<nat>, before: seq<seq<nat>>, j: nat, word: seq<nat>,
                   dictionary: map<seq<nat>, nat>, ids: seq<nat>)
    requires WordSize * j + WordSize <= |row| && word == row[WordSize * j..WordSize * j + WordSize]
    requires dictionary == InternAll(WordSeed(), before + Chunks(row)[..j]).0
    requires ids == InternAll(WordSeed(), before + Chunks(row)[..j]).1
    ensures Emplace(dictionary, word).0 == InternAll(WordSeed(), before + Chunks(row)[..j + 1]).0
    ensures ids + [Emplace(dictionary, word).1] == InternAll(WordSeed(), before + Chunks(row)[..j + 1]).1
  {
    assert Chunks(row)[j] == word;
    assert before + Chunks(row)[..j + 1] == (before + Chunks(row)[..j]) + [word];
    InternAllSnoc(WordSeed(), before + Chunks(row)[..j], word);
  }
}
