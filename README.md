# PicToLev in Dafny

PicToLev turns two palette images of equal size into the pieces of a game level:

- a visual image;
- a mask image, whose non-zero samples mark solid pixels.

Both images are cut into 32 x 32 tiles. Each grid cell pairs its visual tile with its mask tile; that pair is the composite tile. The composite tiles are deduplicated by content, and each cell of the level layer gets the index of its composite tile. The all-zero pair is reserved at index 0.

When there are at most 4090 distinct composite tiles, the conversion produces two tilesets, one per input. Each is 320 samples wide and holds entry `id` at tile row `id / 10`, tile column `id % 10`.

The layer is then cut into words of four indices, each row padded with zeros to a multiple of four. The words are deduplicated in turn, and two little-endian 16-bit streams are written:

- Stream3 holds the word dictionary, in index order.
- Stream4 holds the index of every word.

The model follows the source file by file:

| Dafny file | module | models |
|---|---|---|
| `binary_serialization.dfy` | `BinarySerialization` | `write_buffer` and both `write_binary` overloads. The output stream is a class whose byte sequence grows. |
| `container_hash.dfy` | `ContainerHash` | `container_hash` and the recursive `container_deep_hash`, over 64-bit words. |
| `tiles.dfy` | `Tiles` | `buffer_to_image` and `image_to_tile_list`. A `gsl::span` is an offset and a length into the pixel buffer; the tile loop fills an array slot by slot. |
| `dictionary.dfy` | `Dictionary` | `emplace(key, size())`, the dictionary operation both dedup passes share. It also inverts a dictionary into index order. |
| `pictolev.dfy` | `PicToLev` | The size checks of `get_tile_list`, the mask pass, the composite-tile dedup loop, the capacity check and the driver of `main`. |
| `tileset.dfy` | `Tileset` | The tileset geometry and the copy of every dictionary entry into its slot. |
| `streams.dfy` | `DataStreams` | `write_data_streams`: padding, the word dictionary, and Stream3 and Stream4. |
| `conversion.dfy` | `Conversion` | Properties of the whole conversion, stated over the pixels of the inputs. |
| `arithmetic.dfy` | `Arithmetic` | The `byte` type and the division and multiplication facts used by the proofs. |

The methods mirror the loops and in-place updates of the source:

- `ImageFile.GetTileList`, `ImageFile.Binarize`, `Deduplicate` and `Level.WriteDataStreams` update the fields of their objects.
- The tile slicer writes an array of tiles.
- The tileset compositor writes a zero-filled `array<byte>`.

Each method is proved against a specification function, whose properties are then proved as lemmas. `Run` takes the decoded images and returns what `main` would hand to the PNG encoder and write to the stream files. Its result is the specification function `Convert`.

## Model

| member | source | states |
|---|---|---|
| BinarySerialization.Unsigned | PicToLev/include/binary_serialization.h:62 | `std::make_unsigned_t<T>` conversion: the value modulo 256^size, always below 256^size |
| BinarySerialization.LittleEndian | PicToLev/include/binary_serialization.h:63-70 | the generator yields exactly n bytes |
| BinarySerialization.FromLittleEndian | PicToLev/include/binary_serialization.h:63-70 | the value read back from n little-endian bytes is below 256^n |
| BinarySerialization.LittleEndianByte | PicToLev/include/binary_serialization.h:63-67 | byte i of the output is `(u >> 8i) & 0xFF`, as the shift-and-narrow generator yields it |
| BinarySerialization.LittleEndianRoundTrip | PicToLev/include/binary_serialization.h:58-74 | reading the little-endian bytes back gives the unsigned value whenever it fits in n bytes |
| BinarySerialization.FromLittleEndianRoundTrip | PicToLev/include/binary_serialization.h:58-74 | every byte sequence is the encoding of the value it denotes (encoding is onto) |
| BinarySerialization.BigEndianIsReversed | PicToLev/include/binary_serialization.h:69-72 | generating into the reversed buffer gives the little-endian bytes in reverse order |
| BinarySerialization.SmallLittleEndian16 | PicToLev/include/binary_serialization.h:58-74 | a value below 256 written as `uint16_t` little-endian is the value followed by a zero byte |
| BinarySerialization.GenerateBytes | PicToLev/include/binary_serialization.h:62-72 | the buffer filled by `std::generate` (forward for little, reverse for big endian) is the `size`-byte encoding of the value |
| BinarySerialization.ByteStream.constructor | PicToLev/src/main.cpp:124 | a freshly opened binary stream holds no bytes |
| BinarySerialization.ByteStream.WriteBuffer | PicToLev/include/binary_serialization.h:47-50 | `write_buffer` appends all N bytes of the buffer, nothing else |
| BinarySerialization.ByteStream.WriteByte | PicToLev/include/binary_serialization.h:52-56 | the one-byte overload appends exactly that byte |
| BinarySerialization.ByteStream.WriteBinary | PicToLev/include/binary_serialization.h:58-74 | the wide overload appends the `size`-byte encoding in the requested byte order, and grows the stream by `size` |
| ContainerHash.AccumulateSnoc | PicToLev/include/container_hash.h:46-53 | the fold is a left fold: the last element is combined last, as `seed ^ (h + 0x9E3779B9 + (seed << 6) + (seed >> 2))` |
| ContainerHash.HashEmpty | PicToLev/include/container_hash.h:46-53 | an empty container hashes to the initial seed `std::size_t()`, zero |
| ContainerHash.HashSingleton | PicToLev/include/container_hash.h:46-53 | a one-element container hashes to the element hash plus 0x9E3779B9, modulo 2^64 |
| ContainerHash.AccumulateOfElementHashes | PicToLev/include/container_hash.h:46-53 | the container hash depends on the elements only through their hashes, in order |
| ContainerHash.PermutationChangesHash | PicToLev/include/container_hash.h:46-53 | the hash is order-sensitive: two containers holding the same elements in a different order can hash differently |
| ContainerHash.DeepFoldIsAccumulate | PicToLev/include/container_hash.h:62-65 | the recursive fold over a nested value is the container fold with the deep hash as element hash |
| ContainerHash.DeepHashOfContainer | PicToLev/include/container_hash.h:62-68 | the deep hash of a container is `container_hash` over its elements, hashed deeply |
| ContainerHash.RowDeepHash | PicToLev/include/container_hash.h:62-68 | a row of samples hashes as `container_hash` with the sample hash |
| ContainerHash.TileDeepHash | PicToLev/include/container_hash.h:62-68 | a tile hashes as the container hash of its row hashes |
| ContainerHash.CompositeDeepHash | PicToLev/include/container_hash.h:62-68 | the hasher of the tile dictionary is three nested container hashes: composite of tiles of rows of samples |
| Tiles.Subspan | PicToLev/include/tiles.h:43 | `subspan(0, width)` is `width` samples long and stays inside the span it is cut from, start and end |
| Tiles.SubspanFrom | PicToLev/include/tiles.h:44 | `subspan(width)` keeps the end of the span and is `width` samples shorter: its first `width` samples are dropped |
| Tiles.BufferToImage | PicToLev/include/tiles.h:40-48 | the stateful generator yields `height` rows, row r being the `width` samples starting at `r * width` |
| Tiles.BufferToImageRows | PicToLev/include/tiles.h:40-48 | the result of `buffer_to_image` is exactly the consecutive rows of the buffer |
| Tiles.TileList | PicToLev/include/tiles.h:57-59 | the tile vector has `(row length / size) * (rows / size)` entries |
| Tiles.ImageToTileList | PicToLev/include/tiles.h:54-73 | the band and column loops fill every slot of the preallocated vector with the tiles in row-major order |
| Tiles.CutBand | PicToLev/include/tiles.h:64-69 | one pass of the column loop writes the `width` tiles of one band, in order, after the earlier bands, and leaves the later slots as they were |
| Tiles.CutTile | PicToLev/include/tiles.h:65-68 | one `std::transform` writes the next tile in row-major order into its slot and changes no other slot |
| Tiles.RowMajorTilesUnique | PicToLev/include/tiles.h:54-73 | any full-length list of the tiles in row-major order is the tile list: the result is fully determined |
| Tiles.TileListByCoordinates | PicToLev/include/tiles.h:54-73 | the tile at (band ty, column tx) sits at index `ty * width + tx` |
| Tiles.TileWithinRows | PicToLev/include/tiles.h:65-67 | every view of tile (ty, tx) lies inside the image row it narrows, when the rows are wide enough for column tx |
| Dictionary.SeedDense | PicToLev/src/main.cpp:168 | a dictionary seeded with one key at index 0 has dense indices |
| Dictionary.EmplaceDense | PicToLev/src/main.cpp:179 | `emplace(key, size())` keeps every existing entry, gives an unseen key index `size()`, and keeps the indices dense |
| Dictionary.InternAll | PicToLev/src/main.cpp:172-181 | emplacing a sequence of keys yields one index per key |
| Dictionary.InternAllDense | PicToLev/src/main.cpp:172-181 | after any number of emplaces, the indices are still 0..size-1, each held by one key, and the seed keeps its index |
| Dictionary.InternAllKeys | PicToLev/src/main.cpp:172-181 | the dictionary holds the seed keys and the emplaced keys and nothing else |
| Dictionary.InternAllLookup | PicToLev/src/main.cpp:179-180 | every key received the index the final dictionary maps it to |
| Dictionary.SameIndexIffSameKey | PicToLev/src/main.cpp:179-180 | two positions receive the same index if and only if they hold equal keys |
| Dictionary.InternAllPrefix | PicToLev/src/main.cpp:172-181 | indices handed out earlier never change afterwards |
| Dictionary.FirstOccurrenceIndex | PicToLev/src/main.cpp:179 | the index of the j-th key is its earlier index when it was seen before, otherwise the size of the dictionary built from the keys before it |
| Dictionary.FirstOccurrenceCount | PicToLev/src/main.cpp:179 | a key met for the first time gets the seed size plus the number of distinct new keys met before it |
| Dictionary.Ordered | PicToLev/src/main.cpp:119-123 | the ordered dictionary has one key per index, key i being the one mapped to i |
| Dictionary.OrderedAt | PicToLev/src/main.cpp:121-123 | every key sits at its own index in the ordered dictionary |
| Dictionary.Invert | PicToLev/src/main.cpp:119-123 | filling `ordered_dictionary` by visiting the map in any order gives the inverse of the dictionary |
| PicToLev.BitAndLowMask | PicToLev/src/main.cpp:90 | `w & (2^k - 1)` is `w mod 2^k`, so `w & 31` is `w mod 32` |
| PicToLev.CheckSizeIff | PicToLev/src/main.cpp:80-94 | the checks pass iff the size matches the known one (when known) and both sides are multiples of 32; a mismatch is reported iff the size differs from the known one |
| PicToLev.ImageFile.constructor | PicToLev/src/main.cpp:142-152 | an input context starts with its known-size flag and known size set, and no buffer or tiles |
| PicToLev.ImageFile.GetTileList | PicToLev/src/main.cpp:80-96 | stores the decoded buffer, reports exactly the failure of the size checks, records the size of the first image whatever the outcome and keeps the known size of a later one, and stores the tile list of the image on success and leaves the tiles unchanged on failure |
| PicToLev.Binarized | PicToLev/src/main.cpp:158-160 | every sample becomes 0 or 1, and 0 exactly where it was 0 |
| PicToLev.ImageFile.Binarize | PicToLev/src/main.cpp:158-160 | the mask buffer is replaced in place by its binarised samples |
| PicToLev.CompositeKeys | PicToLev/src/main.cpp:174-178 | one composite tile per grid cell |
| PicToLev.EmptyComposite | PicToLev/src/main.cpp:167 | the empty tile is two member tiles of 32 rows of 32 zero samples |
| PicToLev.TileDictionaryFacts | PicToLev/src/main.cpp:167-182 | the tile dictionary after the loop is dense and non-empty, holds only well-formed composites, and keeps the empty tile at index 0 |
| PicToLev.Grid | PicToLev/src/main.cpp:164 | the layer has `layer_height` rows of `layer_width` cells |
| PicToLev.DeduplicateStep | PicToLev/src/main.cpp:175-180 | one cell of the dedup loop emplaces the next composite tile and extends the index sequence by its index |
| PicToLev.EmplaceRow | PicToLev/src/main.cpp:173-181 | the inner loop writes the indices of one layer row and leaves the dictionary of all cells so far |
| PicToLev.EmplaceLayer | PicToLev/src/main.cpp:172-182 | the dedup loops build the dictionary of all cells and fill the layer with their indices, row by row |
| PicToLev.Deduplicate | PicToLev/src/main.cpp:169-182 | both tile iterators walk the whole tile list; the dictionary and the layer are those of the composite tiles of all cells |
| PicToLev.GridKeys | PicToLev/src/main.cpp:172-178 | one well-formed composite tile per grid cell: `(width / 32) * (height / 32)` of them |
| PicToLev.TileDictionary | PicToLev/src/main.cpp:167-182 | the dictionary after the dedup loop is dense, non-empty, and each entry is well formed |
| PicToLev.CellIndices | PicToLev/src/main.cpp:172-181 | one layer index per grid cell |
| PicToLev.Run | PicToLev/src/main.cpp:142-207 | checking both images, binarising the mask, deduplicating and composing gives exactly `Convert` of the decoded inputs |
| PicToLev.AssembleOutputs | PicToLev/src/main.cpp:161-207 | the layer, the capacity check, both tilesets and both streams are exactly what the specification `Assemble` prescribes |
| Tileset.TilesetHeightIsCeiling | PicToLev/src/main.cpp:189-190 | `(tile_count - 1) / 10 + 1` is the least number of rows of ten slots that holds every tile, i.e. `ceil(tile_count / 10)` |
| Tileset.SlotOffsetDecomposes | PicToLev/src/main.cpp:198-202 | a sample of slot s, row y, column x sits at the image row and column that divide back to slot `s = row/32*10 + col/32` and to y, x |
| Tileset.SlotOffsetInjective | PicToLev/src/main.cpp:198-202 | distinct (slot, row, column) triples write distinct samples |
| Tileset.SlotOffsetCovers | PicToLev/src/main.cpp:197-199 | every sample of the tileset belongs to some slot |
| Tileset.SlotWithin | PicToLev/src/main.cpp:197-202 | every row of every slot lies inside the `320 * height` buffer |
| Tileset.TilesetImage | PicToLev/src/main.cpp:195-197 | the tileset buffer holds `320 * tileset_image_height` samples |
| Tileset.TilesetAtSlot | PicToLev/src/main.cpp:197-207 | slot s shows entry s, and every slot past the last entry stays zero |
| Tileset.EntryPlacement | PicToLev/src/main.cpp:200-206 | entry `id` appears at tile row `id / 10`, tile column `id % 10` of each tileset |
| Tileset.CopyRow | PicToLev/src/main.cpp:205 | `std::copy` overwrites the row's samples at the destination and nothing else |
| Tileset.CopyTile | PicToLev/src/main.cpp:203-206 | the row loop copies every row of the member tile into its slot and leaves every other sample unchanged |
| Tileset.NothingCopied | PicToLev/src/main.cpp:203-204 | before the row loop, no row of the slot has been copied and every position is inside the buffer |
| Tileset.RowCopied | PicToLev/src/main.cpp:204-205 | copying row y into its slot extends the copied rows by one and disturbs no other slot |
| Tileset.TilesetFromSlots | PicToLev/src/main.cpp:192-207 | a buffer that shows the right sample at every (slot, row, column) is the tileset |
| Tileset.ZeroedTileset | PicToLev/src/main.cpp:195-199 | the output buffer is zero-filled and sliced into `10 * height` tiles whose rows start at their slot offsets |
| Tileset.PlaceEntries | PicToLev/src/main.cpp:200-207 | visiting the dictionary in any order copies every entry into its slot and leaves the later slots zero |
| Tileset.ComposeTileset | PicToLev/src/main.cpp:189-207 | the composed buffer is the tileset of the ordered dictionary, independent of the map's iteration order |
| DataStreams.RoundedWidthIsLeastMultiple | PicToLev/src/main.cpp:107-108 | `((w - 1) / 4 + 1) * 4` is the least multiple of 4 that is at least w |
| DataStreams.Resize | PicToLev/src/main.cpp:113 | `resize` gives a row of exactly the new length |
| DataStreams.ResizeGrows | PicToLev/src/main.cpp:113 | growing a row keeps its cells and pads with zeros |
| DataStreams.PadLayer | PicToLev/src/main.cpp:112-113 | padding keeps the number of rows |
| DataStreams.PadLayerRows | PicToLev/src/main.cpp:107-113 | every padded row is `reduced_width` words long |
| DataStreams.WordKeysLength | PicToLev/src/main.cpp:112-117 | rows of `width` words each give `rows * width` words |
| DataStreams.WordKeysAt | PicToLev/src/main.cpp:114-115 | word j of row r is cells `[4j, 4j + 4)` of that row and comes at position `r * width + j` |
| DataStreams.WordCount | PicToLev/src/main.cpp:109-117 | exactly `layer_height * reduced_width` word indices are produced, filling `words` |
| DataStreams.WordDictionary | PicToLev/src/main.cpp:110-118 | the word dictionary has dense indices |
| DataStreams.WordSeedKept | PicToLev/src/main.cpp:110 | the all-zero word keeps index 0 |
| DataStreams.WordDictionaryLookup | PicToLev/src/main.cpp:115-123 | the entry of `ordered_dictionary` at the index of word k is word k |
| DataStreams.SameWordIndexIffSameWord | PicToLev/src/main.cpp:115-116 | two words get the same index if and only if they hold the same four tile indices |
| DataStreams.WordKeysAreWords | PicToLev/src/main.cpp:114-115 | every word cut from padded rows holds four indices |
| DataStreams.WordDictionaryEntries | PicToLev/src/main.cpp:110-123 | every entry of the ordered word dictionary holds four indices |
| DataStreams.Narrow16 | PicToLev/src/main.cpp:127 | `narrow_cast<uint16_t>` yields a value below 2^16 |
| DataStreams.Stream16 | PicToLev/src/main.cpp:125-133 | two bytes are written per value |
| DataStreams.Decode16 | PicToLev/src/main.cpp:125-133 | reading a stream back yields one value per two bytes |
| DataStreams.Stream16At | PicToLev/src/main.cpp:127 | bytes 2k and 2k+1 of a stream are the little-endian `uint16_t` encoding of value k |
| DataStreams.Stream16RoundTrip | PicToLev/src/main.cpp:125-133 | decoding a stream gives back every value modulo 2^16 |
| DataStreams.Stream16Append | PicToLev/src/main.cpp:125-133 | writing two sequences one after the other gives the stream of their concatenation |
| DataStreams.StreamLengths | PicToLev/src/main.cpp:124-133 | Stream3 holds 8 bytes per word-dictionary entry; Stream4 holds 2 bytes per word, `2 * layer_height * reduced_width` |
| DataStreams.TwoByOnePadding | PicToLev/src/main.cpp:107-113 | the 2 x 1 layer `[[1, 1]]` pads to `[[1, 1, 0, 0]]` |
| DataStreams.TwoByOneDictionary | PicToLev/src/main.cpp:110-117 | its word dictionary is `{[0,0,0,0] -> 0, [1,1,0,0] -> 1}` and `words` is `[1]` |
| DataStreams.TwoByOneOrdered | PicToLev/src/main.cpp:119-123 | its ordered dictionary is the zero word, then `[1, 1, 0, 0]` |
| DataStreams.TwoByOneStream4 | PicToLev/src/main.cpp:130-133 | its Stream4 is the two bytes `01 00` |
| DataStreams.TwoByOneStream3 | PicToLev/src/main.cpp:124-129 | its Stream3 is eight zero bytes, then `01 00 01 00 00 00 00 00` |
| DataStreams.Level.constructor | PicToLev/src/main.cpp:161-164 | the layer is `layer_height` rows of `layer_width` zeros |
| DataStreams.Level.EncodeLayer | PicToLev/src/main.cpp:109-118 | the padding and word loops leave every row padded, and build the dictionary and the `words` indices of the padded layer's words |
| DataStreams.EncodeRow | PicToLev/src/main.cpp:113-117 | the word loop over one row advances `word_it` by the row's word count and emplaces the row's words after the earlier ones |
| DataStreams.EncodeStep | PicToLev/src/main.cpp:115-116 | one word emplace extends the dictionary and the indices by that word |
| DataStreams.WriteDictionary | PicToLev/src/main.cpp:124-129 | Stream3 is the narrowed little-endian encoding of every value of every word of the ordered dictionary |
| DataStreams.WriteValues | PicToLev/src/main.cpp:131-133 | writing values one by one appends their 16-bit stream |
| DataStreams.WriteWords | PicToLev/src/main.cpp:130-133 | Stream4 is the narrowed little-endian encoding of every word index |
| DataStreams.Level.WriteDataStreams | PicToLev/src/main.cpp:106-134 | the layer is left padded, and the two streams are Stream3 and Stream4 of the padded layer |
| Conversion.CellPixels | PicToLev/include/tiles.h:65-67 | the content of grid cell (ty, tx): sample x of row y is pixel `(ty*32 + y) * width + tx*32 + x` of the buffer |
| Conversion.TileListOffset | PicToLev/include/tiles.h:57-69 | entry t of the tile list of a `width`-wide buffer has 32 views, view y starting at row `(t / columns) * 32 + y`, column `(t % columns) * 32` |
| Conversion.TileListAt | PicToLev/include/tiles.h:57-69 | the entry of cell (ty, tx) is at index `ty * columns + tx` and its view y starts at that cell's row y |
| Conversion.TileListCovers | PicToLev/include/tiles.h:54-73 | every sample of the buffer is shown by some (entry, view, column) of the tile list |
| Conversion.TileListInjective | PicToLev/include/tiles.h:54-73 | two (entry, view, column) triples of the tile list that show the same sample are the same triple: every sample is shown exactly once |
| Conversion.PixelCell | PicToLev/include/tiles.h:54-73 | every sample offset below `width * height` is the offset of some cell, row and column of the grid |
| Conversion.PixelOffsetInjective | PicToLev/include/tiles.h:54-73 | distinct (cell, row, column) positions have distinct sample offsets |
| Conversion.TileShowsCell | PicToLev/include/tiles.h:65-67 | the tile cut for cell (ty, tx) shows exactly that cell's pixels |
| Conversion.CellKey | PicToLev/src/main.cpp:174-178 | the composite tile of cell (ty, tx) is its visual pixels, then its mask pixels, at position `ty * columns + tx` |
| Conversion.ConvertSizeErrors | PicToLev/src/main.cpp:80-94 | the conversion fails with the multiple-of-32 error iff a side of the first image is not a multiple of 32; it fails with the size mismatch iff the first image is aligned and the second differs in size |
| Conversion.ConvertCapacity | PicToLev/src/main.cpp:183-188 | for valid sizes, the conversion succeeds iff there are at most 4090 distinct composite tiles, the empty one included, and fails with the capacity error otherwise; exactly 4090 is accepted |
| Conversion.SameIndexIffSameContent | PicToLev/src/main.cpp:172-181 | two cells get the same layer index iff they show the same visual pixels and the same mask pixels |
| Conversion.EmptyCellIndex | PicToLev/src/main.cpp:167-168 | a cell gets index 0 iff it is all zero in both images |
| Conversion.NewContentIndex | PicToLev/src/main.cpp:179-180 | a non-empty composite tile met for the first time gets 1 + the number of distinct non-empty composite tiles before it |
| Conversion.CellInTileset | PicToLev/src/main.cpp:200-206 | the slot named by a cell's index shows that cell, in each member's tileset |
| Conversion.TilesetsShowCells | PicToLev/src/main.cpp:158-206 | on success, the visual tileset shows every cell's pixels at its slot, and the mask tileset shows 1 where the mask is non-zero and 0 elsewhere |
| Conversion.ConvertIsAssemble | PicToLev/src/main.cpp:142-160 | two images of the same size, a multiple of 32, pass both checks and proceed with the binarised mask |
| Conversion.ConvertOutputShape | PicToLev/src/main.cpp:189-197 | on success, each tileset is 320 samples wide and `32 * ((tile_count - 1) / 10 + 1)` rows tall, and Stream4 holds 2 bytes per word of the padded layer |
| Conversion.TwoByOneKeys | PicToLev/src/main.cpp:158-178 | for a 64 x 32 image of samples 5 and an all-zero mask, both grid cells have the composite tile (all-5 tile, empty tile) |
| Conversion.RepeatedKey | PicToLev/src/main.cpp:168-181 | two cells with the same non-empty composite tile give the dictionary {empty -> 0, tile -> 1} and the indices `[1, 1]` |
| Conversion.TwoByOneCells | PicToLev/src/main.cpp:158-183 | for that pair of images the dictionary has 2 entries and the layer cells get `[1, 1]` |
| Conversion.TwoByOneConversion | PicToLev/src/main.cpp:142-197 | that pair of images converts successfully into tilesets 32 rows tall, Stream4 `01 00` and Stream3 of the zero word and `[1, 1, 0, 0]` |

## Left out

- Decoding and encoding PNG files, reading and writing files, palette state, output file names and the messages on `std::cerr` are not modelled. `Run` receives the decoded sample buffers and sizes as parameters and returns the tileset buffers and stream bytes.
- The model assumes 8-bit indexed (or 8-bit grey) input, where the decoder returns one byte per pixel: `Decoded` requires `|image| == width * height` and both sides at least 1. The decoder is told to keep the PNG's own colour type and bit depth (`color_convert = false`, main.cpp:153-154), so other inputs give other buffer lengths. Palettes of 1, 2 or 4 bits per pixel pack several pixels into a byte, with no padding between rows: `buffer_to_image` cuts rows of `width` packed bytes until row `height * bits / 8`, whose cut runs past the buffer and fails, and the rows before it show packed bytes, not pixels. RGB, grey-alpha or 16-bit images give several bytes per pixel, and the tiles then show the wrong samples. These colour types and bit depths are not modelled.
- Codec, load and save errors, and the `try`/`catch` around `main`, are not modelled.
- The command-line argument count check is not modelled.
- `container_traits.h` is not part of this model; the hash is defined on the nested values directly.
- `grid_size.h` is not part of this model.
- The `std::hash<unsigned char>` used for samples is a function parameter of the hash model, because its result is implementation-defined.
- `std::size_t` is taken to be 64 bits wide: the hash is computed on `bv64`. On a platform with a 32-bit `size_t` the hash values differ. Only the hash values change; the dictionary contents do not, since keys are compared by content.
- The buckets of `std::unordered_map` and the ordering of `std::map` are not modelled. Both dictionaries are maps keyed by content, so hash collisions cannot merge two keys; the source compares keys for equality as well.
- The iteration order of the dictionaries is not modelled. `Invert` and `PlaceEntries` pick entries in an arbitrary order, and their results are proved to be the same for every order.
- The tile iterators `tiles_it` are not modelled as moving one tile at a time. `Deduplicate` models them as positions in the tile list, reset to 0 before the loop and past the last tile afterwards; inside the loop the tiles are read by index.
- The dictionary keys are the samples the tile views show, not the views themselves. This is the same equality and the same hash, since both compare and hash samples.
- `Level.WriteDataStreams` requires `layer_width >= 1`. With a layer width of 0, `(layer_width - 1) / word_size` wraps around in unsigned arithmetic; that case cannot arise after the size checks, because decoded images are at least one pixel wide and their width is a multiple of 32.
- PicToLev.AssembleOutputs: `narrow_cast<unsigned>` of the tile dictionary size (main.cpp:183) and of each layer index (main.cpp:180) is taken as exact. That is an assumption of fewer than 2^32 distinct composite tiles: both narrowings happen before the capacity check, so the check cannot establish it, and with 2^32 or more distinct tiles the count would wrap and the check would compare the wrapped value.
- DataStreams.Narrow16: `narrow_cast<uint16_t>` is modelled as the silent truncation the source performs, i.e. the value modulo 2^16. The source has no check, so word indices of 65536 or more wrap around in Stream4. Aborting on narrowing overflow would be an alternative design; the model follows the code.
- ContainerHash.PermutationChangesHash: order sensitivity is shown by one pair of containers with the identity element hash. It is not a statement about every permutation.
