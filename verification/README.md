# Minecraft_art mosaic core, modelled in Dafny

Minecraft_art turns a picture into a mosaic of Minecraft block textures. Every
pixel of the input becomes a 16 x 16 texture ("block"). The chosen block is the
one whose average colour is closest to the pixel.

The core has three parts:

- **Palette construction.** Every decodable tile in the block directory gets a
  key. Each channel is summed over all of the tile's pixels, divided by 256
  (`BLOCK_SIZE * BLOCK_SIZE`) and cast to `u8`.
  - `src/block_map.rs` pushes `(key, tile)` pairs onto a vector in directory order.
  - `src/main.rs` inserts them into a `HashMap`, so a later tile with the same
    key replaces the earlier one.
- **Nearest-colour search** (`get_best_block`). A linear scan computes the L1
  distance `Σ|pixel_i − key_i|` in signed arithmetic. It keeps a running minimum
  under a strict `<`. An empty palette gives the empty default image.
- **Compositing.** The output image is `16 W x 16 H`. A producer thread sends
  one `(x, y, block)` message per input pixel in row-major order. The consumer
  copies each block to `(16 x + i, 16 y + j)`.

Files:

- `image_buf.dfy`, module `ImageBuf`: the `image` crate types the core uses.
  - `Byte` and `Rgb` model `Rgb<u8>` pixels and `[u8; 3]` keys.
  - `ImgBuffer` is a row-major pixel buffer with exactly `width * height` pixels.
  - `Default` is `ImgBuffer::default()`, and `GetPixel` is `get_pixel`.
  - It also holds the index arithmetic behind `enumerate_pixels`.
- `block_map.dfy`, module `BlockMap`: `src/block_map.rs`.
- `mosaic.dfy`, module `Mosaic`: `src/main.rs`. It reuses `BlockMap.TileKey`,
  because `c / 256` in main.rs is the same as `c / (BLOCK_SIZE * BLOCK_SIZE)`.

How the source is modelled:

- **The directory listing** is a sequence of `DirEntry` values: `Unreadable`
  (the iterator yielded `Err`), `Undecodable` (`image::open` failed), or
  `Decoded(img)`.
- **The averaging loops** are `BlockMap.TileKey`, proved equal to the function
  `KeyOf`.
- **Both palette loops** are methods proved equal to `Palette` and
  `HashPalette`.
- **The vector search** is proved to return the first entry at minimal distance.
- **The map search** walks the keys in the map's iteration order. Rust leaves
  that order unspecified, so it is an extra argument `order`. `order` must list
  every key exactly once (`IsIterationOrder`). The map is not changed after it
  is built, so the producer passes the same order to every search. The search is
  proved to return the tile of the first key in that order at minimal distance.
  This is the same position the vector search picks over those pairs, and it is
  at minimal distance over the whole map.
- **Threads and channel.** The producer is `Produce`, and the sequence it
  returns is the channel's contents. The consumer loop is `Consume`, which
  writes into an `array2` in place. `Compose` is the output assembly
  in `main`: allocating the output, running the producer, and draining the
  channel.

## Model

| member | source | states |
|---|---|---|
| `ImageBuf.Coordinates` | src/main.rs:89 | the coordinate `enumerate_pixels` yields at buffer index n lies inside the image, and n is its row-major index |
| `ImageBuf.RowMajorSplit` | src/main.rs:89 | every buffer index n is the row-major position of (n % width, n / width), which lies inside the image; this is the order `enumerate_pixels` visits the pixels |
| `BlockMap.TileKey` | src/block_map.rs:35-42 | the nested accumulation loops produce exactly `KeyOf(img)`: for each channel, the sum over all pixels, divided by 256, cast to `u8` |
| `BlockMap.ChannelSumBound` | src/block_map.rs:37-41 | a channel sum over n pixels is at most 255·n |
| `BlockMap.ChannelSumUniform` | src/block_map.rs:37-41 | over n pixels of the same colour c, the channel sum is n·c[k] |
| `BlockMap.KeyIsFloorAverage` | src/block_map.rs:37-42 | for a tile of at most 256 pixels (any 16 x 16 tile), the `u8` cast does not wrap: every key channel is exactly the floor of sum / 256 |
| `BlockMap.UniformTileKey` | src/block_map.rs:35-42 | a uniform 16 x 16 tile of colour C gets key C |
| `BlockMap.LargeTileKeyWraps` | src/block_map.rs:42 | the divisor stays 256 whatever the tile size: a uniform 32 x 32 tile of colour c gets (4·c) mod 256 per channel, so mid grey becomes black |
| `BlockMap.Palette` | src/block_map.rs:24-43 | the palette has at most one entry per listed item, and every entry's key is `KeyOf` of its own tile |
| `BlockMap.GetBlocksMap` | src/block_map.rs:18-45 | the loop's vector equals `Palette(files)`: unreadable and undecodable items are skipped, and each decoded tile is pushed with its key |
| `BlockMap.PaletteAppend` | src/block_map.rs:24-43 | the palette of a concatenated listing is the concatenation of the two palettes, so entries follow listing order |
| `BlockMap.SkippedEntry` | src/block_map.rs:25-33 | inserting an unreadable or undecodable item anywhere leaves the palette unchanged |
| `BlockMap.DecodedEntry` | src/block_map.rs:42 | a decoded tile adds exactly one entry `(KeyOf(tile), tile)`, between the entries of the items listed before it and after it |
| `BlockMap.Distance` | src/block_map.rs:54-57 | the signed, per-channel absolute-difference sum is at most 765, and it is 0 exactly when pixel and key are equal |
| `BlockMap.PartialDistanceComplete` | src/block_map.rs:55-57 | accumulating the three channel terms one at a time (`tmp_sum`) gives the distance |
| `BlockMap.GetBestBlock` | src/block_map.rs:48-64 | an empty palette gives `ImgBuffer::default()`; otherwise the result is the tile of the first entry at minimal distance. The loop invariants show that the first entry always replaces the `u32::MAX` sentinel |
| `BlockMap.FirstNearestUnique` | src/block_map.rs:58-61 | under the strict `<`, the first entry at minimal distance is unique, so the vector search is deterministic |
| `BlockMap.ExactMatchWins` | src/block_map.rs:53-62 | if some key equals the pixel, the search returns the first entry whose key equals the pixel |
| `BlockMap.RedBlueScenario` | src/block_map.rs:48-64 | with palette [red (255,0,0), blue (0,0,255)], pixel (200,10,10) matches red (distance 75 against 455) |
| `Mosaic.HashPalette` | src/main.rs:28-42 | every key in the map is `KeyOf` of the tile stored under it |
| `Mosaic.GetBlocksMap` | src/main.rs:23-43 | the run panics exactly when the listing has an unreadable item (`i.unwrap()`); otherwise the map equals `HashPalette(files)`: undecodable files are skipped and tiles are inserted in order |
| `Mosaic.LastTileWins` | src/main.rs:40 | `insert` overwrites: the map keeps the last decoded tile with a given key |
| `Mosaic.HashPaletteAgreesWithVec` | src/main.rs:34-40 | map and vector built from the same listing agree: every vector key is in the map, and every map pair is a vector entry |
| `Mosaic.GetBestBlock` | src/main.rs:46-63 | an empty map gives the default image. Otherwise the result is the tile of the first key, in the map's iteration order, at minimal distance. The loop asserts that every i16 difference is in range, and its invariants show that the first key replaces the sentinel 10000 |
| `Mosaic.MapSearchIsVectorSearch` | src/main.rs:51-61 | for any iteration order, the map search picks position i exactly when the vector search of src/block_map.rs:48-64 picks i over the same pairs in that order |
| `Mosaic.FirstInOrderIsNearest` | src/main.rs:51-61 | whatever the iteration order, the chosen tile belongs to a key at minimal distance over the whole map |
| `Mosaic.BestMatchDeterministic` | src/main.rs:51-61 | for a fixed iteration order, there is only one possible result, so equal pixels get the same tile |
| `Mosaic.Produce` | src/main.rs:88-92 | one message per input pixel: message n carries the coordinates of row-major index n and the best match for that pixel. Pixels of equal colour get the same tile |
| `Mosaic.SamePixelSameTile` | src/main.rs:89-90 | when every message carries the best match for its pixel under one iteration order, messages for pixels of equal colour carry the same tile |
| `Mosaic.Consume` | src/main.rs:93-99 | the loop completes exactly when every received tile is at least 16 x 16 (otherwise `get_pixel` panics). Each output pixel then holds the pixel of the last received tile whose region covers it, or its old colour |
| `Mosaic.PaintedByUniqueCover` | src/main.rs:93-99 | a pixel covered by exactly one message shows that message's tile at the offset within the region |
| `Mosaic.PaintedUncovered` | src/main.rs:93-99 | a pixel no message covers keeps its colour |
| `Mosaic.UniqueCover` | src/main.rs:94-96 | when messages have distinct coordinates, their 16 x 16 target regions do not overlap |
| `Mosaic.ReorderKeepsTargets` | src/main.rs:89-99 | a reordering of messages with distinct coordinates and full-size tiles again has distinct coordinates and full-size tiles |
| `Mosaic.UncoveredAnyOrder` | src/main.rs:93-99 | a pixel no message covers is covered by no message of any reordering either, and keeps its colour under both |
| `Mosaic.CoveredAnyOrder` | src/main.rs:93-99 | a pixel covered by some message shows the same tile pixel under any reordering with distinct coordinates |
| `Mosaic.ConsumeOrderIrrelevant` | src/main.rs:89-99 | for messages with distinct coordinates and full-size tiles, any reordering again has both properties, and consuming it gives the same image |
| `Mosaic.ExactlyOneCover` | src/main.rs:93-96 | every pixel (X, Y) of the 16W x 16H output lies in the region of exactly one producer message: the one for input pixel (X / 16, Y / 16) |
| `Mosaic.PaintedRowMajor` | src/main.rs:89-99 | once every producer message has been written, output (X, Y) is pixel (X mod 16, Y mod 16) of the tile sent for input pixel (X / 16, Y / 16) |
| `Mosaic.Compose` | src/main.rs:85-99 | the output is 16W x 16H, with one message per input pixel and each message carrying the best match. Pixels of equal colour get the same tile. The run completes exactly when every matched tile is at least 16 x 16: an empty palette with a non-empty input panics, and a palette of full-size tiles completes. On completion, output (X, Y) is pixel (X mod 16, Y mod 16) of the tile matched for input pixel (X / 16, Y / 16) |

## Left out

- Filesystem and decoding are not modelled: `read_dir` with its `expect`, `image::open`, `to_rgb8`, and `output_img.save`. The model starts from the decoded listing and ends with the output array.
- The file-name prompt on stdin and the `args()` handling are not modelled (I/O).
- `Instant` timing and `println!` are not modelled (logging only).
- `thread::spawn` and `mpsc::channel` are replaced by a sequence of messages consumed in send order. The channel adds nothing else.
- A failing `sender.send(..).expect(..)` is not modelled. The receiver outlives the producer unless the consumer has already panicked.
- `BlockMap.TileKey`: the `u32` channel accumulators are unbounded integers. Overflow only happens for tiles over 16,843,009 pixels, which panics in a debug build and wraps in a release build.
- `Mosaic.Compose`: `width * BLOCK_SIZE` and `height * BLOCK_SIZE` are computed in `u32` in the source; overflow for inputs wider or taller than 268,435,455 pixels is not modelled.
- `Mosaic.Consume`: on a tile smaller than 16 x 16, the model stops before writing any pixel of that message. The source panics part-way through the tile. Neither run saves an image, so this is not observable.
- `Mosaic.GetBestBlock`: the iteration order is an argument that lists every key once. Which order Rust's `HashMap` actually produces, and the hashing behind it, is not modelled.
- src/help.rs is not modelled: it is a single help-text constant. The `-s` scale and `-o` output options it describes are not implemented in the source, so there is no scale factor: every input pixel becomes one 16 x 16 tile.
- `get_best_block` on an empty palette returns the empty default image; `main` then panics in `get_pixel`. The model returns `Default()` and `Consume` reports the panic.
- main.rs panics on an unreadable directory item (`i.unwrap()`), whereas block_map.rs skips it. `Mosaic.GetBlocksMap` returns `Panic`.
