# Raster chunking and alignment, modelled in Dafny

This project models the core of a raster-processing utility library.
It covers four parts.

- **Chunk configuration** (`Chunking`). A raster of `width` x `height` pixels is processed in full-width horizontal chunks. The configuration records:
  - the block size, which is the least common multiple of the bands' natural block sizes;
  - the number of data rows per chunk (`dataHeight`), a multiple of the block size;
  - a fixed number of padding rows on either side;
  - the processing range `start..end`.

  Iterating over a configuration yields chunk windows `(config, first row, number of rows)`. Each window is made of the data rows plus the padding. The model clips it to the raster; see "## Left out" for where that comes from.
- **Builder** (`Builder`). `ChunkConfigBuilder` is a class. Its methods overwrite the fields of the configuration it wraps, and every method keeps the configuration valid. The configuration is valid when:
  - the data height is a positive multiple of the block size;
  - `padding <= start`;
  - `end <= height`.
- **Geometry** (`Geometry`). It covers:
  - pixel offsets and sizes;
  - the casts between integer and floating-point pairs, where `as usize` floors and sends negative values to 0;
  - the rectangle `RasterWindow`, with its area, offset, size and shape;
  - its conversions from offset/size pairs and from chunk windows.
- **Alignment** (`Align`). It covers:
  - the residual affine transform between a chunk of one raster and the corresponding chunk of another;
  - the index transformer, which maps a chunk index to the index of the target pixel containing its image, or to nothing when that pixel lies outside the target.

Where the code does something step by step, the model does it the same way:
- the builder is a class whose methods have `modifies this`;
- iterating a configuration is a `while` loop (`Chunking.Chunks`), proved equal to the recursive specification `Chunking.Windows`.

The rest is functions and lemmas. Integers are unbounded, and floating-point values are exact reals.

In two places the code disagrees with its own comments and documentation. The model follows the code in both:
- Alignment. The derivation at `src/align.rs:53` says a local index `(j, i)` of the first chunk maps to `transform(off_1 + (j, i)) - off_2`. The comment at `src/align.rs:61` says the offsets of `transform` are zeroed out. The code at `src/align.rs:63` instead composes `transform` with a translation by (-1, -1). That translation does not zero the offsets, and it shifts the identity alignment by (-1, -1).
- Chunk windows. A window's third component is its number of rows, per the comment at `src/chunking/mod.rs:109`. The print at `src/chunking/mod.rs:129` shows it as the extent `ls -> ls + size`. `From<ChunkWindow>` at `src/geometry.rs:81-82` instead subtracts the start from it, as if it were an end row.

Both are recorded under "## Findings".

## Model

| member | source | states |
|---|---|---|
| Integer.Lcm | src/chunking/builder.rs:33 | the accumulated block size is a positive common multiple of the old block size and the new one |
| Integer.LcmDividesCommonMultiples | src/chunking/builder.rs:27-33 | the least common multiple divides every common multiple of the two block sizes |
| Integer.LcmIsLeast | src/chunking/builder.rs:27-33 | no positive common multiple is smaller than the least common multiple |
| Integer.LcmSame | src/chunking/builder.rs:32 | the least common multiple of a block size with itself is that block size, so skipping an equal block size loses nothing |
| Integer.LcmOfIsLeastCommonMultiple | src/chunking/mod.rs:54-60 | folding block sizes from 1 gives a multiple of every natural block size, and it divides every common multiple of them |
| Chunking.NextMultiple | src/chunking/mod.rs:112-116 | the result is a multiple of `m` and lies in `num .. num + m - 1` |
| Chunking.NextMultipleIsLeast | src/chunking/mod.rs:113-116 | no multiple of `m` that is at least `num` is smaller than the result |
| Chunking.NextMultipleOfMultiple | src/chunking/mod.rs:113-116 | a number that is already a multiple of `m` is unchanged |
| Chunking.Chunks | src/chunking/mod.rs:104-110 | the iteration loop yields exactly the windows of the specification `Windows`, one for each run of data rows from `start` to `end` |
| Chunking.IterateTwice | src/chunking/mod.rs:126-138 | iterating the same configuration twice yields the same windows |
| Chunking.WindowsCount | src/chunking/mod.rs:70-75 | there is one window per data run; the data bounds run from `start` to `end`; there are no windows when `end <= start` |
| Chunking.DataBoundsIncrease | src/chunking/mod.rs:61-66 | the data bounds strictly increase; every run except the last has exactly `dataHeight` rows; the last run has at most `dataHeight` rows |
| Chunking.WindowsShape | src/chunking/mod.rs:67-69 | each window starts `padding` rows above its data, and ends `padding` rows below its data or at the raster's bottom edge |
| Chunking.WindowsWithinRaster | src/chunking/mod.rs:27-38 | every window is non-empty, lies inside the raster and holds its data rows; it has exactly `padding` rows above the data and at most `padding` rows below |
| Chunking.DataRowsPartition | src/chunking/mod.rs:70-75 | every row of `start..end` is a data row of exactly one window |
| Builder.RowsForDataSize | src/chunking/builder.rs:54-58 | the row count is at least one and is the ceiling of `dataSize / width` |
| Builder.ChunkConfigBuilder.constructor | src/chunking/builder.rs:10-25 | the new builder holds block size 1, data height 1, padding 0 and range `0..height`, and that configuration is valid |
| Builder.ChunkConfigBuilder.AddBlockSize | src/chunking/builder.rs:30-37 | the block size becomes the least common multiple; the data height is rounded up to it and never shrinks; adding the current block size changes nothing; the configuration stays valid |
| Builder.ChunkConfigBuilder.WithDataHeight | src/chunking/builder.rs:40-44 | the data height becomes the least multiple of the block size that is at least `h`; nothing else changes; the configuration stays valid |
| Builder.ChunkConfigBuilder.AdjustDataHeight | src/chunking/builder.rs:48-50 | only the data height changes, and it is rounded up to the block size |
| Builder.ChunkConfigBuilder.WithDataSize | src/chunking/builder.rs:53-60 | this is the same as `WithDataHeight` given the number of rows the pixels need; the configuration stays valid |
| Builder.ChunkConfigBuilder.WithPadding | src/chunking/builder.rs:63-67 | the padding is set and `start` is raised to at least the padding; nothing else changes |
| Builder.ChunkConfigBuilder.WithStart | src/chunking/builder.rs:70-74 | `start` is set, raised to at least the padding; nothing else changes |
| Builder.ChunkConfigBuilder.AdjustStart | src/chunking/builder.rs:78-80 | only `start` changes, and it becomes the larger of itself and the padding |
| Builder.ChunkConfigBuilder.WithEnd | src/chunking/builder.rs:83-86 | `end` is set, clipped to the raster height; nothing else changes |
| Builder.BuildWithBlockSizes | src/chunking/builder.rs:30-37 | a fresh builder that accumulates the block sizes `b1 .. bn` one after the other builds a valid configuration whose block size is `LcmOf(b1 .. bn)`, the least common multiple of all of them, with the data height rounded up to it |
| Builder.ChunkConfigBuilder.Build | src/chunking/builder.rs:89-91 | the built configuration is the one held, and it is valid |
| ChunkingTests.StartsAndRows | src/chunking/mod.rs:133-138 | the projection keeps one (start, rows) pair per window, in order |
| ChunkingTests.TestSimple | src/chunking/mod.rs:166-179 | a 32 x 20 raster with block size 2, padding 7 and end 10 yields the windows (0, 16) and (2, 15) |
| Geometry.FloorToUsize | src/geometry.rs:15-17 | a non-negative value maps to its floor; a negative value maps to 0 |
| Geometry.AsUsize | src/geometry.rs:15-17 | each non-negative component maps to the integer whose unit interval contains it |
| Geometry.AsF64RoundTrip | src/geometry.rs:19-21 | converting to floating point and back with `AsUsize` gives back the original pair |
| Geometry.RasterWindow.Shape | src/geometry.rs:53-56 | the shape is (rows, cols), the size with its components swapped |
| Geometry.FromOffsetSize | src/geometry.rs:64-70 | the window built from an offset and a size reports that offset and size, the swapped shape, and an area equal to the product |
| Geometry.GdalRoundTrip | src/geometry.rs:72-77 | an offset/size pair comes back unchanged, with the offset signed, through a window and the GDAL conversion |
| Geometry.FromChunkWindow | src/geometry.rs:79-84 | as written: the rectangle starts at row `start`, is full width, and has height `third component - start` |
| Geometry.FromChunkWindowRows | src/geometry.rs:79-84 | corrected: the rectangle starts at row `start`, is full width, and has the window's row count as its height |
| Geometry.EmittedWindowsFitRaster | src/geometry.rs:79-84 | with the corrected conversion, every emitted window is a full-width rectangle inside the raster; it holds the window's data rows and has `width x rows` pixels |
| Geometry.ChunkWindowConversionDropsRows | src/geometry.rs:81-82 | in the reference scenario the second window (2, 15) becomes 13 rows as written but 15 rows as corrected |
| Geometry.ChunkWindowConversionUnderflows | src/geometry.rs:82 | a valid configuration emits the window (50, 2), whose start exceeds its row count, so `end - start` as written underflows |
| Align.ThenApply | src/align.rs:63-68 | the composed transform maps every point exactly as applying one transform after the other does |
| Align.ChunkTransform | src/align.rs:56-69 | as written: the residual transform keeps the linear part of `transform`, in either composition order |
| Align.ChunkTransformIntended | src/align.rs:45-55 | corrected: the residual transform keeps the linear part of `transform` |
| Align.ChunkTransformIntendedMaps | src/align.rs:53-55 | corrected: the residual transform maps each local index `p` of the first chunk to `transform(off1 + p) - off2`, the local index in the second chunk |
| Align.IndexTransformer.Apply | src/align.rs:75-92 | the result is nothing exactly when the image lies outside `[0, cols) x [0, rows)`; otherwise it is the (row, col) of the pixel containing the image |
| Align.IdentityIndexTransformer | src/align.rs:78-90 | under the identity transform an in-bounds index `(j, i)` maps to `(i, j)` |
| Align.ChunkTransformShiftsIdentity | src/align.rs:61-68 | as written: the identity alignment of two chunks at the same origin gives the translation by (-1, -1), in either order |
| Align.ShiftedIdentityRejectsOrigin | src/align.rs:80-83 | as written: index (0, 0) of a chunk aligned with itself is reported as outside the target, whatever the target's dimensions |
| Align.ChunkTransformIntendedIdentity | src/align.rs:45-55 | corrected: the identity alignment at equal origins gives the identity, and every in-bounds index maps to itself in (row, col) order |

## Left out

- Fixed-width integer overflow is not modelled: `usize` arithmetic in the iteration, in `next_multiple`, in the least common multiple and in `with_data_size` is unbounded here.
- Upper saturation of `as usize` is not modelled. Neither are NaN and infinities, nor IEEE-754 rounding: coordinates are exact reals.
- `Geometry.FromChunkWindow`: it requires `start <= third component`. Otherwise the source's `usize` subtraction panics or wraps, and that is not modelled.
- `Align.ChunkTransform`: the composition convention of the geometry library's `compose` is not part of this model, so the order is a parameter. The as-written contract states only what holds in both orders: the linear part is kept, and the identity is shifted by (-1, -1).
- The iterator implementation `src/chunking/iters.rs` is not part of this model. The windows are specified from three sources: the documentation of `ChunkWindow`, the fixed-padding and full-width documentation of the chunking module, and the rows that `test_simple` pins down.
- `Chunking.WindowAt`: two behaviours are assumed and not taken from any visible source. One is clipping a window at the raster's bottom edge (`Min(height, data end + padding)`). The other is saturating its start at row 0. Neither the `ChunkWindow` documentation nor `test_simple` reaches either edge. `Chunking.WindowsWithinRaster` and `Geometry.EmittedWindowsFitRaster` depend on the bottom clip. The `Chunking.Chunks` loop performs the same two steps.
- The builder's methods consume and return the builder. The model calls them as in-place methods on one object instead.
- Every public builder method requires `Valid(Config())`. That is the invariant the constructor establishes and every method keeps.
- Borrowing a configuration versus consuming it when iterating is not modelled: `Chunking.IterateTwice` iterates the same value twice.
- The accessors of `ChunkConfig` are the datatype's field destructors in the model and have no members of their own.
- `RasterWindow.NumPixels`, `RasterWindow.Offset` and `RasterWindow.Size` are stated through `Geometry.FromOffsetSize`, which is the only constructor of windows in the model.
- `RasterWindow::affine_transform` and the normalisation of the geometry library's rectangles are not modelled, because that library is not part of this model.
- The parallel iterators (`par_iters`), the GDAL readers and writers, and the error type are not modelled. They are I/O or concurrency.
- The ignored test `test_with_input` (`src/chunking/mod.rs:140-164`) is not modelled. It reads a chunk configuration from the environment variable `CHUNK_CONFIG` and only prints its windows.

## Findings

| source | as written | input that shows it | evidently intended | confidence | as-written member | corrected member |
|---|---|---|---|---|---|---|
| src/align.rs:63 | `transform` is composed with a translation by (-1, -1) before the first chunk's offset is mapped | the identity transform with `off_1 = off_2`: the residual is the translation by (-1, -1), and index (0, 0) is rejected | map a local index `p` to `transform(off_1 + p) - off_2`, as the derivation at lines 45-55 states; the identity alignment then gives the identity | medium, not executed | Align.ShiftedIdentityRejectsOrigin | Align.ChunkTransformIntended |
| src/geometry.rs:81-82 | the height of the rectangle is `third component - start`, which reads the row count as an end row; when the start exceeds the row count the `usize` subtraction underflows, e.g. for the window (50, 2) of `ChunkConfig(10, 100, 1, 2, 0, 50, 52)` | the second window (2, 15) of the 32 x 20 configuration with block size 2, padding 7 and end 10 becomes rows 2..15 instead of 2..17 | the height is the row count, per the comment at `src/chunking/mod.rs:109`; `read_chunk` at `src/gdal/readers.rs:56-61` sizes every chunk read through this conversion | high, not executed | Geometry.ChunkWindowConversionDropsRows | Geometry.FromChunkWindowRows |
