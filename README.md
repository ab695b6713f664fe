# BMPImage and BMPImageOptimized in Dafny

This project models a 24/32-bit Windows BMP processor that comes in two
near-identical C++ variants: `BMPImage` (WorkWithBMP.cpp/.h) and
`BMPImageOptimized` (WorkWithBMP_optimized.cpp/.h). Both variants have the
same parts:

- a descriptor that holds the 14-byte file header, the 40-byte info header, and the geometry fields `width`, `height`, `bitsPerPixel`, `rowSize`, `dataSize` and `path`;
- a container codec: `readHeaders`, `validateImage`, `calculateRowSize`, `getImageData` and `saveToFile`;
- clockwise and counter-clockwise rotation, and a 3×3 Gaussian blur;
- parallel forms of the three transforms.

The optimized variant adds two more things. It splits rows into chunks with
`calculateOptimalChunkSize`/`createWorkChunks`, and it keeps two
performance counters.

Files are byte sequences. A file system is a `map<string, seq<byte>>`.
Each parallel form is a sequential loop over its row chunks, and every chunk
goes through the same chunk worker. The central claim is proved for every
thread count, hardware concurrency and backend (OpenMP or `std::thread`):
each parallel form returns the same buffer and the same geometry as its
sequential form. There is one exception: the optimized filter on a two-row
image on the `std::thread` path. There the code divides by zero, and the
model uses the corrected split instead (see "## Findings").

Modules, in dependency order:

- `Native`: bytes, little-endian int32/int16 decoding and encoding, 32-bit wrap-around, and C++ truncating division.
- `Geometry`: `calculateRowSize`, the image `Shape` (stride and size), and the byte offset of a (row, column, channel) position and its inverse.
- `Partition`: row chunks, tilings, the worker count, `calculateOptimalChunkSize`, `createWorkChunks` (a loop), and the static `rowsPerThread` split.
- `Codec`: header decoding, validation, the pixel slice, the header patches, the palette, and the saved file layout. The save/load round trip is proved here.
- `Rotation`: `Rotated` specifies the rotated buffer. The array worker `RotateRows` (the nested y/x/c loops of `rotateClockwise` and `processChunkClockwise`, and their counter-clockwise twins) is proved against it, and so are the whole-buffer and chunked drivers.
- `Blur`: `Blurred` specifies the filtered buffer, with the kernel sum in sixteenths. The kernel loop, the row worker, and the whole-buffer and chunked drivers are proved against it.
- `Descriptor`: class `BmpImage`. It holds the descriptor state and every member the two variants share line for line, plus the original variant's parallel forms with their static split.
- `Optimized`: class `BmpImageOptimized`. It wraps a `BmpImage`, holding the descriptor state that the optimized class repeats. It adds the counters, the chunked parallel forms and the counted sequential transforms.

The getters (`GetWidth`, `GetHeight`, `GetBitsPerPixel`, `GetDataSize`,
`GetTotalOperations`, `GetParallelOperations`) only read fields. What they
return after a transform is stated by the transform's contract.

Two facts about the code that a reader might not expect:

- `createWorkChunks` is not bounded by the worker count: it can return more chunks than there are workers. `Partition.ChunksOutnumberThreads` shows at least 4n chunks once there are 8n rows.
- WorkWithBMP.cpp:313, 385, 457 and 541 define members that WorkWithBMP.h does not declare. The header lists only the sequential transforms, at WorkWithBMP.h:64-66. The model includes the members the .cpp file defines.

## Model

| member | source | states |
|---|---|---|
| Native.Wrap32 | WorkWithBMP.cpp:120-128 | the int32 a 32-bit store keeps: in int32 range, congruent to the value mod 2^32, the value itself when it fits |
| Native.TruncDiv | WorkWithBMP.cpp:62 | C++ `/`: the floor quotient for a non-negative dividend and positive divisor, the negated quotient of the magnitude for a negative dividend |
| Native.Int32At | WorkWithBMP.cpp:36-37 | the little-endian int32 read through `reinterpret_cast<int*>` is a signed 32-bit value |
| Native.Int16At | WorkWithBMP.cpp:38 | the little-endian `short` read of bits per pixel lies in [-32768, 32768) |
| Native.Int32AtLe32 | WorkWithBMP.cpp:128 | decoding the four bytes an int store writes gives back the stored value, wrapped to 32 bits |
| Native.Le32Int32At | WorkWithBMP.cpp:116-128 | re-storing a decoded int32 reproduces the four bytes it came from, so storing the unchanged data offset leaves bytes 10-13 as loaded |
| Geometry.RowSizeIsPaddedRow | WorkWithBMP.cpp:60-65 | the stride is a multiple of 4, at least width·(bpp/8), and less than that plus 4 |
| Geometry.RowSizeExamples | WorkWithBMP_optimized.cpp:62-67 | worked examples: 5 pixels at 24 bpp give a 16-byte stride, and 4 pixels give 12 |
| Geometry.Shape.Stride | WorkWithBMP.cpp:41 | for a walkable shape the stride holds a row of pixels, is at least 1 and is 4-aligned |
| Geometry.Shape.Size | WorkWithBMP.cpp:42 | dataSize = rowSize·height is at least one stride for a walkable shape |
| Geometry.PosOf | WorkWithBMP.cpp:220-221 | every buffer offset splits into row, column and channel with `row·rowSize + col·bpp + chan` equal to the offset and the row below the height |
| Geometry.PosOfOffset | WorkWithBMP.cpp:220-221 | the offset of every pixel byte is below dataSize, is a pixel byte, and splits back into that pixel |
| Partition.ThreadCount | WorkWithBMP.cpp:332-335 | a requested count ≥ 1 is used as is; otherwise the hardware concurrency, or 4 when that is 0; always ≥ 1 |
| Partition.OptimalChunkSize | WorkWithBMP_optimized.cpp:315-324 | the chunk size is ≥ 1, and for T ≥ 0 rows and n ≥ 1 workers it is max(1, T/(4n)) |
| Partition.StepsTile | WorkWithBMP_optimized.cpp:329-333 | the walk in steps of the chunk size tiles [0, T) with non-empty chunks no longer than the chunk size |
| Partition.CreateWorkChunks | WorkWithBMP_optimized.cpp:326-336 | the loop returns exactly the stepped chunks: consecutive, non-empty, each at most the chunk size, from 0 to T, and none when T ≤ 0 |
| Partition.ChunksOutnumberThreads | WorkWithBMP_optimized.cpp:315-336 | with n ≥ 1 workers and at least 8n rows there are at least 4n chunks, more than the workers |
| Partition.TilesCover | WorkWithBMP_optimized.cpp:329-333 | a tiling of [lo, hi) visits every row of the range |
| Partition.TilesWithin | WorkWithBMP_optimized.cpp:329-333 | every chunk of a tiling stays inside [lo, hi) |
| Partition.TilesOrdered | WorkWithBMP_optimized.cpp:329-333 | the chunks of a tiling come in row order and do not overlap |
| Partition.TilesDisjoint | WorkWithBMP_optimized.cpp:329-333 | no row lies in two chunks of a tiling |
| Partition.TilingCovers | WorkWithBMP_optimized.cpp:440-448 | a tiling covers every row and keeps every chunk in range, as the chunk runners need |
| Partition.StaticRangesTile | WorkWithBMP.cpp:355-359 | the per-thread ranges [t·⌊H/n⌋, (t+1)·⌊H/n⌋), the last ending at H, tile [0, H); when n > H all but the last are empty |
| Partition.StaticRangesOfMinusOne | WorkWithBMP.cpp:505-509 | for a one-row image the filter's per-thread ranges over height − 2 = −1 rows are all empty |
| Partition.ShiftedTiles | WorkWithBMP_optimized.cpp:562 | moving a tiling of [0, T) down one row gives a tiling of [1, T + 1), the rows the filter workers get |
| Partition.OneRowChunksTile | WorkWithBMP_optimized.cpp:433-436 | the OpenMP one-row tasks [y, y + 1) tile [0, H) |
| Codec.ValidateImage | WorkWithBMP.cpp:67-79 | passes exactly when width > 0, height > 0, bpp ∈ {24, 32} and dataSize > 0; otherwise it reports the first check that fails: dimensions, then format, then size |
| Codec.ValidateDerivedSize | WorkWithBMP.cpp:41-45 | with the derived dataSize, validation passes exactly when width ≥ 1, height ≥ 1 and bpp ∈ {24, 32}, and a passing shape is walkable |
| Codec.HeaderShape | WorkWithBMP.cpp:36-38 | the width and height read from info bytes 4-11 are signed 32-bit values, and the bits per pixel read from bytes 14-15 is a signed 16-bit value |
| Codec.LoadedShape | WorkWithBMP.cpp:18-46 | fewer than 14 bytes fail the file header, fewer than 54 fail the info header, and otherwise the decoded shape is accepted exactly when it validates |
| Codec.ImageBytes | WorkWithBMP.cpp:172-193 | fails to open when the file is missing and fails to allocate when dataSize < 0; otherwise succeeds exactly when dataSize bytes lie at the offset, and then returns exactly those bytes |
| Codec.Store32 | WorkWithBMP.cpp:121-128 | a store changes only the four bytes at i, which then decode to the wrapped value |
| Codec.StoreInt32 | WorkWithBMP.cpp:128 | the in-place store into a header array leaves it equal to Store32 of its old contents |
| Codec.CopyHeader | WorkWithBMP.cpp:108-113 | the header copy is a fresh array with the same bytes |
| Codec.PatchFileHeader | WorkWithBMP.cpp:115-128 | bytes 2-5 hold the loaded offset plus dataSize, which is 54 + palette + dataSize, wrapped to 32 bits; bytes 10-13 keep the loaded offset; bytes 0-1 and 6-9 are copied |
| Codec.PatchFileHeaderInPlace | WorkWithBMP.cpp:116-128 | the two stores into the copied file header give PatchFileHeader of it |
| Codec.PatchInfoHeader | WorkWithBMP.cpp:130-138 | info bytes 4-11 hold width and height, 16-19 hold 0, 20-23 hold dataSize, and every other byte is copied |
| Codec.PatchInfoHeaderInPlace | WorkWithBMP.cpp:131-138 | the four stores into the copied info header give PatchInfoHeader of it |
| Codec.SavedPalette | WorkWithBMP.cpp:150-160 | with a readable original and paletteSize > 0, the saved file keeps the loaded offset and is that offset plus dataSize bytes long; each byte from 54 up to the offset is the original's byte at that position, or 0 where the original file is shorter |
| Codec.SavedFile | WorkWithBMP.cpp:146-163 | the output is the patched file header, the patched info header, the palette, then exactly the pixel bytes |
| Codec.PaletteSource | WorkWithBMP.cpp:140-153 | the palette is read after the output is truncated, so saving over the loaded path reads an empty file, and a missing path gives none |
| Codec.SavedGeometryLoads | WorkWithBMP.cpp:18-46 | loading a saved file gives back the saved geometry and keeps the loaded data offset, whatever the palette |
| Codec.SaveLoadRoundTrip | WorkWithBMP.cpp:102-193 | when the loaded offset is exactly 54, or leaves room for a palette that was carried over, reading the saved file back returns its geometry and exactly the saved pixel buffer |
| Codec.LowOffsetReadsHeaders | WorkWithBMP.cpp:115-128 | a loaded offset below 54 is kept and no palette is written; reading the pixels back from a non-negative offset returns the saved header bytes first, and a negative offset fails with a short read |
| Codec.DroppedPaletteUnreadable | WorkWithBMP.cpp:151-163 | when the loaded path cannot be reopened, the palette is dropped but the offset still skips it, so reading the saved pixels back fails |
| Rotation.DestInPixels | WorkWithBMP.cpp:216-219 | every source pixel lands inside the turned image, so the guard `newX < width && newY < height` always holds, and the source mapping undoes it |
| Rotation.SourceInPixels | WorkWithBMP.cpp:251-254 | every destination pixel has exactly one source pixel |
| Rotation.SourceOffset | WorkWithBMP.cpp:220-221 | the read offset of a pixel byte of the new buffer is below the old dataSize |
| Rotation.Rotated | WorkWithBMP.cpp:208-211 | the rotated buffer has the new dataSize |
| Rotation.RotatedMapping | WorkWithBMP.cpp:213-225 | clockwise, source (x, y) channel c lands at (y, oldW − 1 − x); counter-clockwise at (oldH − 1 − y, x) |
| Rotation.RotatedUnwrittenZero | WorkWithBMP.cpp:211 | a byte no source pixel is written to stays zero |
| Rotation.TurnBack | WorkWithBMP.cpp:195-263 | rotating back the other way restores the geometry and every pixel byte, with padding zeroed |
| Rotation.RotateRows | WorkWithBMP_optimized.cpp:338-372 | the worker writes exactly the bytes of rows [startY, endY) to their rotated values and leaves every other destination byte as it was |
| Rotation.RotateBuffer | WorkWithBMP.cpp:210-227 | the zeroed destination, filled over every row, is the rotated buffer |
| Rotation.RotateChunked | WorkWithBMP_optimized.cpp:438-452 | running the worker over the chunks fills exactly the rows they cover; when every row is covered the result is the sequential rotation |
| Blur.Clamp | WorkWithBMP.cpp:298-299 | for the real sum sum16/16: 0 when it is negative, 255 when it exceeds 255, and otherwise its floor, which is the truncating cast |
| Blur.Blurred | WorkWithBMP.cpp:278-281 | the filtered buffer has the input's length |
| Blur.WeightsSumTo16 | WorkWithBMP.cpp:271-275 | the kernel weights add up to 16 |
| Blur.KernelPrefixBounds | WorkWithBMP.cpp:289-295 | each partial kernel sum lies between 0 and 255 times its weights |
| Blur.BlurredNeedsNoClamp | WorkWithBMP.cpp:296-299 | an interior byte is exactly ⌊Σw·p/16⌋ and never needs the clamp |
| Blur.WeightedSumTerms | WorkWithBMP.cpp:289-295 | the sum is the nine weighted neighbours of the original input, weights 1 2 1 / 2 4 2 / 1 2 1 |
| Blur.UniformPrefix | WorkWithBMP.cpp:289-295 | over a uniform neighbourhood each partial sum is the value times its weights |
| Blur.FlatNeighbourhoodUnchanged | WorkWithBMP.cpp:284-299 | a byte whose neighbourhood is flat keeps its value |
| Blur.BorderUnchanged | WorkWithBMP.cpp:280-285 | rows 0 and height − 1, columns 0 and width − 1, and the padding keep their input values |
| Blur.KernelSum | WorkWithBMP.cpp:287-295 | the ky/kx loop computes the weighted sum of the input neighbourhood |
| Blur.BlurRows | WorkWithBMP_optimized.cpp:374-401 | the worker sets the interior bytes of rows [startY, endY) to their filtered values and leaves every other byte as it was |
| Blur.BlurBuffer | WorkWithBMP.cpp:278-304 | the copy, filtered over rows 1 .. height − 2, is the blurred buffer |
| Blur.BlurChunked | WorkWithBMP_optimized.cpp:556-566 | interior bytes of covered rows are filtered and all others copied; when every interior row is covered the result is the sequential filter |
| Descriptor.BmpImage.constructor | WorkWithBMP.cpp:11-16 | zeroed header arrays of 14 and 40 bytes (the blobs declared at WorkWithBMP.h:25-26), zero geometry, empty path |
| Descriptor.BmpImage.ReadySize | WorkWithBMP.cpp:41-42 | for a consistent descriptor, rowSize and dataSize are the shape's stride and size |
| Descriptor.BmpImage.LoadFromFile | WorkWithBMP.cpp:18-96 | records the path first; a missing file fails and leaves everything else alone; short reads overwrite only the bytes delivered; fields are set before validation; the outcome is LoadedShape's |
| Descriptor.BmpImage.SetPath | WorkWithBMP.cpp:98-100 | replaces the path and nothing else |
| Descriptor.BmpImage.SaveToFile | WorkWithBMP.cpp:102-170 | a size mismatch fails before anything is written; otherwise the file system gains exactly SavedFile of the current headers, geometry, palette source and data |
| Descriptor.BmpImage.GetImageData | WorkWithBMP.cpp:172-193 | returns exactly dataSize bytes at the header's offset in the file at the path, or fails when they are not all there |
| Descriptor.BmpImage.TurnGeometry | WorkWithBMP.cpp:206-208 | width and height swap, and rowSize/dataSize are derived again |
| Descriptor.BmpImage.Rotate | WorkWithBMP.cpp:195-263 | a size mismatch fails with every field unchanged; otherwise the geometry turns and the result is the rotated buffer, of the new dataSize |
| Descriptor.BmpImage.ApplyGaussianFilter | WorkWithBMP.cpp:265-305 | a size mismatch fails; otherwise the result is the blurred buffer and the geometry is untouched |
| Descriptor.BmpImage.StaticRotationChunks | WorkWithBMP.cpp:337-359 | OpenMP's rows and the per-thread ranges both tile [0, oldHeight) |
| Descriptor.BmpImage.StaticFilterChunks | WorkWithBMP.cpp:481-509 | OpenMP's rows and the per-thread ranges stay inside and cover rows [1, height − 1), for every height |
| Descriptor.BmpImage.RotateParallel | WorkWithBMP.cpp:313-455 | the same error, geometry and buffer as the sequential rotation, for every thread count and backend |
| Descriptor.BmpImage.ApplyGaussianFilterParallel | WorkWithBMP.cpp:457-539 | the same error and buffer as the sequential filter, for every height, thread count and backend |
| Optimized.WorkerCount | WorkWithBMP_optimized.cpp:428 | the thread count capped by the rows to process: between 1 and the rows when there is at least one row, and the row count itself otherwise |
| Optimized.TwoRowFilterHasNoWorkers | WorkWithBMP_optimized.cpp:545-546 | for a two-row image the filter's worker count is 0 |
| Optimized.FilterChunks | WorkWithBMP_optimized.cpp:545-562 | createWorkChunks over height − 2 rows moved down a row, which stays inside and covers [1, height − 1); no chunks and no chunk size when height ≤ 2 |
| Optimized.BmpImageOptimized.constructor | WorkWithBMP_optimized.cpp:13-18 | a zeroed descriptor with both counters at 0 (the counters declared at WorkWithBMP_optimized.h:49-50) |
| Optimized.BmpImageOptimized.Rotate | WorkWithBMP_optimized.cpp:198-268 | the shared rotation; a success adds 1 to the operation count, and the parallel count is unchanged |
| Optimized.BmpImageOptimized.ApplyGaussianFilter | WorkWithBMP_optimized.cpp:270-311 | the shared filter; a success adds 1 to the operation count, and the parallel count is unchanged |
| Optimized.BmpImageOptimized.RotateParallel | WorkWithBMP_optimized.cpp:403-525 | the sequential rotation's error, geometry and buffer for every thread count and backend; a success adds 1 to both counters |
| Optimized.BmpImageOptimized.ApplyGaussianFilterParallel | WorkWithBMP_optimized.cpp:527-580 | the sequential filter's error and buffer for every height, thread count and backend, except the two-row `std::thread` case: there the code divides by zero, and the model uses the corrected FilterChunks (see "## Findings"); a success adds 1 to both counters |
| Optimized.BmpImageOptimized.ResetPerformanceCounters | WorkWithBMP_optimized.cpp:583-586 | both counters become 0 |
| Optimized.BmpImageOptimized.GetParallelEfficiency | WorkWithBMP_optimized.cpp:588-594 | 0 with no operations; otherwise the ratio parallel/total, which lies in [0, 1] |

## Left out

- File I/O: streams, `seekg` and `gcount` are replaced by byte sequences in a file-system map. Failing to create the output file (WorkWithBMP.cpp:141-143) is not modelled, and neither are stream errors during writing.
- Threads, OpenMP, `join` and atomics: each parallel form runs its chunks one after another. OpenMP's `collapse(2)` and `schedule(dynamic)` loops become one-row chunks, and the counters are plain fields.
- `std::thread::hardware_concurrency()` is a parameter of the parallel members.
- Under OpenMP, the optimized filter passes `num_threads(0)` or `num_threads(-1)` for images of at most two rows (WorkWithBMP_optimized.cpp:546-551). The loop then has no iterations, and the model does not give that argument a meaning.
- Floating point: the `float` kernel is replaced by integer weights in sixteenths, and the sum is truncated to ⌊Σw·p/16⌋. Each weighted term and partial sum is a multiple of 1/16 below 4096, which a `float` holds exactly, so the truncating cast gives the same byte.
- `GetParallelEfficiency` returns the exact rational ratio instead of a `double`.
- Timing, console output and the benchmark members (WorkWithBMP_optimized.cpp:601-702) are left out.
- `calculateMemoryUsage` is left out, because it depends on the compiler's `sizeof`.
- `processImageParallel`, `processImagePipeline` and the unused `writeHeaders` are left out. main.cpp and main_optimized.cpp are not part of this model.
- Transforms on a descriptor whose geometry is not consistent and walkable are left out. `Ready()` is required: width ≥ 1, height ≥ 1, bits per pixel ≥ 8, and the derived sizes. Every successful load establishes it.
- `int` overflow in the offsets: the geometry uses mathematical integers. Only the values stored into the headers wrap to 32 bits.
- Codec.SaveLoadRoundTrip: the pixel round trip does not hold when the loaded data offset is below 54. readHeaders and validateImage (WorkWithBMP.cpp:18-79) never check the offset, and saveToFile keeps it (lines 115-128). `Codec.LowOffsetReadsHeaders` shows what then comes back: header bytes, or a short read. A dropped palette also breaks the round trip, as `Codec.DroppedPaletteUnreadable` shows.
- Codec.ValidateDerivedSize: the `int` products `width * bytesPerPixel` (WorkWithBMP.cpp:63) and `rowSize * height` (WorkWithBMP.cpp:42) are computed without wrap-around. The model therefore never reaches the `dataSize <= 0` rejection (WorkWithBMP.cpp:76), which the program does reach on wrap-around: width 0x40000000 at 32 bpp wraps rowSize to 0. `Codec.LoadedShape` accepts such a shape.
- Optimized.BmpImageOptimized.ApplyGaussianFilterParallel: for a two-row image on the `std::thread` path, the code divides by zero in `calculateOptimalChunkSize` (WorkWithBMP_optimized.cpp:318). The model does not reproduce that fault. It uses the corrected `Optimized.FilterChunks` and returns the sequential result (see "## Findings").
- Copy and move of the descriptor (WorkWithBMP.h:50-55) are not modelled. A descriptor is one object reference.
- Descriptor.BmpImage.constructor: its contract gives the zero fields but does not state the derived-size consistency, which holds trivially for all-zero fields.
- Descriptor.BmpImage.SaveToFile: a palette read that fails partway is modelled as a short read that leaves zeros. The palette length itself is not checked, as in the code.
- `BMPImageOptimized` repeats the descriptor state and the load/save/read/setPath members of `BMPImage` line for line. These are readHeaders, loadFromFile, setPath, saveToFile and getImageData at WorkWithBMP_optimized.cpp:20-195, and the getters at WorkWithBMP_optimized.h:118-121. `Optimized.BmpImageOptimized` therefore holds a `BmpImage` and uses its members, rather than restating them.

## Findings

| source | as written | input that shows it | evidently intended | confidence | as-written member | corrected member |
|---|---|---|---|---|---|---|
| WorkWithBMP_optimized.cpp:545-558 | `numThreads = min(numThreads, height - 2)`, then `createWorkChunks(workHeight, numThreads)` | a valid 2-row image on the `std::thread` path: `numThreads` becomes 0, and `calculateOptimalChunkSize` evaluates `0 / 0` (line 318) | an image with no interior rows has nothing to split, so no chunk size is computed and the filter returns the copy | not executed | Optimized.TwoRowFilterHasNoWorkers | Optimized.FilterChunks |
