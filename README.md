# Broadcast benchmark and parallel Julia renderer, modelled in Dafny

This project models the core of two MPI teaching programs and proves properties of the model.

**`bcast_skeleton.c`** benchmarks six ways of broadcasting a 100,000,000-byte buffer from rank 0 to every rank. The model covers:
- the argument checks;
- the root's fill loop and 32-bit checksum;
- five broadcast strategies (naive, ring, pipelined ring, asynchronous pipelined ring, asynchronous pipelined binary tree), replayed as a sequential simulation over one `array<int8>` per rank;
- the chunk loop that cuts the buffer into `chunk_size` pieces and overwrites `chunk_size` on the last piece;
- the checksum each non-root rank computes;
- the root's comparison of the checksums it receives.

Every strategy is proved to leave every rank's buffer equal to the root's buffer, and to end with the `chunk_size` the root reports.

**`1D_parallel_julia.c`** renders a Julia-set image of `2*height` by `height` pixels. Each rank computes a band of rows. Rank 0 writes a BMP header, then the ranks append their rows in rank order. The model covers:
- the row decomposition, done with C's truncating `/` and `%`;
- the pixel guard of `compute_julia_pixel`;
- the layout of a rank's buffer;
- the loops that fill the buffer and the loops that write it out;
- `write_bmp_header`, as a little-endian encoder with a decoder beside it;
- the whole output file, as a byte sequence;
- beside it, the file the program evidently means to write: balanced row ranges, padding once per row, and a header whose file size matches the file.

Modules:
- `CInts`: C integer semantics (signed `char`, wrapping 32-bit `int`, `unsigned int`, truncating division) and arithmetic lemmas.
- `Chunks`: the chunk loop and its reference plan.
- `Topology`: ring and binary-tree neighbours.
- `Checksums`: the checksum loops and the root's collection loop.
- `Broadcast`: the strategies and their dispatch.
- `Harness`: one run of `main`.
- `Bmp`: the BMP header.
- `Julia`: rows, pixels, and the fill and write loops.
- `JuliaFile`: one rank's output and the whole file.
- `Wrappers`: `Option` and `Result`.

## Model

| member | source | states |
|---|---|---|
| CInts.Wrap32 | ics632/tutorial_sim_grid/topic2/bcast_skeleton.c:125 | The 32-bit `int` accumulator: the result is congruent to the exact value modulo 2^32 and lies in the `int` range. |
| CInts.Wrap32Add | ics632/tutorial_sim_grid/topic2/bcast_skeleton.c:244-246 | Wrapping after every addition gives the same value as wrapping the exact sum once. |
| CInts.U32 | ics632/tutorial_sim_grid/topic1/1D_parallel_julia.c:83-95 | Conversion to `unsigned int`: a value in range, congruent to its argument modulo 2^32. |
| CInts.ToSignedChar | ics632/tutorial_sim_grid/topic2/bcast_skeleton.c:124 | `(char)` of a value in 0..255 is the congruent signed byte. |
| CInts.CDiv | ics632/tutorial_sim_grid/topic1/1D_parallel_julia.c:142-143 | C's `/` truncates toward zero: quotient times divisor lies between zero and the dividend (inclusive), less than one divisor away from the dividend. |
| CInts.CDivNegate | ics632/tutorial_sim_grid/topic1/1D_parallel_julia.c:142-143 | Truncating division is symmetric about zero: negating the dividend negates the quotient. |
| CInts.CRem | ics632/tutorial_sim_grid/topic1/1D_parallel_julia.c:141 | C's `%`: dividend = quotient * divisor + remainder, and the remainder takes the dividend's sign. |
| Chunks.PlanChunks | ics632/tutorial_sim_grid/topic2/bcast_skeleton.c:174-177 | The loop `for (j...; j += chunk_size) if (j > NUM_BYTES - chunk_size) chunk_size = NUM_BYTES % chunk_size;` visits exactly the chunks of the reference plan, in order, and leaves `chunk_size` at `FinalChunkSize`. |
| Chunks.LoopStep | ics632/tutorial_sim_grid/topic2/bcast_skeleton.c:174-175 | One iteration with the in-place update of `chunk_size` consumes the plan's first remaining chunk and keeps the loop state consistent. |
| Chunks.PlanFromAt | ics632/tutorial_sim_grid/topic2/bcast_skeleton.c:174-175 | Closed form of the plan: chunk i starts at j + i*c, and its length is c or whatever bytes remain. |
| Chunks.PlanFromLength | ics632/tutorial_sim_grid/topic2/bcast_skeleton.c:174 | The plan has ceil((total - j) / c) chunks. |
| Chunks.PlanFromSum | ics632/tutorial_sim_grid/topic2/bcast_skeleton.c:174-176 | The chunk lengths add up to the bytes left to send. |
| Chunks.PlanOffset | ics632/tutorial_sim_grid/topic2/bcast_skeleton.c:176 | Chunk i is sent from `buffer + i*c`, and every chunk except the last is c bytes long. |
| Chunks.PlanLast | ics632/tutorial_sim_grid/topic2/bcast_skeleton.c:175 | The last chunk has the length that `chunk_size` keeps after the loop: `NUM_BYTES % c`, or c when c divides `NUM_BYTES`. |
| Chunks.PlanShape | ics632/tutorial_sim_grid/topic2/bcast_skeleton.c:174-177 | The plan has NumChunks chunks at offsets 0, c, 2c, …; all but the last are full, the last has FinalChunkSize bytes, and together they cover the whole buffer. |
| Chunks.PlanTiles | ics632/tutorial_sim_grid/topic2/bcast_skeleton.c:174-176 | Each byte t of the buffer is sent in chunk t / c and in no other chunk. |
| Chunks.PlanIncreasing | ics632/tutorial_sim_grid/topic2/bcast_skeleton.c:174 | The chunks are disjoint and in increasing order of offset. |
| Chunks.PlanSingleChunk | ics632/tutorial_sim_grid/topic2/bcast_skeleton.c:67 | With the default chunk size (`NUM_BYTES`), or any larger one, the whole buffer goes as one message and `chunk_size` ends at `NUM_BYTES`. |
| Topology.RingForwardAsWritten | ics632/tutorial_sim_grid/topic2/bcast_skeleton.c:164-170 | The ring's send decision as coded: the root always sends to rank 1, whatever the group size; any other rank sends to rank + 1 unless it is the last rank. |
| Topology.RingRootSendsOutsideGroup | ics632/tutorial_sim_grid/topic2/bcast_skeleton.c:164-165 | With one process, the root sends to rank 1, which does not exist. |
| Topology.RingForward | ics632/tutorial_sim_grid/topic2/bcast_skeleton.c:164-170 | Corrected decision: rank + 1 exactly when that is a rank; the last rank never sends. |
| Topology.RingForwardMatches | ics632/tutorial_sim_grid/topic2/bcast_skeleton.c:164-170 | With two or more ranks the corrected decision equals the code's, and each non-root rank is the successor of its predecessor. |
| Topology.Children | ics632/tutorial_sim_grid/topic2/bcast_skeleton.c:211-216 | The tree children are `2r+1` and `2r+2`, each present exactly when it is below `num_procs`. |
| Topology.ParentOfChild | ics632/tutorial_sim_grid/topic2/bcast_skeleton.c:209-215 | The receive source `(rank-1)/2` of a child is the rank that sends to it. |
| Topology.UniqueParent | ics632/tutorial_sim_grid/topic2/bcast_skeleton.c:208-216 | A non-root rank is a child of p if and only if p is its parent, and its parent is a smaller rank. |
| Topology.RootHasNoParent | ics632/tutorial_sim_grid/topic2/bcast_skeleton.c:208-216 | Rank 0 is nobody's child, and a rank whose left child is out of range sends nothing. |
| Checksums.Checksum | ics632/tutorial_sim_grid/topic2/bcast_skeleton.c:243-246 | The non-root checksum loop returns the wrapped sum of the buffer's signed bytes, congruent to the exact sum modulo 2^32. |
| Checksums.FillRoot | ics632/tutorial_sim_grid/topic2/bcast_skeleton.c:120-127 | The root's loop stores `(char)(random() % 256)` in each byte and returns the checksum of the filled buffer. |
| Checksums.ByteSumUpdate | ics632/tutorial_sim_grid/topic2/bcast_skeleton.c:244-246 | Changing one byte changes the exact sum by the difference between the new and old byte. |
| Checksums.SingleByteCorruptionDetected | ics632/tutorial_sim_grid/topic2/bcast_skeleton.c:236 | Changing one byte always changes the checksum, and leaving it alone never does. |
| Checksums.CollectChecksums | ics632/tutorial_sim_grid/topic2/bcast_skeleton.c:228-241 | `all_ok` stays 1 exactly when every received checksum matches. The loop receives exactly `ReceivedFrom(0)` checksums: on a mismatch it stops at that message (the `break`), although the comment above it promises to keep receiving. Before that message, every message matched. |
| Checksums.BreakLeavesChecksumsUnreceived | ics632/tutorial_sim_grid/topic2/bcast_skeleton.c:232-238 | When the first checksum to arrive mismatches and another rank is still to report, the loop receives one checksum and leaves the others unreceived. |
| Checksums.CollectAllChecksums | ics632/tutorial_sim_grid/topic2/bcast_skeleton.c:228-241 | The loop the comment describes: it receives every checksum, and `all_ok` stays 1 exactly when they all match. |
| Broadcast.ParseAlgorithm | ics632/tutorial_sim_grid/topic2/bcast_skeleton.c:85-94 | A name is accepted only if it is one of the literals, and it then denotes the algorithm with that name. |
| Broadcast.AcceptsExactlySixNames | ics632/tutorial_sim_grid/topic2/bcast_skeleton.c:85-90 | Exactly the six names are accepted, and each algorithm is found again from its name. |
| Broadcast.SelectAlgorithm | ics632/tutorial_sim_grid/topic2/bcast_skeleton.c:78-94 | A missing argument aborts with the missing-name error, and an unknown name with the unknown-name error. Otherwise the algorithm named by `argv[1]` is selected. |
| Broadcast.HoldsAll | ics632/tutorial_sim_grid/topic2/bcast_skeleton.c:153-221 | Once every rank holds all of the root's bytes, every buffer equals the root's buffer. |
| Broadcast.Transfer | ics632/tutorial_sim_grid/topic2/bcast_skeleton.c:158-161 | A matched send and receive copies bytes [j, j+len) of the sender into the same place in the receiver, and changes nothing else. |
| Broadcast.NaiveBcast | ics632/tutorial_sim_grid/topic2/bcast_skeleton.c:155-162 | The root sends the whole buffer to ranks 1..N-1, after which every buffer equals the root's original buffer. |
| Broadcast.RingPass | ics632/tutorial_sim_grid/topic2/bcast_skeleton.c:164-170 | One slice travels down the ring, in rank order. Afterwards every rank holds the root's bytes up to the end of that slice, the root's buffer is unchanged, and no rank's bytes outside the slice change. |
| Broadcast.RingBcast | ics632/tutorial_sim_grid/topic2/bcast_skeleton.c:163-171 | After ring_bcast every buffer equals the root's original buffer. |
| Broadcast.PipelinedRingBcast | ics632/tutorial_sim_grid/topic2/bcast_skeleton.c:172-186 | The chunked ring leaves every buffer equal to the root's original buffer and returns the final `chunk_size`. |
| Broadcast.AsyncRingRank | ics632/tutorial_sim_grid/topic2/bcast_skeleton.c:194-202 | One rank's own chunk loop in the asynchronous ring passes all of its bytes to its successor, and leaves every other rank's buffer unchanged. |
| Broadcast.AsyncPipelinedRingBcast | ics632/tutorial_sim_grid/topic2/bcast_skeleton.c:187-203 | The asynchronous chunked ring leaves every buffer equal to the root's original buffer and returns the final `chunk_size`. |
| Broadcast.AsyncPipelinedBintreeBcast | ics632/tutorial_sim_grid/topic2/bcast_skeleton.c:204-218 | The chunked binary-tree broadcast leaves every buffer equal to the root's original buffer and returns the final `chunk_size`. |
| Broadcast.Dispatch | ics632/tutorial_sim_grid/topic2/bcast_skeleton.c:153-221 | The selected strategy leaves every buffer equal to the root's original buffer, and `chunk_size` is the value the root reports. |
| Harness.Benchmark | ics632/tutorial_sim_grid/topic2/bcast_skeleton.c:64-264 | A bad argument fails with its usage error and leaves the buffers untouched. Otherwise, for any arrival order that delivers each non-root rank's checksum once, every rank ends holding the root's random bytes, the checksums all match, and the report names the algorithm and the final `chunk_size`. |
| Bmp.FromLEOfLE | ics632/tutorial_sim_grid/topic1/1D_parallel_julia.c:104-118 | Reading back n little-endian bytes gives the value written, whenever it fits. |
| Bmp.LEOfFromLE | ics632/tutorial_sim_grid/topic1/1D_parallel_julia.c:104-118 | Re-encoding the value read from some bytes reproduces those bytes. |
| Bmp.EmitAt | ics632/tutorial_sim_grid/topic1/1D_parallel_julia.c:103-118 | In a run of objects written one after another, object k occupies the bytes after the sizes of the objects before it. |
| Bmp.FieldBytes | ics632/tutorial_sim_grid/topic1/1D_parallel_julia.c:104-118 | With the header's object sizes, object k lies at its fixed header offset, and the run is 54 bytes long. |
| Bmp.HeaderLayout | ics632/tutorial_sim_grid/topic1/1D_parallel_julia.c:86-121 | The header is 17 objects in 54 bytes, each field little-endian at its offset: "BM" at 0, file size at 2, offset at 10, width at 18, and so on. |
| Bmp.ReadHeaderField | ics632/tutorial_sim_grid/topic1/1D_parallel_julia.c:104-118 | Each object of an encoded header reads back as the value written there. |
| Bmp.DecodeHeader | ics632/tutorial_sim_grid/topic1/1D_parallel_julia.c:86-118 | A header is decoded only from 54 bytes that start with "BM". |
| Bmp.DecodeEncode | ics632/tutorial_sim_grid/topic1/1D_parallel_julia.c:86-118 | Every header decodes back to itself after encoding. |
| Bmp.EncodeDecode | ics632/tutorial_sim_grid/topic1/1D_parallel_julia.c:86-118 | Bytes that decode to a header are exactly that header's encoding. |
| Bmp.EncodeInjective | ics632/tutorial_sim_grid/topic1/1D_parallel_julia.c:86-118 | Two different headers never produce the same bytes. |
| Bmp.AdjustedWidthRoundsUp | ics632/tutorial_sim_grid/topic1/1D_parallel_julia.c:83 | `adjusted_width` is the least multiple of 4 that is at least `width`. |
| Bmp.MakeHeaderBytes | ics632/tutorial_sim_grid/topic1/1D_parallel_julia.c:86-110 | The written header starts with "BM". The pixel data offset 54, the info size 40, the width and height (as 32-bit two's-complement patterns, for every `int`), one plane and 24 bits each sit little-endian at their byte offsets. |
| Bmp.MakeHeaderZeroBytes | ics632/tutorial_sim_grid/topic1/1D_parallel_julia.c:88-121 | The bytes of the reserved words, the compression, the resolutions and the colour counts are all zero in the written header. |
| Bmp.MakeHeaderSizes | ics632/tutorial_sim_grid/topic1/1D_parallel_julia.c:83-95 | `image_size` is `width*height*3` and `filesize` is `54 + adjusted_width*height*3`. The file size covers the image size, and exceeds it by exactly 54 precisely when the width is a multiple of 4 or the height is 0. |
| Bmp.PaddedImageBytes | ics632/tutorial_sim_grid/topic1/1D_parallel_julia.c:87-95 | Rows rounded up to a multiple of 4 pixels hold at least as many bytes as unpadded rows, and the same number exactly when no rounding occurred. |
| Bmp.PixelDataFollowsHeader | ics632/tutorial_sim_grid/topic1/1D_parallel_julia.c:89 | The stored pixel-data offset equals the header's encoded length. |
| Julia.RowRangeNonNegative | ics632/tutorial_sim_grid/topic1/1D_parallel_julia.c:141-143 | For non-negative operands, C's `start` and `stop` are `Share(r)` and `Share(r+1) + [r < remainder] - 1`. |
| Julia.ShareMono | ics632/tutorial_sim_grid/topic1/1D_parallel_julia.c:142 | `k*height/num_procs` does not decrease as k grows. |
| Julia.ShareAll | ics632/tutorial_sim_grid/topic1/1D_parallel_julia.c:143 | The last rank's share ends at `height`. |
| Julia.ShareBelow | ics632/tutorial_sim_grid/topic1/1D_parallel_julia.c:142 | A share below `num_procs` starts before `height`. |
| Julia.RowRangeInImage | ics632/tutorial_sim_grid/topic1/1D_parallel_julia.c:141-149 | Every rank's rows lie within the image, and its row count (the first `calloc` factor) is never negative. |
| Julia.RowRangesOverlap | ics632/tutorial_sim_grid/topic1/1D_parallel_julia.c:141-143 | A rank below the remainder ends on the row its successor starts with, so that row is computed by both whenever the successor has rows. |
| Julia.TenRowsOnThreeRanks | ics632/tutorial_sim_grid/topic1/1D_parallel_julia.c:141-143 | For height 10 on 3 ranks the ranges are 0-3, 3-5 and 6-9. |
| Julia.AssignedRowsTotal | ics632/tutorial_sim_grid/topic1/1D_parallel_julia.c:141-149 | Ranks 0..k-1 compute `Share(k) + min(k, height % num_procs)` rows, so all ranks together compute `height + height % num_procs` rows. |
| Julia.BalancedRowsContiguous | ics632/tutorial_sim_grid/topic1/1D_parallel_julia.c:141-143 | The corrected ranges start at row 0 and end at row `height - 1`. Each starts right after its predecessor ends, and none has a negative size. |
| Julia.BalancedRowsCover | ics632/tutorial_sim_grid/topic1/1D_parallel_julia.c:141-143 | Every row below `Share(k)` belongs to one of the first k corrected ranges. |
| Julia.BalancedRowsDisjoint | ics632/tutorial_sim_grid/topic1/1D_parallel_julia.c:141-143 | No row belongs to two corrected ranges. |
| Julia.BalancedRowsPartition | ics632/tutorial_sim_grid/topic1/1D_parallel_julia.c:141-143 | The corrected ranges partition the rows: each row of the image has exactly one rank. |
| Julia.RowRangeBalancedWhenDivisible | ics632/tutorial_sim_grid/topic1/1D_parallel_julia.c:141-143 | When `num_procs` divides `height`, the program's ranges equal the corrected ones. |
| Julia.PixelGuard | ics632/tutorial_sim_grid/topic1/1D_parallel_julia.c:32-35 | The guard of `compute_julia_pixel` never refuses a pixel the fill loops of lines 152-156 ask for. Every column of every row in a rank's range is painted with its own colour, with status 0. |
| Julia.PixelIndexInBuffer | ics632/tutorial_sim_grid/topic1/1D_parallel_julia.c:149-155 | `y*3*width + x*3 + k` lies within the `count*width*3`-byte buffer for every pixel of the rank's rows. |
| Julia.PixelAtIndex | ics632/tutorial_sim_grid/topic1/1D_parallel_julia.c:155 | Decoding the byte position of (y, x, k) gives back (y, x, k). |
| Julia.IndexOfPixelAt | ics632/tutorial_sim_grid/topic1/1D_parallel_julia.c:155 | Every byte position decodes to a pixel inside the row and a channel 0..2, and that pixel's index is the position itself. |
| Julia.PixelIndexInjective | ics632/tutorial_sim_grid/topic1/1D_parallel_julia.c:155 | Different colour bytes never share a buffer position. |
| Julia.RankPixelsAt | ics632/tutorial_sim_grid/topic1/1D_parallel_julia.c:149-157 | In the reference buffer, byte `y*3*width + x*3 + k` is colour byte k of pixel (x, start+y), or 0 when the pixel is refused. |
| Julia.ExpectedByteAt | ics632/tutorial_sim_grid/topic1/1D_parallel_julia.c:155 | The reference byte at a pixel's position is that pixel's colour byte. |
| Julia.ComputeRow | ics632/tutorial_sim_grid/topic1/1D_parallel_julia.c:154-156 | The inner loop fills row y with its final bytes and leaves the later bytes as zeros from `calloc`. |
| Julia.ComputeRows | ics632/tutorial_sim_grid/topic1/1D_parallel_julia.c:149-157 | The `calloc` and the nested loops produce exactly the reference buffer of the rank's rows. |
| Julia.PixelsAsWrittenLength | ics632/tutorial_sim_grid/topic1/1D_parallel_julia.c:180-188 | Every pixel written takes `3 + pad` bytes of the file. |
| Julia.PixelsAsWrittenAt | ics632/tutorial_sim_grid/topic1/1D_parallel_julia.c:180-188 | In the bytes as written, pixel i occupies the `3 + pad` bytes from `i*(3+pad)`: its three colour bytes, then `pad` zero bytes. |
| Julia.WriteRow | ics632/tutorial_sim_grid/topic1/1D_parallel_julia.c:181-187 | The inner write loop appends the row's pixels, each followed by its padding, continuing the rank's written bytes. |
| Julia.WriteRows | ics632/tutorial_sim_grid/topic1/1D_parallel_julia.c:178-188 | The write loops append all `count*width` pixels, each followed by `(width*3) % 4` zero bytes. |
| Julia.OddHeightRowsMisaligned | ics632/tutorial_sim_grid/topic1/1D_parallel_julia.c:184-186 | For an odd height, every pixel gets two padding bytes, and a written row is `10*height` bytes, which is never a multiple of 4. |
| Julia.OnePixelRowWritten | ics632/tutorial_sim_grid/topic1/1D_parallel_julia.c:180-188 | For a 2x1 image the row is written as 3+2+3+2 = 10 bytes, where a BMP row is 8. |
| Julia.RowPad | ics632/tutorial_sim_grid/topic1/1D_parallel_julia.c:184-186 | The corrected padding: fewer than 4 bytes, and it brings a row to a multiple of 4. |
| Julia.PaddedRows | ics632/tutorial_sim_grid/topic1/1D_parallel_julia.c:178-188 | Corrected write-out: n rows, each followed by its padding; the length is `n * Stride(width)`. |
| Julia.PaddedRowsLayout | ics632/tutorial_sim_grid/topic1/1D_parallel_julia.c:178-188 | In the corrected output the stride is a multiple of 4, and colour byte k of pixel (x, y) is at `y*Stride + 3x + k`. |
| Julia.PaddedRowsPadding | ics632/tutorial_sim_grid/topic1/1D_parallel_julia.c:184-186 | In the corrected output, the bytes after each row's pixels are zero. |
| JuliaFile.RenderRank | ics632/tutorial_sim_grid/topic1/1D_parallel_julia.c:138-188 | One rank computes its row range and fills its buffer. Every byte is painted, since the rows lie within the image. The bytes it appends are its rows as written. |
| JuliaFile.RankBytesLength | ics632/tutorial_sim_grid/topic1/1D_parallel_julia.c:180-188 | A rank appends `count * RowBytes(2*height)` bytes. |
| JuliaFile.RanksAsWrittenLength | ics632/tutorial_sim_grid/topic1/1D_parallel_julia.c:173-195 | The appends of ranks 0..k-1, made in token order, total their assigned rows times the row size. |
| JuliaFile.FileLength | ics632/tutorial_sim_grid/topic1/1D_parallel_julia.c:165-195 | The file is 54 header bytes followed by `(height + height % num_procs)` rows of `2*height` pixels, each pixel taking `3 + pad` bytes. |
| JuliaFile.FileHeader | ics632/tutorial_sim_grid/topic1/1D_parallel_julia.c:165-172 | The file's first 54 bytes decode to the header of a `2*height` x `height` image with 24 bits per pixel and pixel data at byte 54. |
| JuliaFile.EvenHeightUnpadded | ics632/tutorial_sim_grid/topic1/1D_parallel_julia.c:83 | For an even height no pixel is padded, and `adjusted_width` is the width itself. |
| JuliaFile.FileSizeMatchesHeader | ics632/tutorial_sim_grid/topic1/1D_parallel_julia.c:81-122 | For an even height divisible by `num_procs`, the header's file size equals the file's length. |
| Julia.StrideAligned | ics632/tutorial_sim_grid/topic1/1D_parallel_julia.c:184-186 | A corrected row is the fewest whole 4-byte words that hold its pixels: a multiple of 4, at least `3*width` and less than `3*width + 4`. |
| JuliaFile.OddHeightPadding | ics632/tutorial_sim_grid/topic1/1D_parallel_julia.c:83 | For an odd height, `adjusted_width` adds two pixels to the `2*height` width, while a row padded to 4 bytes needs only two extra bytes. |
| JuliaFile.HeaderOverstatesFileSize | ics632/tutorial_sim_grid/topic1/1D_parallel_julia.c:83-87 | For every odd height the header's file size is `54 + height * Stride + 4*height`, which is 4 bytes per row more than rows padded to 4 bytes take. |
| JuliaFile.BalancedRanksLength | ics632/tutorial_sim_grid/topic1/1D_parallel_julia.c:173-195 | In the corrected file, ranks 0..k-1 append `Share(k)` padded rows. |
| JuliaFile.LastRankPixel | ics632/tutorial_sim_grid/topic1/1D_parallel_julia.c:138-188 | In the corrected file, a row of rank k-1 lands after the rows of ranks 0..k-2, and its pixel bytes hold that row's colours. |
| JuliaFile.LastRankPadding | ics632/tutorial_sim_grid/topic1/1D_parallel_julia.c:178-188 | In the corrected file, the padding bytes of a row of rank k-1 are zero. |
| JuliaFile.BalancedRanksPixel | ics632/tutorial_sim_grid/topic1/1D_parallel_julia.c:138-195 | In the corrected appends of ranks 0..k-1, colour byte c of pixel (x, y) is at `y*Stride + 3x + c`, for every row y these ranks own. |
| JuliaFile.BalancedRanksPadding | ics632/tutorial_sim_grid/topic1/1D_parallel_julia.c:178-195 | In the corrected appends of ranks 0..k-1, the bytes after each row's pixels are zero. |
| JuliaFile.CorrectedFileSize | ics632/tutorial_sim_grid/topic1/1D_parallel_julia.c:81-122 | The corrected file is 54 header bytes followed by `height` rows of `Stride` bytes. Its header's file size equals its length, and its first 54 bytes decode to that header. |
| JuliaFile.CorrectedFileLayout | ics632/tutorial_sim_grid/topic1/1D_parallel_julia.c:138-195 | In the corrected file, for every height, every image row appears once, at byte `54 + y*Stride`, with colour byte k of pixel (x, y) at `3x + k` in it. |
| JuliaFile.CorrectedFilePadding | ics632/tutorial_sim_grid/topic1/1D_parallel_julia.c:178-195 | In the corrected file, the bytes after each row's pixels, up to the next row, are zero. |

## Left out

- MPI itself is not modelled: processes, messages, tags, `MPI_Barrier` and the token passing between the Julia ranks. Each broadcast becomes a sequential replay of its matched send/receive pairs, in an order that respects the dependencies. The file appends are concatenated in rank order, which is the order the token enforces.
- Broadcast.Dispatch: `default_bcast` calls the library's `MPI_Bcast`, which is not part of this model. Dispatch and Harness.Benchmark therefore require a different algorithm.
- The `MPI_Isend`/`MPI_Wait` request handles of the asynchronous strategies are not modelled. Only the last request is waited on, and the root of the asynchronous ring never waits. The simulation completes every send.
- Timing (`MPI_Wtime`) and printing are left out. Harness.Benchmark returns the report fields instead of printing the timing line.
- `random()` and `srandom(RAND_SEED)` are not modelled: the root's random values are a parameter.
- `sscanf` for the `-c` option is not modelled: the chunk size arrives already parsed and positive. An unparsable or non-positive chunk size is not modelled.
- Memory exhaustion in `malloc`/`calloc` is not modelled.
- The floating-point iteration and colour map of `compute_julia_pixel` are not modelled: a function `shade(x, y)` stands for them.
- File handling (`fopen`, `fwrite`, `fclose`) is not modelled. The file is the byte sequence appended to it.
- The return code of `write_bmp_header` is left out: the model assumes every `fwrite` succeeds, so the `perror`/`exit` path is not modelled.
- Julia.ComputeRows: requires a non-negative row count. For a non-negative height, Julia.RowRangeInImage proves the count is never negative. A negative height from the command line is not modelled.
- Julia.WriteRow: receives the contents of the buffer as a value, since the loop only reads it.
- Broadcast.RingBcast, Broadcast.PipelinedRingBcast, Broadcast.AsyncPipelinedRingBcast, Broadcast.Dispatch, Harness.Benchmark: these use the corrected ring decision (Topology.RingForward). With one process the program's root sends to the nonexistent rank 1 and MPI aborts the run; the model instead completes the broadcast and reports success.
- Harness.Benchmark: collects the checksums with Checksums.CollectAllChecksums, which receives every checksum where the program stops at the first mismatch. The `all_ok` it reports is the same as the program's.
- JuliaFile.JuliaFile: requires `2*height` to fit in an `int`. The signed-overflow cases of the `int` products in `main` are not modelled. In `write_bmp_header` the products are reduced modulo 2^32.
- JuliaFile.CorrectedHeader: corrects only the file size. The header's `image_size` stays the unpadded `width*height*3`, as `write_bmp_header` computes it.

## Findings

| source | as written | input that shows it | evidently intended | confidence | as-written member | corrected member |
|---|---|---|---|---|---|---|
| ics632/tutorial_sim_grid/topic2/bcast_skeleton.c:164-165 | Every ring variant's root sends to `rank+1` without checking `num_procs`. | One process: the root sends to rank 1, which does not exist. | The root sends only when there is a rank 1. | high (not executed) | Topology.RingRootSendsOutsideGroup | Topology.RingForwardMatches |
| ics632/tutorial_sim_grid/topic1/1D_parallel_julia.c:141-143 | `stop = (myrank+1)*height/num_procs + (myrank<remainder) - 1` gives the first `remainder` ranks one row more than their share. | height 10, 3 ranks: rows 0-3, 3-5 and 6-9. Row 3 is computed and written twice, so the file holds 11 rows. | Consecutive, disjoint ranges covering rows 0..height-1. | high (not executed) | Julia.TenRowsOnThreeRanks | Julia.BalancedRowsPartition |
| ics632/tutorial_sim_grid/topic1/1D_parallel_julia.c:184-186 | `(width*3) % 4` padding bytes are written after every pixel, not once per row. | height 1 (2x1 image): the row takes 3+2+3+2 = 10 bytes instead of 8. | Padding once at the end of each row, so that rows are multiples of 4 bytes. | high (not executed) | Julia.OnePixelRowWritten | Julia.PaddedRowsLayout |
| ics632/tutorial_sim_grid/topic1/1D_parallel_julia.c:83-87 | `filesize` rounds the row's pixel count up to a multiple of 4, not the row's byte count. | height 1 (2x1 image): the header says 66 bytes, but a header and one row padded to 4 bytes take 62. | `54 + height * Stride(width)`, the size of rows padded to a multiple of 4 bytes. | high (not executed) | JuliaFile.HeaderOverstatesFileSize | JuliaFile.CorrectedFileSize |
| ics632/tutorial_sim_grid/topic2/bcast_skeleton.c:232-238 | The comment says the root keeps receiving after a mismatch, so that every rank reaches `MPI_Finalize`; the `break` stops the loop instead. | 3 ranks, and the first checksum to arrive mismatches: the root receives 1 of the 2 checksums sent. | Record the mismatch and keep receiving, as the comment says. | medium (not executed) | Checksums.BreakLeavesChecksumsUnreceived | Checksums.CollectAllChecksums |
