# tinyrenderer core in Dafny

A model of the parts of the tinyrenderer software rasteriser that carry its
systems weight, with proofs of their properties:

- **TGA codec** (`TGAImage`, `TGAColor`, `TGA_Header`): the in-memory raster
  (`get`, `set`, `clear`, the flips, the constructors); the 18-byte packed
  header; `read_tga_file` and `write_tga_file` over the file's bytes; the
  run-length packer `unload_rle_data` and unpacker `load_rle_data`.
  Modules `Bytes`, `TgaError`, `TgaColor`, `TgaHeader`, `TgaImage`, `TgaRle`
  and `TgaFile`.
- **Frame tiles** (`FrameTile`): a rectangle of the frame that one drawing
  pass owns, and how it addresses the shared colour and depth buffers.
  Module `FrameTile`. The 2 x 2 tiling built by `draw_3d_model_simple` is in
  module `TileLayout`.
- **Task pool** (`Worker`, `ThreadPool`): each worker's FIFO queue, its
  thread's loop written as a sequential state machine, and the pool's
  worker-selection policy. Modules `WorkerQueue` and `ThreadPool`.

A file is a `seq<byte>`. A failed read is a `Result` carrying an `Error`
(`TruncatedHeader`, `BadGeometry`, `UnknownDataType`, `TruncatedData` or
`TooManyPixels`) in place of the C++ `false` and log line. The NULL buffer of
a default-constructed image is `data == None`. Header fields are kept as raw
bit patterns. The reader interprets them as the C++ struct does: width and
height as signed `short`, the depth as a signed `char` shifted right by 3.
`Arith` holds the arithmetic facts the proofs need.

Behaviour of the code that the model keeps as it is:

- A tile's `get`, `set`, `get_z` and `set_z` take absolute frame
  coordinates and never add the tile's origin (frametile.cpp:59-62). Two
  tiles bound to the same image read and write the same slots for the same
  pixel (`FrameTile.OriginIgnored`).
- `index(x, y)` checks nothing, so a column past the right edge addresses
  the start of the next row (`FrameTile.IndexWraps`).
- Only an even frame width gives a 2 x 2 tiling that partitions the frame.
  With an odd width the two lower tiles overlap (see Findings).
- A worker's thread can end with tasks still queued (see Findings).
- An RLE packet that overruns the pixel count is rejected, but only after
  one pixel too many has been stored (see Findings).

## Model

| member | source | states |
|---|---|---|
| Bytes.AsShort | tgaimage.h:17-18 | a 16-bit field read as a C++ `short` lies in [-32768, 32767] and has the field's bit pattern modulo 2^16 |
| Bytes.AsChar | tgaimage.h:19-20 | an 8-bit field read as a signed `char` lies in [-128, 127] and has the field's bit pattern modulo 256 |
| Bytes.Splice | tgaimage.cpp:262 | a `memcpy` of `p` at offset `i` keeps the length, puts `p`'s bytes at `i .. i+|p|` and leaves every other byte unchanged |
| TgaColor.Default | tgaimage.h:28-30 | the default colour has depth 1 and four zero bytes |
| TgaColor.Rgba | tgaimage.h:32-37 | the colour stores blue, green, red, alpha in that order, has depth 4, and alpha defaults to 255 |
| TgaColor.Gray | tgaimage.h:39-42 | a grey level sits in byte 0, the other bytes are zero, and the depth is 1 |
| TgaColor.FromBytes | tgaimage.h:45-52 | the colour holds the first `bpp` bytes of the source and zeros after them, and its depth is `bpp` |
| TgaColor.FromPrefixRoundTrip | tgaimage.h:45-52 | a colour whose unused bytes are zero is rebuilt exactly from the bytes it copies out |
| TgaHeader.FormatValues | tgaimage.h:67-71 | the three formats have 1, 3 and 4 bytes per pixel |
| TgaHeader.Encode | tgaimage.h:7-22 | the packed header is 18 bytes, every field at its packed offset in declaration order: three 1-byte fields, colour-map origin and length as little-endian 16-bit values at 3 and 5, colour-map depth at 7, x and y origin at 8 and 10, width and height at 12 and 14, depth and descriptor at 16 and 17 |
| TgaHeader.DecodeEncode | tgaimage.h:7-22 | decoding the first 18 bytes of an encoded header gives the header back, whatever follows it |
| TgaHeader.Decode | tgaimage.cpp:48-49 | the reader fills every field from its packed offset, the 16-bit ones little-endian |
| TgaHeader.EncodeDecode | tgaimage.h:7-22 | re-encoding a decoded header gives back exactly the 18 bytes it was read from |
| TgaHeader.ForImage | tgaimage.cpp:154-160 | the written header is zero except for depth, size, type code and descriptor. The type code is 3 or 11 for grayscale and 2 or 10 otherwise. The depth byte is `bytespp * 8` for 1, 3 or 4 bytes per pixel, and the descriptor is exactly 0x20: top-left, left to right. Size and depth read back unchanged when they fit the fields |
| TgaImage.Empty | tgaimage.cpp:7 | the default image has no buffer and zero size and depth |
| TgaImage.New | tgaimage.cpp:9-13 | a new image has the requested size and depth and a zero-filled buffer of `w*h*bpp` bytes |
| TgaImage.Copy | tgaimage.cpp:15-36 | a copy has the same size, depth and bytes; copying the NULL buffer gives an empty one |
| TgaImage.Clear | tgaimage.cpp:317-319 | `clear` zeroes every byte and keeps size, depth and the presence of a buffer |
| TgaImage.Index | tgaimage.cpp:246-249 | the byte offset of an in-range pixel of a valid image, plus one pixel, stays inside the buffer |
| TgaImage.PixelInBuffer | tgaimage.cpp:246-249 | the `bytespp` bytes at `index(x, y)` of an in-range pixel lie inside the buffer |
| TgaImage.Get | tgaimage.cpp:251-256 | `get` gives the default colour when there is no buffer or (x, y) is out of range. Otherwise it gives the pixel's bytes, zero-filled, at the image's depth |
| TgaImage.Set | tgaimage.cpp:258-264 | `set` succeeds iff there is a buffer and (x, y) is in range. It then overwrites exactly the pixel's bytes with the colour's first `bytespp` bytes; on failure the image is unchanged |
| TgaImage.GetNew | tgaimage.cpp:9-13 | every pixel of a new image reads as the all-zero colour of its depth |
| TgaImage.GetCleared | tgaimage.cpp:317-319 | after `clear` every in-range pixel reads as the all-zero colour |
| TgaImage.GetAfterSet | tgaimage.cpp:258-264 | `get` after `set` at the same pixel gives the colour written, cut to the image's depth |
| TgaImage.GetOtherAfterSet | tgaimage.cpp:258-264 | `set` at one pixel leaves what `get` returns at every other pixel unchanged |
| TgaImage.SetGetUnchanged | tgaimage.cpp:251-264 | setting a pixel to what `get` returned leaves the image unchanged |
| TgaImage.FlipVertically | tgaimage.cpp:297-311 | `flip_vertically` fails and changes nothing iff there is no buffer; size and depth stay |
| TgaImage.FlipHorizontally | tgaimage.cpp:283-295 | `flip_horizontally` fails and changes nothing iff there is no buffer; size and depth stay |
| TgaImage.FlipVerticallySwapsRows | tgaimage.cpp:297-311 | after the flip, pixel (x, y) holds what pixel (x, h-1-y) held |
| TgaImage.FlipHorizontallySwapsColumns | tgaimage.cpp:283-295 | after the flip, pixel (x, y) holds what pixel (w-1-x, y) held |
| TgaImage.FlipVerticallyInvolution | tgaimage.cpp:297-311 | flipping vertically twice gives the original image |
| TgaImage.FlipHorizontallyInvolution | tgaimage.cpp:283-295 | flipping horizontally twice gives the original image |
| TgaRle.Pixels | tgaimage.cpp:206-216 | the buffer cut into `n` pixels of `bpp` bytes each |
| TgaRle.Scan | tgaimage.cpp:211-230 | the inner scan ends with a run of 1 to 128 pixels that stays inside the buffer |
| TgaRle.ScanRaw | tgaimage.cpp:213-229 | a raw run has no two equal neighbours. It ends at the buffer's end, at 128 pixels, or just before a pair of equal pixels |
| TgaRle.ScanRepeat | tgaimage.cpp:213-229 | a repeat run is at least two copies of one pixel. It ends at the buffer's end, at 128 pixels, or just before a different pixel |
| TgaRle.First | tgaimage.cpp:208-231 | the packet chosen at the current pixel starts there and has one of the two shapes above |
| TgaRle.Plan | tgaimage.cpp:206-242 | the packets cover the pixels in order without gap or overlap, and each has the packer's shape |
| TgaRle.UnloadRle | tgaimage.cpp:204-244 | the packer writes nothing iff there are no pixels, and otherwise at least one header byte and one pixel |
| TgaRle.ControlDecodes | tgaimage.cpp:232 | the header byte is below 128 iff the packet is raw, and it determines the packet's length |
| TgaRle.ReadPacket | tgaimage.cpp:99-138 | a packet produces 1 to `need` pixels of `bpp` bytes from a non-empty prefix of the stream. An empty stream is truncated data, and any failure is truncated data or too many pixels |
| TgaRle.LoadRle | tgaimage.cpp:94-141 | on success the unpacker produces exactly `need * bpp` bytes from a non-empty prefix of the stream. It fails only with truncated data or too many pixels |
| TgaRle.ReadRaw | tgaimage.cpp:106-121 | a header byte `len - 1` followed by at least `len` pixels gives those pixels and uses `1 + len * bpp` bytes |
| TgaRle.ReadRepeat | tgaimage.cpp:122-138 | a header byte `len + 127` followed by a pixel gives `len` copies of it and uses `1 + bpp` bytes |
| TgaRle.ReadShaped | tgaimage.cpp:106-137 | reading a packet the packer wrote gives its pixels and uses exactly its bytes, whatever follows |
| TgaRle.LoadStream | tgaimage.cpp:99-139 | a stream of readable packets unpacks to what they stand for and stops right after the last one |
| TgaRle.RoundTrip | tgaimage.cpp:94-244 | for `n >= 1` pixels, unpacking what the packer wrote gives the buffer back byte for byte. It uses exactly the packed bytes, whatever follows them |
| TgaRle.PackRepeatExample | tgaimage.cpp:204-244 | two equal grey pixels 10, 10 pack to the bytes 129, 10 |
| TgaRle.PackRawExample | tgaimage.cpp:204-244 | three different grey pixels 1, 2, 3 pack to 2, 1, 2, 3 |
| TgaRle.PackRgbExample | tgaimage.cpp:204-244 | three different RGB pixels pack to the header byte 2 and their nine bytes |
| TgaRle.UnpackExamples | tgaimage.cpp:94-141 | 129, 10 unpacks to 10, 10. A raw packet followed by an extra byte unpacks to its pixels and leaves the byte. A repeat header with no pixel after it is truncated data |
| TgaRle.Stores | tgaimage.cpp:106-139 | the pixels the unpacker stores into a `need`-pixel buffer: at most `need + 1` when the pixel is stored before the count is checked, at most `need` when checked first |
| TgaRle.StoresAsWritten | tgaimage.cpp:114-136 | as written, the unpacker stores at most one pixel past the buffer; `OverrunExample` shows that it does |
| TgaRle.StoresChecked | tgaimage.cpp:114-136 | with the count checked before each store, in the raw and the repeat branch, the unpacker never stores past the buffer |
| TgaRle.OverrunExample | tgaimage.cpp:129-136 | for a 1-pixel grey image with stream 129, 10, the code as written stores 2 pixels and the checked version 1; the stream is rejected |
| TgaRle.StoresOnSuccess | tgaimage.cpp:94-141 | on every stream the unpacker accepts, exactly the buffer's pixels are stored |
| TgaFile.Trailer | tgaimage.cpp:144-146 | after the pixel data the writer puts 26 bytes: 8 bytes of zero area references and the 18-byte signature |
| TgaFile.ReadData | tgaimage.cpp:63-82 | codes 2 and 3 read `w*h*bpp` bytes verbatim and fail iff fewer are left. Codes 10 and 11 succeed iff the unpacker does, with its bytes or its error. Any other code is an unknown data type |
| TgaFile.Orient | tgaimage.cpp:83-88 | the reader's orientation keeps size, depth and a full buffer, and leaves a top-left, left-to-right image unchanged |
| TgaFile.OrientPixels | tgaimage.cpp:83-88 | for all four descriptor settings, pixel (x, y) after orientation is pixel (w-1-x if right to left, else x; y if top-left, else h-1-y) before it |
| TgaFile.ReadTga | tgaimage.cpp:38-92 | a file shorter than the header is a truncated header. Bad size or depth is bad geometry; an unknown type code is reported. With a good header the read succeeds iff the pixel data reads, whatever the orientation bits, and otherwise fails with the pixel data's error. On success the image has the header's size and depth and a full buffer |
| TgaFile.Payload | tgaimage.cpp:167-180 | without RLE the pixel data written is the buffer itself |
| TgaFile.WriteTga | tgaimage.cpp:143-201 | the written file starts with the encoded header and is as long as header, pixel data and 26-byte trailer; `rle` defaults to true |
| TgaFile.WrittenBody | tgaimage.cpp:167-200 | after the header, a written file holds the pixel data followed by the trailer |
| TgaFile.WriteRead | tgaimage.cpp:38-201 | reading back a written file, packed or not, gives the image that was written |
| TgaFile.WrittenHeader | tgaimage.cpp:154-161 | the header read back from a written file is the one the writer made, and the reader accepts its geometry |
| TgaFile.WrittenData | tgaimage.cpp:167-180 | the pixel data read back from a written file is the image's buffer |
| TgaFile.ReadPacked | tgaimage.cpp:72-77 | packed pixel data followed by anything reads back as the pixels |
| TgaFile.ReadRaw | tgaimage.cpp:65-71 | uncompressed pixel data followed by anything reads back as the pixels |
| TgaFile.ReadOriented | tgaimage.cpp:38-92 | pixel (x, y) of a read image is the stored pixel the descriptor bits place there: rows bottom-up unless the origin is top-left, columns mirrored when right to left |
| FrameTile.NewTile | frametile.cpp:5-9 | a new tile has the given left and top edges, spans the given size, and is not yet bound |
| FrameTile.Init | frametile.cpp:11-17 | `init` binds the tile to the image's size and depth and keeps its rectangle |
| FrameTile.Top | frametile.cpp:29-32 | the top edge is the row the tile starts at |
| FrameTile.Left | frametile.cpp:34-37 | the left edge is the column the tile starts at |
| FrameTile.Right | frametile.cpp:39-42 | the right edge lies the tile's width past the left edge |
| FrameTile.Bottom | frametile.cpp:44-47 | the bottom edge lies the tile's height below the top edge |
| FrameTile.Index | frametile.cpp:59-62 | a pixel of the bound image has its slot below `width * height` |
| FrameTile.IndexInjective | frametile.cpp:59-62 | two in-image pixels share a slot iff they are the same pixel |
| FrameTile.DisjointTilesDisjointSlots | frametile.cpp:59-62 | tiles bound to one image never address the same slot from pixels the other tile does not cover |
| FrameTile.OffsetInBuffer | frametile.cpp:21 | the pixel's bytes at `bytespp * index(x, y)` lie inside the colour buffer |
| FrameTile.IndexWraps | frametile.cpp:59-62 | pixel (x + W, y) has the slot of pixel (x, y + 1): a column past the right edge addresses the next row |
| FrameTile.Get | frametile.cpp:19-22 | `get` gives the `bytespp` bytes at `bytespp * index(x, y)`, zero-filled, at the image's depth |
| FrameTile.Set | frametile.cpp:24-27 | `set` overwrites exactly the pixel's bytes with the colour's first `bytespp` bytes |
| FrameTile.GetAfterSet | frametile.cpp:19-27 | `get` after `set` at the same pixel gives the colour written, cut to the depth |
| FrameTile.GetZ | frametile.cpp:49-52 | `get_z` reads slot `x + y * W` of the depth buffer; the tile's origin plays no part |
| FrameTile.SetZ | frametile.cpp:54-57 | `set_z` writes slot `x + y * W` and leaves every other slot as it was |
| FrameTile.GetZAfterSetZ | frametile.cpp:49-57 | `get_z` after `set_z` gives the value stored at that pixel and the old value at every other pixel |
| FrameTile.OriginIgnored | frametile.cpp:19-27 | tiles bound to the same image read and write the same bytes and depth slots for the same pixel, whatever their rectangles |
| FrameTile.InitAgreesWithImage | frametile.cpp:11-27 | once bound, a tile addresses the bytes `TGAImage::index` does, and reads and writes what `TGAImage::get` and `set` do |
| TileLayout.Halves | main.cpp:52-55 | the two halves sum to the length, the second is at most one larger, and they are equal iff the length is even |
| TileLayout.LayoutAsWritten | main.cpp:57-64 | the four tiles as built are all bound to the frame's size and depth |
| TileLayout.Layout | main.cpp:57-64 | the corrected four tiles are all bound to the frame's size and depth |
| TileLayout.LayoutAsWrittenEven | main.cpp:57-60 | for an even frame width, every frame pixel lies in exactly one tile as built and no outside pixel lies in any |
| TileLayout.LayoutAsWrittenOdd | main.cpp:59-60 | for an odd frame width, pixel (w/2, h/2) lies in both lower tiles as built |
| TileLayout.LayoutAsWrittenDisjoint | main.cpp:57-60 | for any width, tiles 1, 2 and 4 as built are pairwise disjoint |
| TileLayout.LayoutPartitions | main.cpp:57-60 | with the lower-left tile given the left half's width, every frame pixel lies in exactly one tile and no outside pixel in any |
| WorkerQueue.NewWorker | worker.h:19-23 | a new worker is enabled and its queue is empty |
| WorkerQueue.TaskCount | worker.h:38-42 | the count is zero iff the queue is empty, and at least one while a task runs |
| WorkerQueue.IsEmpty | worker.h:38-47 | `isEmpty()` iff `getTaskCount()` is zero, and a worker running a task is never empty |
| WorkerQueue.Append | worker.h:32-37 | `appendFn` puts the task at the back: one more task, earlier tasks in their order, nothing else changed |
| WorkerQueue.Disable | worker.h:25-30 | the destructor clears `enabled` and changes nothing else |
| WorkerQueue.Step | worker.h:57-72 | at the loop test the thread goes on to wait iff enabled, else ends. Waiting with tasks queued starts the front one. Waiting with none stays if enabled, else goes back to the test. Running finishes and pops the front task, then runs on iff tasks remain. An ended thread stays ended |
| WorkerQueue.Drain | worker.h:63-70 | the inner loop run to its end finishes at least one task and leaves a valid worker |
| WorkerQueue.DrainFifo | worker.h:63-70 | a drain runs every queued task once, front first. It leaves the queue empty and the thread back at the `enabled` test |
| WorkerQueue.DrainIgnoresEnabled | worker.h:59-71 | a drain runs the same tasks whether or not `enabled` is cleared meanwhile |
| WorkerQueue.ShutdownDrains | worker.h:57-72 | a worker disabled while its thread waits still runs all queued tasks in order, then its thread ends |
| WorkerQueue.DisabledAtTopDropsTasks | worker.h:57-72 | a task appended while the thread is at the loop test, with `enabled` cleared before the test, never runs |
| WorkerQueue.StepDraining | worker.h:59-62 | with the loop test `enabled \|\| !fqueue.empty()`, a thread at the test ends iff it is disabled and its queue is empty; every other step is as written |
| WorkerQueue.Apply | worker.h:25-72 | a step, an append or the destructor: an append adds the task at the back, and only the destructor clears `enabled` |
| WorkerQueue.DrainingStopsEmpty | worker.h:57-72 | with the corrected loop test, whatever the order of steps, appends and the destructor, a thread that has ended left nothing queued |
| WorkerQueue.NewWorkerStopsEmpty | worker.h:19-72 | a new worker under the corrected loop test never ends with a task queued |
| WorkerQueue.AsWrittenStopsWithTask | worker.h:59-62 | a new worker given one task and destroyed before its thread first tests `enabled` ends with the task never run as written; with the corrected test it starts the task |
| ThreadPool.NewPool | threadpool.h:11-20 | the pool has `threads` fresh workers, `threads` defaulting to 4, or 4 when `threads` is 0 |
| ThreadPool.Counts | threadpool.h:42-59 | the counts the selection reads are each worker's `getTaskCount()`, in pool order |
| ThreadPool.ScanChoice | threadpool.h:42-59 | from any state satisfying the loop invariant, the scan's answer is the policy's choice. It is null iff no count is below `UINT32_MAX` |
| ThreadPool.FreeWorker | threadpool.h:42-59 | the choice is the first empty worker, or else the first worker with the fewest tasks if that is below `UINT32_MAX`. It is null iff no count is below `UINT32_MAX` |
| ThreadPool.StaircaseChoice | threadpool.h:42-59 | when the first `m` workers have `k+1` tasks and the rest `k`, the policy picks worker `m` |
| ThreadPool.RunAsync | threadpool.h:23-27 | `runAsync` appends the task to the chosen worker's queue and leaves every other worker unchanged |
| ThreadPool.CountsAfterRun | threadpool.h:23-27 | after `runAsync` the chosen worker's count grows by one and the other counts stay |
| ThreadPool.AllEmpty | threadpool.h:29-39 | `IsEmpty` is true iff every worker's queue is empty |
| ThreadPool.IsEmpty | threadpool.h:29-39 | the pool is empty iff every worker's count is zero |
| ThreadPool.EmptyAfterNewNotAfterRun | threadpool.h:29-39 | a new pool is empty, and a pool that has just received a task is not |
| ThreadPool.Submit | threadpool.h:23-27 | tasks handed to `runAsync` one after another only ever append: every worker's old queue is a prefix of its new one, and no thread changes phase |
| ThreadPool.SubmitStaircase | threadpool.h:23-59 | tasks handed out while none finishes keep the counts in the shape "first `m` workers one task ahead" |
| ThreadPool.SubmitBalanced | threadpool.h:23-59 | from a new pool, with no task finishing, no two workers' counts ever differ by more than one |

## Left out

- Streams: opening, reading and writing files, `in.good()` after a short read, and the `std::cerr` messages. A file is the byte sequence it holds; a short read is `TruncatedHeader` or `TruncatedData`.
- Image state after a failed read: the C++ reader drops the old buffer and may leave a partly filled one with the new size. `TgaFile.ReadTga` returns only the error.
- Byte order: the C++ writes the header's `short` fields in host order. The model writes them little-endian, as TGA files are.
- Size overflow: `width * height * bytespp` computed in `int` can overflow in C++. The model's integers are unbounded.
- `TGAImage::scale` (tgaimage.cpp:321-354): the resampling loop is not modelled. It is an operation the rest of the core does not use.
- `TGAColor::operator*` (tgaimage.h:56-61): float intensity scaling. `operator[]`, `get_width`, `get_height`, `get_size`, `get_bytespp` and `buffer` are field reads, modelled as the fields.
- The flips: the swap loops are modelled by their result, a mirror of the buffer, not step by step.
- Depth values: float in C++, an opaque element type in `FrameTile`.
- Threads: `std::thread`, the mutex, the condition variable, `join`, and the unsynchronised `enabled` flag are left out. So are the unlocked snapshot of counts in `getFreeWorker` and tasks that throw. A worker is a sequential state machine whose steps a caller interleaves with `Append`.
- The rest of main.cpp (SDL window, camera, model loading, shading), sdlwindow and the shaders are not part of this model.
- ThreadPool.RunAsync: requires some worker with fewer than `UINT32_MAX` tasks. Otherwise `getFreeWorker` returns a null pointer that `runAsync` dereferences, which has no defined result to model.
- FrameTile.Get, FrameTile.Set, FrameTile.GetZ, FrameTile.SetZ: require an in-image pixel. The C++ does not check. A pixel outside the image whose flat index `x + y * W` still lies in `[0, W * H)` wraps into a neighbouring row (`FrameTile.IndexWraps`); the model does not read or write through such a pixel. Any other out-of-image access is out of bounds.
- TgaFile.WriteRead: holds for sizes 1 to 32767. The writer truncates larger sizes to 16 bits, and the reader reads those bits back as a signed `short`.
- TgaRle.RoundTrip: holds for at least one pixel. The reader rejects a zero-size image before unpacking.

## Findings

| source | as written | input that shows it | evidently intended | confidence | as-written member | corrected member |
|---|---|---|---|---|---|---|
| main.cpp:59 | the lower-left tile gets width `width2`, the right half's width | frame width 801 and height 800: pixel (400, 400) lies in both lower tiles, so column 400 of the lower half is drawn twice for each model. The tiles are drawn one after another (main.cpp:65-70) and `WIDTH` is 800 (main.cpp:13), so this is a double draw, and a data race only if the tiles were drawn in parallel | the lower-left tile gets width `width1`, so the four tiles partition the frame | not executed | TileLayout.LayoutAsWrittenOdd | TileLayout.LayoutPartitions |
| tgaimage.cpp:114-136 | in both the raw branch (114-120) and the repeat branch (129-136) each pixel is stored, then counted and compared with the pixel count | a 1 x 1 grayscale RLE file whose pixel data is 129, 10: the repeat packet stores two pixels into the one-pixel buffer before the reader fails | compare the count before storing, so no pixel lands past the buffer | not executed | TgaRle.StoresAsWritten | TgaRle.StoresChecked |
| worker.h:59-62 | the thread tests `enabled` at the top of its loop before it looks at the queue | a new worker given one task with `appendFn` and destroyed before its thread first reaches `while (enabled)`: the thread ends and the task never runs | loop while `enabled` or the queue is non-empty, so every task appended before the destructor runs | not executed | WorkerQueue.AsWrittenStopsWithTask | WorkerQueue.DrainingStopsEmpty |
