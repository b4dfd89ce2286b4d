# A verified model of the tile delta pipeline

Collabora Online renders documents in a kit process and shows them in browsers.
The kit cuts each rendering into tiles, keeps a run-length coded copy of the last
version of every tile, and sends either a keyframe (`Z`) or a delta against the
kept version (`D`). The server stacks what it gets per tile and sends every
client the part it lacks; the browser unpacks keyframes and patches deltas in.

This project models that pipeline from pixels to pixels and proves that it shows
what was rendered: the coder and its iterator, the AVX2 paths, the row differ and
row matcher with their byte stream, the cache and its eviction, the server's
stack, and the browser's decoder. It also models what runs around it: the thread
pool and the interleavings of the encode jobs, the placing of tiles in the
pixmap, the streaming hash, and four text and stream algorithms (edit distance,
search in a stream, tokens, UTF-8 truncation).

Code that changes things step by step is modelled by classes and by methods with
loops, each proved against a function or predicate on values; the theorems are
lemmas about those. Concurrent code is a state machine whose steps are what runs
between taking a lock and releasing it. `dafny verify dfyconfig.toml` checks the
whole project.

## The main results

- `Mirror.Replay`: whatever calls are made of the generator, a client that
  replaces on `Z` and patches on `D` shows the last pixmap of every location, byte
  by byte.
- `Pipeline.ClientsShowLastRender`, `Pipeline.ServerHoldsLastRender` and
  `Pipeline.NothingLost`: the same with the server between them, for any number
  of clients that fetch whenever they like and with evictions on both sides, for
  every tile of which no sibling has been rendered. `StaleTiles.StaleIff`: tiles
  can go stale if and only if there are siblings, two tiles that differ in nothing
  but their height in the document.
- `MakeDelta.MakeDelta`, `BrowserDelta.ChunkDecodes` and
  `Keyframe.KeyframeDecodes`: what the kit writes, the browser reads back, byte
  for byte, in both channel orders.
- `RowCodec.IdenticalIffSamePixels` and `RowInit.InitRow`: a row has one coded
  form, and both encoders produce it.
- `ThreadPool.ReturnsWhenAllDone`, `ThreadPool.NeverStuck` and
  `ThreadPool.AssertFailsIff`: the pool is right in every interleaving, except
  with exactly one worker and spurious wake-ups, where it is not.
- `RenderJobs.InUseNeverFires`, `RenderJobs.PackedRowsAreOwn`,
  `RenderJobs.ResponsesAreSequential` and `RenderJobs.RendersCompose`: encode jobs
  do not disturb each other, every tile is answered with its own bytes, and the next
  render goes on from the versions just sent.
- `RenderArea.RenderedToScale`: tiles on a grid are rendered to scale, each in its
  own window.
- `SpookyStream.SpookyHash.Update`, `SpookyStream.SpookyHash.Final` and
  `SpookyStream.HashInPieces`: hashing in pieces is hashing at once;
  `SpookyMix.MixAllInjective` and `SpookyWords.BlocksInjective`: mixing loses no
  state and no byte of the message.
- `Levenshtein.NoShorterScript` and `Levenshtein.ShortestScript`,
  `StreamSearch.ProcessToMatch`, `Tokens.RunsAreExactly`,
  `Tokens.RetokenizedCat`, `Utf8.TruncateUtf8`.

Some promises do not hold of the code in full. For each, a lemma gives an input
that breaks it, or the exact condition under which it holds:

- The server tells tiles apart by the height of the tile in the document
  (wsd/TileCache.hpp:33-43), the kit's cache does not (kit/Delta.hpp:38-48), and
  tile descriptors of any positive height are accepted (wsd/TileDesc.hpp:95-108).
  When one such tile is rendered after the other, the kit's delta is against the
  wrong one, and the server and the clients keep an old image:
  `StaleTiles.SiblingsGoStale`, `StaleTiles.StaleIff`.
- A row wider than 256 pixels is coded, but the iterator does not read its raw
  tail: `RowCodec.TailIsLost`, `RowCodec.ReadBackExact`.
- With one worker, a spurious wake-up leaves a job in its hand when `run` ends:
  `ThreadPool.OneWorkerFails`, `ThreadPool.AssertFailsIff`.
- Tiles off the grid can be given the same part of the pixmap:
  `RenderArea.OffGridTilesCollide`, `RenderArea.WindowsShareIff`.
- Joining and tokenizing again loses everything when the first word starts with
  NUL: `Tokens.NulWordIsLost`, `Tokens.RetokenizedCat`.
- The ellipsis of an abbreviated message can stand for nothing:
  `Utf8.EllipsisOfNothing`, `Utf8.EllipsisOmits`.
- `isValidUtf8` lets five-byte, overlong and surrogate forms through, and codes
  beyond the last character: `Utf8.IllFormedAccepted`, `Utf8.WellFormedIff`. All of
  the well-formed text of RFC 3629 is accepted: `Utf8.WellFormedPrefixes`.

## Model

| member | source | states |
|---|---|---|
| `CopyRow.SwapScalar` | kit/Delta.hpp:531-543 | One by one, every pixel from `start` on gets red and blue exchanged and nothing else changes: the buffer is the byte-wise swap of the source |
| `CopyRow.SwapSimd` | kit/DeltaSimd.c:189-232 | The AVX2 copy of any number of pixels, eight at a time and then the rest, leaves the same bytes as the scalar copy |
| `CopyRow.BlockSwapped` | kit/DeltaSimd.c:189-232 | The lane-wise byte shuffle of eight pixels is the red/blue swap of them, wherever the block lies |
| `CopyRow.SwappedPixels` | kit/Delta.hpp:523-546 | The byte swap is the change from BGRA to RGBA pixels |
| `CopyRow.CopyRow` | kit/Delta.hpp:523-546 | In both modes and on either kind of machine the bytes written are the RGBA form of the pixels: byte for byte as in memory for RGBA, places 0 and 2 of each pixel exchanged for BGRA |
| `Pixels.ToRgbaBytes` | kit/Delta.hpp:526-543 | The change to RGBA, channel by channel, for both modes |
| `RowCodec.InitMaskWord` | kit/Delta.hpp:192-241 | After each mask word the scratch buffer holds exactly the pixels so far that differ from their left neighbour, and the word has the bits of the others |
| `RowCodec.InitPixRowCpu` | kit/Delta.hpp:192-241 | The scalar encoder yields the canonical mask words and data of the row, raw tail included, for any width |
| `RowCodec.PixIterator.constructor` | kit/Delta.hpp:98-107 | The iterator starts on the first pixel |
| `RowCodec.PixIterator.Next` | kit/Delta.hpp:116-136 | One call moves to the state after one more step, whatever the mask and data |
| `RowCodec.PixelAt` | kit/Delta.hpp:82-137 | After n calls the iterator shows pixel n - 1 of the coded row, for every coded pixel; beyond 256 it repeats pixel 255 |
| `RowCodec.ReadRow` | kit/Delta.hpp:82-137 | Reading a whole row back gives its pixels, those past 255 replaced by pixel 255 |
| `RowCodec.ReadBackExact` | kit/Delta.hpp:82-137 | The iterator replays a row faithfully if and only if the row has no raw tail that differs from pixel 255 |
| `RowCodec.TailIsLost` | kit/Delta.hpp:116-136 | A row of 257 pixels whose last pixel the iterator does not deliver |
| `RowCodec.IdenticalIffSamePixels` | kit/Delta.hpp:294-305 | Two rows of one width are `identical` if and only if their pixels are equal |
| `RowInit.InitGatherLut` | kit/DeltaSimd.c:39-82 | Entry p of the table lists the clear bits of p in order, then zeros, for all 256 patterns |
| `RowInit.NeighboursAre` | kit/DeltaSimd.c:103-186 | The two permutes and the merge give the eight pixels to the left of the current eight |
| `RowInit.BlockMask` | kit/DeltaSimd.c:103-186 | Bit k of the movemask tells whether pixel x + k equals its left neighbour |
| `RowInit.GatheredPixels` | kit/DeltaSimd.c:103-186 | The gather of eight lanes starts with exactly the block's kept pixels, in order |
| `RowInit.SimdBlock` | kit/DeltaSimd.c:103-186 | One pass extends the kept pixels by those of the block, and the eight-wide store stays within the 256 slots |
| `RowInit.InitPixRowSimd` | kit/DeltaSimd.c:103-186 | For every 256-pixel row the AVX2 encoder yields the same mask words, length and data as the scalar one |
| `RowInit.InitRow` | kit/Delta.hpp:243-291 | With AVX2 or without, a row of any width gets its one canonical coded form |
| `TileDelta.SkipSame` | kit/Delta.hpp:317-326 | Steps both iterators over the longest run of equal pixels |
| `TileDelta.CollectDiff` | kit/Delta.hpp:328-339 | Collects a run of new pixels that is at most 254 long and ends early only after three pixels, at an equal one |
| `TileDelta.NextRun` | kit/Delta.hpp:315-358 | One round finds the next changed run and writes one op for it with all byte fields in range, or none at the end of an unchanged row |
| `TileDelta.DiffRowTo` | kit/Delta.hpp:308-359 | The spans appended turn the old row into exactly the new one in RGBA order and cost at most 4 * (width + 2) bytes |
| `TileDelta.SpansTouchOneRow` | kit/Delta.hpp:308-359 | Applied to a whole image, the spans of a row change that row only and fit the byte fields |
| `TileDelta.SerializedSize` | kit/Delta.hpp:315-358 | The bytes of a list of ops are four per op and four per pixel |
| `TileDelta.OpFormat` | kit/Delta.hpp:343-353 | The bytes of an op that fits: `c` count source destination, or `d` row column number and then each channel of each pixel in its place |
| `MakeDelta.FindMatch` | kit/Delta.hpp:584-590 | The circular hunt, with its unsigned offset, finds an identical row of the old tile if and only if there is one, and then the first one going round from the row that the last match suggests |
| `MakeDelta.EmitCopy` | kit/Delta.hpp:591-616 | The count byte of the last copy is bumped in place exactly when source and destination go on and another row of the old tile follows, else a copy of one row is written; the stream stays equal to a list of ops that rebuilds one more row; every byte fits and no copy reads past the old tile |
| `MakeDelta.RebuiltMerge` | kit/Delta.hpp:592-605 | Widening the last copy by one row rebuilds one more row, with all reads from the previous image |
| `MakeDelta.DeltaRow` | kit/Delta.hpp:578-623 | Whether a row is unchanged, copied or patched, the stream so far rebuilds one more row, is empty exactly if nothing changed so far, and grows by at most 4 * (width + 2) bytes; an unchanged row leaves it alone, and a row that is somewhere in the old tile costs at most 4 bytes |
| `MakeDelta.MakeDelta` | kit/Delta.hpp:548-662 | The delta patches the old tile, in RGBA order, into exactly the new one; it is empty if and only if the tiles are equal; there is one if and only if the sizes agree; every field fits its byte; the size is at most 4 * (width + 2) bytes a row and a terminator, and within the reserve of width * (height + 4) * 4 for every tile less than twice as high as wide |
| `MakeDelta.FitsReserve` | kit/Delta.hpp:566-568 | The guessed reserve covers the worst case and the terminator whenever height < 2 * width, so for every square tile |
| `BrowserDelta.CopyRowsInto` | browser/src/layer/tile/CanvasTileUtils.ts:197-203 | The decoder's row copy, for any counts, reads the previous image and drops what falls outside |
| `BrowserDelta.ApplyDeltaChunk` | browser/src/layer/tile/CanvasTileUtils.ts:155-247 | The decoder loop computes the meaning of one chunk for any bytes, well-formed or not, and returns where it stopped |
| `BrowserDelta.UpdateImageFromDeltas` | browser/src/layer/tile/CanvasTileUtils.ts:97-153 | Chunks are applied one after the other, each against the image that the last one left |
| `BrowserDelta.BlitSpan` | browser/src/layer/tile/CanvasTileUtils.ts:206-231 | Writing a span at row * width * 4 + column * 4 overwrites those pixels of that row and nothing else |
| `BrowserDelta.CopyRowsDecodes` | browser/src/layer/tile/CanvasTileUtils.ts:180-205 | Copying flat rows one by one is copying the rows of the image |
| `BrowserDelta.OpDecodes` | browser/src/layer/tile/CanvasTileUtils.ts:155-247 | From the bytes of an op the decoder does what the op means and goes on behind it |
| `BrowserDelta.ChunkDecodes` | browser/src/layer/tile/CanvasTileUtils.ts:155-247 | For every list of ops that fit, the decoder of the written bytes applies exactly these ops and stops behind the terminator, wherever the chunk lies in the data |
| `FlatImage.FlatByRows` | browser/src/layer/tile/CanvasTileUtils.ts:44-95 | A byte array of the right size in which each row of an image is in its place is the flat form of that image |
| `Keyframe.PackForNetwork` | kit/Delta.hpp:158-189 | A packed row is the data length, 32 mask bytes and the RGBA data |
| `Keyframe.PackedRowFits` | kit/Delta.hpp:838-838 | A packed row never exceeds the row buffer of width * 4 + 32 + 2 bytes |
| `Keyframe.PackedFormat` | kit/Delta.hpp:158-189 | The bytes of a packed row: the number of pixels sent, low byte first, and 32 bytes in which bit x % 8 of byte x / 8 is set exactly if pixel x repeats its left neighbour |
| `Keyframe.PackedPixels` | kit/Delta.hpp:158-189 | Every pixel that is not a repetition follows, four bytes each, in order and as the client must see it |
| `Keyframe.NextPixel` | browser/src/layer/tile/CanvasTileUtils.ts:44-95 | One step of the unpacking loop with its rolling mask bit |
| `Keyframe.UnrleRow` | browser/src/layer/tile/CanvasTileUtils.ts:44-95 | Unpacking a row writes its pixels at its place and leaves the rest of the image alone |
| `Keyframe.Unrle` | browser/src/layer/tile/CanvasTileUtils.ts:44-95 | Unpacking, for any data, fills the whole image row by row and returns where the packed rows end |
| `Keyframe.PackedRowDecodes` | kit/Delta.hpp:158-189 | A packed row of up to 256 pixels, anywhere in the data, unpacks to its RGBA pixels and tells its own length |
| `Keyframe.KeyframeDecodes` | kit/Delta.hpp:857-880 | Packed rows in sequence, followed by anything, are self-delimiting and unpack to the RGBA form of the whole image |
| `Keyframe.PackTile` | kit/Delta.hpp:857-880 | The kit's loop over the coded rows produces exactly that keyframe |
| `DeltaCache.NewDeltaData` | kit/Delta.hpp:362-395 | Every row of the window is read from its place in the pixmap and coded |
| `DeltaCache.WindowPixel` | kit/Delta.hpp:387-391 | Pixel (x, y) of what is coded is pixel (startY + y) * bufferWidth + startX + x of the pixmap |
| `DeltaCache.DeltaGenerator.constructor` | kit/Delta.hpp:664-668 | A new generator caches nothing |
| `DeltaCache.DeltaGenerator.CreateDelta` | kit/Delta.hpp:711-773 | Odd widths and sizes over 256 are refused without touching the cache; otherwise the cache has the new version at that location and is else unchanged, and there is a delta, against the cached version, if and only if one of that size is cached and no keyframe is forced |
| `DeltaCache.DeltaGenerator.CompressOrDelta` | kit/Delta.hpp:779-916 | The message is a delta between the cached and the new pixmap, tagged `D`, if a version of that size is cached and no keyframe is forced, else a keyframe of the new one, tagged `Z` |
| `DeltaCache.DeltaGenerator.SortedByWid` | kit/Delta.hpp:508-517 | The sorted list has every cached location once, by rising wire id |
| `DeltaCache.DeltaGenerator.EraseFirst` | kit/Delta.hpp:518-519 | Exactly the first n are erased, each found |
| `DeltaCache.DeltaGenerator.RebalanceDeltasT` | kit/Delta.hpp:501-521 | When it triggers, three quarters of the limit stay, or none when all are dropped; survivors are unchanged and none is older than an evicted one; the count never underflows |
| `DeltaCache.DeltaGenerator.RebalanceDeltas` | kit/Delta.hpp:670-677 | A positive limit becomes the maximum, and the cache is re-balanced to it |
| `DeltaCache.DeltaGenerator.SetSessionCount` | kit/Delta.hpp:679-682 | The maximum becomes 96 tiles a session, at least for one session |
| `DeltaCache.DeltaGenerator.DropCache` | kit/Delta.hpp:684-688 | Nothing is cached any more and the maximum stays |
| `DeltaCache.ErasedIsRebalanced` | kit/Delta.hpp:501-521 | Erasing the computed number of the sorted entries meets the eviction rule |
| `DeltaCache.EncodedConsistent` | kit/Delta.hpp:742-770 | Encoding a tile keeps every cached entry the coded form of an image of its size |
| `Mirror.KeyframeShows` | kit/Delta.hpp:857-893 | The payload of a keyframe message shows its image |
| `Mirror.DeltaShows` | kit/Delta.hpp:548-662 | The payload of a delta message takes the old image shown to the new one |
| `Mirror.MessageShows` | kit/Delta.hpp:779-916 | The message for a tile always fits what the client has: no delta reaches a client without its base, and the client then shows the new pixmap |
| `Mirror.EvictionStep` | kit/Delta.hpp:501-521 | Eviction leaves no outdated version in the cache |
| `Mirror.PartShown` | kit/Delta.hpp:385-391 | What is shown of a request, byte by byte in terms of its pixmap |
| `Mirror.ShowsLastPixmaps` | kit/Delta.hpp:670-916 | A client that shows the last versions shows the pixmaps of the last requests, byte by byte |
| `Mirror.Serve` | kit/Delta.hpp:670-916 | Any one call of the generator keeps generator and client in step |
| `Mirror.Replay` | kit/Delta.hpp:670-916 | For every sequence of calls, with any pixels, accepted sizes, forced keyframes, re-balancing and dropping, the client shows at every location the last pixmap there and nothing anywhere else: byte 4 * (y * width + x) + c is the channel of pixel (startY + y) * bufferWidth + startX + x of the last request, red and blue exchanged for a BGRA kit only |
| `TileStack.TileDataObject.constructor` | wsd/TileCache.hpp:68-71 | A new stack holds the one frame |
| `TileStack.TileDataObject.AppendBlob` | wsd/TileCache.hpp:74-125 | A keyframe clears the stack, an empty delta on an empty delta bumps the last wire id, anything else is put on top; the change in size is returned |
| `TileStack.TileDataObject.AppendChangesSince` | wsd/TileCache.hpp:170-198 | All data of frames newer than `since`, or everything for 0, is appended, and false means there was none |
| `TileStack.ChunksFrom` | browser/src/layer/tile/CanvasTileUtils.ts:97-153 | Applying chunks from an offset is applying the data behind it |
| `TileStack.DeltaApplies` | kit/Delta.hpp:548-662 | A kit delta followed by any data takes the old image to the new one and leaves the rest to be applied |
| `TileStack.StackKeyframe` | wsd/TileCache.hpp:74-125 | After a keyframe the stack stands for that one image |
| `TileStack.KeyframeResets` | wsd/TileCache.hpp:79-85 | A blob that starts with `Z` or 0x89 replaces the whole stack |
| `TileStack.StackDelta` | wsd/TileCache.hpp:74-125 | After a delta from the last image the stack stands for one more image, or for the same ones under a newer id |
| `TileStack.EmptyDeltasMerge` | wsd/TileCache.hpp:100-109 | Empty deltas in a row take one place in the stack, with the last id |
| `TileStack.DeltaAddsPlace` | wsd/TileCache.hpp:110-120 | Any other delta gets a place of its own, behind all data |
| `TileStack.ShownByte` | browser/src/layer/tile/CanvasTileUtils.ts:44-95 | What a client shows of an image, byte by byte |
| `TileStack.StackDeltaKeepsPlaces` | wsd/TileCache.hpp:100-109 | Bumping the id of an empty delta moves no client to another image |
| `TileStack.CatchUp` | wsd/TileCache.hpp:170-198 | A client at any version of the stack gets to the last image with the changes since then |
| `TileStack.FromKeyframe` | wsd/TileCache.hpp:165-198 | Any other client is sent the keyframe with everything on top and gets there too |
| `Pipeline.DeltaMatchesStack` | kit/Delta.hpp:742-770 | A message is a keyframe of the new image or a delta; if no sibling of the tile has been rendered, the delta is against the last image rendered of it |
| `Pipeline.RenderKeepsStack` | wsd/TileCache.cpp:503-538 | Saving a rendered message keeps the stack of every tile without siblings decoding to its last rendering, the server telling tiles apart by their height too |
| `Pipeline.RenderKeepsClient` | wsd/TileCache.cpp:503-538 | Saving a message leaves every client able to catch up on every tile without siblings |
| `Pipeline.FetchedImage` | wsd/ClientSession.hpp:115-134 | From any version it may have, what is sent brings a client to the last image of the stack |
| `Pipeline.FetchShowsRendered` | wsd/ClientSession.hpp:115-134 | In every state that keeps the invariant, a fetch of a tile without siblings shows its last rendering |
| `Pipeline.NextKeepsInv` | kit/Delta.hpp:670-916 | Rendering of any tiles, eviction on either side, dropping, fetching and resetting keep kit, stacks and clients in step for all tiles without siblings, and all stacks cut well |
| `Pipeline.ClientsShowLastRender` | kit/Delta.hpp:779-916 | Over any run, a client that has just fetched a tile shows the RGBA form of the last pixmap rendered for it, provided that no tile with the same location and pixel size and another height has been rendered |
| `Pipeline.ServerHoldsLastRender` | wsd/TileCache.hpp:74-125 | Over any run, the stack of every tile without siblings decodes to the last pixmap rendered for it |
| `Pipeline.NothingLost` | wsd/TileCache.cpp:503-538 | Until the server evicts, every tile ever rendered that has no siblings is on it: no delta comes without its keyframe |
| `Pipeline.AlwaysFetchable` | wsd/TileCache.cpp:503-538 | Over any run, with siblings or without, every stack starts with a keyframe and can be cut into its frames |
| `StaleTiles.UnchangedStep` | kit/Delta.hpp:625-633 | Rendering exactly what is cached at the location gives the empty delta, whichever tile it was cached for |
| `StaleTiles.SiblingsGoStale` | wsd/TileCache.hpp:30-43 | For any two siblings: render the first, then the second, both as forced keyframes, then the first again so that it looks like the second; the first one's stack and a client that fetches it show the old image |
| `StaleTiles.StaleHasSibling` | kit/Delta.hpp:38-48 | A run that leaves a tile stale has rendered a sibling of it |
| `StaleTiles.StaleIff` | common/RenderTiles.hpp:193-204 | Over a set of tiles some run leaves one stale if and only if two of them have the same location and pixel size and different heights |
| `ThreadPool.StepConserves` | common/ThreadPool.hpp:92-161 | In every step each job is queued, in one hand or finished as often as it was pushed |
| `ThreadPool.StepControl` | common/ThreadPool.hpp:92-161 | In every step `_working` counts the hands at work, and a caller that waits has one of them or has been woken |
| `ThreadPool.RunInv` | common/ThreadPool.hpp:92-161 | Both hold in every state of every interleaving |
| `ThreadPool.ReturnsWhenAllDone` | common/ThreadPool.hpp:128-150 | In every interleaving `run` returns only when each job pushed has been executed exactly as often as pushed, the queue is empty, nobody works and `_working` is 0 |
| `ThreadPool.NeverStuck` | common/ThreadPool.hpp:101-150 | Until `run` returns somebody can move without a spurious wake-up, and that step leaves less to do |
| `ThreadPool.LessLeft` | common/ThreadPool.hpp:92-161 | No step of workers or caller adds work, and every step that is not idle leaves less |
| `ThreadPool.OneWorkerFails` | common/ThreadPool.hpp:128-161 | With one worker, two jobs and a spurious wake-up there is a run that fails the final assertion |
| `ThreadPool.AssertFailsIff` | common/ThreadPool.hpp:128-161 | Some run fails the final assertions if and only if there is exactly one worker and wake-ups may be spurious |
| `ThreadPool.StartAssertionsHold` | common/ThreadPool.hpp:92-135 | With any number of workers and spurious wake-ups, `pushWork` and `run` start with `_running` false and `_working` 0, and jobs are taken only while running |
| `ThreadPool.StartNotifies` | common/ThreadPool.hpp:134-142 | With several workers and jobs, `run` takes the first job and notifies every waiting worker, which can then take the second without a spurious wake-up; otherwise it notifies nobody |
| `ThreadPool.StepTakesFirst` | common/ThreadPool.hpp:92-126 | Jobs are pushed behind and taken from the front, into the hand of whoever moves, and in no other way |
| `ThreadPool.GoesOnWithWork` | common/ThreadPool.hpp:141-161 | While there is work a worker that is woken or done, and the caller, go on with the first job |
| `RenderJobs.StepInv` | kit/Delta.hpp:742-770 | Each atomic step of a job, and evictions in between, keep cells apart, the cached versions right and the entry of a job that packs its own |
| `RenderJobs.StepLeftOwn` | kit/Delta.hpp:745-770 | Every job past its insertion or replacement has left its own version in the cache, delta or not, for as long as the entry is there |
| `RenderJobs.InUseNeverFires` | kit/Delta.hpp:460-470 | With pairwise distinct tiles the in-use check fires in no interleaving |
| `RenderJobs.PackedRowsAreOwn` | kit/Delta.hpp:745-770 | While a job packs a keyframe from an entry that is shared, not marked as in use and perhaps evicted, the rows in it are those of its own pixels, in every state |
| `RenderJobs.SameBytesAsSequential` | common/RenderTiles.hpp:152-229 | In every interleaving a job's bytes are those of sequential execution, whether it sends a delta or packs the rows of the shared entry; with evictions meanwhile they may also be those of an empty cache, and only then |
| `RenderJobs.StepOutput` | common/RenderTiles.hpp:220-224 | The shared output is always the data of the finished jobs, each once, in the order of the lock |
| `RenderJobs.PieceOf` | common/RenderTiles.hpp:257-267 | Cutting the output at the sums of the recorded sizes gives each tile its own bytes and uses all of it |
| `RenderJobs.CutResponses` | common/RenderTiles.hpp:257-267 | The loop over the rendered tiles cuts the output by the sizes recorded with each append and answers each with exactly its own bytes |
| `RenderJobs.ResponseIsOwn` | common/RenderTiles.hpp:220-267 | In every state of every interleaving, the k-th piece of the output is what the k-th finished job sends alone |
| `RenderJobs.ResponsesAreSequential` | common/RenderTiles.hpp:152-268 | In every finished run each tile has exactly one response, and without evictions it is what its job sends alone with the version cached at the start |
| `RenderJobs.LeavesWhatWasSent` | kit/Delta.hpp:765-770 | After a finished run the next lookup of a tile finds the version just sent, or nothing if it was evicted |
| `RenderJobs.OthersUntouched` | kit/Delta.hpp:742-770 | Entries of tiles that are not rendered change only by eviction |
| `RenderJobs.RendersCompose` | common/RenderTiles.hpp:152-268 | Of two renders in sequence, in any interleaving of each, the second sends what its jobs send alone against the versions that the first has sent |
| `RenderArea.ComputeArea` | common/RenderTiles.hpp:82-102 | The area is the smallest rectangle around the tiles: it contains each, and each side touches one |
| `RenderArea.BoundsGrow` | common/Rectangle.hpp:79-89 | Extending by one more tile keeps it smallest |
| `RenderArea.RectangleExtent` | common/Rectangle.hpp:53-67 | A rectangle has the extent it was made with, or none on an axis on which it would overflow |
| `RenderArea.WindowInside` | common/RenderTiles.hpp:106-158 | On one axis the window of a tile in the area is inside the pixmap, on the grid or not |
| `RenderArea.WindowsInside` | common/RenderTiles.hpp:82-158 | Every tile's pixel window lies inside the pixmap |
| `RenderArea.WindowToScaleIff` | common/RenderTiles.hpp:154-158 | On one axis the window of a tile is the tile at the scale of the pixmap if and only if the tile is on the grid of the area |
| `RenderArea.AreaToScaleIff` | common/RenderTiles.hpp:106-112 | On one axis the pixmap is the area at that scale if and only if the area is whole tiles wide |
| `RenderArea.RenderedToScale` | common/RenderTiles.hpp:82-158 | For any tiles on one grid, pixmap and windows are the area and its tiles, at the scale of a tile's pixels to its size |
| `RenderArea.WindowsShareIff` | common/RenderTiles.hpp:152-158 | Two tiles share pixels if and only if they fall into one grid cell; on the grid, if and only if they are the same tile |
| `RenderArea.OffGridTilesCollide` | common/RenderTiles.hpp:152-158 | Two different tiles off the grid that are given the same pixels |
| `SpookyMix.RotIsShiftsLow` | common/SpookyV2.h:109-112 | For the rotations in use, the rotation is the two shifts of the source |
| `SpookyMix.RotIsShiftsMiddle` | common/SpookyV2.h:109-112 | The same for the middle rotations |
| `SpookyMix.RotIsShiftsHigh` | common/SpookyV2.h:109-112 | The same for the high rotations |
| `SpookyMix.RotateBack` | common/SpookyV2.h:109-112 | Rotation by any amount below 64 can be undone |
| `SpookyMix.UnmixLineInverts` | common/SpookyV2.h:127-145 | Every line of `Mix` can be undone, given its data word |
| `SpookyMix.MixLineData` | common/SpookyV2.h:127-145 | A line of `Mix` keeps its data word apart from every other |
| `SpookyMix.UnmixInverts` | common/SpookyV2.h:127-145 | All twelve lines together are undone in reverse order |
| `SpookyMix.MixAllInjective` | common/SpookyV2.h:127-145 | For any fixed sequence of blocks, different 12-word states stay different |
| `SpookyMix.EndPartialInjective` | common/SpookyV2.h:163-180 | `EndPartial` is a permutation of the state |
| `SpookyMix.EndInjective` | common/SpookyV2.h:182-194 | So is `End` for a fixed last block, and for a fixed state it is a permutation of the block |
| `SpookyMix.ShortMixInjective` | common/SpookyV2.h:211-252 | `ShortMix` and `ShortEnd` are permutations of their four words |
| `SpookyStream.MixBlocksPrefix` | common/SpookyV2.cpp:140-199 | Blocks already mixed do not depend on what follows |
| `SpookyWords.WordInjective` | common/SpookyV2.cpp:60-134 | A word determines the bytes that it was read from |
| `SpookyWords.WordsInjective` | common/SpookyV2.cpp:168-176 | So do the words of a block |
| `SpookyWords.PaddedInjective` | common/SpookyV2.cpp:188-193 | So does the padded rest, its length included |
| `SpookyWords.BlocksInjective` | common/SpookyV2.cpp:140-199 | The blocks that are mixed in for a message determine it: no byte is dropped on the way in |
| `SpookyStream.LongHashOfBlocks` | common/SpookyV2.cpp:140-199 | The hash of a long message is worked out from exactly these blocks |
| `SpookyReference.EmptyReference` | common/SpookyV2.cpp:23-134 | The hash of no bytes with seeds 0, whose low half is the first value published with the hash |
| `SpookyReference.ShortReference` | common/SpookyV2.cpp:23-134 | The hash of the 63 bytes from 128 on, through a group, half a group and a tail |
| `SpookyReference.LongReference` | common/SpookyV2.cpp:140-199 | The hash of the 192 bytes from 128 on, through two blocks and an empty rest |
| `SpookyStream.SpookyHash.Init` | common/SpookyV2.cpp:204-210 | The object stands for the empty message |
| `SpookyStream.SpookyHash.StashAway` | common/SpookyV2.cpp:227-234 | A piece too short to mix is stashed, and the object stands for the longer message |
| `SpookyStream.SpookyHash.MixIn` | common/SpookyV2.cpp:236-313 | A longer piece is mixed in block by block from the stash on, and the object stands for the longer message |
| `SpookyStream.SpookyHash.MixStash` | common/SpookyV2.cpp:260-270 | Filling up the stash mixes exactly the next two blocks of the message |
| `SpookyStream.SpookyHash.Absorb` | common/SpookyV2.cpp:276-313 | The whole blocks of the rest are mixed and the remainder stashed |
| `SpookyStream.SpookyHash.Update` | common/SpookyV2.cpp:214-314 | After any piece the object stands for everything so far, whatever the cuts |
| `SpookyStream.SpookyHash.Final` | common/SpookyV2.cpp:318-363 | The result is `Hash128` of everything so far, and the object still stands for it |
| `SpookyStream.HashInPieces` | common/SpookyV2.cpp:140-363 | For any cutting into pieces, asking after each gives the one-call hash of all pieces so far |
| `SpookyStream.HashSubBuffer` | common/SpookyV2.cpp:365-384 | Hashing row by row is `Hash64` of the flattened part, or 0 when the part is larger than the buffer |
| `SpookyStream.FlattenedAt` | common/SpookyV2.cpp:374-380 | Byte i of row y of what is hashed is byte i of the pixmap's row startY + y from pixel startX on |
| `Levenshtein.GetLevenshteinDist` | common/JsonUtil.hpp:55-85 | The table loop computes the recurrence, in which equal characters skip the minimum |
| `Levenshtein.IsMinimum` | common/JsonUtil.hpp:72-80 | Skipping the minimum on equal characters never misses a better choice |
| `Levenshtein.NoShorterScript` | common/JsonUtil.hpp:55-85 | No script of insertions, deletions and substitutions is shorter than the result |
| `Levenshtein.ShortestScript` | common/JsonUtil.hpp:55-85 | Some script has exactly that length |
| `Levenshtein.ZeroIffEqual` | common/JsonUtil.hpp:55-85 | The distance is 0 if and only if the strings are equal |
| `Levenshtein.Symmetric` | common/JsonUtil.hpp:55-85 | The distance is symmetric |
| `Levenshtein.Triangle` | common/JsonUtil.hpp:55-85 | The triangle inequality holds |
| `StreamSearch.MatchInWindow` | common/Util.cpp:521-542 | The first match in carry and new bytes is the first of the whole stream |
| `StreamSearch.WindowMoves` | common/Util.cpp:543-555 | Without a match, keeping one byte less than the search string loses none |
| `StreamSearch.ScanWindow` | common/Util.cpp:521-555 | One window finds the first match of the stream or moves on, with everything before the carry written and no more |
| `StreamSearch.ProcessToMatch` | common/Util.cpp:506-573 | For every stream, search string and read size, the stream stands at the first occurrence with exactly the bytes before it copied, or at its end with all of it copied; a stream that is not good is left alone |
| `Tokens.RunsAreExactly` | common/StringVector.hpp:60-86 | A list is the specified one if and only if it lists all maximal delimiter-free runs, each once, from left to right |
| `Tokens.Tokenize` | common/StringVector.hpp:61-86 | For any text and delimiter: the maximal runs before the first newline, or nothing for text starting with NUL |
| `Tokens.TokenizeForeach` | common/StringVector.hpp:89-117 | The calls made are for the same tokens in order, up to the first that is accepted |
| `Tokens.AllCalls` | common/StringVector.hpp:89-117 | If none but the last is accepted, all tokens are visited |
| `Tokens.CallsUntil` | common/StringVector.hpp:89-117 | Otherwise the walk ends with the first token that is accepted |
| `Tokens.SplitStringToVector` | common/Util.hpp:1200-1213 | The texts of all maximal runs of the whole string |
| `Tokens.SplitAgrees` | common/Util.hpp:1200-1213 | For text not starting with NUL and a delimiter other than newline, splitting and tokenizing agree if and only if there is no newline |
| `Tokens.Cat` | common/StringVector.hpp:219-244 | The chosen tokens joined with one separator between each two; nothing for offsets out of range |
| `Tokens.RetokenizedCat` | common/StringVector.hpp:219-244 | Tokenizing the joined tokens gives the same words if and only if the first does not start with NUL |
| `Tokens.NulWordIsLost` | common/StringVector.hpp:219-244 | A space and NUL: one word, joined to NUL, and no word when tokenized again |
| `Utf8.ChunkLength` | common/Util.hpp:417-420 | The bit loop finds the length of the sequence, up to five bytes, and gives up on 0xFC and above |
| `Utf8.IsValidUtf8` | common/Util.hpp:409-437 | The result is past the end if and only if the text is a concatenation of complete sequences; otherwise it is where the longest accepted prefix ends, or the first byte that fails to continue the sequence there |
| `Utf8.AcceptedPrefixes` | common/Protocol.hpp:305-321 | Of accepted text, the accepted prefixes are exactly those not followed by a continuation byte |
| `Utf8.TruncateUtf8` | common/Protocol.hpp:305-321 | Of accepted text, for every length up to its own, the result is its shortest accepted prefix of at least that many bytes |
| `Utf8.WellFormedPrefixes` | common/Protocol.hpp:305-321 | Well-formed text in the sense of section 4 of RFC 3629 is accepted, and cutting where it is accepted keeps it well-formed |
| `Utf8.WellFormedIff` | common/Util.hpp:409-437 | Accepted text is well-formed if and only if no byte is 0xC0, 0xC1 or above 0xF4 and the byte after each 0xE0, 0xED, 0xF0 and 0xF4 is in its range |
| `Utf8.CharacterIsEncoded` | common/Util.hpp:409-437 | Every well-formed sequence is the encoding of section 3 of RFC 3629 of a code point that is no surrogate |
| `Utf8.WellFormedIffEncoded` | common/Util.hpp:409-437 | Text is well-formed if and only if it is the concatenated encodings of some code points |
| `Utf8.IllFormedAccepted` | common/Util.hpp:409-437 | An overlong form, a surrogate, a five-byte form and a code beyond the last character that are accepted and not well-formed |
| `Utf8.GetDelimiterPosition` | common/Util.hpp:860-870 | The first delimiter within the length, or the length |
| `Utf8.ShouldEllipse` | common/Protocol.hpp:295-303 | False if and only if nothing but perhaps a final newline follows the span |
| `Utf8.GetAbbreviatedMessage` | common/Protocol.hpp:346-356 | The first line up to 500 bytes, extended to the end of its last sequence and followed by an ellipsis if there is more; accepted messages have accepted abbreviations of at most 507 bytes |
| `Utf8.EllipsisOmits` | common/Protocol.hpp:323-356 | For accepted messages the ellipsis stands for nothing if and only if only continuation bytes follow the span |
| `Utf8.EllipsisOfNothing` | common/Protocol.hpp:323-356 | Such messages exist: 499 letters and a two-byte character |

## Left out

- zstd: compression is taken as lossless and never failing, and a sequence of compressed pieces as the sequence of their contents; so are its error returns.
- Painting, watermarks and png previews: a rendering is an arbitrary pixmap, and png tiles have no pixels here.
- `DeltaGenerator::expand`: a decoder for tests that keeps one byte a pixel; the browser's decoder is modelled instead.
- Pixels are four bytes in little-endian order and mask words are 64 booleans; the big-endian variants are not modelled.
- AVX2 registers are sequences of eight lanes; the intrinsics used are modelled by what they do to lanes, and the disabled self-check is left out.
- The cache set is a map from locations, which is what hashing and comparing entries by location alone makes of it; hashing itself is not modelled.
- Mirror.Replay: the model of the client is the decoder without its tile bookkeeping, and messages arrive in order.
- Wire ids and sizes are unbounded: the wrap-around of the 32-bit id counter and of `size_t` is modelled only for the row-match offset.
- Mirror.Serve: one pixel mode per generator, as the kit has.
- DeltaCache.DeltaGenerator.CompressOrDelta: requires the sizes for which the source asserts that there is coded data; the refused ones are covered by CreateDelta.
- Reads outside an array give 0 in the browser's decoder, where JavaScript gives undefined, which is stored as 0; writes outside are dropped in both.
- The decoder takes any width and height; the browser calls it with square tiles only.
- Tile descriptors have the positive sizes and heights that their constructor demands.
- Pipeline.FetchShowsRendered: subscriptions, the queue and the per-client tracker are reduced to one step that sends what a client lacks of the newest version; validity, `update:` messages and the in-flight limits are not modelled.
- The eviction rule of the server's cache: any set of tiles may go at any time.
- ThreadPool.ReturnsWhenAllDone: starting and stopping threads, `_shutdown` and exceptions of jobs are not modelled, and a job is a number.
- ThreadPool.NeverStuck: fairness of the scheduler is not stated; every step that is not idle leaves less to do, and such a step is always possible.
- RenderJobs.SameBytesAsSequential: the delta is any function of the job and of the version found, and the keyframe any function of the entry; those functions are what MakeDelta and Keyframe are about.
- RenderJobs.StepInv: replacing the rows of an entry and clearing its in-use mark are one step; reading an entry is one step, which PackedRowsAreOwn makes the same as reading it row by row.
- The pool and the jobs are state machines on values, without the heap objects and locks themselves.
- Rectangle is a value with the constructor from position and extent, `extend`, width and height; its other operations are easy.
- RenderArea.WindowsInside: requires that no coordinate or extent overflows an int.
- SpookyStream.HashSubBuffer: requires the rows of the part to lie in the pixmap, which the source leaves to its callers; unaligned reads are not modelled.
- SpookyReference.ShortReference: the message is given by its words, each of which WordInjective ties to its bytes.
- Hash quality, such as avalanche, is a statistical claim.
- Levenshtein.GetLevenshteinDist: the table has unbounded integers; strings are sequences of characters, not of bytes.
- StreamSearch.ProcessToMatch: the stream is a string with a position; stream errors other than the end are not modelled, and the buffer that windows are read into is a sequence.
- Tokens.TokenizeForeach: the callback depends on index and token only, and its calls are recorded.
- StringVector is a value; `push_back`, `substrFromToken` and the comparisons are easy lookups.
- Tile dumping, logging, tracing, timing, files, sessions, authorization and the rest of the server.
