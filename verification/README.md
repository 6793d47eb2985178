# Verified model of the CM311 video and audio paths

This project models, in Dafny, the parts of the repository that carry pixels, samples and sessions,
and proves what they promise.

- **Decoder daemon, frame path.** The GK6323 decoder leaves NV21 pictures in 64-byte-wide tiles whose
  rows are permuted by an XOR mask. Three generations of the frame routine turn them into linear
  planes: untile then scale (v1), a fused merge over tile bytes (v4), a precomputed address table (v5).
  `Arith`, `Bytes`, `Buffers`, `TileLayout`, `FrameSpec`, `FrameLoops`, `TableSampler`, `MergeSampler`,
  `FramePath`; `FrameMeaning` says in plain numbers which byte of a mapped buffer every output byte is.
- **Decoder daemon, life cycle.** The cache of physical mappings (`MapCache`), the frame routine on top
  of it (`MappedFrame`), and the session thread with its drain thread (`DaemonSession`).
- **Bridge protocol** between the client library and the daemon, byte by byte and for every way of
  splitting reads and writes (`Seqs`, `Framing`, `BridgeProtocol`, `BridgeEnds`), and the NAL unit
  handling around it (`AnnexB`).
- **Capture side.** Size negotiation (`SizeNegotiation`) and the area-averaging downscaler
  (`Downscale`, `Downscaler`).
- **Client.** The audio jitter buffer (`AudioBuffer`), the one-slot frame hand-over to the UI
  (`SoftRender`) and the session registry (`SessionRegistry`).

Loops and objects that the source updates in place are methods over arrays and classes; each is proved
equal to a function on values, and the properties are proved about that function. Threads are step
functions over explicit states, so that a property of every interleaving is a property of every sequence
of actions. Results of vendor, system and UI calls, and the clock, are parameters. `dafny verify
dfyconfig.toml` checks everything.

Findings, each with its exact condition and a concrete case:

- The address returned for the Y plane can be unmapped by the VU lookup that follows it, exactly when Y
  was a hit in the next slot to be evicted of a full cache and VU had to be mapped
  (`MapCache.YSurvivesVu`; a run that gets there: `MapCache.YCanBeLost`). The delivered luma is the
  frame's for certain, whatever a stale address shows, if and only if that did not happen
  (`MappedFrame.LumaCertainExactly`).
- For an unscaled picture of odd height, the header announces more chroma bytes than were produced for
  it (`FramePath.ChromaCountExact`, `FramePath.ChromaCountFalls`), and the client then shows chroma that
  is not the frame's (`BridgeEnds.ClientSeesPlanes`).
- Re-fitting a captured frame into the encoder's size gives that size if and only if the source is
  stable; a 3024x1964 screen is not, and no portrait source with an odd first width is
  (`SizeNegotiation.RefitAgainstEncoder`, `SizeNegotiation.UnstableExamples`,
  `SizeNegotiation.PortraitOddUnstable`).
- The downscaler's boxes run past the source as soon as the target is wider than the source
  (`Downscale.BoxesEndAtEdge`); its only caller never asks for that (`Downscaler.ConversionShrinks`).
- The downscaler's 32-bit accumulator gives the mean of a box if and only if the box sums to less than
  2^32 (`Downscaler.ScaledPixel`; `Downscaler.WhiteOverflows` for a white 5000x5000 picture), and its
  32-bit pixel counter makes it fail if and only if the counter of some box wraps to zero
  (`Downscaler.DownscaleFrom`; `Downscaler.HugeFails` for 65536x65536 pixels). No source of up to
  16,843,009 pixels gets to either (`Downscaler.ScreensAreExact`).
- Removing a session takes the registry lock twice. Whatever other threads do in between, the second
  critical section throws away exactly the sessions that were put under the emptied peer since the first
  and not removed again, so nothing is lost if and only if there are none
  (`SessionRegistry.DropLosesExactly`, `SessionRegistry.NothingLostExactly`,
  `SessionRegistry.LateDropLosesSession`). The removal returns the session it emptied if and only if
  nobody else dropped that peer in between; otherwise it returns nothing, or a session that was opened
  under the same peer since (`SessionRegistry.LateDropReturns`, `SessionRegistry.LateDropTakesAnother`).
  No session is ever returned twice or forgotten (`SessionRegistry.SessionsConserved`).
- The scan for NAL unit types lists the types of the first twenty units if and only if the last unit has
  at least three bytes or there are more than twenty units (`AnnexB.ListsTypesExactly`;
  `AnnexB.ShortUnitMissed` for a unit of two bytes).
- The daemon's header comment describes RGBA output with a different magic number; the code sends NV21
  with 0x47524632, and the model follows the code.

## Model

| member | source | states |
|---|---|---|
| TileLayout.StoredRowPermutes | goke-re/goke_daemon_v5_1800.c:143 | the XOR of the row index is a permutation of the tile's rows, and its own inverse |
| TileLayout.RowsByBlocks | goke-re/goke_daemon_v5_1800.c:143-184 | the permutation written out: four-row blocks change places by a table on the tile column, and rows keep their order in a block |
| TileLayout.PlainRowsInOrder | goke-re/goke_daemon_v4.c:142 | with one lane (v1, v4) the rows are stored in order |
| TileLayout.AddrInRange | goke-re/goke_daemon_v5_1800.c:172-178 | every pixel of the padded plane has its byte inside the plane's byte range |
| TileLayout.AddrInvertible | goke-re/goke_daemon_v5_1800.c:172-185 | the address of a pixel determines its row and column, for every layout and stride |
| TileLayout.AddrOnto | goke-re/goke_daemon_v5_1800.c:172-185 | every byte of the range is the address of exactly the pixel computed by the inverse map |
| TileLayout.AddrRun | goke-re/goke_daemon_v5_1800.c:175-176 | 64 columns of one tile are 64 consecutive bytes |
| TileLayout.UntiledPlaneAt | goke-re/goke_daemon_v5_1800.c:172-185 | byte `row*w+col` of the linear plane is the tiled source byte of (row, col) |
| TileLayout.UntileTile | goke-re/goke_daemon_v5_1800.c:142-148 | untiling after tiling gives back every padded image |
| TileLayout.TileUntile | goke-re/goke_daemon_v5_1800.c:142-148 | tiling after untiling gives back every mapped plane |
| FrameSpec.FitInBox | goke-re/goke_daemon_v5_1800.c:120-125 | the output fits the box; the size changes exactly when the source overflows the box, and then both sides are even and strictly smaller |
| FrameSpec.FitKeepsShape | goke-re/goke_daemon_v5_1800.c:121-124 | a scaled output fills the box one way and is the largest even proportional size the other way |
| FrameSpec.PairPosFacts | goke-re/goke_daemon_v5_1800.c:145-148 | a sampled chroma pair starts at the largest even column not above 2\*col\*w/ow, both bytes lie in the row, and pairs are strictly increasing |
| FrameSpec.ChromaRowsFit | goke-re/goke_daemon_v5_1800.c:159-161 | every sampled chroma row exists in the half-height plane, also for odd heights |
| FrameSpec.SampleIsScaledUntile | goke-re/goke_daemon_v5_1800.c:135-169 | reading sampled bytes from the tiles equals untiling everything and scaling by nearest neighbour |
| FrameSpec.Job.PlaneIsScaledUntile | goke-re/goke_daemon_v5_1800.c:135-169 | the plane of a luma or chroma job is the scaled untiled plane |
| FrameSpec.LumaByte | goke-re/goke_daemon_v5_1800.c:150-157 | output luma (row, col) is the untiled pixel (sy, sx) with sy\*oh <= row\*h < (sy+1)\*oh and sx\*ow <= col\*w < (sx+1)\*ow |
| FrameSpec.ChromaByte | goke-re/goke_daemon_v5_1800.c:159-169 | each output chroma pair is the untiled pair at (sy, sx), sx even, with sy\*oh <= row\*h < (sy+1)\*oh and sx\*ow <= 2\*col\*w < (sx+2)\*ow |
| FrameSpec.PlaneSameSize | goke-re/goke_daemon_v5_1800.c:171-187 | at the source's own size the sampled plane is the untiled plane |
| Buffers.CopyBytes | goke-re/goke_daemon_v5_1800.c:176 | the copy changes exactly the target range |
| FrameLoops.TileFits32 | goke-re/goke_daemon_v5_1800.c:172-182 | the 32-bit tile offsets do not wrap for any accepted size |
| FrameLoops.UntileRow | goke-re/goke_daemon_v5_1800.c:173-177 | the tile loop, with its partial last tile, in 32-bit arithmetic, writes one linear row |
| FrameLoops.UntilePlane | goke-re/goke_daemon_v5_1800.c:172-185 | the untile loops, in 32-bit arithmetic, set exactly the first rows\*w bytes, to the linear plane, and nothing beyond |
| FrameLoops.BuildMap | goke-re/goke_daemon_v4.c:133-135 | `xmap` and `uvmap`, with room for the widest output (uvmap: half of it), hold the scaled columns; neither the 32-bit product nor the 16-bit entry wraps |
| FrameLoops.MapEntryFits | goke-re/goke_daemon_v4.c:133-135 | no product or table entry overflows for any accepted size |
| FrameLoops.GatherRow | goke-re/goke_daemon_v5_1800.c:156-168 | gathering through offsets writes one output row and nothing else |
| FrameLoops.RowFits32 | goke-re/goke_daemon_v5_1800.c:150-163 | the row products do not wrap, and the sampled row exists |
| FrameLoops.RowPlaces | goke-re/goke_daemon_v5_1800.c:150-163 | computed in 32 bits, the source row of an output row is row\*h/oh and exists, and the output row starts at row\*ow |
| FrameLoops.ScaleLinear | goke-re/goke_daemon.c:111-134 | v1's scaling of the untiled plane, in 32-bit arithmetic, writes exactly the plane of the job |
| TableSampler.EntryFits | goke-re/goke_daemon_v5_1800.c:138-149 | every table entry fits in 32 bits |
| TableSampler.BuildTable | goke-re/goke_daemon_v5_1800.c:138-149 | the table (1920 columns for luma, 960 for chroma) holds the band offset of every sampled column for every row of a tile |
| TableSampler.PairAdjacent | goke-re/goke_daemon_v5_1800.c:165-168 | the second byte of a pair follows the first in the same tile |
| TableSampler.SampleRow | goke-re/goke_daemon_v5_1800.c:150-168 | one output row, read through the table in 32-bit arithmetic, is the sampled row of the job, and nothing else changes |
| TableSampler.SamplePlane | goke-re/goke_daemon_v5_1800.c:135-169 | the address-table sampler, in 32-bit arithmetic, writes exactly the plane of the job |
| MergeSampler.MapIncreases | goke-re/goke_daemon_v4.c:133-135 | downscaling makes both column maps strictly increasing |
| MergeSampler.SkipBelow | goke-re/goke_daemon_v4.c:145 | the skip loop stops at the first entry not below the current column |
| MergeSampler.MergeByte | goke-re/goke_daemon_v4.c:144-146 | one byte or pair emits the wanted column if it is this one, and leaves the next wanted column to the right |
| MergeSampler.MergeTile | goke-re/goke_daemon_v4.c:141-148 | one tile row emits every wanted column below the tile's right edge, in order |
| MergeSampler.MergeRow | goke-re/goke_daemon_v4.c:140-148 | a whole row emits each output column exactly once and writes exactly the sampled row |
| MergeSampler.MergePlane | goke-re/goke_daemon_v4.c:136-164 | the fused merge, in 32-bit arithmetic, writes exactly the plane of the job |
| FramePath.JobsValid | goke-re/goke_daemon_v5_1800.c:117-133 | every accepted frame yields samples that all exist and outputs inside the box |
| FramePath.RoomForPlanes | goke-re/goke_daemon_v5_1800.c:195 | all scratch writes of an accepted frame stay inside the allocated planes |
| FramePath.OutputIsScaledUntile | goke-re/goke_daemon_v5_1800.c:117-193 | for every accepted frame the luma sent is the scaled untiled plane, and so is the chroma, except for an unscaled odd width, where it is the untiled plane |
| FramePath.ChromaCountExact | goke-re/goke_daemon_v5_1800.c:179-185 | the announced chroma byte count equals the bytes produced if and only if the frame is scaled or its height is even |
| FramePath.ChromaCountFalls | goke-re/goke_daemon_v5_1800.c:179-185 | an accepted 64x3 frame announces 96 chroma bytes and produces 64 |
| FramePath.Nv21FromFrameV5 | goke-re/goke_daemon_v5_1800.c:117-193 | v5 accepts exactly the accepted frames and delivers the specified planes |
| FramePath.Nv21FromFrameV4 | goke-re/goke_daemon_v4.c:111-188 | v4 delivers the same specified planes under its layout |
| FramePath.Nv21FromFrameV1 | goke-re/goke_daemon.c:83-134 | v1 delivers the same specified planes under its layout and box |
| FrameMeaning.FitDescribed | goke-re/goke_daemon_v5_1800.c:119-125 | the output size is the source's if it fits the box, and otherwise the one that fills the box one way and is the largest even proportional number the other way |
| FrameMeaning.AcceptedExactly | goke-re/goke_daemon_v5_1800.c:118-126 | which sizes each version accepts, in numbers: sides from 2 up to 4096 and 2304, a stride of whole tiles, and no side of the output vanishing |
| FrameMeaning.CoversExactly | goke-re/goke_daemon_v5_1800.c:129-133 | how many bytes of each mapped buffer are read at most, in numbers |
| FrameMeaning.LumaBytes | goke-re/goke_daemon_v5_1800.c:117-193 | for every accepted frame of versions 1, 4 and 5, the byte of the luma buffer that each luma byte sent is, by an explicit offset with an explicit row table |
| FrameMeaning.ScaledChromaBytes | goke-re/goke_daemon_v5_1800.c:144-169 | the same for both halves of every chroma pair of a scaled frame |
| FrameMeaning.PlainChromaBytes | goke-re/goke_daemon_v5_1800.c:179-185 | the same for every chroma byte of an unscaled frame |
| FrameMeaning.DeliveredPlanes | goke-re/goke_daemon_v5_1800.c:186-192 | a routine that delivers returns that output size and leaves those planes at the start of the right scratch buffers |
| FrameMeaning.DeliveredRejects | goke-re/goke_daemon_v5_1800.c:118-132 | a routine rejects a frame if and only if its size is not one of those or a plane could not be mapped |
| MapCache.Find | goke-re/goke_daemon_v5_1800.c:101 | the first entry with the key, or none |
| MapCache.ReturnedIsLive | goke-re/goke_daemon_v5_1800.c:100-111 | a lookup returns a live mapping of the key asked for; a hit makes no call |
| MapCache.InvStep | goke-re/goke_daemon_v5_1800.c:100-116 | every lookup and clear keeps keys distinct, entries live, live mappings cached, and unmaps only what is mapped |
| MapCache.InvClear | goke-re/goke_daemon_v5_1800.c:112-116 | a clear leaves nothing live |
| MapCache.RunsAreSafe | goke-re/goke_daemon_v5_1800.c:96-116 | the same for every run from the empty cache, with as many live mappings as entries, at most eight |
| MapCache.YSurvivesVu | goke-re/goke_daemon_v5_1800.c:131 | after the Y and VU lookups the Y address is unmapped if and only if Y hit the next victim of a full cache and VU missed and mapped |
| MapCache.YCanBeLost | goke-re/goke_daemon_v5_1800.c:105-108 | a run from the empty cache after which that happens |
| MapCache.EvictionCounterBound | goke-re/goke_daemon_v5_1800.c:99-107 | the eviction counter never exceeds the number of calls, in any run |
| MapCache.OldestGoesFirst | goke-re/goke_daemon_v5_1800.c:100-111 | on the logged calls alone, in every run from an empty table up to the next clear: the k-th address unmapped is that of the k-th mapping, each goes when eight younger ones have been made, and the youngest eight are in the table |
| MapCache.YLostByAge | goke-re/goke_daemon_v5_1800.c:100-131 | in such a run the Y address is lost to the VU lookup if and only if Y's mapping is the oldest of eight and VU, not among them, gets mapped |
| MappedFrame.Lookups.BothLive | goke-re/goke_daemon_v5_1800.c:131 | after both lookups the VU address shows VU, and the Y address shows Y if and only if Y was not evicted |
| MappedFrame.Nv21FromMappedFrame | goke-re/goke_daemon_v5_1800.c:117-193 | the whole routine with its lookups: rejected without touching the cache, rejected on a failed mapping, and otherwise the planes of the mapped buffers, with the frame's luma whenever Y was not evicted |
| MappedFrame.LumaCertainExactly | goke-re/goke_daemon_v5_1800.c:131-157 | for possible lookups of an accepted frame, the luma read is the frame's for everything the addresses can show if and only if Y was not evicted |
| MapCache.FewAddressesNeverEvict | goke-re/goke_daemon_v5_1800.c:94-111 | with at most eight addresses since the last clear, every returned address stays mapped |
| MapCache.Cache.MapGet | goke-re/goke_daemon_v5_1800.c:100-111 | the lookup on the global table is the lookup step |
| MapCache.Cache.Clear | goke-re/goke_daemon_v5_1800.c:112-116 | the clear on the global table is the clear step |
| DaemonSession.InvStep | goke-re/goke_daemon_v5_1800.c:202-301 | every step of either thread keeps the accounting, ordering, ending and cleanup invariants |
| DaemonSession.FramesAccountedFor | goke-re/goke_daemon_v5_1800.c:202-250 | in every run each received frame is released once before the next; received = frames + fails + at most one terminal frame; silence after a refused frame or failed write |
| DaemonSession.FramesHandledInOrder | goke-re/goke_daemon_v5_1800.c:202-250 | in every run each frame is received, then refused, dropped or converted, then written as header, luma and chroma in this order up to a failure, then released |
| DaemonSession.CleanupIsExact | goke-re/goke_daemon_v5_1800.c:253-301 | whichever call fails, a returning session undid exactly what it acquired, in reverse order, after joining the drain thread, and no mapping is used after the cache was cleared |
| DaemonSession.EndsForAReason | goke-re/goke_daemon_v5_1800.c:197-301 | in every run the drain thread is gone only after `stop` or a signal, the session thread leaves its loop only after `stop`, a signal or a failed feed, and it returns 0 exactly if the input buffer was allocated, else -1, with the mappings cleared |
| DaemonSession.StoppedDrainExits | goke-re/goke_daemon_v5_1800.c:202-252 | after `stop` or a signal, the drain thread exits within eight of its steps |
| DaemonSession.SessionReturns | goke-re/goke_daemon_v5_1800.c:202-301 | from any reachable state in which the end was asked for, a frame was refused or could not be written, or the session thread has left its loop, 28 rounds of steps of both threads in any interleaving bring the session thread to its return |
| Bytes.Word32 | goke-re/goke_nv21_client.rs:66-67 | four bytes carry every 32-bit number, in either byte order |
| Bytes.ByteOrder | goke-re/gen_stream.swift:99 | which number four bytes stand for, in either byte order |
| Framing.CutRecovers | goke-re/goke_daemon_v5_1800.c:285-287 | for any self-delimiting encoding, a stream cut anywhere parses to exactly the items complete within it, up to the first one that is out of limits |
| BridgeProtocol.DaemonRecovers | goke-re/goke_daemon_v5_1800.c:285-294 | the daemon recovers codec and units up to the first unit out of limits, hence all of them if and only if all are within 1 byte to 16 MiB |
| BridgeProtocol.CutStream | goke-re/goke_daemon_v5_1800.c:285-287 | for any units the client can send, a stream cut anywhere yields exactly the units complete within it up to the first one out of limits, hence all of these if and only if they are within limits |
| BridgeProtocol.ClientRecovers | goke-re/goke_nv21_client.rs:124-138 | the client parses back exactly the frames that arrived in full |
| BridgeProtocol.ClientWire | goke-re/goke_nv21_client.rs:66-86 | the client's bytes written out: mark, codec, and for each unit mark, length and data |
| BridgeProtocol.HeaderWire | goke-re/goke_daemon_v5_1800.c:243 | the daemon's 24 header bytes written out |
| BridgeProtocol.SessionOpensExactly | goke-re/goke_daemon_v5_1800.c:319-324 | which byte streams open a session |
| BridgeProtocol.UnitTakenExactly | goke-re/goke_daemon_v5_1800.c:285-287 | when the daemon takes another unit from any byte stream, which bytes it is, and where the next one starts |
| BridgeProtocol.HeaderAcceptedExactly | goke-re/goke_nv21_client.rs:130-134 | the headers the client accepts, in numbers; its test of the total size never decides |
| BridgeProtocol.FrameTakenExactly | goke-re/goke_nv21_client.rs:124-138 | when the client takes another frame from any byte stream, what it then holds, and where the next one starts |
| BridgeEnds.Receiver.ReadFull | goke-re/goke_daemon_v5_1800.c:80 | for any chunking and interruptions, exactly n bytes are read, or the stream was shorter |
| BridgeEnds.AnySplitArrives | goke-re/goke_daemon_v5_1800.c:80 | however the stream is cut into pieces and however often a call is interrupted, what can be read is the stream up to its end |
| BridgeEnds.Receiver.ReadSession | goke-re/goke_daemon_v5_1800.c:285-294 | the session read depends on the bytes only, not on their chunking, up to the unit after which the loop was stopped or the decoder refused a buffer |
| BridgeEnds.Receiver.ReadFrames | goke-re/goke_nv21_client.rs:124-138 | the frames read depend on the bytes only, up to the frame at which the window failed |
| BridgeEnds.Sender.WriteFull | goke-re/goke_daemon_v5_1800.c:81 | all bytes are written, or a proper prefix on failure |
| BridgeEnds.GokeDecoder.Send | goke-re/goke_nv21_client.rs:82-88 | the stream stays the encoding of the units sent, or a prefix of it once it broke; a refused unit or a stream that broke earlier changes nothing |
| BridgeEnds.GokeDecoder.Decode | goke-re/goke_nv21_client.rs:90-102 | parameter sets go out once, ahead of the first unit; in every case a prefix of the planned units is sent, and all of them on an unbroken stream if and only if the call succeeds |
| BridgeEnds.DaemonSeesPrefix | goke-re/goke_nv21_client.rs:66-98 | whatever units the client sent, a prefix of its stream gives no session before the hello is complete, and then the right codec and exactly the complete units up to the first one out of limits |
| BridgeEnds.DaemonHeaderAccepted | goke-re/goke_daemon_v5_1800.c:243-244 | every header the daemon can emit passes the client's checks |
| BridgeEnds.ClientSeesPlanes | goke-re/goke_daemon_v5_1800.c:243-244 | the bytes written for an accepted frame parse back to one frame with its luma plane, and with its chroma plane if and only if the frame was scaled or its height is even |
| AnnexB.Rewrite | goke-re/gen_stream.swift:95-103 | the rewrite loop computes the rewriting function, including the out-of-range failure |
| AnnexB.RewriteWellFormed | goke-re/gen_stream.swift:95-103 | length-prefixed units become the byte stream of the same units |
| AnnexB.PrefixWire | goke-re/gen_stream.swift:98-102 | the bytes of a length-prefixed unit and of the same unit behind a start code |
| AnnexB.RewriteKeepsLength | goke-re/gen_stream.swift:95-103 | on any accepted input the length is kept, up to fewer than four stray bytes |
| AnnexB.SameTotalLength | goke-re/gen_stream.swift:100-102 | both encodings of the same units have the same length |
| AnnexB.LogHevcNals | goke-re/goke_daemon_v5_1800.c:82-92 | the scan loop computes the listing function |
| AnnexB.NalTypeBits | goke-re/goke_daemon_v5_1800.c:87 | the listed type is the six bits after the first bit of the header byte |
| AnnexB.BodySkipped | goke-re/goke_daemon_v5_1800.c:85-89 | no match inside a unit nor across its end |
| AnnexB.ScanListsTypes | goke-re/goke_daemon_v5_1800.c:82-92 | the types of the first twenty units in order, with no false match; a last unit of one or two bytes is not seen |
| AnnexB.ListsTypesExactly | goke-re/goke_daemon_v5_1800.c:82-92 | the listing is the types of the first twenty units if and only if the last unit has three bytes or more or is not among them; it is the types of all units if and only if there are at most twenty and the last has three bytes or more |
| AnnexB.ShortUnitMissed | goke-re/goke_daemon_v5_1800.c:85 | a single unit of two bytes is not listed |
| AnnexB.RecordedUnitsAreListed | goke-re/gen_stream.swift:95-104 | the same listing, with the same exact condition, for units that went through the rewrite |
| SizeNegotiation.FitWithin | goke-re/patch_snapshot/convert.rs:17-25 | any source exceeding the box is fitted into the box and into itself, with even sides |
| SizeNegotiation.FitCaptureExactly | goke-re/patch_snapshot/video_service.rs:967-978 | a size is kept if and only if it fits the box; otherwise both sides are even, within box and source, and each is the rounded side or one less |
| SizeNegotiation.RoundedFitKeepsShape | goke-re/patch_snapshot/convert.rs:17-25 | before the low bits are cleared, one side fills the box and the other is within half a pixel of the source's shape |
| SizeNegotiation.RefitAgainstEncoder | goke-re/patch_snapshot/video_service.rs:967-986 | re-fitting never exceeds the encoder's size and equals it if and only if the source is stable |
| SizeNegotiation.LandscapeStable | goke-re/patch_snapshot/video_service.rs:967-978 | landscape sources with an even first rounded size are stable |
| SizeNegotiation.PortraitOddUnstable | goke-re/patch_snapshot/video_service.rs:967-986 | no portrait source whose first rounded width is odd is stable |
| SizeNegotiation.UnstableExamples | goke-re/patch_snapshot/convert.rs:42-53 | concrete sources that lose rows |
| Downscale.CarriedIsScale | goke-re/patch_snapshot/mod.rs:203-205 | the carried left edge is always dx\*sw/dst_w when shrinking |
| Downscale.CarriedWhenWider | goke-re/patch_snapshot/mod.rs:203-205 | a target at least as wide as the source takes one source position per output position |
| Downscale.BoxesEndAtEdge | goke-re/patch_snapshot/mod.rs:203-228 | the boxes of a row end at the source's edge if and only if the target is no wider |
| Downscale.EdgeFacts | goke-re/patch_snapshot/mod.rs:199-205 | no box is empty |
| Downscale.InExactlyOneBox | goke-re/patch_snapshot/mod.rs:199-217 | every source position lies in exactly one box |
| Downscale.BoxesPartition | goke-re/patch_snapshot/mod.rs:199-230 | box sums add up to the image's sum and box counts to its number of pixels |
| Downscale.MeanBetween | goke-re/patch_snapshot/mod.rs:218-227 | an output byte lies between the least and the greatest byte of its box |
| Downscale.MeanIsByte | goke-re/patch_snapshot/mod.rs:219-222 | the cast to a byte loses nothing |
| Downscale.MeanExact | goke-re/patch_snapshot/mod.rs:218-227 | the mean is the sum of the box over its number of pixels, rounded down |
| Downscale.StoredIsMean | goke-re/patch_snapshot/mod.rs:206-227 | the byte stored for a box of fewer than 2^32 pixels is its mean if and only if the box sums to less than 2^32 |
| Downscale.AccumulatorFits | goke-re/patch_snapshot/mod.rs:206-213 | the 32-bit accumulator cannot overflow for boxes of up to 16,843,009 pixels |
| Downscaler.BoxMean | goke-re/patch_snapshot/mod.rs:206-227 | the accumulation loops, with sums and pixels counted in 32 bits, compute the stored byte of the box in every channel; they fail if and only if the pixel counter wraps to zero |
| Downscaler.DownscaleRow | goke-re/patch_snapshot/mod.rs:200-229 | a row of output pixels is written, with the carried edge, and nothing else, unless the division of one of its pixels fails |
| Downscaler.DownscaleFrom | goke-re/patch_snapshot/mod.rs:191-238 | the packed output image for every picture and every target whose boxes lie in the buffer, wider and taller ones too; failure if and only if some box's pixel counter wraps to zero; an empty target gives an empty buffer |
| Downscaler.LastBoxDecides | goke-re/patch_snapshot/mod.rs:199-209 | the demand on the buffer is that of the last box of the last row, neither more nor less |
| Downscaler.NarrowFits | goke-re/patch_snapshot/mod.rs:199-209 | a target no wider than the source needs only the pixels of the source, at any height |
| Downscaler.StoredPixel | goke-re/patch_snapshot/mod.rs:199-230 | each output byte is the stored byte of its box |
| Downscaler.ScaledPixel | goke-re/patch_snapshot/mod.rs:199-230 | when shrinking, an output byte whose box has fewer than 2^32 pixels is the mean of its box of the source if and only if the box sums to less than 2^32 |
| Downscaler.ConstantPreserved | goke-re/patch_snapshot/mod.rs:199-230 | a constant channel keeps its value in exactly the output pixels whose box sums to less than 2^32 |
| Downscaler.WhiteOverflows | goke-re/patch_snapshot/mod.rs:206-222 | a white 5000x5000 picture scaled to one pixel is not white |
| Downscaler.HugeFails | goke-re/patch_snapshot/mod.rs:207-222 | a 65536x65536 picture scaled to one pixel divides by zero |
| Downscaler.SmallCounts | goke-re/patch_snapshot/mod.rs:207-222 | no division fails when fewer than 2^32 pixels are read in all |
| Downscaler.ScreensAreExact | goke-re/patch_snapshot/mod.rs:199-230 | for sources of up to 16,843,009 pixels nothing fails and every output byte is the mean of its box |
| Downscaler.SameSizeCopies | goke-re/patch_snapshot/mod.rs:199-230 | equal-size scaling copies every pixel |
| Downscaler.SameSizeBytes | goke-re/patch_snapshot/mod.rs:199-230 | on the raw bytes: byte `dy*stride + dx*bpp + c` goes to byte `dy*w*bpp + dx*bpp + c` |
| Downscaler.ConversionShrinks | goke-re/patch_snapshot/convert.rs:42-55 | the conversion only asks for targets no larger than the frame, which read nothing outside it and whose boxes end at its edges |
| Downscaler.ConversionIsExact | goke-re/patch_snapshot/convert.rs:42-55 | a captured frame of up to 16,843,009 pixels is converted to the means of its boxes, without failing |
| AudioBuffer.Bucket | rustdesk/src/client.rs:1235-1238 | bucket b holds the fills of at least b and less than b+1 tenths of a second, the last one all longer fills |
| AudioBuffer.BucketIs | rustdesk/src/client.rs:1235-1238 | the playing time determines the bucket |
| AudioBuffer.EmptyRun | rustdesk/src/client.rs:1255-1261 | `zero` is the length of the leading run of empty buckets |
| AudioBuffer.Fullest | rustdesk/src/client.rs:1257-1269 | `max` is the first fullest bucket other than bucket 0 |
| AudioBuffer.DropIsSafe | rustdesk/src/client.rs:1254-1290 | a drop takes at most two thirds of any fill seen in the window (in playing time, even across a rate change) plus one sample, is even, and leaves more than twice as much |
| AudioBuffer.DropIsSafeAtOneRate | rustdesk/src/client.rs:1254-1290 | without a resize the bound is in samples |
| AudioBuffer.DropExactly | rustdesk/src/client.rs:1270-1289 | the drop in numbers for any histogram: nothing if the level seen most is below 600 ms, else a quarter of it, capped at two thirds of the lowest level seen, rounded to even, if the ring holds more than three times as much |
| AudioBuffer.SteadyFillDropsQuarter | rustdesk/src/client.rs:1275-1289 | a fill that stays within one tenth of a second, of at least 600 ms, loses a quarter of that level |
| AudioBuffer.LowFillBlocksDrop | rustdesk/src/client.rs:1258-1281 | if bucket 0 was hit in the window nothing is dropped |
| AudioBuffer.Buffer.Resize | rustdesk/src/client.rs:1221-1229 | the capacity stays three seconds of samples, for any rate; a change of rate empties the ring |
| AudioBuffer.Buffer.AppendPcm2 | rustdesk/src/client.rs:1296-1310 | the ring holds the last min(capacity, total) samples of old then new |
| AudioBuffer.Buffer.Scan | rustdesk/src/client.rs:1254-1269 | the scan that clears while it compares still finds the empty run and the fullest bucket of the original histogram |
| AudioBuffer.Buffer.Evaluate | rustdesk/src/client.rs:1254-1290 | a window's end clears all thirty buckets and drops exactly the decided number of oldest samples |
| AudioBuffer.Buffer.TryShrink | rustdesk/src/client.rs:1231-1291 | one evaluation per twelve seconds of the shared time stamp, on the histogram of exactly the readings of the window |
| AudioBuffer.Buffer.AppendPcm | rustdesk/src/client.rs:1315-1318 | with playback in between, the ring is what the append kept, minus what was played, minus exactly the decided drop, all from the front; the reading recorded is the fill after the append |
| SoftRender.WaitingFrameIsStable | rustdesk/src/flutter.rs:1190-1216 | under any interleaving a frame's pixels do not change while its slot stays valid |
| SoftRender.BuffersConserved | rustdesk/src/flutter.rs:1203-1216 | in every run that does not discard the slots, decoding included, a display with a slot keeps the same two buffers, one in the slot and one with its decoder, swapped exactly if an odd number of frames was handed over |
| SoftRender.BuffersNeverShared | rustdesk/src/flutter.rs:1203-1216 | in every run, no buffer is in two places: no decoder writes into a buffer that a slot holds |
| SoftRender.WaitingFrameIsAnnounced | rustdesk/src/flutter.rs:1217-1249 | a valid slot whose decoder is outside the call was announced after the frame was stored |
| SoftRender.NotificationNeverStuck | rustdesk/src/flutter.rs:1221-1236 | the notification loop can always go on, since the handlers are locked |
| SoftRender.EligibleExactly | rustdesk/src/flutter.rs:1222-1236 | which sessions a frame is announced to |
| SoftRender.UndisturbedCall | rustdesk/src/flutter.rs:1190-1249 | the steps of one call without interference: nothing if a frame still waits; otherwise the frame is in the slot, the decoder has the other buffer, and the frame waits if and only if some session listens |
| SoftRender.FlutterHandler.StoreRgba | rustdesk/src/flutter.rs:1202-1217 | the first critical section is the store step |
| SoftRender.FlutterHandler.NotifySessions | rustdesk/src/flutter.rs:1219-1236 | `is_sent` if and only if some session is eligible; exactly the eligible ones are told, in any order |
| SoftRender.FlutterHandler.OnRgbaSoftRender | rustdesk/src/flutter.rs:1190-1249 | without interference the frame waits exactly if someone was told, or the earlier frame still waits |
| SoftRender.FlutterHandler.NextRgba | rustdesk/src/flutter.rs:1098-1102 | only the flag of an existing slot changes |
| SessionRegistry.RunKeepsInv | rustdesk/src/flutter.rs:2105-2289 | in every interleaving of critical sections with fresh ids, each id is under at most one peer, and every peer without sessions is about to be dropped by a thread inside its removal |
| SessionRegistry.QuiescentHasNoEmptyPeer | rustdesk/src/flutter.rs:2105-2126 | when no removal is under way, no peer is without sessions |
| SessionRegistry.HeldAfterRun | rustdesk/src/flutter.rs:2105-2289 | a session is under a peer after a run if and only if it was there or was put there, and nothing removed it since |
| SessionRegistry.PredictionExact | rustdesk/src/flutter.rs:2128-2146 | the prediction is true if and only if an undisturbed removal returns a peer session; that is the session object that held the id, its entry is gone, and no other session is touched |
| SessionRegistry.DropLosesExactly | rustdesk/src/flutter.rs:2107-2122 | whatever other threads do between the two critical sections, the second takes away exactly the sessions put under the emptied peer in between and not removed again |
| SessionRegistry.NothingLostExactly | rustdesk/src/flutter.rs:2107-2122 | no session is lost if and only if there are none such |
| SessionRegistry.PeerAfterRun | rustdesk/src/flutter.rs:2105-2249 | a session object is under a peer after a run if and only if it was there and was not dropped, or the run created the peer with it and has not dropped it since |
| SessionRegistry.LateDropReturns | rustdesk/src/flutter.rs:2107-2125 | whatever happens in the gap, the removal returns the session it emptied if and only if nobody dropped the peer in between, else the one created there since, and nothing if and only if there is none; it holds exactly the ids added in between and not removed again |
| SessionRegistry.LateDropTakesAnother | rustdesk/src/flutter.rs:2122-2125 | with a second removal in the gap the first one returns nothing, or takes away a session opened afterwards |
| SessionRegistry.SessionsConserved | rustdesk/src/flutter.rs:2105-2249 | in every interleaving each session object put under a peer is returned by exactly one removal or is still there |
| SessionRegistry.LateDropIsAtomic | rustdesk/src/flutter.rs:2107-2122 | if nobody adds to the emptied peer in the gap, dropping it late gives the same state as dropping it at once |
| SessionRegistry.UndisturbedRemoval | rustdesk/src/flutter.rs:2105-2126 | with nothing in the gap the two critical sections are the removal as one step |
| SessionRegistry.LateDropLosesSession | rustdesk/src/flutter.rs:2122-2125 | a session added in the gap, successfully, is dropped with the peer |
| SessionRegistry.Sessions.InsertSession | rustdesk/src/flutter.rs:2236-2249 | the peer is created if needed and keeps its session object otherwise |
| SessionRegistry.Sessions.WouldRemovePeerBySessionId | rustdesk/src/flutter.rs:2136-2146 | the search, in any hash order, decides the prediction |
| SessionRegistry.Sessions.DetachSession | rustdesk/src/flutter.rs:2105-2121 | the first critical section, in any hash order, removes the id and nothing else, and names the peer it emptied |
| SessionRegistry.Sessions.RemoveSessionBySessionId | rustdesk/src/flutter.rs:2105-2126 | undisturbed, the two are the specified removal |

## Left out

- Vendor, system and UI calls (libgk_msp, libyuv, ANativeWindow, AVFoundation, cpal): their results are parameters.
- MapCache.Cache.MapGet: the eviction counter is an unbounded number; by `MapCache.EvictionCounterBound` the signed 32-bit counter of the source agrees with it in every run of fewer than 2^31 calls.
- FramePath.Nv21FromFrameV5: takes the contents of the mapped planes, which cover whole tiles as the decoder allocates them; the lookups that map them are in `MappedFrame.Nv21FromMappedFrame`.
- MappedFrame.Nv21FromMappedFrame: a stale address is taken to show some readable plane; that reading it may also fault is not modelled.
- MappedFrame.LumaCertainExactly: the same.
- FramePath.Nv21FromFrameV4: its older cache, which always evicts slot 0, is not modelled, so its planes are taken as readable.
- FramePath.Nv21FromFrameV1: maps and unmaps both planes itself, which is not modelled, and so is not the colour conversion.
- DaemonSession.InvStep: the two threads are modelled on values, one loop test, flag write or call per step, because the subject is their interleaving; a loop test reads both flags at once, which decides the same because each flag only ever changes one way; socket shutdown, memory-model effects of the `volatile` flags, logging and the frame dump are not modelled.
- BridgeEnds.GokeDecoder.Decode: the extraction of parameter sets is an input, and a socket that failed once is taken to fail ever after.
- Downscaler.DownscaleFrom: arithmetic is that of an optimized build, which wraps instead of panicking.
- Downscaler.ScaledPixel: for a box of 2^32 pixels or more, whose pixel counter wraps too, nothing is said about the mean.
- SizeNegotiation.FitWithin: products are unbounded; the 64-bit products of the source cannot overflow for sizes below 2^32.
- AudioBuffer.Buffer.TryShrink: samples are an arbitrary type; the rate must not be zero, since the source would divide by it.
- SoftRender.WaitingFrameIsAnnounced: texture rendering, plugin hooks and the raw pointer handed to the UI are not modelled.
- SessionRegistry.RunKeepsInv: display bookkeeping of a session and the session count sent to the server are not modelled.
- The superseded v3 daemon, whose chroma row mapping differs, the test clients, and the copies of the stream generators.
- RustDesk networking, login, clipboard, scripts and user interface text: they would only add copying and string tables.
