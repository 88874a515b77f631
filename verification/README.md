# Verified model of the display HAL

A Dafny model of the hardest parts of the display hardware abstraction layer, with proofs over all inputs, runs and
reachable states. One module per component:

- **SyncTask**: the two-mutex, two-condition-variable hand-off between a caller and a worker thread, as a step system.
- **DisplayStates**, **CompManager**: which displays are on and configured, safe mode, and the strategy retry loop. The
  class refines the event system that the invariants are proved about.
- **HandleTable**, **BufferManager**: the reference-counted buffer table with a ledger of kernel resources, and the
  allocator service that serves a batch.
- **Yv12Converter**, **Yv12Samples**, **StridedConverter**, **Bytes**, **Rows**: the software YUV converters on byte arrays.
- **C2dBlits**, **C2dCopybit**: surface templates, the blit list, the destination of a composition and the table of GPU
  mappings, shared with a cleanup thread; a step system with a log of draws, and the class that refines it.
- **GrallocLayout**, **PlaneLayout**, **UbwcLayout**, **Alignment**: buffer sizes in 32-bit arithmetic and the planes in
  them.
- **Descriptor**: the wire form of buffer descriptors, format resolution, and allocation against validation.
- **MdpRects**, **MdpQueue**: clip, scale, rotate and flip arithmetic; the bounded request list and release fences.
- **EglImageCache**, **LruOrder**: the tone mapper's LRU cache of EGL images, against the history of wraps.

Kernel, GPU and driver answers are parameters or streams of answers; ghost fields are ledgers of what was mapped,
allocated, submitted or closed. Sections that the source runs under one lock are one method.

Where the code differs from what its comments or its shape suggest, the model follows the code:

- A retry inside one `Prepare` call keeps the constraints fixed at its start, so it is not forced into safe mode;
  retries in later `Prepare` calls are (`CompManager.RetriesOfFirstPrepareSafeIff`,
  `CompManager.CompManager.PrepareFrame`, `CompManager.RetryOutsideSafeMode`).
- The caller's waits in `SyncTask` have no predicate. One spurious wake-up there can deadlock both threads
  (`SyncTask.SpuriousCallerDeadlocks`, `SyncTask.SpuriousWakeDeadlocksIff`).
- `SIZE_8K` is 4096. The check on three-plane surfaces compares with the two-plane limit, and no supported format
  reaches it.
- In the two-byte semi-planar format, Cr is placed one byte after Cb (`PlaneLayout.P010ChromaOverlaps`).
- A blit whose clips overflow the C2D list draws in the middle, which gives back the template that its remaining clips
  still use (`C2dBlits.LateIsWrong`, `C2dCopybit.TooManyClips`).
- A blit that fails on its source after mapping the destination unmaps the destination and leaves it counted as mapped
  (`C2dCopybit.BlitAfterFailure`).
- A blit to another destination than the one that counts as mapped is drawn on that one, and a clear while the target
  type is YUV maps a surface that is not drawn on (`C2dCopybit.TwoDestinations`, `C2dCopybit.ClearAfterYuv`).
- A flush leaves the list in place until the cleanup: a second flush draws it again, and what is queued in between is
  dropped (`C2dCopybit.FlushedTwice`, `C2dCopybit.DroppedByCleanup`).
- The padded YV12 loop does not end for width 0, and for width 1 it leaves a row only when its 32-bit column counter
  wraps (`Yv12Converter.NarrowImageRows`).
- The padded YV12 loop packs chroma into rows of the visible width, although luma keeps its stride
  (`Yv12Samples.ChromaInPlaceIff`, `Yv12Samples.PaddingMovesChroma`).
- A row of a packed raw format can be a byte short of its pixels (`GrallocLayout.RawRowHoldsIff`).
- The check of a fill compares its size with the image and not its place (`MdpQueue.FillAcceptedIff`).
- A failed import caches an image under a file descriptor without a reference
  (`EglImageCache.EglImageWrapper.WrapUnimported`).

Check the project with `dafny verify dfyconfig.toml`.

## Model

| member | source | states |
|---|---|---|
| `SyncTask.StepKeepsInv` | sdm/include/utils/sync_task.h:75-127 | every atomic step of the caller and the worker keeps the invariant on lock ownership, wait positions and task history, unless the caller's wait ends spuriously |
| `SyncTask.RunKeepsInv` | sdm/include/utils/sync_task.h:55-127 | the invariant holds after every run without a spurious caller wake-up |
| `SyncTask.RunAccepts` | sdm/include/utils/sync_task.h:70-91 | the requests accepted along a run are exactly those the client made, in order |
| `SyncTask.HandOff` | sdm/include/utils/sync_task.h:70-91 | on every run each request is run by the handler at most once, in posting order, with its own code and context, and a call returns only after its task ran |
| `SyncTask.NoCircularWait` | sdm/include/utils/sync_task.h:76-110 | the opposite lock orders of caller and worker never block each other |
| `SyncTask.Progress` | sdm/include/utils/sync_task.h:75-127 | no lost wake-up and no deadlock: before the join some productive step is always enabled |
| `SyncTask.ProductiveStepsDescend` | sdm/include/utils/sync_task.h:75-127 | every productive step, in any order, decreases a rank |
| `SyncTask.BoundedWork` | sdm/include/utils/sync_task.h:75-127 | whatever the scheduler does, a run without new requests or spurious wake-ups is bounded by that rank |
| `SyncTask.CanJoin` | sdm/include/utils/sync_task.h:64-68 | from every reachable state the worker can be joined |
| `SyncTask.EveryRunCanComplete` | sdm/include/utils/sync_task.h:55-127 | every run extends to one that joins the worker, having run and returned exactly the client's requests |
| `SyncTask.SpuriousCallerDeadlocks` | sdm/include/utils/sync_task.h:61-90 | the hypothesis is needed: one spurious wake-up in the constructor's wait leads to a state with no enabled step |
| `SyncTask.SpuriousWakeDeadlocksIff` | sdm/include/utils/sync_task.h:61-90 | from every reachable wait of the caller that ends spuriously, a deadlock can be reached if and only if it is not the destructor's wait and the worker is not about to notify |
| `DisplayStates.CommitClearsSafeModeIff` | sdm/libs/core/comp_manager.cpp:384-389 | a commit leaves safe mode off exactly when it was off or all other displays that are on were configured |
| `DisplayStates.CommitRoundConfigures` | sdm/libs/core/comp_manager.cpp:384-389 | a round of commits configures exactly the displays that took part |
| `DisplayStates.FullCommitRoundEndsSafeMode` | sdm/libs/core/comp_manager.cpp:384-389 | one commit from every display that is on, in any order and with repetitions, ends safe mode with all of them configured |
| `DisplayStates.CommitWhileOffMisleads` | sdm/libs/core/comp_manager.cpp:384-389 | a concrete run where a commit from a display that is off ends safe mode while a display that is on is not configured |
| `DisplayStates.StepKeepsInvIff` | sdm/libs/core/comp_manager.cpp:554-582 | one event keeps configured displays among those that are on, and all of them configured when two or more are on out of safe mode, if and only if it is legal; the legal events are told from the state before |
| `DisplayStates.RunKeepsInvIff` | sdm/libs/core/comp_manager.cpp:384-389 | the invariant holds throughout a run if and only if the run is legal; then the size comparison of a commit is set equality |
| `DisplayStates.ListsByHistory` | sdm/libs/core/comp_manager.cpp:554-582 | after any run, the displays that are on and the configured ones are those the calls named last, told from the calls alone; a power-off goes by two ids |
| `DisplayStates.SafeModeByHistory` | sdm/libs/core/comp_manager.cpp:142-147 | after any run, safe mode is on if and only if a non-primary display was registered, or one was switched on while another was on, and no commit since has found as many displays configured as are on |
| `CompManager.CompManager.UnregisterDisplay` | sdm/libs/core/comp_manager.cpp:157-189 | a null context is refused; otherwise the context is released and its display leaves both lists |
| `CompManager.CompManager.SetDisplayState` | sdm/libs/core/comp_manager.cpp:554-598 | the lists, safe mode and layer limits after a power change are those of the state event, with the two ids kept apart |
| `CompManager.CompManager.PostCommit` | sdm/libs/core/comp_manager.cpp:378-404 | the lists are updated as the commit event says even on a resource error, and the idle fallback is cleared exactly on success |
| `CompManager.CompManager.PrepareStrategyConstraints` | sdm/libs/core/comp_manager.cpp:242-276 | safe mode is imposed on a frame if and only if one of the five reasons applies, with the layer limit that belongs to it |
| `CompManager.CompManager.PrePrepare` | sdm/libs/core/comp_manager.cpp:278-285 | a new frame starts with all strategies remaining and no attempts |
| `CompManager.LoggedIsAppended` | sdm/libs/core/comp_manager.cpp:301-316 | what the loop logs is exactly the attempts that the oracle answers determine |
| `CompManager.RetriesOfFirstPrepareSafeIff` | sdm/libs/core/comp_manager.cpp:294-316 | every retry of the first Prepare of a frame is in safe mode or has one app layer if and only if the constraints are safe, there is one app layer or one strategy, or the first attempt ends the loop |
| `CompManager.CompManager.Prepare` | sdm/libs/core/comp_manager.cpp:287-327 | attempts plus remaining strategies stay constant, every Start has its Stop, success means the last strategy tried got its resources, and all retries of the frame are safe exactly as the first Prepare decides |
| `CompManager.RetryOutsideSafeMode` | sdm/libs/core/comp_manager.cpp:287-327 | on a new manager with one primary display, a frame whose second attempt runs outside safe mode |
| `CompManager.CompManager.RetryLoop` | sdm/libs/core/comp_manager.cpp:301-316 | the loop logs what it did, one attempt per remaining strategy, and that log is the specified one |
| `CompManager.CompManager.ProcessIdleTimeout` | sdm/libs/core/comp_manager.cpp:426-437 | after an idle timeout every frame is composed in safe mode unless it has exactly one app layer |
| `CompManager.CompManager.ProcessThermalEvent` | sdm/libs/core/comp_manager.cpp:439-450 | from the thermal limit on every frame is composed in safe mode unless it has exactly one app layer; a further event below it leaves the decision to the other reasons |
| `CompManager.FrameRetriesSafeIff` | sdm/libs/core/comp_manager.cpp:278-327 | over a whole frame every retry is in safe mode or has one app layer if and only if the first Prepare is safe; later ones add no retry outside safe mode |
| `CompManager.CompManager.PrepareFrame` | sdm/libs/core/comp_manager.cpp:278-327 | after PrePrepare and any number of Prepare calls the log is the concatenation of the attempts that the state before the frame and the answers determine, and the condition above holds of it |
| `CompManager.CompManager.ToldByCalls` | sdm/libs/core/comp_manager.cpp:384-389 | the manager's lists and safe mode are those its calls lead to |
| `CompManager.CompManager.RegisterDisplay` | sdm/libs/core/comp_manager.cpp:82-155 | registration fails and keeps nothing, or yields a fresh context that owns its strategy and is one more call of the history; a non-primary display thereby asks for safe mode |
| `CompManager.AttemptsShape` | sdm/libs/core/comp_manager.cpp:301-316 | each attempt got what the strategy and the resource manager answered it; all but the last obtained a strategy and no resources, and the loop stops early only at an exit condition |
| `HandleTable.StepKeepsInv` | gralloc/gr_buf_mgr.cpp:57-84 | every allocate, retain or release, whatever the kernel answers, keeps counts positive and each resource owned once, leaked, or freed exactly once |
| `HandleTable.RunKeepsInv` | gralloc/gr_buf_mgr.cpp:97-129 | conservation of main and metadata resources over every run |
| `HandleTable.StepLeaksIff` | gralloc/gr_buf_mgr.cpp:57-84 | a call leaks if and only if it takes one of the early error exits, told from the state before the call |
| `HandleTable.LiveIsOwnedIff` | gralloc/gr_buf_mgr.cpp:302-380 | live resources are exactly those of the table's entries if and only if no call of the run took an early exit |
| `HandleTable.BatchRestores` | gralloc/QtiAllocator.cpp:74-96 | allocating any number of handles and releasing each once restores the table and frees what was created, but for the main buffer of a failed last attempt |
| `HandleTable.PresentIff` | gralloc/gr_buf_mgr.cpp:97-191 | after any run, a handle is in the table if and only if some call obtained both its buffers, by allocation or valid retain, and it was not released more often than retained since |
| `HandleTable.RefCountIsBalance` | gralloc/gr_buf_mgr.cpp:162-191 | the count of an entry is one plus the retains minus the releases since the first call that it has been kept since, and its resources are the two that call created |
| `HandleTable.LastReleaseFrees` | gralloc/gr_buf_mgr.cpp:176-191 | an entry leaves the table exactly on a release at count one; what is freed then, on each exit of the code; until then nothing of it is |
| `HandleTable.LeaksExactly` | gralloc/gr_buf_mgr.cpp:57-84 | which resources a leaking call leaves without an owner |
| `BufferManager.BufferManager.AllocateBuffer` | gralloc/gr_buf_mgr.cpp:302-380 | success registers a fresh handle with a new id and count one; failure registers nothing and keeps the main buffer if only the metadata failed |
| `BufferManager.BufferManager.RegisterHandle` | gralloc/gr_buf_mgr.cpp:97-101 | adds exactly one entry and keeps all others |
| `BufferManager.BufferManager.ImportHandle` | gralloc/gr_buf_mgr.cpp:103-129 | an unknown valid handle is imported and registered, with the early exits of the code |
| `BufferManager.BufferManager.ReleaseBuffer` | gralloc/gr_buf_mgr.cpp:176-191 | the object refines the release step of the table |
| `BufferManager.QtiAllocator.Allocate` | gralloc/QtiAllocator.cpp:63-99 | for every count and every index at which allocation first fails, the handle table is left as it was, every created buffer is released once, and the stride and buffers are reported only on success |
| `BufferManager.QtiAllocator.AllocateEach` | gralloc/QtiAllocator.cpp:74-84 | the loop stops at the first failure, having registered distinct fresh handles |
| `BufferManager.QtiAllocator.ReleaseEach` | gralloc/QtiAllocator.cpp:94-96 | every buffer is released once |
| `BufferManager.BufferManager.FreeBuffer` | gralloc/gr_buf_mgr.cpp:57-84 | which resources are freed on each exit, and that only a complete free takes the descriptors out of the handle |
| `BufferManager.BufferManager.RetainBuffer` | gralloc/gr_buf_mgr.cpp:162-174 | a known handle gets one more reference; an unknown one that is imported is in the table with count one and two new resources; otherwise an error |
| `Yv12Converter.SamplePlaced` | libcopybit/software_converter.cpp:97-121 | chroma sample n = r * (width / 2) + i of the packed plane is at 2n and its partner at 2n + 1 |
| `Yv12Converter.StorePair` | libcopybit/software_converter.cpp:105-114 | a pair is stored at consecutive bytes also where it straddles two destination rows |
| `Yv12Converter.InterleavePadded` | libcopybit/software_converter.cpp:97-121 | for every width of at least 2 and every height the four-counter loop ends and writes exactly the packed interleave |
| `Yv12Converter.PackedIsZipped` | libcopybit/software_converter.cpp:82-88 | without padding, packing row by row is zipping the two planes |
| `Yv12Converter.InterleaveScalar` | libcopybit/software_converter.cpp:82-88 | the scalar path writes the zipped planes |
| `Yv12Converter.InterleaveVector` | libcopybit/software_converter.cpp:63-80 | the vector path writes the zipped planes up to the last whole group of eight |
| `Yv12Converter.ChromaSizeByEights` | libcopybit/software_converter.cpp:51-60 | the chroma size is a multiple of 8, so the vector path leaves no tail |
| `Yv12Converter.PathsAgree` | libcopybit/software_converter.cpp:51-121 | for every even height the padded and the unpadded paths produce the same plane |
| `Yv12Converter.ConvertChroma` | libcopybit/software_converter.cpp:57-121 | each path writes the interleaved chroma and nothing else |
| `Yv12Converter.Convert` | libcopybit/software_converter.cpp:36-124 | luma is copied, chroma interleaved, the rest of the destination untouched; a missing handle is an error |
| `Yv12Converter.NarrowImageRows` | libcopybit/software_converter.cpp:97-121 | with a 32-bit column counter: at width 0 the loop stays in its first row; at width 1 it leaves a row only after 2^32 samples |
| `StridedConverter.CopyRowsAt` | libcopybit/software_converter.cpp:154-169 | what survives overlapping row copies: each row up to where the next one starts, and all of the last |
| `StridedConverter.CopyRowsOutside` | libcopybit/software_converter.cpp:154-169 | bytes before the first row and after the end of the last one are unchanged |
| `StridedConverter.CopyPlane` | libcopybit/software_converter.cpp:154-169 | the pointer loop copies rows in order with different strides |
| `StridedConverter.CopySourceToDestination` | libcopybit/software_converter.cpp:138-171 | both planes are copied, or an error is returned for a missing buffer |
| `StridedConverter.LumaCopied` | libcopybit/software_converter.cpp:154-161 | every visible luma byte arrives, whatever chroma rows are copied afterwards |
| `StridedConverter.ChromaCopied` | libcopybit/software_converter.cpp:162-169 | every chroma byte inside both strides arrives, although rows spill into the next |
| `StridedConverter.ConversionsAreInverse` | libcopybit/software_converter.cpp:194-259 | with equal aligned widths the two conversions use each other's layouts |
| `StridedConverter.LumaRoundTrip` | libcopybit/software_converter.cpp:138-263 | Android to C2D and back preserves every visible luma byte, for all sizes and formats |
| `StridedConverter.ChromaRoundTrip` | libcopybit/software_converter.cpp:138-263 | and every chroma byte within the narrower stride |
| `StridedConverter.ConversionsHaveRoom` | libcopybit/software_converter.cpp:138-263 | for every format and width, both conversions stay inside an Android buffer that holds the image and the temporary buffer, spill of the last chroma row included |
| `StridedConverter.AllocatedBufferHoldsImage` | gralloc/gr_utils.cpp:290-293 | a buffer allocated for a semi-planar 4:2:0 format holds an image of every width with its stride, unless its size wraps |
| `StridedConverter.ThereAndBack` | libcopybit/copybit_c2d.cpp:1034-1065 | for every supported format and width, converting to a new temporary buffer and back returns every visible luma byte and every chroma byte within the stride |
| `StridedConverter.LayoutIff` | libcopybit/software_converter.cpp:194-259 | the strides are the least multiples of 32 and 16 that hold the width, and chroma starts after that many rows, for the encodeable format at the next multiple of 2048 |
| `StridedConverter.C2dToAndroid` | libcopybit/software_converter.cpp:182-218 | visible luma and chroma go from the C2D layout to the Android layout, stated apart from the code; other formats and missing buffers are refused |
| `StridedConverter.AndroidToC2d` | libcopybit/software_converter.cpp:228-263 | the opposite conversion, with the stride of the handle |
| `StridedConverter.ChromaWhereAllocated` | gralloc/gr_utils.cpp:408-419 | chroma starts where the plane information of the allocator puts it |
| `StridedConverter.C2dBufferSizeIs` | libcopybit/copybit_c2d.cpp:963-988 | the scratch buffer has room for the luma rows and two chroma planes with rows of a multiple of 32, and less than a page more |
| `C2dCopybit.FreeSlotExists` | libcopybit/copybit_c2d.cpp:362-371 | a slot table with fewer addresses than slots has a free slot |
| `C2dCopybit.Context.GetGpuAddr` | libcopybit/copybit_c2d.cpp:344-385 | maps into a free slot, or fails and changes nothing |
| `C2dCopybit.Context.Unmap` | libcopybit/copybit_c2d.cpp:387-396 | an address is unmapped once; a free slot or index -1 does nothing |
| `C2dCopybit.Context.SetImage` | libcopybit/copybit_c2d.cpp:500-610 | exactly when a surface is made, and that a failing call holds no mapping |
| `C2dCopybit.Context.Finish` | libcopybit/copybit_c2d.cpp:669-699 | everything mapped is unmapped and all counts are reset, whether or not the draw succeeded |
| `C2dCopybit.Context.MapSource` | libcopybit/copybit_c2d.cpp:1219-1339 | every failing exit restores the slot table; a free slot is always there for the source |
| `C2dCopybit.DropBothPut` | libcopybit/copybit_c2d.cpp:1312-1321 | unmapping the destination first and the source second restores the table |
| `C2dCopybit.Context.UnmapAll` | libcopybit/copybit_c2d.cpp:682-688 | every slot is freed and every address unmapped |
| `C2dCopybit.Context.FlushGetFence` | libcopybit/copybit_c2d.cpp:640-667 | refines the flush step: the list stays, and a cleanup is requested exactly when draw, flush and fence succeed |
| `C2dCopybit.Context.Cleanup` | libcopybit/copybit_c2d.cpp:223-249 | refines the cleanup step: a requested cleanup empties the context, drawn or not |
| `C2dCopybit.Context.Clear` | libcopybit/copybit_c2d.cpp:701-730 | refines the clear step: the RGB surface is mapped once per composition whatever the target type, and not at all on failure |
| `C2dCopybit.Context.SelectTarget` | libcopybit/copybit_c2d.cpp:1150-1163 | a used-up limit or a new target type first draws and empties the context |
| `C2dCopybit.Context.MapTarget` | libcopybit/copybit_c2d.cpp:1200-1217 | the destination is mapped under the target type if none counts as mapped; another one that does is left as it is |
| `C2dCopybit.Context.MapBoth` | libcopybit/copybit_c2d.cpp:1200-1339 | succeeds if and only if the blit is accepted; otherwise the table is restored, and a destination the blit had mapped stays counted as mapped without a mapping |
| `C2dCopybit.Context.TakeTemplate` | libcopybit/copybit_c2d.cpp:1341-1350 | the object gets the next template of its kind, within range |
| `C2dCopybit.Context.QueueClips` | libcopybit/copybit_c2d.cpp:1352-1361 | the list never overflows, and a full one is drawn first |
| `C2dCopybit.Context.DrawNow` | libcopybit/copybit_c2d.cpp:1363-1386 | an immediate draw empties the context; the later unmapping of stale indices does nothing |
| `C2dCopybit.Context.Execute` | libcopybit/copybit_c2d.cpp:223-252 | over every interleaving of client calls and cleanup rounds the context goes exactly where the calls and answers lead, each mapping made is in one slot or was unmapped once, counts stay in range, and nothing is mapped after a finish |
| `C2dCopybit.TwoDestinations` | libcopybit/copybit_c2d.cpp:1200-1217 | on a new context, two blits to different destinations succeed and the second is queued for the first one's |
| `C2dCopybit.ClearAfterYuv` | libcopybit/copybit_c2d.cpp:712-725 | on a new context, a clear after a YUV blit makes the next YUV blit draw on a surface that is not mapped |
| `C2dCopybit.BlitAfterFailure` | libcopybit/copybit_c2d.cpp:1200-1321 | on a new context, a blit after one that failed on its source is queued for a destination that is not mapped |
| `C2dCopybit.TooManyClips` | libcopybit/copybit_c2d.cpp:1352-1361 | on a new context, one clip more than the list holds is queued without its template |
| `C2dCopybit.FlushedTwice` | libcopybit/copybit_c2d.cpp:640-667 | on a new context, two flushes draw the same clip twice |
| `C2dCopybit.DroppedByCleanup` | libcopybit/copybit_c2d.cpp:235-248 | on a new context, a blit between a flush and its cleanup is never drawn |
| `C2dCopybit.Context.StretchInternal` | libcopybit/copybit_c2d.cpp:1087-1396 | refines the stretch step from the state that the choice of the target leaves |
| `C2dCopybit.Context.Stretch` | libcopybit/copybit_c2d.cpp:1087-1396 | succeeds if and only if what it needs is there, and is then drawn or queued as the destination and the source demand |
| `GrallocLayout.DataAlignment` | gralloc/gr_utils.cpp:204-220 | the data alignment is a page multiple that divides 2^32 |
| `GrallocLayout.AlignedDimensions` | gralloc/gr_utils.cpp:852-926 | aligned dimensions are never smaller than the requested ones, except the byte widths of packed raw formats |
| `GrallocLayout.SizeIsPageMultiple` | gralloc/gr_utils.cpp:335-337 | the size is a page multiple for every description, even modulo 2^32 |
| `GrallocLayout.AlignNoWrap` | gralloc/gr_utils.h:66-69 | an aligned value that fits in 32 bits was computed without wrapping |
| `GrallocLayout.BytesExact` | gralloc/gr_utils.cpp:238-334 | for every format, a byte count that fits in 32 bits is the exact one and covers the format's content |
| `GrallocLayout.SizeNoWrap` | gralloc/gr_utils.cpp:238-338 | a size that fits in 32 bits is exact and holds the content of its layers |
| `GrallocLayout.SizeHoldsSamples` | gralloc/gr_utils.cpp:238-338 | a size that fits in 32 bits holds every sample of the requested image, for every format but the packed raw ones |
| `GrallocLayout.RawRowHoldsIff` | gralloc/gr_utils.cpp:878-883 | a row of a packed raw format holds its pixels if and only if they end on a byte or their whole bytes do not end on a multiple of 16 |
| `GrallocLayout.RawRowTooShort` | gralloc/gr_utils.cpp:881-883 | 13 pixels of 10 bits get a row of 16 bytes |
| `GrallocLayout.LayerAlignment` | gralloc/gr_utils.cpp:204-220 | the size of a layer is rounded up to the section that its protection and format demand, and no further |
| `GrallocLayout.StrideIsLeast` | gralloc/gr_utils.cpp:852-926 | the stride of each format is the least multiple it asks for that holds a row |
| `GrallocLayout.HeightsByFormat` | gralloc/gr_utils.cpp:852-926 | heights are rounded for RGB, for zero-shutter-lag images and where the build asks for it, and not otherwise |
| `GrallocLayout.ServedIff` | gralloc/gr_utils.cpp:238-338 | an image that is not empty gets a size if and only if it has no mipmaps or cube maps, its dimensions are even where chroma is shared, and a blob has one row |
| `GrallocLayout.NoWaste` | gralloc/gr_utils.cpp:238-338 | an image aligned as it is takes its samples, or where the format asks for pages less than a page more (two pages for the two-part formats) |
| `PlaneLayout.PlaneShape` | gralloc/gr_utils.cpp:408-419 | luma first, then interleaved or separate chroma, without wrapping |
| `PlaneLayout.SampleBeforeEnd` | gralloc/gr_utils.cpp:408-419 | luma bytes lie before chroma bytes and both before the end of the planes |
| `PlaneLayout.EndWithinContent` | gralloc/gr_utils.cpp:238-338 | the end of the planes is covered by what the size is computed from |
| `PlaneLayout.SamplesInsideSize` | gralloc/gr_utils.cpp:454-525 | for every format with planes, even dimensions and no 32-bit wrap, every sample located by the plane information lies inside the allocated size |
| `PlaneLayout.OneByteSamplesApart` | gralloc/gr_utils.cpp:454-525 | distinct samples of one-byte formats lie at distinct bytes |
| `PlaneLayout.P010ChromaOverlaps` | gralloc/gr_utils.cpp:408-419 | in the two-byte format the Cr sample starts inside the Cb sample |
| `PlaneLayout.NoSharedBytesIff` | gralloc/gr_utils.cpp:454-525 | no two samples of a non-empty image share a byte if and only if samples are one byte wide |
| `PlaneLayout.PlanesByFormat` | gralloc/gr_utils.cpp:454-525 | where the planes of each format are, in plain numbers, and which chroma component comes first |
| `PlaneLayout.ChromaRowsByFormat` | gralloc/gr_utils.cpp:454-525 | 4:2:2 formats have a chroma row for each row of luma, the others for every two |
| `PlaneLayout.OffsetsExactIff` | gralloc/gr_utils.cpp:408-525 | the offsets of the second plane are exact if and only if they fit in 32 bits |
| `PlaneLayout.CbExactIff` | gralloc/gr_utils.cpp:516-525 | in YV12 the Cb plane lies half the rows of its stride behind Cr if and only if their bytes fit in 32 bits |
| `PlaneLayout.StrideExactIff` | gralloc/gr_utils.cpp:408-419 | the 10-bit row stride is exact if and only if it fits in 32 bits |
| `UbwcLayout.BlocksOfAligned` | gralloc/gr_utils.cpp:680-684 | rounding to 32 pixels first does not change the number of metadata blocks along a side |
| `UbwcLayout.MetaSizeOfAligned` | gralloc/gr_utils.cpp:668-689 | the metadata size from the requested dimensions equals the one from the 32-aligned dimensions, for all sizes and depths |
| `UbwcLayout.MetaCoversBlocks` | gralloc/gr_utils.cpp:644-689 | the metadata holds an entry for every compression block with a pixel of the image |
| `UbwcLayout.StackedDisjoint` | gralloc/gr_utils.cpp:357-383 | such planes are ordered and pairwise disjoint |
| `UbwcLayout.DataFillsBuffer` | gralloc/gr_utils.cpp:696-704 | the data plane starts at the metadata size, on a 4K boundary, and exactly fills the bytes of a layer, which are exact whenever they fit in 32 bits |
| `UbwcLayout.DataInsideSize` | gralloc/gr_utils.cpp:335-337 | with data alignment and layers applied, the data plane lies inside the 32-bit size of the buffer unless that wraps |
| `UbwcLayout.FramePlanesStackedIff` | gralloc/gr_utils.cpp:357-383 | for any stride and scanline functions the four planes follow each other on 4K boundaries, each large enough for its rows, if and only if no 32-bit plane size wraps |
| `UbwcLayout.InterlacedPlanesStackedIff` | gralloc/gr_utils.cpp:385-406 | the second field starts exactly where the chroma of the first ends, with the same internal offsets, and all eight planes are stacked if and only if no size wraps |
| `UbwcLayout.BlockBytes` | gralloc/gr_utils.cpp:644-666 | a compression block of four rows holds 256 bytes, or 128 at two bytes to a pixel; other depths have none |
| `UbwcLayout.MetaSizeIs` | gralloc/gr_utils.cpp:668-689 | the metadata is a byte for each block of the image rounded up to 64 blocks by 16, in whole 4K |
| `UbwcLayout.CrBesideCb` | gralloc/gr_utils.cpp:357-383 | Cr starts one byte behind Cb in the same plane |
| `Descriptor.DecodeEncode` | gralloc/gr_buf_descriptor.h:49-72 | decoding an encoded descriptor gives back its format, layers and 64-bit usage, and dimensions with the same bits |
| `Descriptor.EncodeDecode` | gralloc/gr_buf_descriptor.h:62-72 | exactly the seven-word sequences with the magic number decode, and each is the encoding of what it decodes to |
| `Descriptor.ResolvedStaysResolved` | gralloc/gr_allocator.cpp:189-245 | resolving a format is idempotent, always resolves the flexible format, and leaves the implementation-defined one only when no usage bit selects a format |
| `Descriptor.SizeOfPages` | gralloc/gr_utils.cpp:335-337 | whatever bytes a layer takes, the size is a whole number of pages below 4 GB |
| `Descriptor.AllocatedBufferValidatesIff` | gralloc/gr_buf_mgr.cpp:308-323 | a buffer allocated from an encoded descriptor passes validation for the same description if and only if no larger size was forced on it |
| `Descriptor.LinearBufferHasItsSize` | gralloc/gr_buf_mgr.cpp:308-323 | the kernel buffer made for a linear format has exactly the size its planes are laid out in |
| `Descriptor.WireForm` | gralloc/gr_buf_descriptor.h:49-60 | which word of the wire form holds what, the low word of the usage first |
| `Descriptor.FirstRuleDecides` | gralloc/gr_allocator.cpp:189-245 | a placeholder resolves to the format of the strongest rule that its usage bits meet; other formats stay |
| `MdpRects.QuotientsAdd` | libcopybit/copybit.cpp:109-114 | two scaled parts of an extent add up to at most the scaled extent |
| `MdpRects.AxisWholeIff` | libcopybit/copybit.cpp:109-114 | a whole extent scales to the whole source if and only if the product does not wrap |
| `MdpRects.AxisDisjoint` | libcopybit/copybit.cpp:172-227 | consecutive parts scale to spans that do not overlap, flipped or not |
| `MdpRects.PlaceAndFlip` | libcopybit/copybit.cpp:208-225 | the flips move the rectangle within the source along the axis that the rotation selects |
| `MdpRects.SourceInside` | libcopybit/copybit.cpp:172-227 | for all eight transforms the source rectangle lies inside the source |
| `MdpRects.WholeIff` | libcopybit/copybit.cpp:172-227 | for all eight transforms the whole destination comes from the whole source if and only if scaling does not wrap |
| `MdpRects.SourcesApart` | libcopybit/copybit.cpp:172-227 | clips that do not overlap have source rectangles that do not overlap, in spite of floor division |
| `MdpRects.IntersectIsCommon` | libcopybit/copybit.cpp:116-124 | the intersection is made of the pixels of both rectangles |
| `MdpRects.SourceIsPreimage` | libcopybit/copybit.cpp:172-227 | for all eight transforms without scaling, the source of a clip is exactly the set of pixels that turning and mirroring the image takes into the clip |
| `MdpRects.GapsFollowTheTransform` | libcopybit/copybit.cpp:172-227 | for all eight transforms at any scale, the gap the source of a clip keeps from each side of the source is the clip's gap from the side where that one lands, scaled; rounded down at two sides, less than two pixels larger at the others |
| `MdpRects.EdgesMeet` | libcopybit/copybit.cpp:172-227 | a clip at a side that positions are measured from has its source at the side that lands there |
| `MdpRects.SetRects` | libcopybit/copybit.cpp:172-227 | the step-by-step code computes the clip and its source rectangle, whose place the lemmas above state, or nothing for an empty clip |
| `MdpQueue.PushConserves` | libcopybit/copybit.cpp:671-694 | accepting a request keeps accepted, submitted, pending and lost requests in balance |
| `MdpQueue.DrainConserves` | libcopybit/copybit.cpp:247-258 | so does clearing the list after a driver call |
| `MdpQueue.CloseAccounts` | libcopybit/copybit.cpp:250-253 | closing the held fence keeps every fence closed, handed out or held, and only one of these |
| `MdpQueue.ReceiveAccounts` | libcopybit/copybit.cpp:254-255 | so does receiving a new release fence when none is held |
| `MdpQueue.HandOutAccounts` | libcopybit/copybit.cpp:722-724 | and handing the held fence to a client |
| `MdpQueue.RequestsInsideImages` | libcopybit/copybit.cpp:514-541 | every request of a stretch that does not wrap reads inside the source image and writes inside the destination image |
| `MdpQueue.Context.MsmCopybit` | libcopybit/copybit.cpp:247-258 | the held release fence is closed before the ioctl |
| `MdpQueue.Context.KickOff` | libcopybit/copybit.cpp:247-258 | on success the context holds the release fence of the batch |
| `MdpQueue.Context.SubmitAndClear` | libcopybit/copybit.cpp:544-548 | the list is emptied whatever the driver says: submitted on success, lost on failure |
| `MdpQueue.Context.Enqueue` | libcopybit/copybit.cpp:671-694 | one more request, and a full list is submitted at once |
| `MdpQueue.Context.SetSync` | libcopybit/copybit.cpp:415-438 | the fence is kept for the next batch; without room the list is submitted first, and kept if the driver refuses |
| `MdpQueue.Context.Stretch` | libcopybit/copybit.cpp:441-565 | accepts exactly the requests of the clips up to the first failed batch, all of them on success, and leaves none pending on a converted temporary buffer |
| `MdpQueue.Context.FillColor` | libcopybit/copybit.cpp:648-695 | a valid fill is one accepted request; an invalid one changes nothing |
| `MdpQueue.Context.FlushGetFence` | libcopybit/copybit.cpp:710-726 | what is queued is submitted and the held fence handed out |
| `MdpQueue.Context.Clear` | libcopybit/copybit.cpp:587-645 | a clear does not touch the queue and closes the fence of its own batch |
| `MdpQueue.Context.Execute` | libcopybit/copybit.cpp:415-726 | over every sequence of calls the list never stays full and the fence index stays in range; what is accepted are the first requests each call asks for, in order; while the driver succeeds, submitted then pending requests are exactly all requests made; each release fence is closed, handed out or held |
| `MdpQueue.Context.Perform` | libcopybit/copybit.cpp:415-726 | one call accepts the first requests it asks for, and all of them unless a batch was refused |
| `MdpQueue.StretchAcceptedIff` | libcopybit/copybit.cpp:455-495 | a stretch is let through if and only if its source rectangle lies in the source image, no dimension exceeds 4096, and alpha and conversion allow it |
| `MdpQueue.OneRequestPerClip` | libcopybit/copybit.cpp:514-541 | a clip gives a request exactly when some pixel lies in the image, the clip and the destination and its source is not empty; then one, which writes exactly these pixels |
| `MdpQueue.FillAcceptedIff` | libcopybit/copybit.cpp:657-669 | a fill is let through if and only if its corner is not negative and it is no larger than the image, wherever it lies |
| `MdpQueue.FillBesideImage` | libcopybit/copybit.cpp:657-669 | a fill that lies beside its image and is let through |
| `EglImageCache.Ion.Import` | gpu_tonemapper/EGLImageWrapper.cpp:38-54 | a buffer imported again gets the same handle and one more reference |
| `EglImageCache.TouchKeeps` | gpu_tonemapper/EGLImageWrapper.cpp:137-154 | a hit makes the cookie the most recent one and keeps the cache well formed |
| `EglImageCache.LastWrappedSurvivesIff` | gpu_tonemapper/EGLImageWrapper.cpp:137-154 | wrapping another buffer keeps the image wrapped last if and only if the cache has room for two or both are the same buffer |
| `EglImageCache.EglImageWrapper.RemoveOldest` | gpu_tonemapper/EGLImageWrapper.cpp:64-72 | eviction frees the oldest cookie and deletes its image |
| `EglImageCache.EglImageWrapper.Put` | gpu_tonemapper/EGLImageWrapper.cpp:144-147 | a new image replaces the oldest one of a full cache |
| `EglImageCache.EglImageWrapper.Blit` | gpu_tonemapper/Tonemapper.cpp:119-143 | the destination image from the first wrap is alive after the second if and only if the capacity is at least two or both buffers are the same |
| `EglImageCache.EglImageWrapper.Close` | gpu_tonemapper/EGLImageWrapper.cpp:85-93 | closing frees every cookie and deletes every image |
| `EglImageCache.EglImageWrapper.WrapImported` | gpu_tonemapper/EGLImageWrapper.cpp:137-154 | the image returned wraps the buffer asked for, and every cookie holds one reference if cached and none otherwise |
| `EglImageCache.EglImageWrapper.WrapUnimported` | gpu_tonemapper/EGLImageWrapper.cpp:38-54 | after a failed import the cookie is cached without a reference |
| `EglImageCache.EglImageWrapper.Wrap` | gpu_tonemapper/EGLImageWrapper.cpp:137-154 | references match the cache after a wrap if and only if the import succeeded; then the image is the most recent entry and wraps the buffer asked for |
| `EglImageCache.AliveIff` | gpu_tonemapper/EGLImageWrapper.cpp:64-154 | after any run of wraps, an image is alive if and only if at every step since it was returned fewer than the capacity of other buffers had been wrapped after the last wrap of its own |
| `EglImageCache.CachedIff` | gpu_tonemapper/EGLImageWrapper.cpp:137-154 | after any run of wraps, the buffers cached are those wrapped with fewer than the capacity of others since |
| `EglImageCache.EglImageWrapper.BlitAll` | gpu_tonemapper/Tonemapper.cpp:119-153 | over any run of blits every image returned wraps its buffer and outlives its blit if and only if there is room for two or both buffers are the same; at the end the images alive and the buffers cached are those of the two laws above |
| `C2dBlits.RunKeepsIff` | libcopybit/copybit_c2d.cpp:1087-1396 | over every interleaving of calls and cleanup rounds, each object drawn uses the template its blit took and goes to the mapping of its own destination, and a destination that counts as mapped is mapped on the surface drawn on, if and only if every call is legal |
| `C2dBlits.CallKeepsIff` | libcopybit/copybit_c2d.cpp:701-1396 | one call keeps this if and only if it is legal: a clear that maps comes while the target is RGB; a stretch does not fail after mapping the destination, names the destination of the composition, and its clips fit |
| `C2dBlits.BlittedKeepsIff` | libcopybit/copybit_c2d.cpp:1200-1368 | the condition for a stretch, drawn at once or not, told from the flag and base of the destination, the length of the list and the answers |
| `C2dBlits.QueuedFaultlessIff` | libcopybit/copybit_c2d.cpp:1352-1361 | queueing the clips of a blit leaves every draw right if and only if they fit and the mapping is that of its destination |
| `C2dBlits.QueuedFits` | libcopybit/copybit_c2d.cpp:1352-1361 | clips that fit extend the list by numbered copies of the object and change nothing else |
| `C2dBlits.LateIsWrong` | libcopybit/copybit_c2d.cpp:1355-1358 | an object queued after the list was drawn in the middle of its clips has lost its template |
| `C2dBlits.DrawnOnceIff` | libcopybit/copybit_c2d.cpp:640-699 | after any run every clip ever queued was drawn once or waits in the list, if and only if no call drew a flushed list again or dropped an undrawn one; nothing makes good for it later |
| `C2dBlits.CallOnceIff` | libcopybit/copybit_c2d.cpp:640-699 | the condition for one call, told from how much of the list a flush has drawn and the driver's answers |
| `C2dBlits.FinishedOnceIff` | libcopybit/copybit_c2d.cpp:669-699 | a finish keeps it if and only if it draws a list of which nothing was flushed, or fails on one that was flushed completely |
| `C2dBlits.FlushedOnceIff` | libcopybit/copybit_c2d.cpp:640-667 | a flush keeps it if and only if it draws nothing or nothing of the list was flushed before |
| `C2dBlits.CleanedOnceIff` | libcopybit/copybit_c2d.cpp:235-248 | a cleanup keeps it if and only if everything in the list was flushed |
| `C2dBlits.DisciplinedDrawsOnce` | libcopybit/copybit_c2d.cpp:640-699 | when draws succeed and every flush is cleaned up before the next call, every clip is drawn once, whatever else the client does |
| `C2dBlits.RunUsable` | libcopybit/copybit_c2d.cpp:926-948 | over every run, every YUV surface that is drawn from or onto has rows of a multiple of 32 |
| `C2dBlits.PossibleIff` | libcopybit/copybit_c2d.cpp:1115-1321 | what a stretch needs, told from its arguments and the answers: supported images of at most 4096 by 4096, surfaces for both sides, temporary buffers for misaligned ones and the copy back |
| `C2dBlits.SelectedHasRoom` | libcopybit/copybit_c2d.cpp:1150-1163 | a stretch starts with a template of either kind, room in the list and its own target type, and nothing is drawn to get there if that was so |
| `C2dBlits.DrawnAtOnceIff` | libcopybit/copybit_c2d.cpp:1363-1368 | an accepted stretch is drawn before it returns if and only if its destination is YUV or its source misaligned |
| `LruOrder.RemembersIff` | gpu_tonemapper/EGLImageWrapper.cpp:137-154 | an entry is cached if and only if it was used and fewer than the capacity of others were used since, by the history alone |
| `LruOrder.HitRemembers` | gpu_tonemapper/EGLImageWrapper.cpp:142-152 | a hit, which moves the entry to the end, keeps the cache in step with the history |
| `LruOrder.MissRemembers` | gpu_tonemapper/EGLImageWrapper.cpp:143-147 | so does a miss, which drops the first entry of a full cache |
| `Yv12Samples.SamplesCarried` | libcopybit/software_converter.cpp:36-124 | every sample of an image without padding is, in the converted image, where the semi-planar plane information finds it |
| `Yv12Samples.ChromaInPlaceIff` | libcopybit/software_converter.cpp:97-121 | the converted chroma is in its place for every pair if and only if the visible width is the stride, or there is at most one row of pairs |
| `Yv12Samples.PaddingMovesChroma` | libcopybit/software_converter.cpp:97-121 | an image with padding whose second row of chroma is not where the layout has it |

## Left out

- Yv12Converter.Convert: 32-bit wrap of image sizes is not modelled, and images on which the padded loop does not end are excluded by a precondition.
- StridedConverter.C2dToAndroid: 32-bit wrap of offsets is not modelled; the room for the spill of the last chroma row is a precondition, proved of allocated 4:2:0 buffers only, since the size of the encodeable format is not visible.
- StridedConverter.ConversionsAreInverse: needs handle and image widths that align to the same 16-byte stride.
- C2dCopybit.Context.Stretch: rectangles, colour formats and alpha values of blit objects are not modelled; a YUV image must come with a handle, which the code reads unchecked.
- C2dCopybit.Context.Finish: `c2dFinish` succeeds; the early return on its failure is not modelled.
- C2dCopybit.Context.GetGpuAddr: a successful mapping yields a non-zero address.
- HandleTable.RefCountIsBalance: counts are unbounded integers.
- GrallocLayout.AlignedDimensions: formats sized by the VENUS macros, compressed RGB and the Adreno entry points are not part of this model.
- PlaneLayout.SamplesInsideSize: raw formats, which have no chroma, and metadata overrides of format and geometry are not modelled.
- UbwcLayout.DataFillsBuffer: uses the 32-pixel fallback alignment.
- UbwcLayout.FramePlanesStackedIff: strides and scanlines are arbitrary functions.
- Descriptor.LinearBufferHasItsSize: covers the linear formats; sizes of compressed and video formats come from libraries that are not visible.
- C2dBlits.RunKeepsIff: destinations are told apart by their base, as the code does.
- Descriptor.AllocatedBufferValidatesIff: the path without the Adreno size library; the kernel rounds sizes to pages.
- MdpQueue.Context.Stretch: requests carry only their rectangles; memory of the temporary YV12 buffer is not tracked.
- MdpQueue.Context.SetSync: closing of acquire fences is up to the driver and not tracked.
- EglImageCache.EglImageWrapper.BlitAll: covers runs in which imports succeed.
- SyncTask.HandOff: one caller thread, as the class is used, and no spurious wake-up of the caller.
- CompManager.CompManager.RegisterDisplay: the list of registered displays, logging, DPPS control and bandwidth modes are not modelled, nor is ReconfigureDisplay.
- Locking and unlocking of buffers, buffer sharing checks and heap selection: forwarding to the kernel.
- C2D rectangle set-up and scaling limits: floating-point and fixed-point fields of the driver's objects.
- EGL, OpenGL, shaders, binder and HIDL glue: foreign calls with no logic of their own.
- Scaling, bandwidth, partial update and colour features of the composition manager: forwarding to other libraries.
