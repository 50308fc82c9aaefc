# mdlx DMA driver: data path, completion workers, register layout, device nodes

This project models the data path of the mdlx PCIe DMA character driver in Dafny. It has four parts:

- **Scatter-gather character device** (`cdev_sgdma.dfy`, module `SgDma`):
  - the alignment check of a transfer;
  - mapping a user buffer into a scatter-gather list of pinned pages, and unmapping it;
  - the synchronous read/write path;
  - the asynchronous fan-out (`cdev_aio_write`/`cdev_aio_read`) and fan-in (`async_io_handler`) of a request split into legs;
  - `llseek`;
  - the single-open rule of a streaming receive node.
- **Completion-worker pool** (`mdlx_thread.dfy`, module `CmplThreads`):
  - a class over an array of workers, with their work counts and work lists;
  - the load-based choice of a worker, and removal of work;
  - the pending and poll predicates;
  - starting and stopping workers, and creating and destroying the pool.
- **Register layout and device flags** (`libmdlx.dfy`, module `LibMdlx`):
  - the status-register error masks, the write-back masks, the descriptor length limit and the 64-bit address split, stated as bit-vector facts;
  - the engine and device records;
  - the read-modify-write flag helpers of the DMA device.
- **Device nodes** (`mdlx_cdev.dfy`, module `CharDev`):
  - `xcdev_check`, `char_open` and `char_close`;
  - the `config_kobject` guard and the minor-number table of `create_xcdev`;
  - the bit helpers of the PCI device flags.

The driver calls kernel services: page pinning and release, the transfer engine, completion notification and kernel threads. These are not modelled. Their results enter the model as parameters (oracles). The calls themselves are appended to `Kernel.Log.calls` (`kernel.dfy`), so that contracts can say which pages are released, how often, in what order, and which transfers are submitted. Views of the log (`PutPagesOf`, `DirtiedPagesOf`, `PinnedPagesOf`, `NowaitSubmitsOf`) pick out one kind of call.

Three behaviours of the code are easy to misread; the model follows the code:

- **Worker choice.** `mdlx_thread_add_work` does not pick the least-loaded worker. The reference load `v` is only taken from worker 0 (src/mdlx_thread.c:246-258), so loads [3, 1, 2] choose worker 2 (`CmplThreads.ChoiceIsNotAlwaysLeastLoaded`). The choice is the least-loaded one when the loads are balanced within one, and it keeps them balanced (`CmplThreads.BalancedChoiceIsLeast`, `CmplThreads.AddWorkKeepsBalance`).
- **Completion skipped for cancel or a contended lock.** A completion on a cancelled request, or one that fails to take the request's lock, does not unmap its leg. It does not bump the completed count either (src/cdev_sgdma.c:72-81, 110-128). When the lock is contended, the request is completed with (0, -EBUSY) and freed.
- **Misaligned leg.** A misaligned leg aborts and frees the whole asynchronous request, with earlier legs already submitted. It is not reported on that leg alone.

## Model

| member | source | states |
|---|---|---|
| LibMdlx.ErrorGroupBits | src/libmdlx.h:99-139 | The bit positions of each status error group: COMMON is {3,4,5}, DESC is {19..23}, H2C_R is {9..13}, H2C_W is {14,15}, C2H_R is {9,10}. |
| LibMdlx.ErrorMaskComposition | src/libmdlx.h:99-148 | The four H2C groups are pairwise disjoint. The C2H read group lies inside the H2C read group, so the C2H mask is a proper subset of the H2C mask. |
| LibMdlx.ProgressBitsAreNotErrors | src/libmdlx.h:91-178 | Neither error mask holds BUSY, DESC_STOPPED, DESC_COMPLETED or IDLE_STOPPED. The write-back count and error masks are disjoint and do not cover the word. |
| LibMdlx.DescLengthLimit | src/libmdlx.h:74-75 | The descriptor length limit is 2^28 - 1: all ones in the 28-bit length field and nothing above it. |
| LibMdlx.DmaHigh | src/libmdlx.h:198 | The high half of an address fits in 32 bits. |
| LibMdlx.DmaLow | src/libmdlx.h:200 | The low half of an address fits in 32 bits. |
| LibMdlx.AddressSplit | src/libmdlx.h:198-200 | high * 2^32 + low == addr for every 64-bit address. The two halves do not overlap, and OR-ing them back rebuilds the address. |
| LibMdlx.Dev.FlagCheck | src/libmdlx.h:599-610 | Returns 1 exactly when a bit of `f` is set in the flags, else 0. |
| LibMdlx.Dev.FlagTestAndSet | src/libmdlx.h:612-626 | Returns the previous check of `f`. The flags are unchanged when that was 1; otherwise `f` is OR-ed in. |
| LibMdlx.Dev.FlagSet | src/libmdlx.h:628-635 | The new flags are the old ones with `f` OR-ed in. |
| LibMdlx.Dev.FlagClear | src/libmdlx.h:637-643 | The new flags are the old ones with `f` masked out. |
| LibMdlx.SetFlagEffects | src/libmdlx.h:628-635 | After a set, every bit of `f` is present, a check of a non-zero `f` succeeds, and the bits outside `f` are unchanged. |
| LibMdlx.ClearFlagEffects | src/libmdlx.h:637-643 | After a clear, no bit of `f` remains and the bits outside `f` are unchanged. |
| LibMdlx.TestAndSetTwice | src/libmdlx.h:612-626 | For a non-zero `f`, the flags after one test-and-set make the next check of `f` succeed, so an immediate repeat returns 1. |
| CharDev.XcdevCheck | src/mdlx_cdev.c:133-161 | 0 exactly when the node, its device, and (when asked) its engine are present with the right magic numbers; otherwise -EINVAL. |
| CharDev.EngineCheckIsStricter | src/mdlx_cdev.c:133-161 | A node that passes the check with the engine also passes it without. |
| CharDev.CharClose | src/mdlx_cdev.c:183-214 | Release rejects exactly the nodes that the check without the engine rejects, with the same code. |
| CharDev.CharOpen | src/mdlx_cdev.c:163-178 | Succeeds exactly when the node's magic is MAGIC_CHAR, and only then attaches the node to the file; otherwise -EINVAL with the file untouched. |
| CharDev.ConfigKobject | src/mdlx_cdev.c:94-131 | An engine-bearing type without an engine, or an unknown type, gives -EINVAL. Every other type gives the result of naming the kernel object. |
| CharDev.MinorNumber | src/mdlx_cdev.c:316-355 | A minor number exists exactly for the known node types. |
| CharDev.MinorTable | src/mdlx_cdev.c:316-355 | USER→0, CTRL→1, XVC→2, EVENTS→10+bar, H2C→32+ch, C2H→36+ch, BYPASS_H2C→64+ch, BYPASS_C2H→68+ch, BYPASS→100. |
| CharDev.MinorsDisjoint | src/mdlx_cdev.c:316-355 | For bar < 16 and ch < 4, every minor is below 255. Two nodes share a minor if and only if they have the same type and the same bar or channel (whichever the type uses). |
| CharDev.CreateXcdevMinor | src/mdlx_cdev.c:306-357 | The minor-number selection of `create_xcdev` fails exactly when the `config_kobject` guard fails, with its code. On success the type is known, an engine-bearing type has its engine, and the minor is the table's entry for the type, the bar and the engine's channel. |
| CharDev.PciDev.FlagSet | src/mdlx_cdev.c:61-65 | The new flags are the old ones with bit `fbit` set. |
| CharDev.PciDev.FlagClear | src/mdlx_cdev.c:67-71 | The new flags are the old ones with bit `fbit` cleared. |
| CharDev.PciDev.FlagTest | src/mdlx_cdev.c:73-77 | Non-zero exactly when bit `fbit` is set, and then equal to that bit. |
| CharDev.SetBitIndependence | src/mdlx_cdev.c:61-77 | After setting `fbit`, the test of `fbit` succeeds and the test of every other flag bit is unchanged. |
| CharDev.ClearBitIndependence | src/mdlx_cdev.c:61-77 | After clearing `fbit`, the test of `fbit` fails and the test of every other flag bit is unchanged. |
| SgDma.AlignVerdict | src/cdev_sgdma.c:189-225 | Non-incremental mode accepts exactly when the buffer is aligned, the position is aligned (only when the `sync` argument is set; every caller sets it, src/cdev_sgdma.c:381, 464, 536) and the count is a multiple of the granularity. Incremental mode accepts exactly when buffer and position agree in the low alignment bits. The result is 0 or -EINVAL. |
| SgDma.CheckTransferAlign | src/cdev_sgdma.c:180-228 | A NULL engine gives -EINVAL; otherwise the verdict of the engine's addressing mode. |
| SgDma.NonIncrementalScenario | src/cdev_sgdma.c:189-214 | Align 64, granularity 4096, 8192 bytes at a 64-aligned buffer: accepted at position 0; rejected at position 4 with the `sync` argument set and accepted there with it clear; 8000 bytes are rejected. |
| SgDma.IncrementalScenario | src/cdev_sgdma.c:216-225 | A buffer and a position with equal low bits are accepted; different low bits are rejected. |
| SgDma.NonIncrementalIsStricter | src/cdev_sgdma.c:189-225 | What the non-incremental check accepts with the `sync` argument set, it also accepts with the argument clear, and the incremental check accepts it too. |
| SgDma.IncrementalIsEquivalence | src/cdev_sgdma.c:216-225 | The incremental check is symmetric in buffer and position, and transitive. |
| SgDma.WrapLoff | src/cdev_sgdma.c:143-148 | The 64-bit signed wrap of a sum: a `loff_t`, congruent to the sum modulo 2^64, equal to it when it is in range. |
| SgDma.SeekTarget | src/cdev_sgdma.c:139-151 | A target exists exactly for whence 0, 1 and 2, and it is a `loff_t`. |
| SgDma.Llseek | src/cdev_sgdma.c:135-163 | A bad whence or a negative target gives -EINVAL and leaves the position alone. Otherwise the target becomes the file position and is returned. |
| SgDma.SeekCurrent | src/cdev_sgdma.c:143-145 | Within range, SEEK_CUR adds the offset to the position; an offset of 0 stays put. |
| SgDma.SeekEnd | src/cdev_sgdma.c:146-148 | SEEK_END counts from 2^32 - 1, not from the end of the device. Offsets below -(2^32 - 1), or past the 64-bit range, are refused. |
| SgDma.PagesNr | src/cdev_sgdma.c:279-281 | The page count fits the 32-bit counter. |
| SgDma.PagesSpanned | src/cdev_sgdma.c:279-286 | The count is ceil((offset in page + len) / PAGE_SIZE), the number of pages [buf, buf+len) touches. It is 0 only for an empty page-aligned range. |
| SgDma.ConsumedAll | src/cdev_sgdma.c:328-344 | After all spanned pages, the segment loop has consumed exactly `len`. |
| SgDma.SgList | src/cdev_sgdma.c:328-339 | One segment per pinned page, the page with the length and offset the loop gives it. |
| SgDma.SgListCoversBuffer | src/cdev_sgdma.c:328-346 | The segment lengths sum to `len`, so the residual-length check never fires. Only segment 0 has a non-zero offset, the buffer's offset in its page. Segment j has length min(PAGE_SIZE - offset, remaining). |
| SgDma.ReleaseCount | src/cdev_sgdma.c:254-264 | Unmap releases the pages before the first empty slot, up to `pages_nr`. |
| SgDma.UnmapReleasesEachOnce | src/cdev_sgdma.c:257-264 | The unmap calls release each page once, in order. They dirty every page of a device-to-host transfer and none of a host-to-device one, and pin nothing. |
| SgDma.Unmap | src/cdev_sgdma.c:248-271 | Logs the release (and dirtying) of exactly the released pages, drops the page array when anything was pinned, and clears the segment table. |
| SgDma.UnmapTwiceReleasesNothing | src/cdev_sgdma.c:254-270 | After an unmap, a second unmap releases nothing and changes nothing. |
| SgDma.MapSucceeds | src/cdev_sgdma.c:273-352 | The map succeeds exactly when: the range spans pages, both allocations succeed, every page is pinned, and no two consecutive pages are equal. On success it holds all pages and the segment list covering `len`, having only pinned. On failure it returns a negative code and no segment table. |
| SgDma.MapReleasesWhatItPinned | src/cdev_sgdma.c:301-351 | A failed map releases exactly the pages it pinned, a successful one releases none. Pages are dirtied on release exactly for a device-to-host map. |
| SgDma.MapKeepsArrayWhenNothingPinned | src/cdev_sgdma.c:301-316 | A pin that returns 0 or an error fails the map, leaving `pages_nr` 0 and the page array allocated. |
| SgDma.MapEmptyRange | src/cdev_sgdma.c:279-286 | An empty page-aligned buffer is -EINVAL before any allocation or call. An empty unaligned one spans one page. |
| SgDma.FindAdjacentDuplicate | src/cdev_sgdma.c:318-326 | True exactly when two consecutive pinned pages are equal. |
| SgDma.FillSegments | src/cdev_sgdma.c:328-339 | The segment loop builds exactly the segment list of the buffer. |
| SgDma.Map | src/cdev_sgdma.c:273-352 | The control block and the log end as the map specification gives: return code, `pages_nr`, page array, segment table and the calls made. |
| SgDma.AdmitVerdict | src/cdev_sgdma.c:364-385 | A synchronous request is admitted exactly when: the node passes the check with the engine, the direction matches, and the range is aligned. Otherwise -EINVAL. |
| SgDma.ReadWrite | src/cdev_sgdma.c:354-415 | Returns the result of the specification and logs exactly its calls. |
| SgDma.AdmittedOutcome | src/cdev_sgdma.c:392-401 | After admission, a failed map returns its code with only its own calls. A successful one makes the map calls, then one submit at `pos` with the table the map built, then the unmap of every pinned page, and returns the submit's result. |
| SgDma.MapSubmitUnmap | src/cdev_sgdma.c:392-401 | Map, submit and unmap run in that order, as the outcome states. |
| SgDma.ReadWriteSubmitsOnlyMapped | src/cdev_sgdma.c:374-401 | A transfer is submitted if and only if the request was admitted and mapped. It is then exactly pin, submit, unmap of the pinned pages, with the submit's result. The submitted list is the scatter-gather list of the pinned pages from the buffer's page offset, and its lengths add up to `count`. |
| SgDma.ReadWriteReleasesEveryPin | src/cdev_sgdma.c:354-402 | Whatever the outcome, every pinned page is released exactly once. Pages are dirtied exactly for a read. |
| SgDma.AsyncIo.Account | src/cdev_sgdma.c:91-95 | The counters advance by one completion fold. |
| SgDma.Fold | src/cdev_sgdma.c:87-95 | A completion adds one to the completed count and its byte count (0 on error) to the result. It bumps the error count whenever the accumulated error bits are non-zero. |
| SgDma.FoldRes2 | src/cdev_sgdma.c:93-94 | The accumulated error stays clear exactly when it was clear and this leg's error is not negative. |
| SgDma.FoldAllCounts | src/cdev_sgdma.c:87-98 | N completions add N to the completed count, and the sum of their byte counts to the result. |
| SgDma.NotifiedOnce | src/cdev_sgdma.c:101-109 | Completions starting below the requested count notify the caller exactly once if they reach it, never otherwise. |
| SgDma.FoldAllRes2 | src/cdev_sgdma.c:93-94 | The accumulated error is clear exactly when it started clear and no leg failed. |
| SgDma.FoldAllErrCnt | src/cdev_sgdma.c:93-95 | From a clear error, the error count grows by every completion from the first failing leg on, not only by the failing legs. |
| SgDma.StickyErrCnt | src/cdev_sgdma.c:93-95 | Once the accumulated error is set, every later completion bumps the error count and the error stays set. |
| SgDma.AsyncIoHandler | src/cdev_sgdma.c:48-129 | Without an aggregate, or with a node that fails the check, nothing happens. A contended lock completes the request with (0, -EBUSY) and frees it. A cancelled request is freed untouched. Otherwise: fold the leg, log the transfer completion with the leg's table (no error only), unmap the leg, and notify with the totals when the last leg completes. |
| SgDma.CompleteLeg | src/cdev_sgdma.c:84-115 | The locked, non-cancelled completion of one leg, with the same effects. |
| SgDma.AioSpec | src/cdev_sgdma.c:454-483 | Never more legs than buffers. |
| SgDma.AioSpecStopsAt | src/cdev_sgdma.c:454-483 | The outcome depends on the first leg that does not go: none (queued, -EIOCBQUEUED, wake-up), a misaligned one (its verdict, aggregate freed) or a failed map (its code, aggregate kept). |
| SgDma.SubmitLegs | src/cdev_sgdma.c:454-478 | The leg loop submits exactly the legs before the first one that does not go, each at `pos`. It stops with that leg's verdict or map error and sets up one control block per leg it mapped. |
| SgDma.QueueLegs | src/cdev_sgdma.c:454-483 | The leg loop and the wake-up return and log what the specification gives. |
| SgDma.AioSubmit | src/cdev_sgdma.c:417-484 | A missing node or a direction mismatch is -EINVAL with no allocation and no call. Otherwise a fresh aggregate with the requested count set, whose legs, return code and calls are those of the specification. `cdev_aio_read` (src/cdev_sgdma.c:487-556) is the same with the direction reversed. |
| SgDma.AioQueuedOrStopped | src/cdev_sgdma.c:454-483 | The request is queued if and only if every leg is aligned and mapped; it then returns -EIOCBQUEUED with all legs. It frees the aggregate if and only if some leg is misaligned after a run of legs that went. |
| SgDma.AioSubmissions | src/cdev_sgdma.c:454-477 | The transfers queued are one per leg that went, in leg order, all at the same device address `pos`. Leg j's transfer carries the scatter-gather list of leg j's pinned pages, whose lengths add up to leg j's length. |
| SgDma.AioReleases | src/cdev_sgdma.c:464-474 | Submission releases no page, except that a leg whose map failed releases what that map pinned. |
| SgDma.SgdmaOpen | src/cdev_sgdma.c:774-791 | The file gets the node. A streaming receive engine is -EBUSY exactly when it is already open, and is open afterwards. Any other engine is 0 with its open flag untouched. |
| SgDma.SgdmaClose | src/cdev_sgdma.c:793-812 | A node failing the full check is -EINVAL. A streaming receive engine is marked closed and returns the cyclic teardown's result when a cyclic request is active, else 0. Any other engine returns 0 with its open flag untouched. |
| SgDma.StreamingNodeOpensOnce | src/cdev_sgdma.c:784-806 | On a streaming receive node: open gives 0, a second open gives -EBUSY, close gives 0, and a new open gives 0 again. |
| CmplThreads.RemoveOne | src/mdlx_thread.c:227-231 | Removing an engine from a work list drops exactly one occurrence of it. |
| CmplThreads.RemoveUndoesAdd | src/mdlx_thread.c:204-273 | Appending an engine to a worker and removing it again restores the worker. |
| CmplThreads.FirstIdleFrom | src/mdlx_thread.c:246-254 | The first zero-load worker at or after `from`, or none when every one of them is loaded. |
| CmplThreads.LastBelowFirst | src/mdlx_thread.c:246-258 | The last worker before the stop point whose load is below worker 0's, or worker 0 when there is none. |
| CmplThreads.ChooseWorker | src/mdlx_thread.c:241-258 | The chosen index is a worker of the pool, and its load is at most worker 0's. |
| CmplThreads.AllIdleChoosesSecond | src/mdlx_thread.c:246-254 | With all loads 0 and at least two workers, worker 1 is chosen. |
| CmplThreads.ChoiceIsNotAlwaysLeastLoaded | src/mdlx_thread.c:246-258 | Loads [3, 1, 2] choose worker 2, not the least-loaded worker 1. |
| CmplThreads.BalancedChoiceIsLeast | src/mdlx_thread.c:246-258 | When loads differ by at most one, the choice has the least load. |
| CmplThreads.AddWorkKeepsBalance | src/mdlx_thread.c:246-273 | Adding work keeps loads within one of each other. |
| CmplThreads.AddThenRemoveRestores | src/mdlx_thread.c:204-273 | Add-work followed by remove-work restores every worker. |
| CmplThreads.Pool.AddWork | src/mdlx_thread.c:237-275 | Only the chosen worker changes: its count goes up by one and the engine is appended to its list. The engine records that worker as its thread and its CPU. |
| CmplThreads.Pool.RemoveWork | src/mdlx_thread.c:204-235 | The engine loses its thread. An assigned engine is removed from that worker, whose count drops by one; no other worker changes. |
| CmplThreads.CmplStatusPend | src/mdlx_thread.c:34-46 | 1 exactly when the engine has a transfer queued, else 0. |
| CmplThreads.CmplStatusProc | src/mdlx_thread.c:48-58 | Polls the engine with the head transfer's descriptor count and returns 0. On an engine with no transfer it still polls, with the word read through the list head. |
| CmplThreads.WorkPending | src/mdlx_thread.c:62-78 | 1 exactly when the worker has a pending predicate and some engine in its list is pending, else 0. |
| CmplThreads.Pool.KthreadStart | src/mdlx_thread.c:142-177 | A worker with a task is -EINVAL, unchanged. Otherwise it gets its id and an empty list. A failed thread creation is -EFAULT with no call; a created one is logged and returns 0. |
| CmplThreads.Pool.KthreadStop | src/mdlx_thread.c:180-200 | Without a task: 0, nothing changes. With one: the stop is logged and `schedule` is set. The `task` field is cleared unless the stop failed, in which case its code is returned. |
| CmplThreads.FirstFailure | src/mdlx_thread.c:303-313 | The first worker whose thread cannot be created, or the pool size. |
| CmplThreads.Pool.StartAll | src/mdlx_thread.c:302-313 | Starts workers in order up to the first failure: worker i gets CPU i, timeout 0 and its thread. Fails with -EFAULT exactly when some creation fails. |
| CmplThreads.Pool.Create | src/mdlx_thread.c:277-324 | Repaired creation: an existing pool is kept. An allocation failure is -ENOMEM with an empty pool. Full success starts every worker. A start failure stops the workers started so far and leaves an empty pool. The pool stays consistent throughout. |
| CmplThreads.Pool.CreateAsWritten | src/mdlx_thread.c:277-324 | Creation as written: an allocation failure leaves the count at `num` with no array, and a start failure does not stop the workers already started. Full success leaves the same valid pool of started workers as the repaired creation. |
| CmplThreads.DestroyStops | src/mdlx_thread.c:334-337 | Destroy stops the thread of every worker that has a processing hook and a thread, and nothing else. |
| CmplThreads.Pool.Destroy | src/mdlx_thread.c:326-343 | An empty pool is left alone. Otherwise every started worker is stopped and the pool is emptied. |
| CmplThreads.AllocationFailureAsWritten | src/mdlx_thread.c:290-298 | After an allocation failure, the pool claims 8 workers and holds none. A second creation reports success and still holds none. |
| CmplThreads.AllocationFailureRepaired | src/mdlx_thread.c:290-298 | The repaired creation leaves an empty pool after the same failure. |
| CmplThreads.StartFailureAsWritten | src/mdlx_thread.c:310-323 | With worker 1 failing to start, worker 0's thread is created and never stopped. |
| CmplThreads.StartFailureRepaired | src/mdlx_thread.c:310-323 | The repaired creation stops worker 0's thread after the same failure. |

## Left out

- Spinlocks, `spin_trylock` races, wait queues, kernel threads, `xthread_main` and `xthread_reschedule`: concurrency is outside a sequential model. Each operation is one atomic step, and whether the lock is taken is a parameter. The double unlock in the taken-branch of `mdlx_device_flag_test_n_set` is therefore not visible.
- Page pinning, page release, dirtying, segment-table and memory allocation, `kmem_cache_*`, `kfree`: these are oracles, and their calls are logged. Freeing is recorded as a flag. The `kfree(cb)` of an element inside the control-block array is a memory error outside the counters.
- The allocations of the aggregate and its control-block array in `cdev_aio_*` are unchecked in the code. The model assumes they succeed. It adds control blocks as they are set up instead of zeroing an array of `count` of them up front.
- The transfer engine (`mdlx_xfer_submit`, `mdlx_xfer_submit_nowait`, `mdlx_xfer_completion`, `engine_service_poll`, cyclic teardown, descriptors, the transfer state machine): its code is not part of this model. Its results are parameters, and its calls are logged. The result of `mdlx_xfer_submit_nowait` is ignored by the code and by the model.
- SgDma.Map: requires the pin oracle to return at most the page count requested, and exactly that many pages when it returns a count, as `get_user_pages_fast` promises.
- SgDma.ReadWrite: the file position is not advanced, matching the code; `char_sgdma_write`/`char_sgdma_read` are the same call with the direction fixed.
- SgDma.AioSubmit: requires an engine on a non-NULL node, because the code dereferences it unchecked. Every leg pins its pages for writing whatever the direction, as the code does.
- SgDma.SgdmaOpen: requires a node with MAGIC_CHAR and an engine. The code ignores the result of `char_open` and then dereferences `private_data` and its engine, so any other node is a NULL dereference.
- SgDma.SgdmaClose: the effect of the cyclic teardown on the engine is not modelled; its result is the parameter `teardownRv`.
- CharDev.CreateXcdevMinor: models only the minor-number selection. The `alloc_chrdev_region` failure before it (src/mdlx_cdev.c:290-299) is not modelled, nor are the `cdev_add` and `create_sys_device` failures after it (src/mdlx_cdev.c:360-374) and their unwinding, because these are kernel registration services.
- SgDma.Map, SgDma.ReadWrite, SgDma.AioSubmit and the lemmas about them require `UserRange` of every buffer: `buf + len <= TASK_SIZE` and `len <= MAX_RW_COUNT`. The VFS guarantees these bounds (`access_ok` with `rw_verify_area`, or `import_iovec`) before the driver is called, and the model fixes `TASK_SIZE` at its x86-64 value. So the `min_t(unsigned int, …, len)` truncation of a segment length (src/cdev_sgdma.c:330-331) and the wrap of the `pages_nr` sum never take effect in the model.
- CmplThreads.CmplStatusProc: on an engine with no transfer the descriptor count the code passes is read through the list head, which is not a transfer; that word is the parameter `headWord`, since the memory layout is not modelled.
- CmplThreads.Pool.KthreadStart: the thread-name formatting and its negative-length failure are not modelled, and neither is CPU binding.
- CmplThreads.Pool.AddWork: requires at least one worker. With none, the code reads `cs_threads[0]` of an empty pool.
- Ioctl dispatch and the performance ioctls, `cdev_write_iter`/`cdev_read_iter` adapters, control-register pass-through, PCI probe and module setup, and device-node creation and destruction are plumbing around the modelled logic and are not modelled.
- Integer widths: the page count and the alignment check are modelled with their 64-bit and 32-bit types. Byte counts and results (`ssize_t`) are unbounded integers.

## Findings

| source | as written | input that shows it | evidently intended | confidence | as-written member | corrected member |
|---|---|---|---|---|---|---|
| src/mdlx_thread.c:290-298 | `thread_cnt` is set to the requested count before the array is allocated, and the allocation failure returns -ENOMEM without resetting it | creating a pool of 8 with the allocation failing leaves `thread_cnt` 8 and `cs_threads` NULL; a retry returns 0 without allocating, and a destroy walks the NULL array | an allocation failure leaves an empty pool (count 0), as the start-failure path does | not executed | CmplThreads.AllocationFailureAsWritten | CmplThreads.AllocationFailureRepaired |
| src/mdlx_thread.c:310-323 | a start failure frees the worker array without stopping the threads already started | two workers, the second thread failing to start: thread 7 of worker 0 is created and never stopped, and its worker struct is freed under it | the workers started before the failure are stopped before the array is freed | not executed | CmplThreads.StartFailureAsWritten | CmplThreads.StartFailureRepaired |
