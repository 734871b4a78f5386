# Minibase buffer manager, modelled in Dafny

This project models the buffer manager of the Minibase teaching database:
the `BufMgr` class with its fixed array of `Frame` slots, the `LRU`
replacement policy, and the pin/unpin/new/free/flush protocol with its
three statistics counters (`totalCall`, `totalMiss`, `numDirtyPageWrites`).
Every operation is a function, or a method without heap state, from the
manager and the page store to their new values plus the `Status` the C++
code returns.

Files and modules:

- `types.dfy` (`Types`): `PageID`, `Status` (`OK`/`FAIL`), `INVALID_PAGE = -1`,
  `INVALID_FRAME = -1`, opaque page bytes.
- `store.dfy` (`Store`): the page store (`MINIBASE_DB`). It is an external
  collaborator, modelled abstractly. A `Disk` holds the allocated page ids
  (`inUse`), page contents, the id the next allocation hands out, a fault set and a call log.
  The fault set lists the calls the store answers with FAIL. The environment
  chooses it, so the buffer manager never controls an outcome. The log records every
  `ReadPage`/`WritePage`/`AllocatePage`/`DeallocatePage` call in order, so
  contracts can say which calls an operation made and how often.
- `frame.dfy` (`Frames`): `Frame` = `pid`, `data`, `pinCount`, `dirty`,
  `referenced`, and its transitions from `bufmgr/frame.cpp`.
- `lru.dfy` (`LRU`): `PickVictim`, which picks the lowest-indexed frame with pin count 0.
- `bufmgr.dfy` (`BufferManager`): the `BufMgr` state and every operation of
  `bufmgr/bufmgr.cpp`. `FlushAllPages` and `GetNumOfUnpinnedFrames` are
  methods with loops, like their C++ `for` loops.
- `properties.dfy` (`BufferProperties`): properties that span several operations,
  and the behaviours of the code that its comments do not announce.

The `Page*` that `PinPage` and `NewPage` hand back is modelled as the index
of the frame whose buffer it points into. `INVALID_FRAME` stands for `NULL`.

Two invariants are stated and preserved by every operation:
- `UniqueResidency`: no page id is cached in two frames.
- `EmptyFramesClean`: a frame holding no page is in the state `EmptyIt` leaves.
  `PinPage` and `UnpinPage` preserve it only when called with a page id other than `INVALID_PAGE`,
  and `NewPage` only when the store's next page id is not `INVALID_PAGE`; see below.

## How the code differs from its documented design

The model follows the code. Where the code and its own comments, or the
general buffer-pool design it was written against, differ, the code wins:

- `LRU::PickVictim` is not LRU. It returns the first frame whose pin count is 0.
  It reads neither recency, nor `referenced`, nor its own `current` field
  (`LRU.VictimDependsOnlyOnPinCounts`).
- `Frame::Unpin` has no lower-bound check. `UnpinPage` of an unpinned page returns
  OK and drives the count to -1 (`BufferProperties.DoubleUnpinSucceeds`).
- `FlushFrame` empties the frame even when the write-back fails. `PinPage`
  ignores `FlushFrame`'s status (bufmgr/bufmgr.cpp:88), so a failed write-back
  still evicts: the victim's page is cached nowhere and the store keeps its old bytes
  (`BufferProperties.FailedWriteBackLosesVictim`).
- When its pin fails, `NewPage` returns the status of `DeallocatePage`, which can be
  OK (`BufferProperties.NewPageOkAfterFailedPin`).
- `FindFrame` does not treat `INVALID_PAGE` specially. It matches the first empty
  frame. So `UnpinPage(INVALID_PAGE, true)` dirties an empty frame and makes its
  count negative (`BufferProperties.UnpinOfInvalidPageCorruptsEmptyFrame`), and
  `PinPage(INVALID_PAGE)` pins an empty frame (`BufferProperties.PinOfInvalidPageHitsEmptyFrame`).
  For this reason `EmptyFramesClean` is preserved only for other page ids.
- `FlushAllPages` skips frames that hold no page. Such a frame is left as it
  was, so every frame ends up empty only when `EmptyFramesClean` held before.
- `FlushPage` with an invalid or non-resident page id overwrites its FAIL status
  and calls `FlushFrame(INVALID_FRAME)`, which indexes `frames[-1]`
  (bufmgr/bufmgr.cpp:273). The model excludes this case with the precondition
  documented at bufmgr/bufmgr.cpp:245-246.

## Model

| member | source | states |
|---|---|---|
| `BufferManager.Create` | bufmgr/bufmgr.cpp:15-23 | the constructor gives `bufSize` empty frames with blank buffers and zero counters; both pool invariants hold and no valid page is resident |
| `BufferManager.ResetStat` | include/bufmgr.h:39 | the request and miss counts GetStat reports and the write-back count become zero; the frames are untouched (with `BufferProperties.ResetStatClearsCounters`) |
| `BufferManager.GetStat` | include/bufmgr.h:34 | always OK; reports the request count and the miss count, which PinPage advances as `BufferProperties.StatisticsCountPinRequests` states |
| `BufferManager.FindFrame` | bufmgr/bufmgr.cpp:359-370 | returns INVALID_FRAME exactly when no frame holds `pid`, otherwise the lowest index of a frame holding `pid` |
| `BufferManager.FindFrom` | bufmgr/bufmgr.cpp:361-369 | the scan from a start index returns the first matching index at or after it, or INVALID_FRAME when none matches |
| `BufferManager.FindFrameSeesOnlyPids` | bufmgr/bufmgr.cpp:359-370 | FindFrame's answer depends on the frames' page ids alone: pin counts, flags and buffers do not affect it |
| `BufferManager.FlushFrame` | bufmgr/bufmgr.cpp:373-403 | a pinned frame with `ignorePinned` false is refused with no effect. Otherwise a dirty frame is written back once and counted, the frame is emptied whatever the write returned, and the status is the write's |
| `BufferManager.PinPage` | bufmgr/bufmgr.cpp:62-114 | counts the request. A hit pins the frame holding the page and changes nothing else. A miss with every frame pinned fails with no frame changed. Otherwise the lowest unpinned frame is written back if dirty, emptied, and bound to `pid` with one pin: without a read when `isEmpty`, else only if the read succeeds. The store changes at most the victim's old page. Uniqueness is preserved |
| `BufferManager.PinInPlace` | bufmgr/bufmgr.cpp:104-107 | pinning a frame in place keeps every page in the frame it was in, so both invariants survive a hit |
| `BufferManager.PinMiss` | bufmgr/bufmgr.cpp:73-101 | a miss counts once. With no unpinned frame it fails and leaves frames and store alone, otherwise it evicts and loads the victim, changing only that frame and at most the victim's old page in the store |
| `BufferManager.LoadVictim` | bufmgr/bufmgr.cpp:85-111 | only the victim frame changes. Its dirty bytes are written first, and a failed write is ignored. It ends bound to `pid` with count 1 and clean, or emptied with FAIL when the read fails. No stored page other than the victim's changes |
| `BufferManager.UnpinPage` | bufmgr/bufmgr.cpp:132-153 | fails exactly when `pid` is not resident, and then changes nothing. Otherwise only that frame changes: count minus one, dirty iff it was dirty or `dirty` is set, referenced when the count reaches 0 |
| `BufferManager.NewPage` | bufmgr/bufmgr.cpp:176-201 | `howMany < 1` fails without calling the store. A failed allocation fails with pool and store contents unchanged. A successful one allocates exactly the run starting at the store's next id and advances that id by `howMany`. When the pin fails, the same run is deallocated and that call's status is returned; if that deallocation fails, the run stays allocated. Otherwise the first page is pinned: in place if already cached, with no stored bytes changed, or in the lowest unpinned frame, which is written back if dirty and bound clean to the page without a read; only that frame changes, one miss is counted, and the store changes at most the victim's old page, and not at all when the victim is clean or its write fails. With every frame pinned, one miss and no write-back are counted. UniqueResidency is preserved, and EmptyFramesClean is preserved when the store's next id is not INVALID_PAGE |
| `BufferManager.FreePage` | bufmgr/bufmgr.cpp:221-236 | a non-resident page is deallocated by exactly one store call. A resident page pinned more than once is refused with no effect. Otherwise its frame is emptied and the page deallocated once. An OK free releases exactly `pid` and drops its bytes; a failed one leaves allocation and contents as they were; no other page's bytes change. In a pool without duplicates, a valid page is resident afterwards iff the free was refused |
| `BufferManager.FlushPage` | bufmgr/bufmgr.cpp:253-276 | for a resident valid page: refused without effect when pinned and `ignorePinned` is false. Otherwise written back iff dirty and its frame emptied even when the write fails; no other stored page changes. In a pool without duplicates an OK flush leaves the page no longer resident |
| `BufferManager.SweepFrame` | bufmgr/bufmgr.cpp:298-304 | one sweep step empties a frame that holds a page and writes it back iff it is dirty. It fails iff the frame was pinned or the write failed |
| `BufferManager.FlushAllPages` | bufmgr/bufmgr.cpp:293-308 | every frame holding a page is emptied, even a pinned one, and no frame holds a page afterwards. Each valid dirty frame is written back once, in frame order, and `numDirtyPageWrites` grows by their number. A page no such frame holds keeps its stored bytes, and so does a page whose write-back the store refuses, although its frame is emptied all the same; allocation is untouched. The result is FAIL iff some valid frame was pinned or its write failed |
| `BufferManager.GetNumOfUnpinnedFrames` | bufmgr/bufmgr.cpp:323-337 | returns the number of frames that hold no page or have pin count 0, which is at most the pool size |
| `Frames.NewFrame` | bufmgr/frame.cpp:4-8 | a new frame is empty and has a blank buffer |
| `Frames.Pin` | bufmgr/frame.cpp:21-24 | the pin count grows by exactly one and no other field changes |
| `Frames.Unpin` | bufmgr/frame.cpp:26-34 | the pin count drops by one with no lower bound. `referenced` is set when the new count is 0 and otherwise kept. Nothing else changes |
| `Frames.UnpinUndoesPin` | bufmgr/frame.cpp:21-34 | unpin after pin restores the frame, except `referenced` is set when the count was 0 |
| `Frames.PinUndoesUnpin` | bufmgr/frame.cpp:21-34 | pin after unpin restores the frame, except `referenced` is set when the count was 1 |
| `Frames.UnpinHasNoLowerBound` | bufmgr/frame.cpp:26-34 | unpinning an unpinned frame leaves count -1, which reads as pinned |
| `Frames.EmptyIt` | bufmgr/frame.cpp:36-42 | the frame holds no page and is clean, unreferenced and unpinned. The buffer is kept |
| `Frames.EmptyItIdempotent` | bufmgr/frame.cpp:36-42 | emptying twice is emptying once |
| `Frames.DirtyIt` | bufmgr/frame.cpp:49-52 | sets `dirty` and changes nothing else |
| `Frames.DirtyItIdempotent` | bufmgr/frame.cpp:49-52 | dirtying twice is dirtying once |
| `Frames.SetPageID` | bufmgr/frame.cpp:54-57 | binds the page id and changes nothing else |
| `Frames.PredicatesAfterTransitions` | bufmgr/frame.cpp:69-121 | IsValid, NotPinned and HasPageID read pid != INVALID_PAGE, pinCount == 0 and pid equality on the frames the transitions produce |
| `Frames.Write` | bufmgr/frame.cpp:74-77 | one write call for the frame's page. On success the store holds the buffer under that id, other pages are untouched, and the frame is unchanged |
| `Frames.Read` | bufmgr/frame.cpp:79-89 | one read call. The frame is bound to `pid` with the stored bytes only on success, and is unchanged on failure |
| `Frames.Free` | bufmgr/frame.cpp:91-111 | with a count above 1 it fails and changes nothing. Otherwise the frame is emptied, then the old page is deallocated once; the status is the store's and the frame stays empty even on failure. An OK deallocation releases exactly the old page and drops its bytes; a failed one leaves the store's allocation and contents alone; other pages keep their bytes |
| `LRU.PickVictim` | bufmgr/lru.cpp:4-17 | returns INVALID_FRAME iff every frame is pinned. Otherwise it returns an in-range frame with count 0 such that every lower frame is pinned |
| `LRU.PickFrom` | bufmgr/lru.cpp:8-16 | the scan from a start index returns the first unpinned index at or after it, or INVALID_FRAME |
| `LRU.NegativeCountNeverVictim` | bufmgr/lru.cpp:10 | a frame whose count went negative is never the victim |
| `LRU.VictimDependsOnlyOnPinCounts` | bufmgr/lru.cpp:4-17 | pools with equal pin counts get the same victim: pages, flags and buffers play no part |
| `BufferProperties.PinThenUnpinRestores` | bufmgr/bufmgr.cpp:62-153 | a hit then a plain unpin of the same page restores every frame except the `referenced` flag, and counts one request and no miss |
| `BufferProperties.FlushThenPinReadsBack` | bufmgr/bufmgr.cpp:253-276 | flushing a dirty unpinned page and pinning it again reads back exactly the bytes the frame held, provided the store accepts the write and the read |
| `BufferProperties.PinnedPageIsFound` | bufmgr/bufmgr.cpp:71-111 | after a successful pin of a valid page in a pool without duplicates, FindFrame finds the frame PinPage handed out |
| `BufferProperties.DoubleUnpinSucceeds` | bufmgr/bufmgr.cpp:136-150 | unpinning an unpinned resident page reports OK, leaves count -1, and the frame is not a victim afterwards |
| `BufferProperties.UnpinOfInvalidPageCorruptsEmptyFrame` | bufmgr/bufmgr.cpp:359-370 | in any pool with a frame that holds no page, UnpinPage(INVALID_PAGE, true) reports OK on the first such frame, dirties it and lowers its count; if the pool's empty frames were clean, the count becomes -1 and they no longer are |
| `BufferProperties.PinOfInvalidPageHitsEmptyFrame` | bufmgr/bufmgr.cpp:62-73 | pinning INVALID_PAGE while some frame is empty is a hit: no miss, no store call, and an empty frame gains a pin |
| `BufferProperties.NewPageOkAfterFailedPin` | bufmgr/bufmgr.cpp:190-197 | with every frame pinned, NewPage returns OK when the rollback deallocation succeeds, hands out no frame, and leaves the run deallocated |
| `BufferProperties.FailedWriteBackLosesVictim` | bufmgr/bufmgr.cpp:85-99 | if the dirty victim's write-back fails, the pin still succeeds unless the read fails, and the write is counted. The victim's page is cached in no frame and the store keeps its old bytes. A read overwrites the buffer with the new page; with `isEmpty` the changed bytes stay in the buffer, clean and labelled with the new page id |
| `BufferProperties.StatisticsCountPinRequests` | bufmgr/bufmgr.cpp:64-75 | each PinPage adds one to the requests GetStat reports, and one to the misses iff the page was not resident |
| `BufferProperties.ResetStatClearsCounters` | include/bufmgr.h:34-39 | after ResetStat, GetStat reports zero requests and zero misses with OK; the frames are untouched and the write count is zero |
| `BufferProperties.PinPageDefaultReads` | include/bufmgr.h:28 | with the default `isEmpty`, a miss with a victim ends by reading the page from the store |
| `BufferProperties.UnpinPageDefaultKeepsDirty` | include/bufmgr.h:29 | with the default `dirty`, unpinning leaves the frame's dirty flag as it was |
| `BufferProperties.NewPageDefaultAllocatesOne` | include/bufmgr.h:30 | with the default `howMany`, NewPage's first store call allocates a run of one page |
| `BufferProperties.FlushPageDefaultRefusesPinned` | include/bufmgr.h:32 | with the default `ignorePinned`, flushing a pinned page fails and changes nothing |

## Left out

- Real disk I/O: the store is abstract. Its answers come from the environment's fault set. Allocation hands out the store's next free id; how the real store chooses a run is not modelled.
- `Frames.Read`: after a failed read the buffer is modelled as unchanged. The real store may have overwritten part of it.
- The `Page*` pointers and aliasing through them: a handle is a frame index. Callers writing into a pinned page through the pointer are not modelled.
- Integer widths: `pinCount` (`int`) and the `long` counters are unbounded, so overflow is not modelled.
- `BufferManager.NewPage`: when `howMany < 1`, or allocation fails, the C++ leaves the caller's `firstPid` and `firstPage` unset. The model returns INVALID_PAGE and INVALID_FRAME.
- `BufferManager.FlushAllPages`: the statement that each written-back page holds its frame's bytes is made only for pools without duplicate pages. With duplicates the last write to a page wins, and the contract says nothing about which one.
- `BufferManager.FlushPage`: the out-of-bounds path for an invalid or non-resident page (bufmgr/bufmgr.cpp:273) is undefined behaviour, so the precondition excludes it.
- `BufferManager.Create`: a negative `bufSize` makes `new Frame[bufSize]` throw. The model takes a `nat`.
- The destructors of `BufMgr` and `Frame`: heap release and a best-effort write-back at teardown.
- `PrintStat`: console output only.
- `Frame::DereferenceIt`: never called. `Frame::ReferenceIt`: declared but never defined. `IsReferenced`, `IsDirty`, `GetPageID` and `GetPage` are plain field reads of the datatype.
- The LRU's `current` field: set to 0 and never read.
- `INVALID_PAGE` is -1, the Minibase value. `page.h` is not part of this model.
- `DeallocatePage(pid)` deallocates a run of one page, the store's default. `db.h` is not part of this model.
- Concurrency and locking: the code is single-threaded.
