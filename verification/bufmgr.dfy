/** The buffer manager (class BufMgr): a fixed array of frames, the
    replacement policy over it, and three statistics counters. Every
    operation takes the manager and the store and returns their new values. */
module BufferManager {
  import opened Types
  import opened Store
  import opened Frames
  import opened LRU

  /** The pool size numOfBuf is |frames|. The replacer keeps no state the
      model needs: it reads this same frame sequence. */
  datatype BufMgr = BufMgr(
    frames: seq<Frame>,
    totalCall: int,
    totalMiss: int,
    numDirtyPageWrites: int)

  datatype Result = Result(mgr: BufMgr, disk: Disk, status: Status)

  /** `page` stands for the Page* handed back to the caller: the index of
      the frame whose buffer it points into, or INVALID_FRAME for NULL. */
  datatype PinResult = PinResult(mgr: BufMgr, disk: Disk, status: Status, page: int)

  datatype NewResult = NewResult(mgr: BufMgr, disk: Disk, status: Status, firstPid: PageID, page: int)

  datatype UnpinResult = UnpinResult(mgr: BufMgr, status: Status)

  datatype Stat = Stat(pinNo: int, missNo: int, status: Status)

  /** The default arguments of the public operations. */
  const DEFAULT_IS_EMPTY := false
  const DEFAULT_DIRTY := false
  const DEFAULT_HOW_MANY := 1
  const DEFAULT_IGNORE_PINNED := false

  predicate Resident(frames: seq<Frame>, pid: PageID) {
    exists i :: 0 <= i < |frames| && frames[i].pid == pid
  }

  predicate AllPinned(frames: seq<Frame>) {
    forall i :: 0 <= i < |frames| ==> !NotPinned(frames[i])
  }

  /** No page is cached in two frames. */
  predicate UniqueResidency(frames: seq<Frame>) {
    forall i, j :: 0 <= i < |frames| && 0 <= j < |frames| && i != j && IsValid(frames[i]) ==>
      frames[i].pid != frames[j].pid
  }

  /** A frame that holds no page is in the state EmptyIt leaves: neither
      dirty, nor referenced, nor pinned. */
  predicate EmptyFramesClean(frames: seq<Frame>) {
    forall i :: 0 <= i < |frames| && !IsValid(frames[i]) ==> IsEmpty(frames[i])
  }

  /** `after` differs from `before` at most in frame `h`. */
  predicate Elsewhere(after: seq<Frame>, before: seq<Frame>, h: int) {
    |after| == |before| && forall j :: 0 <= j < |before| && j != h ==> after[j] == before[j]
  }

  predicate SameStats(a: BufMgr, b: BufMgr) {
    a.totalCall == b.totalCall && a.totalMiss == b.totalMiss && a.numDirtyPageWrites == b.numDirtyPageWrites
  }

  /** The constructor: `bufSize` empty frames and zeroed statistics. */
  function Create(bufSize: nat): (b: BufMgr)
    ensures |b.frames| == bufSize
    ensures forall i :: 0 <= i < bufSize ==> IsEmpty(b.frames[i]) && b.frames[i].data == BLANK_PAGE
    ensures b.totalCall == 0 && b.totalMiss == 0 && b.numDirtyPageWrites == 0
    ensures UniqueResidency(b.frames) && EmptyFramesClean(b.frames)
    ensures forall pid :: pid != INVALID_PAGE ==> !Resident(b.frames, pid)
  {
    ResetStat(BufMgr(seq(bufSize, _ => NewFrame()), 0, 0, 0))
  }

  /** Zeroes the statistics; the frames are left alone. */
  function ResetStat(b: BufMgr): (r: BufMgr)
    ensures GetStat(r) == Stat(0, 0, OK) && r.numDirtyPageWrites == 0
    ensures r.frames == b.frames
  {
    b.(totalMiss := 0, totalCall := 0, numDirtyPageWrites := 0)
  }

  /** Reports the number of pin requests and of misses; it cannot fail. */
  function GetStat(b: BufMgr): (s: Stat)
    ensures s.status == OK
    ensures s.pinNo == b.totalCall && s.missNo == b.totalMiss
  {
    Stat(b.totalCall, b.totalMiss, OK)
  }

  /** The lowest index of a frame bound to `pid`, or INVALID_FRAME. The
      sentinel is not special: FindFrame(INVALID_PAGE) finds the first
      frame that holds no page. */
  function FindFrame(frames: seq<Frame>, pid: PageID): (h: int)
    ensures h == INVALID_FRAME <==> !Resident(frames, pid)
    ensures h != INVALID_FRAME ==>
      && 0 <= h < |frames|
      && HasPageID(frames[h], pid)
      && forall i :: 0 <= i < h ==> !HasPageID(frames[i], pid)
  {
    FindFrom(frames, pid, 0)
  }

  /** FindFrame looks at page ids alone. */
  lemma FindFrameSeesOnlyPids(frames: seq<Frame>, others: seq<Frame>, pid: PageID)
    requires |frames| == |others|
    requires forall i :: 0 <= i < |frames| ==> frames[i].pid == others[i].pid
    ensures FindFrame(frames, pid) == FindFrame(others, pid)
  {
  }

  /** The scan of FindFrame from index `start` on. */
  function FindFrom(frames: seq<Frame>, pid: PageID, start: nat): (h: int)
    requires start <= |frames|
    ensures h == INVALID_FRAME <==> forall i :: start <= i < |frames| ==> !HasPageID(frames[i], pid)
    ensures h != INVALID_FRAME ==>
      && start <= h < |frames|
      && HasPageID(frames[h], pid)
      && forall i :: start <= i < h ==> !HasPageID(frames[i], pid)
    decreases |frames| - start
  {
    if start == |frames| then INVALID_FRAME
    else if HasPageID(frames[start], pid) then start
    else FindFrom(frames, pid, start + 1)
  }

  /** Writes frame `frameId` back if dirty and empties it. Refused, with no
      effect, when the frame is pinned and `ignorePinned` is false. A failed
      write still empties the frame: the dirty bytes are then lost. */
  function FlushFrame(b: BufMgr, d: Disk, frameId: int, ignorePinned: bool): (r: Result)
    requires 0 <= frameId < |b.frames|
    ensures var f := b.frames[frameId];
      !ignorePinned && !NotPinned(f) ==> r == Result(b, d, FAIL)
    ensures var f := b.frames[frameId];
      ignorePinned || NotPinned(f) ==>
        && Elsewhere(r.mgr.frames, b.frames, frameId)
        && IsEmpty(r.mgr.frames[frameId]) && r.mgr.frames[frameId].data == f.data
        && r.mgr.totalCall == b.totalCall && r.mgr.totalMiss == b.totalMiss
        && r.mgr.numDirtyPageWrites == b.numDirtyPageWrites + (if f.dirty then 1 else 0)
        && r.disk.log == d.log + (if f.dirty then [WriteCall(f.pid)] else [])
        && r.status == (if f.dirty then Answer(d, WriteCall(f.pid)) else OK)
        && (f.dirty && r.status == OK ==> Contents(r.disk, f.pid) == f.data)
        && (forall q :: q != f.pid ==> Contents(r.disk, q) == Contents(d, q))
        && (r.status == FAIL ==> r.disk.contents == d.contents)
        && r.disk.inUse == d.inUse && r.disk.faults == d.faults && r.disk.next == d.next
  {
    var f := b.frames[frameId];
    if !ignorePinned && !NotPinned(f) then Result(b, d, FAIL)
    else
      var emptied := b.frames[frameId := EmptyIt(f)];
      if f.dirty then
        var w := Write(f, d);
        Result(b.(frames := emptied, numDirtyPageWrites := b.numDirtyPageWrites + 1), w.disk, w.status)
      else
        Result(b.(frames := emptied), d, OK)
  }

  /** Pins page `pid`. A resident page is pinned where it is (a hit). On a
      miss the lowest unpinned frame is the victim: it is written back if
      dirty and emptied, then bound to `pid`, without a read when `isEmpty`
      holds and otherwise only if the read succeeds. The outcome of the
      write-back is ignored. */
  function PinPage(b: BufMgr, d: Disk, pid: PageID, isEmpty: bool): (r: PinResult)
    ensures |r.mgr.frames| == |b.frames|
    ensures r.mgr.totalCall == b.totalCall + 1
    ensures r.mgr.totalMiss == b.totalMiss + (if Resident(b.frames, pid) then 0 else 1)
    ensures r.status == OK ==> 0 <= r.page < |r.mgr.frames| && HasPageID(r.mgr.frames[r.page], pid)
    ensures r.status == FAIL ==> r.page == INVALID_FRAME
    // a hit pins the frame holding pid and touches nothing else
    ensures Resident(b.frames, pid) ==>
      && r.status == OK && r.page == FindFrame(b.frames, pid)
      && r.mgr.frames == b.frames[r.page := Pin(b.frames[r.page])]
      && r.mgr.numDirtyPageWrites == b.numDirtyPageWrites && r.disk == d
    // a miss in a pool whose frames are all pinned fails without changing a frame
    ensures !Resident(b.frames, pid) && AllPinned(b.frames) ==>
      && r.status == FAIL
      && r.mgr.frames == b.frames && r.mgr.numDirtyPageWrites == b.numDirtyPageWrites && r.disk == d
    // a miss with a victim
    ensures !Resident(b.frames, pid) && !AllPinned(b.frames) ==>
      var v := PickVictim(b.frames);
      var f := b.frames[v];
      && Elsewhere(r.mgr.frames, b.frames, v)
      && r.mgr.numDirtyPageWrites == b.numDirtyPageWrites + (if f.dirty then 1 else 0)
      && r.disk.log == d.log + (if f.dirty then [WriteCall(f.pid)] else []) + (if isEmpty then [] else [ReadCall(pid)])
      && (f.dirty && Answer(d, WriteCall(f.pid)) == OK ==> Contents(r.disk, f.pid) == f.data)
      && (!f.dirty || Answer(d, WriteCall(f.pid)) == FAIL ==> r.disk.contents == d.contents)
      && (forall q :: q != f.pid ==> Contents(r.disk, q) == Contents(d, q))
      && (isEmpty || Answer(d, ReadCall(pid)) == OK ==>
            && r.status == OK && r.page == v
            && r.mgr.frames[v] == Frame(pid, if isEmpty then f.data else Contents(d, pid), 1, false, false))
      && (!isEmpty && Answer(d, ReadCall(pid)) == FAIL ==>
            r.status == FAIL && r.mgr.frames[v] == EmptyIt(f))
    ensures r.disk.inUse == d.inUse && r.disk.faults == d.faults && r.disk.next == d.next
    ensures UniqueResidency(b.frames) ==> UniqueResidency(r.mgr.frames)
    ensures pid != INVALID_PAGE && EmptyFramesClean(b.frames) ==> EmptyFramesClean(r.mgr.frames)
  {
    var counted := b.(totalCall := b.totalCall + 1);
    var h := FindFrame(b.frames, pid);
    if h != INVALID_FRAME then
      PinInPlace(b.frames, h);
      PinResult(counted.(frames := b.frames[h := Pin(b.frames[h])]), d, OK, h)
    else
      PinMiss(counted, d, pid, isEmpty)
  }

  /** Pinning a frame where it is keeps every page where it was. */
  lemma PinInPlace(frames: seq<Frame>, h: int)
    requires 0 <= h < |frames|
    ensures UniqueResidency(frames) ==> UniqueResidency(frames[h := Pin(frames[h])])
    ensures EmptyFramesClean(frames) && IsValid(frames[h]) ==> EmptyFramesClean(frames[h := Pin(frames[h])])
    ensures forall q :: Resident(frames[h := Pin(frames[h])], q) <==> Resident(frames, q)
  {
    var after := frames[h := Pin(frames[h])];
    assert forall i :: 0 <= i < |frames| ==> after[i].pid == frames[i].pid;
  }

  /** The miss path of PinPage: count the miss and ask the policy for a victim. */
  function PinMiss(b: BufMgr, d: Disk, pid: PageID, isEmpty: bool): (r: PinResult)
    requires !Resident(b.frames, pid)
    ensures |r.mgr.frames| == |b.frames|
    ensures r.mgr.totalCall == b.totalCall && r.mgr.totalMiss == b.totalMiss + 1
    ensures r.status == OK ==> 0 <= r.page < |r.mgr.frames| && HasPageID(r.mgr.frames[r.page], pid)
    ensures r.status == FAIL ==> r.page == INVALID_FRAME
    ensures AllPinned(b.frames) ==>
      && r.status == FAIL
      && r.mgr.frames == b.frames && r.mgr.numDirtyPageWrites == b.numDirtyPageWrites && r.disk == d
    ensures !AllPinned(b.frames) ==>
      var v := PickVictim(b.frames);
      var f := b.frames[v];
      && Elsewhere(r.mgr.frames, b.frames, v)
      && r.mgr.numDirtyPageWrites == b.numDirtyPageWrites + (if f.dirty then 1 else 0)
      && r.disk.log == d.log + (if f.dirty then [WriteCall(f.pid)] else []) + (if isEmpty then [] else [ReadCall(pid)])
      && (f.dirty && Answer(d, WriteCall(f.pid)) == OK ==> Contents(r.disk, f.pid) == f.data)
      && (!f.dirty || Answer(d, WriteCall(f.pid)) == FAIL ==> r.disk.contents == d.contents)
      && (forall q :: q != f.pid ==> Contents(r.disk, q) == Contents(d, q))
      && (isEmpty || Answer(d, ReadCall(pid)) == OK ==>
            && r.status == OK && r.page == v
            && r.mgr.frames[v] == Frame(pid, if isEmpty then f.data else Contents(d, pid), 1, false, false))
      && (!isEmpty && Answer(d, ReadCall(pid)) == FAIL ==>
            r.status == FAIL && r.mgr.frames[v] == EmptyIt(f))
    ensures r.disk.inUse == d.inUse && r.disk.faults == d.faults && r.disk.next == d.next
    ensures UniqueResidency(b.frames) ==> UniqueResidency(r.mgr.frames)
    ensures pid != INVALID_PAGE && EmptyFramesClean(b.frames) ==> EmptyFramesClean(r.mgr.frames)
  {
    var missed := b.(totalMiss := b.totalMiss + 1);
    var v := PickVictim(b.frames);
    if v == INVALID_FRAME then PinResult(missed, d, FAIL, INVALID_FRAME)
    else LoadVictim(missed, d, v, pid, isEmpty)
  }

  /** The miss path of PinPage once victim `v` is chosen. */
  function LoadVictim(b: BufMgr, d: Disk, v: int, pid: PageID, isEmpty: bool): (r: PinResult)
    requires 0 <= v < |b.frames| && NotPinned(b.frames[v])
    requires !Resident(b.frames, pid)
    ensures var f := b.frames[v];
      && Elsewhere(r.mgr.frames, b.frames, v)
      && r.mgr.totalCall == b.totalCall && r.mgr.totalMiss == b.totalMiss
      && r.mgr.numDirtyPageWrites == b.numDirtyPageWrites + (if f.dirty then 1 else 0)
      && r.disk.log == d.log + (if f.dirty then [WriteCall(f.pid)] else []) + (if isEmpty then [] else [ReadCall(pid)])
      && (f.dirty && Answer(d, WriteCall(f.pid)) == OK ==> Contents(r.disk, f.pid) == f.data)
      && (!f.dirty || Answer(d, WriteCall(f.pid)) == FAIL ==> r.disk.contents == d.contents)
      && (forall q :: q != f.pid ==> Contents(r.disk, q) == Contents(d, q))
      && (isEmpty || Answer(d, ReadCall(pid)) == OK ==>
            && r.status == OK && r.page == v
            && r.mgr.frames[v] == Frame(pid, if isEmpty then f.data else Contents(d, pid), 1, false, false))
      && (!isEmpty && Answer(d, ReadCall(pid)) == FAIL ==>
            r.status == FAIL && r.page == INVALID_FRAME && r.mgr.frames[v] == EmptyIt(f))
      && r.disk.inUse == d.inUse && r.disk.faults == d.faults && r.disk.next == d.next
    ensures UniqueResidency(b.frames) ==> UniqueResidency(r.mgr.frames)
    ensures pid != INVALID_PAGE && EmptyFramesClean(b.frames) ==> EmptyFramesClean(r.mgr.frames)
  {
    var e := FlushFrame(b, d, v, DEFAULT_IGNORE_PINNED);
    var emptied := e.mgr.frames[v];
    if isEmpty then
      PinResult(e.mgr.(frames := e.mgr.frames[v := Pin(SetPageID(emptied, pid))]), e.disk, OK, v)
    else
      var rd := Read(emptied, e.disk, pid);
      if rd.status == OK then PinResult(e.mgr.(frames := e.mgr.frames[v := Pin(rd.frame)]), rd.disk, OK, v)
      else PinResult(e.mgr.(frames := e.mgr.frames[v := rd.frame]), rd.disk, FAIL, INVALID_FRAME)
  }

  /** Unpins page `pid`, marking it dirty when `dirty` holds. Fails only when
      the page is not resident; an unpinned page is unpinned again. */
  function UnpinPage(b: BufMgr, pid: PageID, dirty: bool): (r: UnpinResult)
    ensures r.status == FAIL <==> !Resident(b.frames, pid)
    ensures r.status == FAIL ==> r.mgr == b
    ensures r.status == OK ==>
      var h := FindFrame(b.frames, pid);
      var f := b.frames[h];
      && Elsewhere(r.mgr.frames, b.frames, h) && SameStats(r.mgr, b)
      && r.mgr.frames[h].pinCount == f.pinCount - 1
      && (r.mgr.frames[h].dirty <==> f.dirty || dirty)
      && (r.mgr.frames[h].referenced <==> f.referenced || f.pinCount == 1)
      && r.mgr.frames[h].pid == pid && r.mgr.frames[h].data == f.data
    ensures UniqueResidency(b.frames) ==> UniqueResidency(r.mgr.frames)
    ensures pid != INVALID_PAGE && EmptyFramesClean(b.frames) ==> EmptyFramesClean(r.mgr.frames)
  {
    var h := FindFrame(b.frames, pid);
    if h == INVALID_FRAME then UnpinResult(b, FAIL)
    else
      var unpinned := Unpin(b.frames[h]);
      var f := if dirty then DirtyIt(unpinned) else unpinned;
      UnpinResult(b.(frames := b.frames[h := f]), OK)
  }

  /** Allocates a run of `howMany` pages and pins the first as an empty page.
      When the pin fails the run is deallocated and the status of that
      deallocation is returned, which can be OK. */
  function NewPage(b: BufMgr, d: Disk, howMany: int): (r: NewResult)
    ensures howMany < 1 ==> r.status == FAIL && r.mgr == b && r.disk == d
    ensures howMany >= 1 && Answer(d, AllocateCall(howMany)) == FAIL ==>
      && r.status == FAIL && r.mgr == b
      && r.disk.log == d.log + [AllocateCall(howMany)]
      && r.disk.inUse == d.inUse && r.disk.contents == d.contents && r.disk.next == d.next
    ensures howMany >= 1 && Answer(d, AllocateCall(howMany)) == OK ==>
      var first := d.next;
      var run := Run(first, howMany);
      && r.firstPid == first
      && r.mgr.totalCall == b.totalCall + 1
      && (Resident(b.frames, first) || !AllPinned(b.frames) ==>
            && r.status == OK
            && 0 <= r.page < |r.mgr.frames| && HasPageID(r.mgr.frames[r.page], first)
            && (!Resident(b.frames, first) ==> r.mgr.frames[r.page].pinCount == 1 && !r.mgr.frames[r.page].dirty)
            && r.disk.inUse == d.inUse + run && r.disk.next == first + howMany
            && |r.disk.log| > |d.log| && r.disk.log[|d.log|] == AllocateCall(howMany))
      // the first page was already cached: a hit, pinned where it is
      && (Resident(b.frames, first) ==>
            && r.page == FindFrame(b.frames, first)
            && r.mgr.frames == b.frames[r.page := Pin(b.frames[r.page])]
            && r.mgr.totalMiss == b.totalMiss && r.mgr.numDirtyPageWrites == b.numDirtyPageWrites
            && r.disk.log == d.log + [AllocateCall(howMany)]
            && r.disk.contents == d.contents)
      // a miss with a victim: the victim is written back if dirty, then bound to the new page
      && (!Resident(b.frames, first) && !AllPinned(b.frames) ==>
            var v := PickVictim(b.frames);
            var f := b.frames[v];
            && r.page == v
            && Elsewhere(r.mgr.frames, b.frames, v)
            && r.mgr.frames[v] == Frame(first, f.data, 1, false, false)
            && r.mgr.totalMiss == b.totalMiss + 1
            && r.mgr.numDirtyPageWrites == b.numDirtyPageWrites + (if f.dirty then 1 else 0)
            && r.disk.log == d.log + [AllocateCall(howMany)] + (if f.dirty then [WriteCall(f.pid)] else [])
            && (f.dirty && Answer(d, WriteCall(f.pid)) == OK ==> Contents(r.disk, f.pid) == f.data)
            && (!f.dirty || Answer(d, WriteCall(f.pid)) == FAIL ==> r.disk.contents == d.contents)
            && (forall q :: q != f.pid ==> Contents(r.disk, q) == Contents(d, q)))
      && (!Resident(b.frames, first) && AllPinned(b.frames) ==>
            && r.mgr.totalMiss == b.totalMiss + 1 && r.mgr.numDirtyPageWrites == b.numDirtyPageWrites
            && r.page == INVALID_FRAME && r.mgr.frames == b.frames
            && r.disk.log == d.log + [AllocateCall(howMany), DeallocateCall(first, howMany)]
            && r.status == Answer(d, DeallocateCall(first, howMany))
            && (r.status == OK ==> r.disk.inUse == d.inUse - run)
            // a failed rollback leaks the whole run
            && (r.status == FAIL ==> r.disk.inUse == d.inUse + run && r.disk.contents == d.contents)
            && (forall q :: q !in run ==> Contents(r.disk, q) == Contents(d, q))
            && r.disk.next == first + howMany)
    ensures r.disk.faults == d.faults
    ensures UniqueResidency(b.frames) ==> UniqueResidency(r.mgr.frames)
    ensures d.next != INVALID_PAGE && EmptyFramesClean(b.frames) ==> EmptyFramesClean(r.mgr.frames)
  {
    if howMany < 1 then NewResult(b, d, FAIL, INVALID_PAGE, INVALID_FRAME)
    else
      var a := AllocatePage(d, howMany);
      if a.status != OK then NewResult(b, a.disk, a.status, a.first, INVALID_FRAME)
      else
        var p := PinPage(b, a.disk, a.first, true);
        if p.status != OK then
          var undo := DeallocatePage(p.disk, a.first, howMany);
          NewResult(p.mgr, undo.disk, undo.status, a.first, p.page)
        else NewResult(p.mgr, p.disk, OK, a.first, p.page)
  }

  /** Frees page `pid`: through Frame::Free when resident, otherwise by
      deallocating it in the store directly. */
  function FreePage(b: BufMgr, d: Disk, pid: PageID): (r: Result)
    ensures !Resident(b.frames, pid) ==>
      && r.mgr == b
      && r.disk.log == d.log + [DeallocateCall(pid, 1)]
      && r.status == Answer(d, DeallocateCall(pid, 1))
    ensures Resident(b.frames, pid) ==>
      var h := FindFrame(b.frames, pid);
      var f := b.frames[h];
      && (f.pinCount > 1 ==> r.status == FAIL && r.mgr == b && r.disk == d)
      && (f.pinCount <= 1 ==>
            && Elsewhere(r.mgr.frames, b.frames, h) && SameStats(r.mgr, b)
            && IsEmpty(r.mgr.frames[h]) && r.mgr.frames[h].data == f.data
            && r.disk.log == d.log + [DeallocateCall(pid, 1)]
            && r.status == Answer(d, DeallocateCall(pid, 1)))
    // the store side, whether or not the page was cached: only pid is released
    ensures r.status == OK ==> r.disk.inUse == d.inUse - {pid} && Contents(r.disk, pid) == BLANK_PAGE
    ensures r.status == FAIL ==> r.disk.inUse == d.inUse && r.disk.contents == d.contents
    ensures forall q :: q != pid ==> Contents(r.disk, q) == Contents(d, q)
    ensures r.disk.next == d.next && r.disk.faults == d.faults
    ensures UniqueResidency(b.frames) && pid != INVALID_PAGE ==>
      (Resident(r.mgr.frames, pid) <==> Resident(b.frames, pid) && b.frames[FindFrame(b.frames, pid)].pinCount > 1)
    ensures UniqueResidency(b.frames) ==> UniqueResidency(r.mgr.frames)
    ensures EmptyFramesClean(b.frames) ==> EmptyFramesClean(r.mgr.frames)
  {
    var h := FindFrame(b.frames, pid);
    if h != INVALID_FRAME then
      var fr := Free(b.frames[h], d);
      Result(b.(frames := b.frames[h := fr.frame]), fr.disk, fr.status)
    else
      var rep := DeallocatePage(d, pid, 1);
      Result(b, rep.disk, rep.status)
  }

  /** Writes page `pid` back if dirty and empties its frame; refused when the
      frame is pinned and `ignorePinned` is false. The page must be resident
      and not INVALID_PAGE: otherwise the source flushes frame -1. */
  function FlushPage(b: BufMgr, d: Disk, pid: PageID, ignorePinned: bool): (r: Result)
    requires pid != INVALID_PAGE && Resident(b.frames, pid)
    ensures var h := FindFrame(b.frames, pid);
      var f := b.frames[h];
      && (!ignorePinned && !NotPinned(f) ==> r == Result(b, d, FAIL))
      && (ignorePinned || NotPinned(f) ==>
            && Elsewhere(r.mgr.frames, b.frames, h)
            && IsEmpty(r.mgr.frames[h]) && r.mgr.frames[h].data == f.data
            && r.mgr.totalCall == b.totalCall && r.mgr.totalMiss == b.totalMiss
            && r.mgr.numDirtyPageWrites == b.numDirtyPageWrites + (if f.dirty then 1 else 0)
            && r.disk.log == d.log + (if f.dirty then [WriteCall(pid)] else [])
            && r.status == (if f.dirty then Answer(d, WriteCall(pid)) else OK)
            && (f.dirty && r.status == OK ==> Contents(r.disk, pid) == f.data)
            && (r.status == FAIL || !f.dirty ==> r.disk.contents == d.contents)
            && (forall q :: q != pid ==> Contents(r.disk, q) == Contents(d, q)))
    ensures UniqueResidency(b.frames) && r.status == OK ==> !Resident(r.mgr.frames, pid)
    ensures UniqueResidency(b.frames) ==> UniqueResidency(r.mgr.frames)
    ensures EmptyFramesClean(b.frames) ==> EmptyFramesClean(r.mgr.frames)
    ensures r.disk.inUse == d.inUse && r.disk.faults == d.faults && r.disk.next == d.next
  {
    FlushFrame(b, d, FindFrame(b.frames, pid), ignorePinned)
  }

  /** Frames GetNumOfUnpinnedFrames counts: empty ones and unpinned ones. */
  predicate CountsAsUnpinned(f: Frame) {
    !IsValid(f) || NotPinned(f)
  }

  /** Frames whose page FlushAllPages writes back. */
  predicate NeedsWriteBack(f: Frame) {
    IsValid(f) && f.dirty
  }

  /** A frame on which the sweep of FlushAllPages reports failure: it holds a
      page and is pinned, or its write-back fails. */
  predicate SweepFails(f: Frame, d: Disk) {
    IsValid(f) && (!NotPinned(f) || (f.dirty && Answer(d, WriteCall(f.pid)) == FAIL))
  }

  /** The indices of the frames that satisfy `p`. */
  ghost function Where(frames: seq<Frame>, p: Frame -> bool): set<int> {
    set i | 0 <= i < |frames| && p(frames[i])
  }

  /** Some frame of `frames` holding page `q` needs a write-back. */
  predicate WritesBackPage(frames: seq<Frame>, q: PageID) {
    exists i :: 0 <= i < |frames| && NeedsWriteBack(frames[i]) && frames[i].pid == q
  }

  /** The write-back calls a sweep over `frames` makes, in frame order. */
  function WriteBacks(frames: seq<Frame>): seq<Call> {
    if frames == [] then []
    else
      var last := frames[|frames| - 1];
      WriteBacks(frames[..|frames| - 1]) + (if NeedsWriteBack(last) then [WriteCall(last.pid)] else [])
  }

  /** What the sweep leaves in a frame. */
  function SweptFrame(f: Frame): Frame {
    if IsValid(f) then EmptyIt(f) else f
  }

  lemma WhereStep(frames: seq<Frame>, p: Frame -> bool, k: nat)
    requires k < |frames|
    ensures Where(frames[..k + 1], p) == Where(frames[..k], p) + (if p(frames[k]) then {k} else {})
    ensures k !in Where(frames[..k], p)
  {
    var prefix := frames[..k + 1];
    assert forall i :: 0 <= i < k ==> prefix[i] == frames[..k][i];
  }

  /** One iteration of the sweep of FlushAllPages, on frame `i`: when the
      frame holds a page, check its pin count, flush it ignoring pins and
      empty it; the status is FAIL when either the check or the flush fails. */
  function SweepFrame(b: BufMgr, d: Disk, i: int): (r: Result)
    requires 0 <= i < |b.frames|
    ensures var f := b.frames[i];
      && Elsewhere(r.mgr.frames, b.frames, i)
      && r.mgr.frames[i] == SweptFrame(f)
      && r.mgr.totalCall == b.totalCall && r.mgr.totalMiss == b.totalMiss
      && r.mgr.numDirtyPageWrites == b.numDirtyPageWrites + (if NeedsWriteBack(f) then 1 else 0)
      && r.disk.log == d.log + (if NeedsWriteBack(f) then [WriteCall(f.pid)] else [])
      && (r.status == FAIL <==> SweepFails(f, d))
      && (NeedsWriteBack(f) && Answer(d, WriteCall(f.pid)) == OK ==> Contents(r.disk, f.pid) == f.data)
      && (forall q :: q != f.pid ==> Contents(r.disk, q) == Contents(d, q))
      && (!NeedsWriteBack(f) ==> r.disk == d)
      && (NeedsWriteBack(f) && Answer(d, WriteCall(f.pid)) == FAIL ==> r.disk.contents == d.contents)
      && r.disk.inUse == d.inUse && r.disk.faults == d.faults && r.disk.next == d.next
  {
    var f := b.frames[i];
    if IsValid(f) then
      var notPinned := NotPinned(f);
      var e := FlushFrame(b, d, i, true);
      var ok := notPinned && e.status == OK;
      Result(e.mgr.(frames := e.mgr.frames[i := EmptyIt(e.mgr.frames[i])]), e.disk, if ok then OK else FAIL)
    else Result(b, d, OK)
  }

  /** Every frame below `n` that needed a write-back the store accepted has
      its bytes in the store. */
  predicate WrittenBack(frames: seq<Frame>, n: int, d: Disk, after: Disk)
    requires n <= |frames|
  {
    forall j :: 0 <= j < n && NeedsWriteBack(frames[j]) && Answer(d, WriteCall(frames[j].pid)) == OK ==>
      Contents(after, frames[j].pid) == frames[j].data
  }

  /** Sweeping frame `i` keeps the write-backs of the earlier frames: their
      pages differ from frame `i`'s page. */
  lemma WrittenBackStep(frames: seq<Frame>, i: int, d: Disk, before: Disk, after: Disk)
    requires 0 <= i < |frames| && UniqueResidency(frames)
    requires WrittenBack(frames, i, d, before)
    requires forall q :: q != frames[i].pid ==> Contents(after, q) == Contents(before, q)
    requires NeedsWriteBack(frames[i]) && Answer(d, WriteCall(frames[i].pid)) == OK ==>
      Contents(after, frames[i].pid) == frames[i].data
    ensures WrittenBack(frames, i + 1, d, after)
  {
    forall j | 0 <= j < i && NeedsWriteBack(frames[j]) && Answer(d, WriteCall(frames[j].pid)) == OK
      ensures Contents(after, frames[j].pid) == frames[j].data
    {
      assert frames[j].pid != frames[i].pid;
    }
  }

  /** What the sweep of FlushAllPages has established after visiting the
      frames below `i` of `b`, starting from store `d`. */
  ghost predicate Swept(b: BufMgr, d: Disk, i: int, mgr: BufMgr, disk: Disk, success: bool) {
    && 0 <= i <= |b.frames|
    && SweptFrames(b, i, mgr)
    && SweptWrites(b, d, i, mgr, disk)
    && SweptStore(b, d, i, disk)
    && (success <==> forall j :: 0 <= j < i ==> !SweepFails(b.frames[j], d))
    && (UniqueResidency(b.frames) ==> WrittenBack(b.frames, i, d, disk))
  }

  ghost predicate SweptFrames(b: BufMgr, i: int, mgr: BufMgr)
    requires 0 <= i <= |b.frames|
  {
    && |mgr.frames| == |b.frames|
    && (forall j :: 0 <= j < i ==> mgr.frames[j] == SweptFrame(b.frames[j]))
    && (forall j :: i <= j < |b.frames| ==> mgr.frames[j] == b.frames[j])
    && mgr.totalCall == b.totalCall && mgr.totalMiss == b.totalMiss
  }

  ghost predicate SweptWrites(b: BufMgr, d: Disk, i: int, mgr: BufMgr, disk: Disk)
    requires 0 <= i <= |b.frames|
  {
    && mgr.numDirtyPageWrites == b.numDirtyPageWrites + |Where(b.frames[..i], NeedsWriteBack)|
    && disk.log == d.log + WriteBacks(b.frames[..i])
    && disk.inUse == d.inUse && disk.faults == d.faults
  }

  /** Pages no visited frame wrote back, and pages whose write-back the store
      refuses, keep their stored bytes. */
  ghost predicate SweptStore(b: BufMgr, d: Disk, i: int, disk: Disk)
    requires 0 <= i <= |b.frames|
  {
    && disk.next == d.next && disk.faults == d.faults
    && forall q :: !WritesBackPage(b.frames[..i], q) || Answer(d, WriteCall(q)) == FAIL ==>
         Contents(disk, q) == Contents(d, q)
  }

  lemma SweepStep(b: BufMgr, d: Disk, i: int, mgr: BufMgr, disk: Disk, success: bool)
    requires i < |b.frames| && Swept(b, d, i, mgr, disk, success)
    ensures var step := SweepFrame(mgr, disk, i);
      Swept(b, d, i + 1, step.mgr, step.disk, success && step.status == OK)
  {
    var step := SweepFrame(mgr, disk, i);
    assert mgr.frames[i] == b.frames[i];
    SweptFramesStep(b, i, mgr, disk);
    SweptWritesStep(b, d, i, mgr, disk);
    SweptStoreStep(b, d, i, mgr, disk);
    assert step.status == FAIL <==> SweepFails(b.frames[i], d);
    if UniqueResidency(b.frames) {
      WrittenBackStep(b.frames, i, d, disk, step.disk);
    }
  }

  lemma SweptStoreStep(b: BufMgr, d: Disk, i: int, mgr: BufMgr, disk: Disk)
    requires 0 <= i < |b.frames| && SweptFrames(b, i, mgr) && SweptStore(b, d, i, disk)
    ensures SweptStore(b, d, i + 1, SweepFrame(mgr, disk, i).disk)
  {
    var step := SweepFrame(mgr, disk, i);
    var f := b.frames[i];
    assert mgr.frames[i] == f;
    forall q | !WritesBackPage(b.frames[..i + 1], q) || Answer(d, WriteCall(q)) == FAIL
      ensures Contents(step.disk, q) == Contents(d, q)
    {
      assert b.frames[..i + 1][i] == f;
      forall j | 0 <= j < i
        ensures b.frames[..i][j] == b.frames[..i + 1][j]
      {
      }
    }
  }

  lemma SweptFramesStep(b: BufMgr, i: int, mgr: BufMgr, disk: Disk)
    requires 0 <= i < |b.frames| && SweptFrames(b, i, mgr)
    ensures SweptFrames(b, i + 1, SweepFrame(mgr, disk, i).mgr)
  {
  }

  lemma SweptWritesStep(b: BufMgr, d: Disk, i: int, mgr: BufMgr, disk: Disk)
    requires 0 <= i < |b.frames| && SweptFrames(b, i, mgr) && SweptWrites(b, d, i, mgr, disk)
    ensures var step := SweepFrame(mgr, disk, i);
      SweptWrites(b, d, i + 1, step.mgr, step.disk)
  {
    var step := SweepFrame(mgr, disk, i);
    var f := b.frames[i];
    assert mgr.frames[i] == f;
    WhereCountStep(b.frames, NeedsWriteBack, i);
    WriteBacksStep(b.frames, i);
    assert step.disk.log == disk.log + (if NeedsWriteBack(f) then [WriteCall(f.pid)] else []);
  }

  lemma WriteBacksStep(frames: seq<Frame>, i: int)
    requires 0 <= i < |frames|
    ensures WriteBacks(frames[..i + 1]) ==
      WriteBacks(frames[..i]) + (if NeedsWriteBack(frames[i]) then [WriteCall(frames[i].pid)] else [])
  {
    assert frames[..i + 1][..i] == frames[..i];
  }

  lemma WhereCountStep(frames: seq<Frame>, p: Frame -> bool, k: nat)
    requires k < |frames|
    ensures |Where(frames[..k + 1], p)| == |Where(frames[..k], p)| + (if p(frames[k]) then 1 else 0)
  {
    WhereStep(frames, p, k);
    if p(frames[k]) {
      assert Where(frames[..k + 1], p) == Where(frames[..k], p) + {k};
    } else {
      assert Where(frames[..k + 1], p) == Where(frames[..k], p);
    }
  }

  /** Writes back every dirty frame that holds a page and empties every frame
      that holds a page, pinned or not. The sweep never stops early; it fails
      if some such frame was pinned or some write-back failed. Frames that
      hold no page are skipped. */
  method FlushAllPages(b: BufMgr, d: Disk) returns (r: Result)
    ensures |r.mgr.frames| == |b.frames|
    ensures forall i :: 0 <= i < |b.frames| ==> r.mgr.frames[i] == SweptFrame(b.frames[i])
    ensures forall i :: 0 <= i < |b.frames| ==> !IsValid(r.mgr.frames[i])
    ensures EmptyFramesClean(b.frames) ==> forall i :: 0 <= i < |b.frames| ==> IsEmpty(r.mgr.frames[i])
    ensures r.mgr.totalCall == b.totalCall && r.mgr.totalMiss == b.totalMiss
    ensures r.mgr.numDirtyPageWrites == b.numDirtyPageWrites + |Where(b.frames, NeedsWriteBack)|
    ensures r.disk.log == d.log + WriteBacks(b.frames)
    ensures r.status == FAIL <==> exists i :: 0 <= i < |b.frames| && SweepFails(b.frames[i], d)
    ensures UniqueResidency(b.frames) ==> WrittenBack(b.frames, |b.frames|, d, r.disk)
    ensures forall q :: !WritesBackPage(b.frames, q) || Answer(d, WriteCall(q)) == FAIL ==>
      Contents(r.disk, q) == Contents(d, q)
    ensures r.disk.inUse == d.inUse && r.disk.faults == d.faults && r.disk.next == d.next
    ensures UniqueResidency(r.mgr.frames)
    ensures EmptyFramesClean(b.frames) ==> EmptyFramesClean(r.mgr.frames)
  {
    var mgr, disk, success := b, d, true;
    var i := 0;
    assert b.frames[..0] == [];
    while i < |b.frames|
      invariant Swept(b, d, i, mgr, disk, success)
    {
      SweepStep(b, d, i, mgr, disk, success);
      var step := SweepFrame(mgr, disk, i);
      mgr, disk := step.mgr, step.disk;
      success := success && step.status == OK;
      i := i + 1;
    }
    assert b.frames[..i] == b.frames;
    r := Result(mgr, disk, if success then OK else FAIL);
  }

  /** The number of frames that hold no page or are not pinned. */
  method GetNumOfUnpinnedFrames(b: BufMgr) returns (n: nat)
    ensures n == |Where(b.frames, CountsAsUnpinned)|
    ensures n <= |b.frames|
    ensures AllPinned(b.frames) && (forall i :: 0 <= i < |b.frames| ==> IsValid(b.frames[i])) ==> n == 0
  {
    n := 0;
    var i := 0;
    while i < |b.frames|
      invariant 0 <= i <= |b.frames|
      invariant n == |Where(b.frames[..i], CountsAsUnpinned)|
      invariant n <= i
    {
      WhereCountStep(b.frames, CountsAsUnpinned, i);
      if !IsValid(b.frames[i]) || NotPinned(b.frames[i]) {
        n := n + 1;
      }
      i := i + 1;
    }
    assert b.frames[..i] == b.frames;
  }
}
