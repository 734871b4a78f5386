/** Properties that relate several buffer-manager operations, and the
    behaviours of the code that its own comments do not announce. */
module BufferProperties {
  import opened Types
  import opened Store
  import opened Frames
  import opened LRU
  import opened BufferManager

  /** A hit followed by an unpin of the same page gives back the pool it
      started from, except that the frame is marked referenced if its count
      was 0, and the request is counted. */
  lemma PinThenUnpinRestores(b: BufMgr, d: Disk, pid: PageID, isEmpty: bool)
    requires Resident(b.frames, pid)
    ensures var h := FindFrame(b.frames, pid);
      var f := b.frames[h];
      var u := UnpinPage(PinPage(b, d, pid, isEmpty).mgr, pid, DEFAULT_DIRTY);
      && u.status == OK
      && u.mgr.frames == b.frames[h := f.(referenced := f.referenced || f.pinCount == 0)]
      && u.mgr.totalCall == b.totalCall + 1 && u.mgr.totalMiss == b.totalMiss
  {
    var h := FindFrame(b.frames, pid);
    var p := PinPage(b, d, pid, isEmpty);
    FindFrameSeesOnlyPids(p.mgr.frames, b.frames, pid);
    var u := UnpinPage(p.mgr, pid, DEFAULT_DIRTY);
    UnpinUndoesPin(b.frames[h]);
    assert u.mgr.frames[h] == Unpin(Pin(b.frames[h]));
  }

  /** Write-back round trip: flushing a dirty resident page and pinning it
      again reads back exactly the bytes the frame held, provided the store
      accepts the write and the read. */
  lemma FlushThenPinReadsBack(b: BufMgr, d: Disk, pid: PageID)
    requires pid != INVALID_PAGE && Resident(b.frames, pid) && UniqueResidency(b.frames)
    requires var f := b.frames[FindFrame(b.frames, pid)]; f.dirty && NotPinned(f)
    requires Answer(d, WriteCall(pid)) == OK && Answer(d, ReadCall(pid)) == OK
    ensures var f := b.frames[FindFrame(b.frames, pid)];
      var fl := FlushPage(b, d, pid, DEFAULT_IGNORE_PINNED);
      var p := PinPage(fl.mgr, fl.disk, pid, DEFAULT_IS_EMPTY);
      && fl.status == OK && p.status == OK
      && p.mgr.frames[p.page] == Frame(pid, f.data, 1, false, false)
  {
    var h := FindFrame(b.frames, pid);
    var fl := FlushPage(b, d, pid, DEFAULT_IGNORE_PINNED);
    assert !Resident(fl.mgr.frames, pid);
    assert NotPinned(fl.mgr.frames[h]);
    assert !AllPinned(fl.mgr.frames);
  }

  /** A miss pins the new page in one frame only, so a later FindFrame finds
      the same frame PinPage handed out. */
  lemma PinnedPageIsFound(b: BufMgr, d: Disk, pid: PageID, isEmpty: bool)
    requires UniqueResidency(b.frames) && pid != INVALID_PAGE
    ensures var p := PinPage(b, d, pid, isEmpty);
      p.status == OK ==> FindFrame(p.mgr.frames, pid) == p.page
  {
  }

  /** Unpinning an unpinned page is reported as a success and drives the pin
      count negative; the frame can then no longer be chosen as a victim. */
  lemma DoubleUnpinSucceeds(b: BufMgr, pid: PageID)
    requires Resident(b.frames, pid) && NotPinned(b.frames[FindFrame(b.frames, pid)])
    ensures var h := FindFrame(b.frames, pid);
      var u := UnpinPage(b, pid, DEFAULT_DIRTY);
      && u.status == OK
      && u.mgr.frames[h].pinCount == -1
      && PickVictim(u.mgr.frames) != h
  {
  }

  /** FindFrame does not treat INVALID_PAGE specially: in a pool with a frame
      that holds no page, UnpinPage(INVALID_PAGE, true) succeeds on the first
      such frame, dirtying it and lowering its count; in a pool whose empty
      frames were clean that count becomes -1 and the pool is no longer clean. */
  lemma UnpinOfInvalidPageCorruptsEmptyFrame(b: BufMgr, e: int)
    requires 0 <= e < |b.frames| && !IsValid(b.frames[e])
    ensures var h := FindFrame(b.frames, INVALID_PAGE);
      var u := UnpinPage(b, INVALID_PAGE, true);
      && u.status == OK
      && 0 <= h <= e
      && (forall i :: 0 <= i < h ==> IsValid(b.frames[i]))
      && u.mgr.frames[h].pid == INVALID_PAGE && u.mgr.frames[h].dirty
      && u.mgr.frames[h].pinCount == b.frames[h].pinCount - 1
      && (EmptyFramesClean(b.frames) ==>
            u.mgr.frames[h].pinCount == -1 && !EmptyFramesClean(u.mgr.frames))
  {
  }

  /** Pinning INVALID_PAGE in a pool with an empty frame is a hit on that frame. */
  lemma PinOfInvalidPageHitsEmptyFrame(b: BufMgr, d: Disk, i: int)
    requires 0 <= i < |b.frames| && !IsValid(b.frames[i])
    ensures var p := PinPage(b, d, INVALID_PAGE, DEFAULT_IS_EMPTY);
      && p.status == OK && p.mgr.totalMiss == b.totalMiss && p.disk == d
      && !IsValid(p.mgr.frames[p.page]) && p.mgr.frames[p.page].pinCount == b.frames[p.page].pinCount + 1
  {
  }

  /** NewPage reports the deallocation's status when the pin fails: with
      every frame pinned it returns OK and yet hands out no frame. */
  lemma NewPageOkAfterFailedPin(b: BufMgr, d: Disk, howMany: int)
    requires howMany >= 1 && AllPinned(b.frames) && !Resident(b.frames, d.next)
    requires Answer(d, AllocateCall(howMany)) == OK && Answer(d, DeallocateCall(d.next, howMany)) == OK
    ensures var r := NewPage(b, d, howMany);
      && r.status == OK && r.page == INVALID_FRAME
      && r.disk.inUse == d.inUse - Run(d.next, howMany)
  {
  }

  /** A failed write-back does not stop an eviction. The write is counted
      as done, the victim's page is then cached in no frame, and the store
      still holds its old bytes, so its changes are reachable under its page
      id from neither. A read then overwrites the buffer with the new page;
      with `isEmpty` the changed bytes stay in the buffer, now clean and
      labelled with the new page id. */
  lemma FailedWriteBackLosesVictim(b: BufMgr, d: Disk, pid: PageID, isEmpty: bool)
    requires UniqueResidency(b.frames) && !Resident(b.frames, pid) && !AllPinned(b.frames)
    requires var f := b.frames[PickVictim(b.frames)];
      IsValid(f) && f.dirty && Answer(d, WriteCall(f.pid)) == FAIL
    ensures var v := PickVictim(b.frames);
      var f := b.frames[v];
      var p := PinPage(b, d, pid, isEmpty);
      && (p.status == OK <==> isEmpty || Answer(d, ReadCall(pid)) == OK)
      && p.mgr.numDirtyPageWrites == b.numDirtyPageWrites + 1
      && p.disk.log == d.log + [WriteCall(f.pid)] + (if isEmpty then [] else [ReadCall(pid)])
      && Contents(p.disk, f.pid) == Contents(d, f.pid)
      && !Resident(p.mgr.frames, f.pid)
      && (!isEmpty && p.status == OK ==> p.mgr.frames[v] == Frame(pid, Contents(d, pid), 1, false, false))
      && (isEmpty ==> p.mgr.frames[v] == Frame(pid, f.data, 1, false, false))
  {
    var v := PickVictim(b.frames);
    var f := b.frames[v];
    var p := PinPage(b, d, pid, isEmpty);
    forall i | 0 <= i < |p.mgr.frames|
      ensures p.mgr.frames[i].pid != f.pid
    {
      if i != v {
        assert p.mgr.frames[i] == b.frames[i];
      }
    }
  }

  /** GetStat reports one more request for every PinPage and one more miss
      for every PinPage of a page that was not resident. */
  lemma StatisticsCountPinRequests(b: BufMgr, d: Disk, pid: PageID, isEmpty: bool)
    ensures var s := GetStat(PinPage(b, d, pid, isEmpty).mgr);
      && s.status == OK
      && s.pinNo == GetStat(b).pinNo + 1
      && s.missNo == GetStat(b).missNo + (if Resident(b.frames, pid) then 0 else 1)
  {
  }

  /** ResetStat zeroes what GetStat reports and touches no frame. */
  lemma ResetStatClearsCounters(b: BufMgr)
    ensures GetStat(ResetStat(b)) == Stat(0, 0, OK)
    ensures ResetStat(b).frames == b.frames && ResetStat(b).numDirtyPageWrites == 0
    ensures GetStat(b).status == OK
  {
  }

  /** By default PinPage reads a missing page from the store: the last call
      of a miss with a victim is the read of that page. */
  lemma PinPageDefaultReads(b: BufMgr, d: Disk, pid: PageID)
    requires !Resident(b.frames, pid) && !AllPinned(b.frames)
    ensures var p := PinPage(b, d, pid, DEFAULT_IS_EMPTY);
      |p.disk.log| > |d.log| && p.disk.log[|p.disk.log| - 1] == ReadCall(pid)
  {
  }

  /** By default UnpinPage leaves the dirty flag as it was. */
  lemma UnpinPageDefaultKeepsDirty(b: BufMgr, pid: PageID)
    requires Resident(b.frames, pid)
    ensures var h := FindFrame(b.frames, pid);
      UnpinPage(b, pid, DEFAULT_DIRTY).mgr.frames[h].dirty == b.frames[h].dirty
  {
  }

  /** By default NewPage asks the store for a run of one page. */
  lemma NewPageDefaultAllocatesOne(b: BufMgr, d: Disk)
    ensures var r := NewPage(b, d, DEFAULT_HOW_MANY);
      |r.disk.log| > |d.log| && r.disk.log[|d.log|] == AllocateCall(1)
  {
  }

  /** By default FlushPage refuses a pinned page and changes nothing. */
  lemma FlushPageDefaultRefusesPinned(b: BufMgr, d: Disk, pid: PageID)
    requires pid != INVALID_PAGE && Resident(b.frames, pid)
    requires !NotPinned(b.frames[FindFrame(b.frames, pid)])
    ensures FlushPage(b, d, pid, DEFAULT_IGNORE_PINNED) == Result(b, d, FAIL)
  {
  }
}
