/** One slot of the buffer pool (class Frame). A frame owns one page buffer
    for its whole life; binding it to another page reuses that buffer. */
module Frames {
  import opened Types
  import opened Store

  datatype Frame = Frame(
    pid: PageID,          // INVALID_PAGE when the frame holds no page
    data: Page,           // the frame's own buffer
    pinCount: int,        // a C++ int: nothing keeps it from going negative
    dirty: bool,
    referenced: bool)     // set by Unpin, cleared by EmptyIt, read by nobody

  /** The result of a frame operation that talks to the store. */
  datatype FrameReply = FrameReply(frame: Frame, disk: Disk, status: Status)

  predicate IsValid(f: Frame) {
    f.pid != INVALID_PAGE
  }

  predicate NotPinned(f: Frame) {
    f.pinCount == 0
  }

  predicate HasPageID(f: Frame, pid: PageID) {
    f.pid == pid
  }

  /** The state EmptyIt leaves a frame in. */
  predicate IsEmpty(f: Frame) {
    !IsValid(f) && !f.dirty && !f.referenced && NotPinned(f)
  }

  /** A freshly constructed frame: a blank buffer, emptied. */
  function NewFrame(): (f: Frame)
    ensures IsEmpty(f) && f.data == BLANK_PAGE
  {
    EmptyIt(Frame(INVALID_PAGE, BLANK_PAGE, 0, false, false))
  }

  function Pin(f: Frame): (r: Frame)
    ensures r.pinCount == f.pinCount + 1
    ensures r.pid == f.pid && r.data == f.data && r.dirty == f.dirty && r.referenced == f.referenced
  {
    f.(pinCount := f.pinCount + 1)
  }

  /** No lower-bound check: unpinning an unpinned frame makes its count negative. */
  function Unpin(f: Frame): (r: Frame)
    ensures r.pinCount == f.pinCount - 1
    ensures r.referenced <==> f.referenced || r.pinCount == 0
    ensures r.pid == f.pid && r.data == f.data && r.dirty == f.dirty
  {
    var count := f.pinCount - 1;
    f.(pinCount := count, referenced := if count == 0 then true else f.referenced)
  }

  /** Unbinds the frame; the buffer is kept and nothing is written back. */
  function EmptyIt(f: Frame): (r: Frame)
    ensures IsEmpty(r)
    ensures r.data == f.data
  {
    f.(pid := INVALID_PAGE, dirty := false, referenced := false, pinCount := 0)
  }

  function DirtyIt(f: Frame): (r: Frame)
    ensures r.dirty
    ensures r.pid == f.pid && r.data == f.data && r.pinCount == f.pinCount && r.referenced == f.referenced
  {
    f.(dirty := true)
  }

  function SetPageID(f: Frame, pid: PageID): (r: Frame)
    ensures HasPageID(r, pid)
    ensures r.data == f.data && r.pinCount == f.pinCount && r.dirty == f.dirty && r.referenced == f.referenced
  {
    f.(pid := pid)
  }

  /** Writes the buffer to the store under the frame's page id. The frame itself
      is left as it is: in particular `dirty` is not cleared. */
  function Write(f: Frame, d: Disk): (r: Reply)
    ensures r.disk.log == d.log + [WriteCall(f.pid)]
    ensures r.status == Answer(d, WriteCall(f.pid))
    ensures r.status == OK ==> Contents(r.disk, f.pid) == f.data
    ensures forall q :: q != f.pid ==> Contents(r.disk, q) == Contents(d, q)
    ensures r.status == FAIL ==> r.disk.contents == d.contents
    ensures r.disk.inUse == d.inUse && r.disk.faults == d.faults && r.disk.next == d.next
  {
    WritePage(d, f.pid, f.data)
  }

  /** Reads page `pid` into the buffer; the frame is bound to `pid` only when
      the store reports success. */
  function Read(f: Frame, d: Disk, pid: PageID): (r: FrameReply)
    ensures r.disk.log == d.log + [ReadCall(pid)]
    ensures r.status == Answer(d, ReadCall(pid))
    ensures r.status == OK ==> HasPageID(r.frame, pid) && r.frame.data == Contents(d, pid)
    ensures r.status == FAIL ==> r.frame == f
    ensures r.frame.pinCount == f.pinCount && r.frame.dirty == f.dirty && r.frame.referenced == f.referenced
    ensures r.disk.contents == d.contents && r.disk.inUse == d.inUse
    ensures r.disk.faults == d.faults && r.disk.next == d.next
  {
    var rd := ReadPage(d, pid);
    if rd.status == OK then FrameReply(f.(pid := pid, data := rd.page), rd.disk, OK)
    else FrameReply(f, rd.disk, rd.status)
  }

  /** Releases the frame's page: refused when someone besides the caller holds
      a pin; otherwise the frame is emptied first and then the page is
      deallocated, and the frame stays empty whatever the store answers. */
  function Free(f: Frame, d: Disk): (r: FrameReply)
    ensures f.pinCount > 1 ==> r.status == FAIL && r.frame == f && r.disk == d
    ensures f.pinCount <= 1 ==>
      && IsEmpty(r.frame) && r.frame.data == f.data
      && r.disk.log == d.log + [DeallocateCall(f.pid, 1)]
      && r.status == Answer(d, DeallocateCall(f.pid, 1))
      && (r.status == OK ==> r.disk.inUse == d.inUse - {f.pid} && Contents(r.disk, f.pid) == BLANK_PAGE)
      && (r.status == FAIL ==> r.disk.inUse == d.inUse && r.disk.contents == d.contents)
      && (forall q :: q != f.pid ==> Contents(r.disk, q) == Contents(d, q))
      && r.disk.next == d.next && r.disk.faults == d.faults
  {
    if f.pinCount > 1 then FrameReply(f, d, FAIL)
    else
      var pid := f.pid;
      var emptied := EmptyIt(f);
      var rep := DeallocatePage(d, pid, 1);
      FrameReply(emptied, rep.disk, rep.status)
  }

  lemma UnpinUndoesPin(f: Frame)
    ensures Unpin(Pin(f)) == f.(referenced := f.referenced || f.pinCount == 0)
  {
  }

  lemma PinUndoesUnpin(f: Frame)
    ensures Pin(Unpin(f)) == f.(referenced := f.referenced || f.pinCount == 1)
  {
  }

  lemma UnpinHasNoLowerBound(f: Frame)
    requires NotPinned(f)
    ensures Unpin(f).pinCount == -1 && !NotPinned(Unpin(f))
    ensures !Unpin(f).referenced <==> !f.referenced
  {
  }

  lemma EmptyItIdempotent(f: Frame)
    ensures EmptyIt(EmptyIt(f)) == EmptyIt(f)
  {
  }

  lemma DirtyItIdempotent(f: Frame)
    ensures DirtyIt(DirtyIt(f)) == DirtyIt(f)
  {
  }

  /** How the frame predicates read the states the transitions produce. */
  lemma PredicatesAfterTransitions(f: Frame, pid: PageID)
    ensures !IsValid(EmptyIt(f)) && NotPinned(EmptyIt(f))
    ensures IsValid(SetPageID(f, pid)) <==> pid != INVALID_PAGE
    ensures HasPageID(SetPageID(f, pid), pid)
    ensures NotPinned(Pin(f)) <==> f.pinCount == -1
    ensures NotPinned(Unpin(f)) <==> f.pinCount == 1
  {
  }
}
