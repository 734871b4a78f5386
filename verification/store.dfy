/** The page store (the database file) as the buffer manager sees it: an
    external collaborator whose answers the buffer manager does not control.

    The set `faults` holds the calls the store answers with FAIL; it is chosen
    by the environment. Because it is keyed on the call, two identical calls
    within one operation get the same answer; the only operation that can
    repeat a call is FlushAllPages, on a pool that caches a page in two
    frames, which UniqueResidency rules out (Create establishes it and every
    operation preserves it).
    Apart from that, every combination of store outcomes is covered by some
    Disk value. The sequence `log` records every call made to the store,
    in order, so a contract can say exactly which calls an operation made. */
module Store {
  import opened Types

  datatype Call =
    | ReadCall(pid: PageID)
    | WriteCall(pid: PageID)
    | AllocateCall(runSize: int)
    | DeallocateCall(pid: PageID, runSize: int)

  datatype Disk = Disk(
    inUse: set<PageID>,
    contents: map<PageID, Page>,
    next: PageID,             // first identifier of the run the store hands out next
    faults: set<Call>,
    log: seq<Call>)

  datatype Reply = Reply(disk: Disk, status: Status)
  datatype ReadReply = ReadReply(disk: Disk, status: Status, page: Page)
  datatype AllocReply = AllocReply(disk: Disk, status: Status, first: PageID)

  /** The store's answer to call `c`. */
  function Answer(d: Disk, c: Call): Status {
    if c in d.faults then FAIL else OK
  }

  /** What a read of `pid` delivers: the last bytes written, or a blank page. */
  function Contents(d: Disk, pid: PageID): Page {
    if pid in d.contents then d.contents[pid] else BLANK_PAGE
  }

  /** The run of `runSize` consecutive identifiers starting at `first`. */
  function Run(first: PageID, runSize: int): set<PageID>
    decreases runSize
  {
    if runSize <= 0 then {} else {first} + Run(first + 1, runSize - 1)
  }

  function Record(d: Disk, c: Call): Disk {
    d.(log := d.log + [c])
  }

  function ReadPage(d: Disk, pid: PageID): ReadReply {
    var c := ReadCall(pid);
    var page := if Answer(d, c) == OK then Contents(d, pid) else BLANK_PAGE;
    ReadReply(Record(d, c), Answer(d, c), page)
  }

  function WritePage(d: Disk, pid: PageID, data: Page): Reply {
    var c := WriteCall(pid);
    var d' := Record(d, c);
    if Answer(d, c) == OK then Reply(d'.(contents := d.contents[pid := data]), OK)
    else Reply(d', FAIL)
  }

  /** On failure the store hands out no identifier: the result is INVALID_PAGE. */
  function AllocatePage(d: Disk, runSize: int): AllocReply {
    var c := AllocateCall(runSize);
    var d' := Record(d, c);
    if Answer(d, c) == OK then
      AllocReply(d'.(inUse := d.inUse + Run(d.next, runSize), next := d.next + runSize), OK, d.next)
    else AllocReply(d', FAIL, INVALID_PAGE)
  }

  function DeallocatePage(d: Disk, pid: PageID, runSize: int): Reply {
    var c := DeallocateCall(pid, runSize);
    var d' := Record(d, c);
    if Answer(d, c) == OK then
      Reply(d'.(inUse := d.inUse - Run(pid, runSize), contents := d.contents - Run(pid, runSize)), OK)
    else Reply(d', FAIL)
  }
}
