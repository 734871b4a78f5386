/** The replacement policy (class LRU). Despite its name it picks the
    lowest-indexed unpinned frame: it looks at pin counts only, never at
    recency, the `referenced` flag or its own `current` field. */
module LRU {
  import opened Types
  import opened Frames

  function PickVictim(frames: seq<Frame>): (v: int)
    ensures v == INVALID_FRAME <==> forall i :: 0 <= i < |frames| ==> !NotPinned(frames[i])
    ensures v != INVALID_FRAME ==>
      && 0 <= v < |frames|
      && NotPinned(frames[v])
      && forall i :: 0 <= i < v ==> !NotPinned(frames[i])
  {
    PickFrom(frames, 0)
  }

  /** The scan of PickVictim from index `start` on. */
  function PickFrom(frames: seq<Frame>, start: nat): (v: int)
    requires start <= |frames|
    ensures v == INVALID_FRAME <==> forall i :: start <= i < |frames| ==> !NotPinned(frames[i])
    ensures v != INVALID_FRAME ==>
      && start <= v < |frames|
      && NotPinned(frames[v])
      && forall i :: start <= i < v ==> !NotPinned(frames[i])
    decreases |frames| - start
  {
    if start == |frames| then INVALID_FRAME
    else if NotPinned(frames[start]) then start
    else PickFrom(frames, start + 1)
  }

  /** A frame whose count went negative through a double unpin is never chosen. */
  lemma NegativeCountNeverVictim(frames: seq<Frame>, i: int)
    requires 0 <= i < |frames| && frames[i].pinCount < 0
    ensures PickVictim(frames) != i
  {
  }

  /** The victim depends on the pin counts alone: pages, buffers, dirty and
      referenced flags play no part. */
  lemma VictimDependsOnlyOnPinCounts(frames: seq<Frame>, others: seq<Frame>)
    requires |frames| == |others|
    requires forall i :: 0 <= i < |frames| ==> frames[i].pinCount == others[i].pinCount
    ensures PickVictim(frames) == PickVictim(others)
  {
  }
}
