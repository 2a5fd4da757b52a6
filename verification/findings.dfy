/**
 * Two defects of the source, each shown on a deque its own public operations
 * can build, next to the corrected behaviour the rest of the model uses.
 */
module Findings {
  import opened Wrappers
  import opened DequeModel
  import opened Growth
  import opened Ends
  import opened Lifecycle

  /**
   * A list-constructed deque of any six elements ends exactly on a chunk
   * boundary, so lastChunk == cap == 1. Draining it with pop_front leaves
   * firstChunk == lastChunk == cap, and grow("back") then reads (and nulls)
   * theDeque[1] in a directory of length 1 (deque.h:247, 253-254).
   */
  lemma GrowReadsPastEndAfterDrain<T>(init: seq<T>)
    requires |init| == 6
    ensures var d := PopFront(PopFront(PopFront(PopFront(PopFront(PopFront(FromList(init)))))));
      && Valid(d)
      && Empty(d)
      && d.firstChunk == d.lastChunk == d.cap == 1
      && GrowAsWritten(d, Back) == Failure(ReadPastEnd(1, 1))
  {
    var d0 := FromList(init);
    assert d0.lastChunk == 1 && d0.endCursor == 0 && d0.cap == 1;
    var d1 := PopFront(d0);
    assert |Elems(d1)| == 5;
    var d2 := PopFront(d1);
    assert |Elems(d2)| == 4;
    var d3 := PopFront(d2);
    assert |Elems(d3)| == 3;
    var d4 := PopFront(d3);
    assert |Elems(d4)| == 2;
    var d5 := PopFront(d4);
    assert |Elems(d5)| == 1;
    var d := PopFront(d5);
    assert Elems(d) == [];
    assert d.lastChunk == 1 && d.endCursor == 0 && d.cap == 1;
    GrowAsWrittenFaultsExactly(d, Back);
  }

  /** The corrected grow makes room on that same drained deque, and a push_back then succeeds. */
  lemma DrainedDequeStillGrows(d: Deque<int>)
    requires Valid(d) && Empty(d) && d.lastChunk == d.cap
    ensures HasRoom(Grow(d, Back), Back)
    ensures Elems(PushBack(d, 7)) == [7]
    ensures GrowAsWritten(d, Back).Failure?
  {
    GrowAsWrittenFaultsExactly(d, Back);
  }

  /**
   * Whenever pop_back empties the last block (end cursor 1 before the call),
   * the source frees that block but keeps its handle, and the destructor's
   * clearDeque then calls clearChunk(lastChunk, 0, 0), freeing it a second
   * time (deque.h:298, 184, 189-191).
   */
  lemma PopBackThenDestroyDoubleFrees<T>(d: Deque<T>)
    requires Valid(d) && !Empty(d) && d.endCursor == 1
    ensures Shape(PopBackAsWritten(d))
    ensures ClearDeque(PopBackAsWritten(d)) == Failure(DoubleFree(d.lastChunk))
  {
    LastElementBlock(d);
    var r := PopBackAsWritten(d);
    assert r.lastChunk == d.lastChunk && r.endCursor == 0 && r.dir[d.lastChunk] == Freed;
    assert Shape(r);
    forall k | 0 <= k < d.lastChunk
      ensures ClearStep(r, k).Success?
    {
      assert r.dir[k] == d.dir[k];
      ClearStepSucceeds(d, k);
      if d.firstChunk <= k {
        assert LiveBounds(r, k) == LiveBounds(d, k);
      }
    }
    assert ClearStep(r, d.lastChunk) == Failure(DoubleFree(d.lastChunk));
    ClearFromStopsAtFirstFault(r, 0, d.lastChunk);
  }

  /** Any seven-element list-constructed deque reaches that state with a single pop_back. */
  lemma DoubleFreeIsReachable<T>(init: seq<T>)
    requires |init| == 7
    ensures ClearDeque(PopBackAsWritten(FromList(init))) == Failure(DoubleFree(1))
  {
    var d := FromList(init);
    assert d.lastChunk == 1 && d.endCursor == 1;
    assert !Empty(d);
    PopBackThenDestroyDoubleFrees(d);
  }

  /** With the released handle cleared, destruction after any pop_back is clean. */
  lemma PopBackThenDestroyIsClean<T>(d: Deque<T>)
    requires Valid(d)
    ensures ClearDeque(PopBack(d)).Success?
  {
  }
}
