/**
 * In-chunk cursor arithmetic of the chunked deque (deque.h:102-109).
 * A chunk holds ten elements; the cursor is the "ones digit" of a position
 * and steps in base ten, wrapping 9 -> 0 forwards and 0 -> 9 backwards.
 * The caller, not the cursor, reacts to a wrap.
 */
module Cursor {

  /** Slot at which the cursors of a fresh deque start (middleOfChunk), leaving room at both ends. */
  const MiddleOfChunk: nat := 4

  /** increment: one step forward; the result is 0 exactly when the step crossed a chunk boundary. */
  function Increment(c: nat): (r: nat)
    ensures c < 10 ==> r < 10 && r == (c + 1) % 10
    ensures c < 10 ==> (r == 0 <==> c == 9)
  {
    if c == 9 then 0 else c + 1
  }

  /** decrement: one step backward; the result is 9 exactly when the step crossed a chunk boundary. */
  function Decrement(c: nat): (r: nat)
    ensures c < 10 ==> r < 10 && r == (c + 9) % 10
    ensures c < 10 ==> (r == 9 <==> c == 0)
  {
    if c == 0 then 9 else c - 1
  }

  /** The two steps undo each other on every in-chunk cursor. */
  lemma StepsAreInverse(c: nat)
    requires c < 10
    ensures Decrement(Increment(c)) == c
    ensures Increment(Decrement(c)) == c
  {
  }
}
