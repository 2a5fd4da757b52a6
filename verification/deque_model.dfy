/**
 * State of the chunked deque (deque.h:20-26) and the invariant its public
 * operations keep once pop_back nulls the handle it releases.
 *
 * The directory `dir` stands for the array of chunk handles `theDeque`; its
 * length is `cap`. A chunk index is the "tens digit" of a linear position and
 * the in-chunk cursor its "ones digit", so position p lives in chunk p / 10 at
 * offset p % 10. The live range is [Begin, End): from firstChunk/startCursor up
 * to (excluding) lastChunk/endCursor.
 */
module DequeModel {
  import opened Wrappers

  /**
   * One directory entry. Null is a null handle; Live is a handle to an
   * allocated ten-cell block, whose cell is Some exactly when an element has
   * been constructed in it; Freed is a handle whose block was released but
   * which still points at it.
   */
  datatype Slot<T> = Null | Live(cells: seq<Option<T>>) | Freed

  /** The five counters and the directory of deque.h:25-26. */
  datatype Deque<T> = Deque(
    firstChunk: nat,
    startCursor: nat,
    lastChunk: nat,
    endCursor: nat,
    cap: nat,
    dir: seq<Slot<T>>)

  /** Memory faults the source can commit; the model reports them instead of undefined behaviour. */
  datatype Fault =
    | ReadPastEnd(index: nat, length: nat)
    | DoubleFree(chunk: nat)
    | UseAfterFree(chunk: nat)
    | NullDeref(chunk: nat)
    | DestroyUnconstructed(chunk: nat)

  /** A freshly allocated raw block: ten cells, none constructed. */
  function Blank<T>(): (b: seq<Option<T>>)
    ensures |b| == 10
    ensures forall k | 0 <= k < 10 :: b[k].None?
  {
    seq(10, _ => None)
  }

  /** Linear position of the first element. */
  function Begin<T>(d: Deque<T>): nat
  {
    d.firstChunk * 10 + d.startCursor
  }

  /** Linear position one past the last element. */
  function End<T>(d: Deque<T>): nat
  {
    d.lastChunk * 10 + d.endCursor
  }

  /** Position p is backed by a constructed element of the directory. */
  predicate Holds<T>(dir: seq<Slot<T>>, p: nat)
  {
    && p / 10 < |dir|
    && dir[p / 10].Live?
    && p % 10 < |dir[p / 10].cells|
    && dir[p / 10].cells[p % 10].Some?
  }

  /** The element constructed at position p. */
  function Cell<T>(dir: seq<Slot<T>>, p: nat): T
    requires Holds(dir, p)
  {
    dir[p / 10].cells[p % 10].value
  }

  /** Cell k of chunk i lies inside the live range. */
  predicate InLiveRange<T>(d: Deque<T>, i: nat, k: nat)
  {
    Begin(d) <= i * 10 + k < End(d)
  }

  /** An allocated block has ten cells, and exactly the cells inside the live range hold elements. */
  ghost predicate SlotMatches<T>(d: Deque<T>, i: nat)
    requires i < |d.dir|
  {
    d.dir[i].Live? ==>
      && |d.dir[i].cells| == 10
      && forall k | 0 <= k < 10 :: d.dir[i].cells[k].Some? <==> Begin(d) <= i * 10 + k < End(d)
  }

  /** Counter relations: cursors are digits, the range is ordered, and the end may sit at cap only on a chunk boundary. */
  ghost predicate Shape<T>(d: Deque<T>)
  {
    && |d.dir| == d.cap
    && d.cap >= 1
    && d.startCursor < 10
    && d.endCursor < 10
    && d.firstChunk <= d.lastChunk <= d.cap
    && (d.lastChunk == d.cap ==> d.endCursor == 0)
    && Begin(d) <= End(d)
  }

  /**
   * The invariant the code keeps once pop_back nulls the handle it releases
   * (the pop_back as written breaks the last conjunct). Beyond Shape: blocks agree
   * with the live range; every live position is backed; a non-zero cursor
   * sits in an allocated block (the block push_front and push_back write into
   * without allocating); and no handle from firstChunk on dangles.
   */
  ghost predicate Valid<T>(d: Deque<T>)
  {
    && Shape(d)
    && (forall i | 0 <= i < d.cap :: SlotMatches(d, i))
    && (forall p: nat | Begin(d) <= p < End(d) :: Holds(d.dir, p))
    && (d.startCursor != 0 ==> d.firstChunk < d.cap && d.dir[d.firstChunk].Live?)
    && (d.endCursor != 0 ==> d.lastChunk < d.cap && d.dir[d.lastChunk].Live?)
    && (forall i | d.firstChunk <= i < d.cap :: !d.dir[i].Freed?)
  }

  /** size(): distance from the begin position to the end position (deque.h:234-238). */
  function Size<T>(d: Deque<T>): nat
    requires Valid(d)
  {
    End(d) - Begin(d)
  }

  /** The abstraction: the elements in logical order. */
  ghost function Elems<T>(d: Deque<T>): (s: seq<T>)
    requires Valid(d)
    ensures |s| == Size(d)
  {
    seq(Size(d), i requires 0 <= i < Size(d) => Cell(d.dir, Begin(d) + i))
  }

  /** empty(): no element (deque.h:233); equivalently the begin and end positions coincide. */
  function Empty<T>(d: Deque<T>): (r: bool)
    requires Valid(d)
    ensures r <==> (d.firstChunk == d.lastChunk && d.startCursor == d.endCursor)
    ensures r <==> Elems(d) == []
  {
    Size(d) == 0
  }

  /** Positions holding a constructed element, anywhere in the directory. */
  ghost function Constructed<T>(d: Deque<T>): set<nat>
  {
    set p: nat | p < |d.dir| * 10 && Holds(d.dir, p)
  }

  /** a <= p < b, named so that the set comprehension in Range has a term to trigger on. */
  predicate Between(a: nat, b: nat, p: nat)
  {
    a <= p < b
  }

  /** The integers in [a, b). */
  ghost function Range(a: nat, b: nat): set<nat>
  {
    set p: nat | p < b && Between(a, b, p)
  }

  lemma {:induction false} RangeSize(a: nat, b: nat)
    requires a <= b
    ensures |Range(a, b)| == b - a
    decreases b - a
  {
    if a < b {
      RangeSize(a, b - 1);
      assert Range(a, b) == Range(a, b - 1) + {b - 1};
    } else {
      assert Range(a, b) == {};
    }
  }

  /** size() counts exactly the constructed elements of the directory. */
  lemma SizeCountsConstructed<T>(d: Deque<T>)
    requires Valid(d)
    ensures |Constructed(d)| == Size(d)
  {
    forall p: nat | p in Constructed(d)
      ensures Begin(d) <= p < End(d)
    {
      var i, k := p / 10, p % 10;
      assert SlotMatches(d, i);
      assert p == i * 10 + k;
    }
    forall p: nat | Begin(d) <= p < End(d)
      ensures p in Constructed(d)
    {
      assert Holds(d.dir, p);
    }
    assert Constructed(d) == Range(Begin(d), End(d));
    RangeSize(Begin(d), End(d));
  }

  /**
   * size() is the length of the run of constructed cells that starts at the
   * begin position: every cell before begin + size() holds an element, the
   * cell at begin + size() does not.
   */
  lemma SizeIsConstructedRun<T>(d: Deque<T>)
    requires Valid(d)
    ensures forall p: nat | Begin(d) <= p < Begin(d) + Size(d) :: Holds(d.dir, p)
    ensures !Holds(d.dir, Begin(d) + Size(d))
  {
    SplitPosition(d.lastChunk, d.endCursor);
    if d.lastChunk < d.cap {
      assert SlotMatches(d, d.lastChunk);
    }
  }

  /** The element at a live position is the corresponding element of the abstraction. */
  lemma ElemAt<T>(d: Deque<T>, p: nat)
    requires Valid(d) && Begin(d) <= p < End(d)
    ensures Holds(d.dir, p)
    ensures Elems(d)[p - Begin(d)] == Cell(d.dir, p)
  {
  }

  /** Every allocated block in the directory has ten cells. */
  lemma BlockSize<T>(d: Deque<T>, i: nat)
    requires Valid(d) && i < d.cap && d.dir[i].Live?
    ensures |d.dir[i].cells| == 10
  {
    assert SlotMatches(d, i);
  }

  /** The first element sits in an allocated block at firstChunk, cell startCursor. */
  lemma FirstElementBlock<T>(d: Deque<T>)
    requires Valid(d) && !Empty(d)
    ensures d.firstChunk < d.cap && d.dir[d.firstChunk].Live? && |d.dir[d.firstChunk].cells| == 10
    ensures d.dir[d.firstChunk].cells[d.startCursor].Some?
  {
    assert Holds(d.dir, Begin(d));
    SplitPosition(d.firstChunk, d.startCursor);
    BlockSize(d, d.firstChunk);
  }

  /** The last element sits in an allocated block just before the end position. */
  lemma LastElementBlock<T>(d: Deque<T>)
    requires Valid(d) && !Empty(d)
    ensures d.endCursor == 0 ==> d.lastChunk >= 1
    ensures var last := if d.endCursor == 0 then d.lastChunk - 1 else d.lastChunk;
      && last < d.cap && d.dir[last].Live? && |d.dir[last].cells| == 10
      && last * 10 + (if d.endCursor == 0 then 9 else d.endCursor - 1) == End(d) - 1
  {
    var q := End(d) - 1;
    assert Holds(d.dir, q);
    BlockSize(d, q / 10);
  }

  /** Moving a position by whole chunks moves its chunk index and keeps its offset. */
  lemma ShiftPosition(p: int, m: int)
    requires p >= 0 && p + 10 * m >= 0
    ensures (p + 10 * m) / 10 == p / 10 + m
    ensures (p + 10 * m) % 10 == p % 10
  {
  }

  /** The chunk and offset of chunk * 10 + offset. */
  lemma SplitPosition(chunk: nat, offset: nat)
    requires offset < 10
    ensures (chunk * 10 + offset) / 10 == chunk
    ensures (chunk * 10 + offset) % 10 == offset
  {
  }
}
