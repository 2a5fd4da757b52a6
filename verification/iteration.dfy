/**
 * Forward iterators (deque.h:304-337): a (chunk handle, cursor) pair that
 * steps like a base-ten counter. begin() sits at the first element, end() at
 * the one-past-last position.
 */
module Iteration {
  import opened DequeModel
  import opened Access

  /** deque::iterator: `chunk` is the offset of the handle pointer p from theDeque. */
  datatype Iterator = Iterator(chunk: nat, cursor: nat)

  /** Linear position the iterator denotes. */
  function Position(it: Iterator): nat
  {
    it.chunk * 10 + it.cursor
  }

  /** begin() (deque.h:332-334). */
  function BeginIter<T>(d: Deque<T>): (it: Iterator)
    ensures Position(it) == Begin(d)
  {
    Iterator(d.firstChunk, d.startCursor)
  }

  /** end() (deque.h:335-337). */
  function EndIter<T>(d: Deque<T>): (it: Iterator)
    ensures Position(it) == End(d)
  {
    Iterator(d.lastChunk, d.endCursor)
  }

  /** operator++ (deque.h:309-316): the next linear position, staying a valid in-chunk cursor. */
  function Next(it: Iterator): (r: Iterator)
    ensures it.cursor < 10 ==> r.cursor < 10 && Position(r) == Position(it) + 1
  {
    if it.cursor != 9 then Iterator(it.chunk, it.cursor + 1)
    else Iterator(it.chunk + 1, 0)
  }

  /** operator!= (deque.h:306-308): differs in the handle or in the cursor. */
  function Differs(a: Iterator, b: Iterator): (r: bool)
    ensures a.cursor < 10 && b.cursor < 10 ==> (r <==> Position(a) != Position(b))
  {
    a.chunk != b.chunk || a.cursor != b.cursor
  }

  /** operator* (deque.h:305): the element at the iterator's position, i.e. element Position - Begin of the deque. */
  function Deref<T>(d: Deque<T>, it: Iterator): (x: T)
    requires Valid(d) && it.cursor < 10 && Begin(d) <= Position(it) < End(d)
    ensures x == Elems(d)[Position(it) - Begin(d)]
  {
    ElemAt(d, Position(it));
    SplitPosition(it.chunk, it.cursor);
    d.dir[it.chunk].cells[it.cursor].value
  }

  /**
   * *it = v (the reference operator* returns, deque.h:305): the element under
   * the iterator is replaced, and reading through the same iterator then
   * yields v.
   */
  function Store<T>(d: Deque<T>, it: Iterator, v: T): (r: Deque<T>)
    requires Valid(d) && it.cursor < 10 && Begin(d) <= Position(it) < End(d)
    ensures Valid(r) && Begin(r) == Begin(d) && End(r) == End(d)
    ensures Elems(r) == Elems(d)[Position(it) - Begin(d) := v]
    ensures Deref(r, it) == v
  {
    SetElem(d, Position(it) - Begin(d), v)
  }

  /** ++ applied k times. */
  function Advance(it: Iterator, k: nat): Iterator
    decreases k
  {
    if k == 0 then it else Advance(Next(it), k - 1)
  }

  /** k increments move an iterator exactly k positions. */
  lemma {:induction false} AdvanceMoves(it: Iterator, k: nat)
    requires it.cursor < 10
    ensures Advance(it, k).cursor < 10
    ensures Position(Advance(it, k)) == Position(it) + k
    decreases k
  {
    if k > 0 {
      AdvanceMoves(Next(it), k - 1);
    }
  }

  /**
   * Walking from begin(): after k < size() increments the iterator reads
   * element k and still differs from end(); after size() increments it equals
   * end().
   */
  lemma WalkFromBegin<T>(d: Deque<T>, k: nat)
    requires Valid(d) && k <= Size(d)
    ensures var it := Advance(BeginIter(d), k);
      && it.cursor < 10
      && Position(it) == Begin(d) + k
      && (k < Size(d) ==> Differs(it, EndIter(d)) && Deref(d, it) == Elems(d)[k])
      && (k == Size(d) ==> it == EndIter(d))
  {
    if k < Size(d) {
      WalkReads(d, k);
    } else {
      WalkEnds(d);
    }
  }

  /** Fewer than size() increments from begin() stop on element k, short of end(). */
  lemma WalkReads<T>(d: Deque<T>, k: nat)
    requires Valid(d) && k < Size(d)
    ensures var it := Advance(BeginIter(d), k);
      && it.cursor < 10
      && Position(it) == Begin(d) + k
      && Differs(it, EndIter(d))
      && Deref(d, it) == Elems(d)[k]
  {
    var it := Advance(BeginIter(d), k);
    AdvanceMoves(BeginIter(d), k);
    ReadInside(d, it);
  }

  /** An iterator inside [begin, end) differs from end() and reads the element at its offset from begin. */
  lemma ReadInside<T>(d: Deque<T>, it: Iterator)
    requires Valid(d) && it.cursor < 10 && Begin(d) <= Position(it) < End(d)
    ensures Differs(it, EndIter(d))
    ensures Deref(d, it) == Elems(d)[Position(it) - Begin(d)]
  {
  }

  /** Exactly size() increments from begin() reach end(). */
  lemma WalkEnds<T>(d: Deque<T>)
    requires Valid(d)
    ensures var it := Advance(BeginIter(d), Size(d));
      && it.cursor < 10
      && Position(it) == End(d)
      && it == EndIter(d)
  {
    var it := Advance(BeginIter(d), Size(d));
    AdvanceMoves(BeginIter(d), Size(d));
    SamePositionSameIterator(it, EndIter(d));
  }

  /** Two well-formed iterators denoting the same position are equal. */
  lemma SamePositionSameIterator(a: Iterator, b: Iterator)
    requires a.cursor < 10 && b.cursor < 10 && Position(a) == Position(b)
    ensures a == b
  {
    SplitPosition(a.chunk, a.cursor);
    SplitPosition(b.chunk, b.cursor);
  }

  /** A range-for over begin()..end(): collects exactly the elements, in order. */
  method Traverse<T>(d: Deque<T>) returns (xs: seq<T>)
    requires Valid(d)
    ensures xs == Elems(d)
  {
    xs := [];
    var it := BeginIter(d);
    var stop := EndIter(d);
    while Differs(it, stop)
      invariant |xs| <= Size(d)
      invariant it.cursor < 10 && Position(it) == Begin(d) + |xs|
      invariant xs == Elems(d)[..|xs|]
      decreases Size(d) - |xs|
    {
      xs := xs + [Deref(d, it)];
      it := Next(it);
    }
  }
}
