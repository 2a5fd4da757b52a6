/**
 * Any sequence of push/pop calls on the chunked deque behaves like the same
 * calls on a plain sequence used as a double-ended queue.
 */
module Sequences {
  import opened DequeModel
  import opened Ends

  /** A client call at one end of the deque. */
  datatype Op<T> = PushFrontOp(x: T) | PopFrontOp | PushBackOp(x: T) | PopBackOp

  /** The reference behaviour of one call on a plain sequence; pops on an empty sequence do nothing. */
  function RefApply<T>(s: seq<T>, op: Op<T>): seq<T>
  {
    match op
    case PushFrontOp(x) => [x] + s
    case PopFrontOp => if |s| == 0 then s else s[1..]
    case PushBackOp(x) => s + [x]
    case PopBackOp => if |s| == 0 then s else s[..|s| - 1]
  }

  /** The reference behaviour of a sequence of calls. */
  function RefRun<T>(s: seq<T>, ops: seq<Op<T>>): seq<T>
    decreases |ops|
  {
    if |ops| == 0 then s else RefRun(RefApply(s, ops[0]), ops[1..])
  }

  /** One call on the deque; each call acts on the abstraction as the reference does. */
  function Apply<T>(d: Deque<T>, op: Op<T>): (r: Deque<T>)
    requires Valid(d)
    ensures Valid(r)
    ensures Elems(r) == RefApply(Elems(d), op)
  {
    match op
    case PushFrontOp(x) => PushFront(d, x)
    case PopFrontOp => PopFront(d)
    case PushBackOp(x) => PushBack(d, x)
    case PopBackOp => PopBack(d)
  }

  /** A sequence of calls on the deque. */
  function Run<T>(d: Deque<T>, ops: seq<Op<T>>): (r: Deque<T>)
    requires Valid(d)
    ensures Valid(r)
    decreases |ops|
  {
    if |ops| == 0 then d else Run(Apply(d, ops[0]), ops[1..])
  }

  /** Every sequence of calls leaves the deque holding what the reference holds. */
  lemma {:induction false} RunMatchesReference<T>(d: Deque<T>, ops: seq<Op<T>>)
    requires Valid(d)
    ensures Elems(Run(d, ops)) == RefRun(Elems(d), ops)
    decreases |ops|
  {
    if |ops| > 0 {
      RunMatchesReference(Apply(d, ops[0]), ops[1..]);
    }
  }

  /** Net count of one call: +1 for a push, -1 for a pop that finds an element. */
  function Delta<T>(n: nat, op: Op<T>): int
  {
    match op
    case PushFrontOp(_) => 1
    case PushBackOp(_) => 1
    case _ => if n == 0 then 0 else -1
  }

  /** size() after any call is size() before plus the call's net count, never negative. */
  lemma SizeTracksNetCount<T>(d: Deque<T>, op: Op<T>)
    requires Valid(d)
    ensures Size(Apply(d, op)) == Size(d) + Delta(Size(d), op)
  {
    assert |Elems(Apply(d, op))| == |RefApply(Elems(d), op)|;
  }

  /** Pops on an empty deque leave it empty, however many are applied. */
  lemma {:induction false} PopsOnEmptyStayEmpty<T>(d: Deque<T>, ops: seq<Op<T>>)
    requires Valid(d) && Empty(d)
    requires forall i | 0 <= i < |ops| :: ops[i].PopFrontOp? || ops[i].PopBackOp?
    ensures Run(d, ops) == d
    decreases |ops|
  {
    if |ops| > 0 {
      assert Apply(d, ops[0]) == d;
      PopsOnEmptyStayEmpty(d, ops[1..]);
    }
  }

  /** push_back of each element of xs in turn. */
  function PushBackAll<T>(d: Deque<T>, xs: seq<T>): (r: Deque<T>)
    requires Valid(d)
    ensures Valid(r) && Elems(r) == Elems(d) + xs
    decreases |xs|
  {
    if |xs| == 0 then d
    else
      var r := PushBackAll(PushBack(d, xs[0]), xs[1..]);
      assert Elems(d) + xs == Elems(d) + [xs[0]] + xs[1..];
      r
  }

  /** pop_front n times: drops the first n elements, or empties the deque when it holds fewer. */
  function PopFrontTimes<T>(d: Deque<T>, n: nat): (r: Deque<T>)
    requires Valid(d)
    ensures Valid(r)
    ensures n <= Size(d) ==> Elems(r) == Elems(d)[n..]
    ensures n >= Size(d) ==> Empty(r)
    decreases n
  {
    if n == 0 then d
    else
      var e := PopFront(d);
      var r := PopFrontTimes(e, n - 1);
      assert n <= Size(d) ==> Elems(e)[n - 1..] == Elems(d)[n..];
      r
  }

  /**
   * Fill an empty deque (for one, DefaultDeque()) by push_back, pop_front n
   * times, then push_front y: the deque holds y followed by what is left of
   * the list, in order.
   */
  lemma PushPopScenario<T>(d0: Deque<T>, xs: seq<T>, n: nat, y: T)
    requires Valid(d0) && Empty(d0) && n <= |xs|
    ensures Elems(PushBackAll(d0, xs)) == xs
    ensures Elems(PushFront(PopFrontTimes(PushBackAll(d0, xs), n), y)) == [y] + xs[n..]
  {
    assert Elems(d0) + xs == xs;
  }
}
