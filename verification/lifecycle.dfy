/**
 * Construction, copying, assignment and destruction (deque.h:112-199).
 * Raw allocation is a slot becoming Live(Blank()); placement construction
 * turns a cell into Some; destroying an element turns it back into None;
 * releasing a block turns its slot into Freed.
 */
module Lifecycle {
  import opened Wrappers
  import opened Cursor
  import opened DequeModel

  /** deque() (deque.h:136-140): one allocated, empty chunk with both cursors mid-chunk. */
  function DefaultDeque<T>(): (r: Deque<T>)
    ensures Valid(r)
    ensures Elems(r) == []
    ensures r.startCursor == MiddleOfChunk && r.endCursor == MiddleOfChunk && r.cap == 1
  {
    var r: Deque<T> := Deque(0, MiddleOfChunk, 0, MiddleOfChunk, 1, [Live(Blank())]);
    DefaultIsValid(r);
    r
  }

  lemma DefaultIsValid<T>(r: Deque<T>)
    requires r == Deque(0, MiddleOfChunk, 0, MiddleOfChunk, 1, [Live(Blank())])
    ensures Valid(r) && Elems(r) == []
  {
    assert Begin(r) == End(r) == 4;
    assert Shape(r);
    assert SlotMatches(r, 0);
  }

  /** Directory length chosen by the list constructor for n elements (deque.h:143-144). */
  function ListCap(n: nat): nat
  {
    if (n + MiddleOfChunk) % 10 == 0 then (n + MiddleOfChunk) / 10 else (n + MiddleOfChunk) / 10 + 1
  }

  /**
   * After the first j elements of init are placed: a chunk is allocated once
   * placement has reached its first cell, and exactly positions
   * MiddleOfChunk .. MiddleOfChunk + j - 1 hold init[0..j).
   */
  ghost predicate Placed<T>(dir: seq<Slot<T>>, init: seq<T>, j: nat)
    requires j <= |init|
  {
    forall i | 0 <= i < |dir| ::
      if i * 10 < MiddleOfChunk + j then
        && dir[i].Live?
        && |dir[i].cells| == 10
        && forall k | 0 <= k < 10 ::
             dir[i].cells[k] == (if MiddleOfChunk <= i * 10 + k < MiddleOfChunk + j
                                 then Some(init[i * 10 + k - MiddleOfChunk]) else None)
      else dir[i] == Null
  }

  /** One iteration of the list constructor's loop (deque.h:150-152): allocate on a chunk boundary, then construct. */
  function PlaceOne<T>(dir: seq<Slot<T>>, init: seq<T>, j: nat): seq<Slot<T>>
    requires j < |init| && |dir| == ListCap(|init|) && Placed(dir, init, j)
  {
    var p := MiddleOfChunk + j;
    var dir' := if p % 10 == 0 then dir[p / 10 := Live(Blank())] else dir;
    assert dir'[p / 10].Live? && |dir'[p / 10].cells| == 10;
    dir'[p / 10 := Live(dir'[p / 10].cells[p % 10 := Some(init[j])])]
  }

  lemma PlaceOneExtends<T>(dir: seq<Slot<T>>, init: seq<T>, j: nat)
    requires j < |init| && |dir| == ListCap(|init|) && Placed(dir, init, j)
    ensures |PlaceOne(dir, init, j)| == |dir|
    ensures Placed(PlaceOne(dir, init, j), init, j + 1)
  {
    var p := MiddleOfChunk + j;
    var r := PlaceOne(dir, init, j);
    forall i | 0 <= i < |r|
      ensures if i * 10 < MiddleOfChunk + j + 1 then
        && r[i].Live?
        && |r[i].cells| == 10
        && forall k | 0 <= k < 10 ::
             r[i].cells[k] == (if MiddleOfChunk <= i * 10 + k < MiddleOfChunk + j + 1
                               then Some(init[i * 10 + k - MiddleOfChunk]) else None)
      else r[i] == Null
    {
      if i == p / 10 {
        assert p == i * 10 + p % 10;
      } else {
        assert r[i] == dir[i];
      }
    }
  }

  /** The list constructor's loop over init[j..] (deque.h:149-153). */
  function Place<T>(dir: seq<Slot<T>>, init: seq<T>, j: nat): (r: seq<Slot<T>>)
    requires j <= |init| && |dir| == ListCap(|init|) && Placed(dir, init, j)
    ensures |r| == |dir|
    ensures Placed(r, init, |init|)
    decreases |init| - j
  {
    if j == |init| then dir
    else
      PlaceOneExtends(dir, init, j);
      Place(PlaceOne(dir, init, j), init, j + 1)
  }

  /**
   * deque(initializer_list) (deque.h:142-154): element j is constructed at
   * linear position MiddleOfChunk + j, i.e. chunk (4 + j) / 10, offset
   * (4 + j) % 10; the deque holds exactly init, in order.
   */
  function FromList<T>(init: seq<T>): (r: Deque<T>)
    ensures Valid(r)
    ensures Elems(r) == init
    ensures r.firstChunk == 0 && r.startCursor == MiddleOfChunk
    ensures r.lastChunk == (|init| + MiddleOfChunk) / 10 && r.endCursor == (|init| + MiddleOfChunk) % 10
    ensures r.cap == (if r.endCursor == 0 then r.lastChunk else r.lastChunk + 1)
    ensures forall j | 0 <= j < |init| :: Holds(r.dir, MiddleOfChunk + j) && Cell(r.dir, MiddleOfChunk + j) == init[j]
  {
    var n := |init|;
    var cap := ListCap(n);
    var dir0: seq<Slot<T>> := seq(cap, i => if i == 0 then Live(Blank()) else Null);
    assert Placed(dir0, init, 0);
    var r := Deque(0, MiddleOfChunk, (n + MiddleOfChunk) / 10, (n + MiddleOfChunk) % 10, cap, Place(dir0, init, 0));
    FromListIsValid(init, r);
    r
  }

  lemma FromListIsValid<T>(init: seq<T>, r: Deque<T>)
    requires r.firstChunk == 0 && r.startCursor == MiddleOfChunk
    requires r.lastChunk == (|init| + MiddleOfChunk) / 10 && r.endCursor == (|init| + MiddleOfChunk) % 10
    requires r.cap == ListCap(|init|) && |r.dir| == r.cap && Placed(r.dir, init, |init|)
    ensures Valid(r)
    ensures Elems(r) == init
    ensures forall j | 0 <= j < |init| :: Holds(r.dir, MiddleOfChunk + j) && Cell(r.dir, MiddleOfChunk + j) == init[j]
  {
    FromListHolds(init, r);
    FromListSlotsMatch(init, r);
    var n := |init|;
    if r.endCursor != 0 {
      assert r.lastChunk * 10 < n + MiddleOfChunk;
    }
    assert Valid(r);
    FromListElems(init, r);
  }

  /** A valid deque whose positions MiddleOfChunk + j hold init[j], from begin MiddleOfChunk, holds exactly init. */
  lemma FromListElems<T>(init: seq<T>, r: Deque<T>)
    requires Valid(r) && Begin(r) == MiddleOfChunk && End(r) == |init| + MiddleOfChunk
    requires forall j | 0 <= j < |init| :: Holds(r.dir, MiddleOfChunk + j) && Cell(r.dir, MiddleOfChunk + j) == init[j]
    ensures Elems(r) == init
  {
    forall j | 0 <= j < |init|
      ensures Elems(r)[j] == init[j]
    {
      assert Elems(r)[j] == Cell(r.dir, MiddleOfChunk + j);
    }
  }

  /** After placement, the counters are well formed and every block agrees with the live range. */
  lemma FromListSlotsMatch<T>(init: seq<T>, r: Deque<T>)
    requires r.firstChunk == 0 && r.startCursor == MiddleOfChunk
    requires r.lastChunk == (|init| + MiddleOfChunk) / 10 && r.endCursor == (|init| + MiddleOfChunk) % 10
    requires r.cap == ListCap(|init|) && |r.dir| == r.cap && Placed(r.dir, init, |init|)
    ensures Begin(r) == MiddleOfChunk && End(r) == |init| + MiddleOfChunk
    ensures Shape(r)
    ensures forall i | 0 <= i < r.cap :: SlotMatches(r, i)
  {
    assert Begin(r) == MiddleOfChunk && End(r) == |init| + MiddleOfChunk;
    forall i | 0 <= i < r.cap
      ensures SlotMatches(r, i)
    {
    }
  }

  /** After placement, each position MiddleOfChunk + j holds init[j]. */
  lemma FromListHolds<T>(init: seq<T>, r: Deque<T>)
    requires r.firstChunk == 0 && r.startCursor == MiddleOfChunk
    requires r.lastChunk == (|init| + MiddleOfChunk) / 10 && r.endCursor == (|init| + MiddleOfChunk) % 10
    requires r.cap == ListCap(|init|) && |r.dir| == r.cap && Placed(r.dir, init, |init|)
    ensures forall j | 0 <= j < |init| :: Holds(r.dir, MiddleOfChunk + j) && Cell(r.dir, MiddleOfChunk + j) == init[j]
  {
    forall p: nat | MiddleOfChunk <= p < MiddleOfChunk + |init|
      ensures Holds(r.dir, p) && Cell(r.dir, p) == init[p - MiddleOfChunk]
    {
      var i, k := p / 10, p % 10;
      assert p == i * 10 + k;
    }
    forall j | 0 <= j < |init|
      ensures Holds(r.dir, MiddleOfChunk + j) && Cell(r.dir, MiddleOfChunk + j) == init[j]
    {
      assert init[MiddleOfChunk + j - MiddleOfChunk] == init[j];
    }
  }

  /**
   * The cells [lo, hi) of chunk i that lie in the live range: the bounds
   * copyDeque hands to makeChunk and clearDeque hands to clearChunk
   * (deque.h:128-131, 189-192).
   */
  function LiveBounds<T>(d: Deque<T>, i: nat): (b: (nat, nat))
    requires Shape(d) && d.firstChunk <= i <= d.lastChunk
    ensures b.0 <= b.1 <= 10
    ensures forall k | 0 <= k < 10 :: b.0 <= k < b.1 <==> InLiveRange(d, i, k)
  {
    if i == d.firstChunk && i == d.lastChunk then (d.startCursor, d.endCursor)
    else if i == d.firstChunk then (d.startCursor, 10)
    else if i == d.lastChunk then (0, d.endCursor)
    else (0, 10)
  }

  /**
   * makeChunk (deque.h:114-117): a fresh ten-cell block whose cells [lo, hi)
   * are a copy of the source block's, with nothing constructed outside them;
   * when the copied cells are all constructed, clearChunk with the same
   * bounds (as clearDeque later calls it) releases the block without a fault.
   */
  function MakeChunk<T>(src: Slot<T>, lo: nat, hi: nat): (cells: seq<Option<T>>)
    requires lo <= hi <= 10
    requires lo < hi ==> src.Live? && |src.cells| == 10
    ensures |cells| == 10
    ensures lo < hi ==> cells[lo..hi] == src.cells[lo..hi]
    ensures forall k | 0 <= k < 10 && !(lo <= k < hi) :: cells[k] == None
    ensures lo < hi && (forall k | lo <= k < hi :: src.cells[k].Some?) ==>
      forall chunk: nat :: ClearChunk(Live(cells), lo, hi, chunk) == Success(Freed)
  {
    seq(10, k => if lo <= k < hi then src.cells[k] else None)
  }

  /** A chunk with at least one live cell is an allocated ten-cell block. */
  lemma LiveChunkIsAllocated<T>(d: Deque<T>, i: nat)
    requires Valid(d) && d.firstChunk <= i <= d.lastChunk && i < d.cap
    ensures LiveBounds(d, i).0 < LiveBounds(d, i).1 ==> d.dir[i].Live? && |d.dir[i].cells| == 10
  {
    var b := LiveBounds(d, i);
    if b.0 < b.1 {
      assert Holds(d.dir, i * 10 + b.0);
      SplitPosition(i, b.0);
      BlockSize(d, i);
    }
  }

  /**
   * makeChunk as copyDeque calls it: the fresh block for chunk i of the range
   * holds a copy of exactly the deque's live elements of that chunk, each at
   * its own offset, and nothing else.
   */
  lemma CopiedChunkHoldsLiveCells<T>(d: Deque<T>, i: nat)
    requires Valid(d) && d.firstChunk <= i <= d.lastChunk && i < d.cap
    ensures CopiedSlot(d, i).Live? && |CopiedSlot(d, i).cells| == 10
    ensures forall k | 0 <= k < 10 :: CopiedSlot(d, i).cells[k].Some? <==> InLiveRange(d, i, k)
    ensures forall k | 0 <= k < 10 && InLiveRange(d, i, k) ::
      Holds(d.dir, i * 10 + k) && CopiedSlot(d, i).cells[k] == Some(Cell(d.dir, i * 10 + k))
  {
    LiveChunkIsAllocated(d, i);
    forall k | 0 <= k < 10 && InLiveRange(d, i, k)
      ensures Holds(d.dir, i * 10 + k) && CopiedSlot(d, i).cells[k] == Some(Cell(d.dir, i * 10 + k))
    {
      assert Holds(d.dir, i * 10 + k);
      SplitPosition(i, k);
    }
  }

  /** The directory entry copyDeque builds for chunk i (deque.h:121-133). */
  function CopiedSlot<T>(d: Deque<T>, i: nat): Slot<T>
    requires Valid(d) && i < d.cap
  {
    if i < d.firstChunk || i > d.lastChunk then Null
    else
      var b := LiveBounds(d, i);
      LiveChunkIsAllocated(d, i);
      Live(MakeChunk(d.dir[i], b.0, b.1))
  }

  /**
   * The copy constructor (deque.h:156-161): the same counters, a deep copy of
   * every live element in a fresh block per chunk of the range, and null
   * handles outside it. No handle dangles in the copy.
   */
  function Copy<T>(d: Deque<T>): (r: Deque<T>)
    requires Valid(d)
    ensures Valid(r)
    ensures Elems(r) == Elems(d)
    ensures r.firstChunk == d.firstChunk && r.startCursor == d.startCursor
    ensures r.lastChunk == d.lastChunk && r.endCursor == d.endCursor && r.cap == d.cap
    ensures forall i | 0 <= i < r.cap :: (d.firstChunk <= i <= d.lastChunk <==> r.dir[i].Live?)
    ensures forall i | 0 <= i < r.cap :: (i < d.firstChunk || i > d.lastChunk) ==> r.dir[i] == Null
  {
    var r := d.(dir := seq(d.cap, i requires 0 <= i < d.cap => CopiedSlot(d, i)));
    CopyIsValid(d, r);
    CopyKeepsElements(d, r);
    r
  }

  lemma CopyIsValid<T>(d: Deque<T>, r: Deque<T>)
    requires Valid(d)
    requires r == d.(dir := seq(d.cap, i requires 0 <= i < d.cap => CopiedSlot(d, i)))
    ensures Valid(r)
  {
    assert Shape(r);
    forall i | 0 <= i < r.cap
      ensures SlotMatches(r, i)
    {
      assert SlotMatches(d, i);
      if d.firstChunk <= i <= d.lastChunk {
        LiveChunkIsAllocated(d, i);
      }
    }
    forall p: nat | Begin(r) <= p < End(r)
      ensures Holds(r.dir, p)
    {
      assert Holds(d.dir, p);
      var i, k := p / 10, p % 10;
      assert p == i * 10 + k;
      LiveChunkIsAllocated(d, i);
    }
  }

  lemma CopyKeepsElements<T>(d: Deque<T>, r: Deque<T>)
    requires Valid(d) && Valid(r) && Shape(r)
    requires r == d.(dir := seq(d.cap, i requires 0 <= i < d.cap => CopiedSlot(d, i)))
    ensures Elems(r) == Elems(d)
  {
    forall j | 0 <= j < Size(r)
      ensures Elems(r)[j] == Elems(d)[j]
    {
      var p := Begin(r) + j;
      assert Holds(d.dir, p);
      var i, k := p / 10, p % 10;
      assert p == i * 10 + k;
      LiveChunkIsAllocated(d, i);
      assert Elems(r)[j] == Cell(r.dir, p) == Cell(d.dir, p);
    }
  }

  /**
   * operator= (deque.h:169-177): the parameter arrives by value and all six
   * fields are swapped; the first component is the assigned-to deque, the
   * second the parameter, destroyed on return.
   */
  function Assign<T>(self: Deque<T>, arg: Deque<T>): (r: (Deque<T>, Deque<T>))
    ensures Valid(self) && Valid(arg) ==> Valid(r.0) && Valid(r.1)
    ensures Valid(self) && Valid(arg) ==> Elems(r.0) == Elems(arg) && Elems(r.1) == Elems(self)
    ensures r.0.firstChunk == arg.firstChunk && r.0.startCursor == arg.startCursor && r.0.lastChunk == arg.lastChunk
    ensures r.0.endCursor == arg.endCursor && r.0.cap == arg.cap && r.0.dir == arg.dir
    ensures r.1.firstChunk == self.firstChunk && r.1.startCursor == self.startCursor && r.1.lastChunk == self.lastChunk
    ensures r.1.endCursor == self.endCursor && r.1.cap == self.cap && r.1.dir == self.dir
  {
    (arg, self)
  }

  /**
   * clearChunk (deque.h:181-185): destroy cells [lo, hi), then release the
   * block. Releasing a block twice or touching a null or released block is a
   * fault; an allocated block whose cells [lo, hi) are constructed is freed.
   */
  function ClearChunk<T>(slot: Slot<T>, lo: nat, hi: nat, chunk: nat): (r: Result<Slot<T>, Fault>)
    ensures slot.Live? && hi <= |slot.cells| && (forall k | lo <= k < hi :: slot.cells[k].Some?) ==> r == Success(Freed)
    ensures slot.Live? && r.Failure? ==> r.error == DestroyUnconstructed(chunk)
    ensures slot.Freed? ==> r.Failure? && (r.error == DoubleFree(chunk) <==> hi <= lo)
    ensures slot.Null? ==> (r.Success? <==> hi <= lo)
    ensures r.Success? ==> !r.value.Live?
  {
    match slot
    case Null => if lo < hi then Failure(NullDeref(chunk)) else Success(Null)
    case Freed => Failure(if lo < hi then UseAfterFree(chunk) else DoubleFree(chunk))
    case Live(cells) =>
      if hi <= |cells| && forall k | lo <= k < hi :: cells[k].Some? then Success(Freed)
      else Failure(DestroyUnconstructed(chunk))
  }

  /** One iteration of clearDeque's loop (deque.h:189-193): chunks of the range are cleared, others skipped. */
  function ClearStep<T>(d: Deque<T>, i: nat): Result<Slot<T>, Fault>
    requires Shape(d) && i < d.cap
  {
    if d.firstChunk <= i <= d.lastChunk then
      var b := LiveBounds(d, i);
      ClearChunk(d.dir[i], b.0, b.1, i)
    else Success(d.dir[i])
  }

  /** On a valid deque every step succeeds: chunks of the range are released, others untouched. */
  lemma ClearStepSucceeds<T>(d: Deque<T>, i: nat)
    requires Shape(d) && i < d.cap
    ensures Valid(d) ==> ClearStep(d, i).Success?
    ensures Valid(d) && d.firstChunk <= i <= d.lastChunk ==> !ClearStep(d, i).value.Live?
    ensures Valid(d) && (i < d.firstChunk || i > d.lastChunk) ==> ClearStep(d, i).value == d.dir[i]
  {
    if Valid(d) && d.firstChunk <= i <= d.lastChunk {
      LiveChunkIsAllocated(d, i);
      assert SlotMatches(d, i);
    }
  }

  /** What clearDeque leaves in directory entry j: a released block inside the range, the entry itself outside. */
  ghost predicate Released<T>(d: Deque<T>, j: nat, s: Slot<T>)
    requires j < |d.dir|
  {
    && (d.firstChunk <= j <= d.lastChunk ==> !s.Live?)
    && ((j < d.firstChunk || j > d.lastChunk) ==> s == d.dir[j])
  }

  /** clearDeque's loop from chunk i on (deque.h:187-194); the first fault ends it. */
  function ClearFrom<T>(d: Deque<T>, i: nat): (r: Result<seq<Slot<T>>, Fault>)
    requires Shape(d) && i <= d.cap
    ensures Valid(d) ==> r.Success? && |r.value| == d.cap - i
    ensures Valid(d) ==> forall t | 0 <= t < d.cap - i :: Released(d, i + t, r.value[t])
    decreases d.cap - i
  {
    if i == d.cap then Success([])
    else
      ClearStepSucceeds(d, i);
      var step := ClearStep(d, i);
      if step.Failure? then Failure(step.error)
      else
        var rest := ClearFrom(d, i + 1);
        if rest.Failure? then rest
        else
          Success([step.value] + rest.value)
  }

  /** The loop stops at the first chunk whose clearing faults and reports that fault. */
  lemma {:induction false} ClearFromStopsAtFirstFault<T>(d: Deque<T>, i: nat, j: nat)
    requires Shape(d) && i <= j < d.cap
    requires forall k | i <= k < j :: ClearStep(d, k).Success?
    requires ClearStep(d, j).Failure?
    ensures ClearFrom(d, i) == Failure(ClearStep(d, j).error)
    decreases j - i
  {
    if i < j {
      ClearFromStopsAtFirstFault(d, i + 1, j);
    }
  }

  /**
   * The destructor's clearDeque (deque.h:186-199): on a valid deque it never
   * faults, releases every block of the range, and leaves no constructed
   * element behind.
   */
  function ClearDeque<T>(d: Deque<T>): (r: Result<seq<Slot<T>>, Fault>)
    requires Shape(d)
    ensures Valid(d) ==> r.Success? && |r.value| == d.cap
    ensures Valid(d) ==> forall j | d.firstChunk <= j <= d.lastChunk && j < d.cap :: !r.value[j].Live?
    ensures Valid(d) ==> forall j | 0 <= j < d.cap && (j < d.firstChunk || j > d.lastChunk) :: r.value[j] == d.dir[j]
    ensures Valid(d) ==> forall j, k | 0 <= j < d.cap && r.value[j].Live? && 0 <= k < |r.value[j].cells| ::
      r.value[j].cells[k].None?
  {
    var r := ClearFrom(d, 0);
    ClearLeavesNoElement(d, r);
    r
  }

  lemma ClearLeavesNoElement<T>(d: Deque<T>, r: Result<seq<Slot<T>>, Fault>)
    requires Shape(d) && r == ClearFrom(d, 0)
    ensures Valid(d) ==> forall j | 0 <= j < d.cap :: Released(d, j, r.value[j])
    ensures Valid(d) ==> forall j, k | 0 <= j < d.cap && r.value[j].Live? && 0 <= k < |r.value[j].cells| ::
      r.value[j].cells[k].None?
  {
    if Valid(d) {
      ClearReleasesRange(d, r);
    }
  }

  lemma ClearReleasesRange<T>(d: Deque<T>, r: Result<seq<Slot<T>>, Fault>)
    requires Valid(d) && r == ClearFrom(d, 0)
    ensures forall j | 0 <= j < d.cap :: Released(d, j, r.value[j])
    ensures forall j, k | 0 <= j < d.cap && r.value[j].Live? && 0 <= k < |r.value[j].cells| ::
      r.value[j].cells[k].None?
  {
    forall j | 0 <= j < d.cap
      ensures Released(d, j, r.value[j])
    {
      assert Released(d, 0 + j, r.value[j]);
    }
    forall j, k | 0 <= j < d.cap && r.value[j].Live? && 0 <= k < |r.value[j].cells|
      ensures r.value[j].cells[k].None?
    {
      assert Released(d, j, r.value[j]);
      assert j < d.firstChunk || j > d.lastChunk;
      assert r.value[j] == d.dir[j];
      assert SlotMatches(d, j);
      assert !(Begin(d) <= j * 10 + k < End(d));
    }
  }

  /**
   * Copy-assignment (deque.h:169-177 with the copy constructor): the target
   * ends up with the source's counters and elements, the parameter carries
   * away all six fields of the old target, and destroying it cannot fault.
   */
  lemma CopyAssignment<T>(self: Deque<T>, src: Deque<T>)
    requires Valid(self) && Valid(src)
    ensures var (now, gone) := Assign(self, Copy(src));
      && Valid(now)
      && Elems(now) == Elems(src)
      && now.firstChunk == src.firstChunk && now.startCursor == src.startCursor
      && now.lastChunk == src.lastChunk && now.endCursor == src.endCursor && now.cap == src.cap
      && gone == self
      && ClearDeque(gone).Success?
  {
  }
}
