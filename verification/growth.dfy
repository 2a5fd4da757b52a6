/**
 * The growth engine, grow (deque.h:242-264): when the requested end of the
 * directory is exhausted, triple the used span of chunk handles and move the
 * handles into the middle third of a fresh directory.
 */
module Growth {
  import opened Wrappers
  import opened DequeModel

  /** The end of the directory that needs room (the source passes the strings "front" and "back"). */
  datatype Direction = Front | Back

  /**
   * grow's early return (deque.h:243-244): the requested end still has room,
   * that is, the end position lies inside the directory (back) or the begin
   * position is not the very first cell (front).
   */
  function HasRoom<T>(d: Deque<T>, w: Direction): (r: bool)
    ensures Shape(d) && w == Back ==> (r <==> End(d) < 10 * d.cap)
    ensures w == Front ==> (r <==> Begin(d) > 0)
  {
    match w
    case Back => d.lastChunk != d.cap
    case Front => d.firstChunk != 0 || d.startCursor != 0
  }

  /**
   * The number of chunk handles grow relocates (currentSize, deque.h:246-248):
   * firstChunk..lastChunk, minus the trailing chunk when the end cursor is on a
   * boundary of a non-empty deque (that chunk holds nothing yet).
   */
  function UsedSpan<T>(d: Deque<T>): (n: nat)
    requires Valid(d)
    ensures n >= 1
    ensures d.firstChunk + n == (if d.endCursor == 0 && !Empty(d) then d.lastChunk else d.lastChunk + 1)
  {
    var capped := d.endCursor == 0 && !Empty(d);
    d.lastChunk - d.firstChunk + 1 - (if capped then 1 else 0)
  }

  /**
   * The directory after grow's relocation loop (deque.h:249-262): handle
   * firstChunk + i moves to span + i; the outer thirds are null. A handle
   * beyond the old directory is taken as null.
   */
  function Relocated<T>(d: Deque<T>): Deque<T>
    requires Valid(d)
  {
    var span := UsedSpan(d);
    var capped := d.endCursor == 0 && !Empty(d);
    Deque(
      span,
      d.startCursor,
      2 * span - 1 + (if capped then 1 else 0),
      d.endCursor,
      3 * span,
      seq(3 * span, j =>
        if span <= j < 2 * span && d.firstChunk + (j - span) < d.cap
        then d.dir[d.firstChunk + (j - span)]
        else Null))
  }

  /** The counters after relocation: both ends shift by whole chunks, with a free chunk on each side. */
  lemma RelocatedShape<T>(d: Deque<T>)
    requires Valid(d)
    ensures var r := Relocated(d);
      && Shape(r)
      && Begin(r) == Begin(d) + 10 * (UsedSpan(d) - d.firstChunk)
      && End(r) == End(d) + 10 * (UsedSpan(d) - d.firstChunk)
      && r.firstChunk >= 1
      && r.lastChunk < r.cap
  {
  }

  /** A block moved by m chunks still agrees with a live range moved by m chunks. */
  lemma ShiftedSlotMatches<T>(d: Deque<T>, r: Deque<T>, i: nat, j: nat, m: int)
    requires i < |d.dir| && j < |r.dir| && j == i + m
    requires r.dir[j] == d.dir[i] && SlotMatches(d, i)
    requires Begin(r) == Begin(d) + 10 * m && End(r) == End(d) + 10 * m
    ensures SlotMatches(r, j)
  {
    if r.dir[j].Live? {
      forall k | 0 <= k < 10
        ensures r.dir[j].cells[k].Some? <==> Begin(r) <= j * 10 + k < End(r)
      {
        assert j * 10 + k == i * 10 + k + 10 * m;
      }
    }
  }

  /** A position backed in the old directory is backed, by the same element, m chunks further on. */
  lemma ShiftedHolds<T>(dir: seq<Slot<T>>, dir': seq<Slot<T>>, q: nat, m: int)
    requires Holds(dir, q) && q / 10 + m >= 0 && q / 10 + m < |dir'|
    requires dir'[q / 10 + m] == dir[q / 10]
    ensures q + 10 * m >= 0
    ensures Holds(dir', q + 10 * m) && Cell(dir', q + 10 * m) == Cell(dir, q)
  {
    ShiftPosition(q, m);
  }

  /** Every moved block agrees with the moved live range. */
  lemma RelocatedSlotsMatch<T>(d: Deque<T>)
    requires Valid(d)
    ensures Shape(Relocated(d))
    ensures forall j | 0 <= j < Relocated(d).cap :: SlotMatches(Relocated(d), j)
  {
    RelocatedShape(d);
    var r := Relocated(d);
    var span := UsedSpan(d);
    var m: int := span - d.firstChunk;
    forall j | 0 <= j < r.cap
      ensures SlotMatches(r, j)
    {
      if span <= j < 2 * span && d.firstChunk + (j - span) < d.cap {
        ShiftedSlotMatches(d, r, d.firstChunk + (j - span), j, m);
      }
    }
  }

  /** Each position of the live range is backed after the move, m chunks further on, by the element it held before. */
  lemma RelocatedHolds<T>(d: Deque<T>, q: nat)
    requires Valid(d) && Begin(d) <= q < End(d)
    ensures var r := Relocated(d); var m: int := UsedSpan(d) - d.firstChunk;
      && q + 10 * m >= 0
      && Holds(r.dir, q + 10 * m)
      && Cell(r.dir, q + 10 * m) == Cell(d.dir, q)
  {
    var r := Relocated(d);
    var span := UsedSpan(d);
    var m: int := span - d.firstChunk;
    assert Holds(d.dir, q);
    assert d.firstChunk <= q / 10 < d.firstChunk + span;
    ShiftedHolds(d.dir, r.dir, q, m);
  }

  /** The moved live range is backed throughout. */
  lemma RelocatedRangeHolds<T>(d: Deque<T>)
    requires Valid(d)
    ensures Shape(Relocated(d))
    ensures forall p: nat | Begin(Relocated(d)) <= p < End(Relocated(d)) :: Holds(Relocated(d).dir, p)
  {
    RelocatedShape(d);
    var r := Relocated(d);
    var m: int := UsedSpan(d) - d.firstChunk;
    forall p: nat | Begin(r) <= p < End(r)
      ensures Holds(r.dir, p)
    {
      var q: nat := p - 10 * m;
      RelocatedHolds(d, q);
    }
  }

  /** The blocks under non-zero cursors move along, and no dangling handle lands in the used part. */
  lemma RelocatedEdges<T>(d: Deque<T>)
    requires Valid(d)
    ensures var r := Relocated(d);
      && (r.startCursor != 0 ==> r.firstChunk < r.cap && r.dir[r.firstChunk].Live?)
      && (r.endCursor != 0 ==> r.lastChunk < r.cap && r.dir[r.lastChunk].Live?)
      && (forall i | r.firstChunk <= i < r.cap :: !r.dir[i].Freed?)
  {
    RelocatedShape(d);
    var r := Relocated(d);
    if r.startCursor != 0 {
      assert r.dir[r.firstChunk] == d.dir[d.firstChunk];
    }
    if r.endCursor != 0 {
      assert r.dir[r.lastChunk] == d.dir[d.lastChunk];
    }
  }

  /** Relocation keeps the invariant and leaves room at both ends. */
  lemma RelocatedIsValid<T>(d: Deque<T>)
    requires Valid(d)
    ensures var r := Relocated(d);
      && Valid(r)
      && Begin(r) == Begin(d) + 10 * (UsedSpan(d) - d.firstChunk)
      && End(r) == End(d) + 10 * (UsedSpan(d) - d.firstChunk)
      && r.firstChunk >= 1
      && r.lastChunk < r.cap
  {
    RelocatedShape(d);
    RelocatedSlotsMatch(d);
    RelocatedRangeHolds(d);
    RelocatedEdges(d);
  }

  /** Relocation keeps the elements in order. */
  lemma RelocatedKeepsElements<T>(d: Deque<T>)
    requires Valid(d)
    ensures Valid(Relocated(d)) && Elems(Relocated(d)) == Elems(d)
  {
    RelocatedIsValid(d);
    var r := Relocated(d);
    var m: int := UsedSpan(d) - d.firstChunk;
    forall i | 0 <= i < Size(r)
      ensures Elems(r)[i] == Elems(d)[i]
    {
      var q := Begin(d) + i;
      RelocatedHolds(d, q);
      assert Begin(r) + i == q + 10 * m;
    }
  }

  /**
   * grow as the source writes it. When the relocation loop would read a
   * handle past the end of the old directory, the model reports the
   * out-of-bounds access instead of continuing.
   */
  function GrowAsWritten<T>(d: Deque<T>, w: Direction): Result<Deque<T>, Fault>
    requires Valid(d)
  {
    if HasRoom(d, w) then Success(d)
    else if d.firstChunk + UsedSpan(d) > d.cap then Failure(ReadPastEnd(d.cap, d.cap))
    else Success(Relocated(d))
  }

  /**
   * grow with the out-of-bounds read guarded (a handle past the end is taken
   * as null). Returns the deque unchanged when the end has room; otherwise
   * keeps the elements, both cursors and the chunk distance, triples the used
   * span, and leaves room at both ends.
   */
  function Grow<T>(d: Deque<T>, w: Direction): (r: Deque<T>)
    requires Valid(d)
    ensures Valid(r) && Elems(r) == Elems(d)
    ensures HasRoom(d, w) ==> r == d
    ensures !HasRoom(d, w) ==>
      && r.startCursor == d.startCursor
      && r.endCursor == d.endCursor
      && r.lastChunk - r.firstChunk == d.lastChunk - d.firstChunk
      && r.cap == 3 * UsedSpan(d)
      && r.firstChunk >= 1
      && r.lastChunk < r.cap
    ensures HasRoom(r, w)
  {
    if HasRoom(d, w) then d
    else
      RelocatedIsValid(d);
      RelocatedKeepsElements(d);
      Relocated(d)
  }

  /**
   * The source's grow misbehaves exactly when asked to make room at the back
   * of an empty deque whose end sits at cap; everywhere else it agrees with
   * Grow.
   */
  lemma GrowAsWrittenFaultsExactly<T>(d: Deque<T>, w: Direction)
    requires Valid(d)
    ensures GrowAsWritten(d, w).Failure? <==> (w == Back && d.lastChunk == d.cap && Empty(d))
    ensures GrowAsWritten(d, w).Success? ==> GrowAsWritten(d, w).value == Grow(d, w)
  {
    if !HasRoom(d, w) && d.firstChunk + UsedSpan(d) <= d.cap {
      RelocatedKeepsElements(d);
    }
  }
}
