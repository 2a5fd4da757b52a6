/**
 * The four end operations (deque.h:266-299). Each push first asks grow for
 * room at its end, then steps the cursor, allocating a block when the step
 * enters a new chunk; each pop destroys one element and releases the block
 * the cursor leaves.
 */
module Ends {
  import opened Wrappers
  import opened Cursor
  import opened DequeModel
  import opened Growth

  /** push_front after grow (deque.h:268-273). */
  function PlaceFront<T>(g: Deque<T>, x: T): Deque<T>
    requires Valid(g) && HasRoom(g, Front)
  {
    var first := if g.startCursor == 0 then g.firstChunk - 1 else g.firstChunk;
    var dir := if g.startCursor == 0 then g.dir[first := Live(Blank())] else g.dir;
    var start := Decrement(g.startCursor);
    assert |dir[first].cells| == 10 by { if g.startCursor != 0 { BlockSize(g, first); } }
    g.(firstChunk := first, startCursor := start,
       dir := dir[first := Live(dir[first].cells[start := Some(x)])])
  }

  /** push_front leaves every old element where it was. */
  lemma PlaceFrontKeeps<T>(g: Deque<T>, x: T, p: nat)
    requires Valid(g) && HasRoom(g, Front) && Begin(g) <= p < End(g)
    ensures Holds(PlaceFront(g, x).dir, p) && Cell(PlaceFront(g, x).dir, p) == Cell(g.dir, p)
  {
    var r := PlaceFront(g, x);
    assert Holds(g.dir, p);
    SplitPosition(r.firstChunk, r.startCursor);
    assert Begin(r) + 1 == Begin(g);
  }

  /** push_front constructs x at the new begin position. */
  lemma PlaceFrontWrites<T>(g: Deque<T>, x: T)
    requires Valid(g) && HasRoom(g, Front)
    ensures Holds(PlaceFront(g, x).dir, Begin(PlaceFront(g, x))) && Cell(PlaceFront(g, x).dir, Begin(PlaceFront(g, x))) == x
  {
    var r := PlaceFront(g, x);
    SplitPosition(r.firstChunk, r.startCursor);
    if g.startCursor != 0 {
      BlockSize(g, g.firstChunk);
    }
  }

  lemma PlaceFrontIsValid<T>(g: Deque<T>, x: T)
    requires Valid(g) && HasRoom(g, Front)
    ensures Valid(PlaceFront(g, x))
    ensures Begin(PlaceFront(g, x)) + 1 == Begin(g) && End(PlaceFront(g, x)) == End(g)
  {
    var r := PlaceFront(g, x);
    var q := Begin(r);
    assert q + 1 == Begin(g) && End(r) == End(g);
    SplitPosition(r.firstChunk, r.startCursor);
    if g.startCursor != 0 {
      BlockSize(g, g.firstChunk);
    }
    assert r.dir[r.firstChunk].cells[r.startCursor] == Some(x);
    assert |r.dir[r.firstChunk].cells| == 10;
    assert Shape(r);
    forall i | 0 <= i < r.cap
      ensures SlotMatches(r, i)
    {
      assert SlotMatches(g, i);
      if i != r.firstChunk {
        assert r.dir[i] == g.dir[i];
      }
    }
    PlaceFrontWrites(g, x);
    forall p: nat | Begin(r) <= p < End(r)
      ensures Holds(r.dir, p)
    {
      if p != q {
        PlaceFrontKeeps(g, x, p);
      }
    }
  }

  lemma PlaceFrontPrepends<T>(g: Deque<T>, x: T)
    requires Valid(g) && HasRoom(g, Front)
    ensures Valid(PlaceFront(g, x))
    ensures Elems(PlaceFront(g, x)) == [x] + Elems(g)
  {
    PlaceFrontIsValid(g, x);
    PlaceFrontWrites(g, x);
    var r := PlaceFront(g, x);
    var q := Begin(r);
    forall i | 0 <= i < Size(r)
      ensures Elems(r)[i] == ([x] + Elems(g))[i]
    {
      if i == 0 {
        assert Elems(r)[i] == Cell(r.dir, q) == x;
      } else {
        PlaceFrontKeeps(g, x, q + i);
        assert Elems(r)[i] == Cell(r.dir, q + i) == Cell(g.dir, q + i) == Elems(g)[i - 1];
      }
    }
  }

  /** push_back after grow (deque.h:287-291). */
  function PlaceBack<T>(g: Deque<T>, x: T): Deque<T>
    requires Valid(g) && HasRoom(g, Back)
  {
    var last := g.lastChunk;
    var dir := if g.endCursor == 0 then g.dir[last := Live(Blank())] else g.dir;
    assert |dir[last].cells| == 10 by { if g.endCursor != 0 { BlockSize(g, last); } }
    var dir' := dir[last := Live(dir[last].cells[g.endCursor := Some(x)])];
    var e := Increment(g.endCursor);
    g.(lastChunk := if e == 0 then last + 1 else last, endCursor := e, dir := dir')
  }

  /** push_back leaves every old element where it was. */
  lemma PlaceBackKeeps<T>(g: Deque<T>, x: T, p: nat)
    requires Valid(g) && HasRoom(g, Back) && Begin(g) <= p < End(g)
    ensures Holds(PlaceBack(g, x).dir, p) && Cell(PlaceBack(g, x).dir, p) == Cell(g.dir, p)
  {
    assert Holds(g.dir, p);
    SplitPosition(g.lastChunk, g.endCursor);
    var r := PlaceBack(g, x);
    if p / 10 == g.lastChunk {
      assert g.endCursor != 0 && p % 10 < g.endCursor;
      BlockSize(g, g.lastChunk);
      assert r.dir[p / 10].cells[p % 10] == g.dir[p / 10].cells[p % 10];
    } else {
      assert r.dir[p / 10] == g.dir[p / 10];
    }
  }

  /** push_back constructs x at the old end position. */
  lemma PlaceBackWrites<T>(g: Deque<T>, x: T)
    requires Valid(g) && HasRoom(g, Back)
    ensures Holds(PlaceBack(g, x).dir, End(g)) && Cell(PlaceBack(g, x).dir, End(g)) == x
  {
    SplitPosition(g.lastChunk, g.endCursor);
    if g.endCursor != 0 {
      BlockSize(g, g.lastChunk);
    }
  }

  lemma PlaceBackIsValid<T>(g: Deque<T>, x: T)
    requires Valid(g) && HasRoom(g, Back)
    ensures Valid(PlaceBack(g, x))
    ensures Begin(PlaceBack(g, x)) == Begin(g) && End(PlaceBack(g, x)) == End(g) + 1
  {
    var r := PlaceBack(g, x);
    var q := End(g);
    assert End(r) == q + 1 && Begin(r) == Begin(g);
    SplitPosition(g.lastChunk, g.endCursor);
    if g.endCursor != 0 {
      BlockSize(g, g.lastChunk);
    }
    assert r.dir[g.lastChunk].cells[g.endCursor] == Some(x);
    assert |r.dir[g.lastChunk].cells| == 10;
    assert Shape(r);
    forall i | 0 <= i < r.cap
      ensures SlotMatches(r, i)
    {
      assert SlotMatches(g, i);
      if i != g.lastChunk {
        assert r.dir[i] == g.dir[i];
      }
    }
    PlaceBackWrites(g, x);
    forall p: nat | Begin(r) <= p < End(r)
      ensures Holds(r.dir, p)
    {
      if p != q {
        PlaceBackKeeps(g, x, p);
      }
    }
  }

  lemma PlaceBackAppends<T>(g: Deque<T>, x: T)
    requires Valid(g) && HasRoom(g, Back)
    ensures Valid(PlaceBack(g, x))
    ensures Elems(PlaceBack(g, x)) == Elems(g) + [x]
  {
    PlaceBackIsValid(g, x);
    PlaceBackWrites(g, x);
    var r := PlaceBack(g, x);
    var q := End(g);
    forall i | 0 <= i < Size(r)
      ensures Elems(r)[i] == (Elems(g) + [x])[i]
    {
      if i < Size(g) {
        PlaceBackKeeps(g, x, Begin(g) + i);
        assert Elems(r)[i] == Cell(r.dir, Begin(g) + i) == Cell(g.dir, Begin(g) + i);
      } else {
        assert Elems(r)[i] == Cell(r.dir, q) == x;
      }
    }
  }

  /** pop_front on a non-empty deque (deque.h:277-282): the vacated block is released, its handle left dangling. */
  function DropFirst<T>(g: Deque<T>): Deque<T>
    requires Valid(g) && !Empty(g)
  {
    FirstElementBlock(g);
    var first := g.firstChunk;
    var dir := g.dir[first := Live(g.dir[first].cells[g.startCursor := None])];
    var start := Increment(g.startCursor);
    if start == 0 then g.(firstChunk := first + 1, startCursor := start, dir := dir[first := Freed])
    else g.(startCursor := start, dir := dir)
  }

  /** pop_front leaves every remaining element where it was. */
  lemma DropFirstKeeps<T>(g: Deque<T>, p: nat)
    requires Valid(g) && !Empty(g) && Begin(g) < p < End(g)
    ensures Holds(DropFirst(g).dir, p) && Cell(DropFirst(g).dir, p) == Cell(g.dir, p)
  {
    assert Holds(g.dir, p);
    SplitPosition(g.firstChunk, g.startCursor);
  }

  lemma DropFirstIsValid<T>(g: Deque<T>)
    requires Valid(g) && !Empty(g)
    ensures Valid(DropFirst(g))
    ensures Begin(DropFirst(g)) == Begin(g) + 1 && End(DropFirst(g)) == End(g)
  {
    FirstElementBlock(g);
    var r := DropFirst(g);
    var q := Begin(g);
    SplitPosition(g.firstChunk, g.startCursor);
    assert Begin(r) == q + 1 && End(r) == End(g);
    assert Shape(r);
    forall i | 0 <= i < r.cap
      ensures SlotMatches(r, i)
    {
      assert SlotMatches(g, i);
      if i != g.firstChunk {
        assert r.dir[i] == g.dir[i];
      }
    }
    forall p: nat | Begin(r) <= p < End(r)
      ensures Holds(r.dir, p)
    {
      DropFirstKeeps(g, p);
    }
  }

  lemma DropFirstRemovesFirst<T>(g: Deque<T>)
    requires Valid(g) && !Empty(g)
    ensures Valid(DropFirst(g))
    ensures Elems(DropFirst(g)) == Elems(g)[1..]
  {
    DropFirstIsValid(g);
    var r := DropFirst(g);
    var q := Begin(g);
    forall i | 0 <= i < Size(r)
      ensures Elems(r)[i] == Elems(g)[1..][i]
    {
      DropFirstKeeps(g, q + 1 + i);
      assert Elems(r)[i] == Cell(r.dir, q + 1 + i) == Cell(g.dir, q + 1 + i) == Elems(g)[i + 1];
    }
  }

  /**
   * pop_back on a non-empty deque (deque.h:295-298). When the last block is
   * vacated, its handle becomes `released`: the source leaves it dangling
   * (Freed); the corrected operation clears it (Null).
   */
  function DropLast<T>(g: Deque<T>, released: Slot<T>): Deque<T>
    requires Valid(g) && !Empty(g)
  {
    LastElementBlock(g);
    var last := if g.endCursor == 0 then g.lastChunk - 1 else g.lastChunk;
    var e := Decrement(g.endCursor);
    var dir := g.dir[last := Live(g.dir[last].cells[e := None])];
    g.(lastChunk := last, endCursor := e, dir := if e == 0 then dir[last := released] else dir)
  }

  /** pop_back leaves every remaining element where it was. */
  lemma DropLastKeeps<T>(g: Deque<T>, p: nat)
    requires Valid(g) && !Empty(g) && Begin(g) <= p < End(g) - 1
    ensures Holds(DropLast(g, Null).dir, p) && Cell(DropLast(g, Null).dir, p) == Cell(g.dir, p)
  {
    LastElementBlock(g);
    var r := DropLast(g, Null);
    assert Holds(g.dir, p);
    SplitPosition(r.lastChunk, r.endCursor);
  }

  lemma DropLastIsValid<T>(g: Deque<T>)
    requires Valid(g) && !Empty(g)
    ensures Valid(DropLast(g, Null))
    ensures Begin(DropLast(g, Null)) == Begin(g) && End(DropLast(g, Null)) + 1 == End(g)
  {
    LastElementBlock(g);
    var r := DropLast(g, Null);
    var q := End(g) - 1;
    SplitPosition(r.lastChunk, r.endCursor);
    assert End(r) == q && Begin(r) == Begin(g);
    assert Shape(r);
    forall i | 0 <= i < r.cap
      ensures SlotMatches(r, i)
    {
      assert SlotMatches(g, i);
      if i != r.lastChunk {
        assert r.dir[i] == g.dir[i];
      }
    }
    forall p: nat | Begin(r) <= p < End(r)
      ensures Holds(r.dir, p)
    {
      DropLastKeeps(g, p);
    }
  }

  lemma DropLastRemovesLast<T>(g: Deque<T>)
    requires Valid(g) && !Empty(g)
    ensures Valid(DropLast(g, Null))
    ensures Elems(DropLast(g, Null)) == Elems(g)[..Size(g) - 1]
  {
    DropLastIsValid(g);
    var r := DropLast(g, Null);
    forall i | 0 <= i < Size(r)
      ensures Elems(r)[i] == Elems(g)[i]
    {
      DropLastKeeps(g, Begin(g) + i);
      assert Elems(r)[i] == Cell(r.dir, Begin(g) + i) == Cell(g.dir, Begin(g) + i);
    }
  }

  /** push_front (deque.h:266-274): x becomes the first element. */
  function PushFront<T>(d: Deque<T>, x: T): (r: Deque<T>)
    requires Valid(d)
    ensures Valid(r)
    ensures Elems(r) == [x] + Elems(d)
  {
    var g := Grow(d, Front);
    PlaceFrontPrepends(g, x);
    PlaceFront(g, x)
  }

  /** push_back (deque.h:285-292): x becomes the last element. */
  function PushBack<T>(d: Deque<T>, x: T): (r: Deque<T>)
    requires Valid(d)
    ensures Valid(r)
    ensures Elems(r) == Elems(d) + [x]
  {
    var g := Grow(d, Back);
    PlaceBackAppends(g, x);
    PlaceBack(g, x)
  }

  /** pop_front (deque.h:275-283): no-op when empty, else drops the first element; the back end is untouched. */
  function PopFront<T>(d: Deque<T>): (r: Deque<T>)
    requires Valid(d)
    ensures Valid(r)
    ensures Empty(d) ==> r == d
    ensures !Empty(d) ==> Elems(r) == Elems(d)[1..]
    ensures r.lastChunk == d.lastChunk && r.endCursor == d.endCursor && r.cap == d.cap
  {
    if Empty(d) then d
    else
      DropFirstRemovesFirst(d);
      DropFirst(d)
  }

  /**
   * pop_back with the released handle cleared (the corrected operation):
   * no-op when empty, else drops the last element; the front end is untouched.
   */
  function PopBack<T>(d: Deque<T>): (r: Deque<T>)
    requires Valid(d)
    ensures Valid(r)
    ensures Empty(d) ==> r == d
    ensures !Empty(d) ==> Elems(r) == Elems(d)[..Size(d) - 1]
    ensures r.firstChunk == d.firstChunk && r.startCursor == d.startCursor && r.cap == d.cap
  {
    if Empty(d) then d
    else
      DropLastRemovesLast(d);
      DropLast(d, Null)
  }

  /** pop_back as the source writes it: a released handle is left dangling. */
  function PopBackAsWritten<T>(d: Deque<T>): Deque<T>
    requires Valid(d)
  {
    if Empty(d) then d else DropLast(d, Freed)
  }

  /**
   * The source's pop_back differs from PopBack only in the released handle:
   * when the step back vacates the last block, that handle dangles instead of
   * being null.
   */
  lemma PopBackAsWrittenDangles<T>(d: Deque<T>)
    requires Valid(d)
    ensures var r := PopBackAsWritten(d);
      && r.(dir := PopBack(d).dir) == PopBack(d)
      && |r.dir| == |PopBack(d).dir|
      && forall i | 0 <= i < |r.dir| ::
           r.dir[i] == (if !Empty(d) && r.endCursor == 0 && i == r.lastChunk then Freed else PopBack(d).dir[i])
  {
  }
}
