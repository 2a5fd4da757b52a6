/**
 * The random-access translator (deque.h:203-232): a logical index becomes a
 * (chunk, offset) pair by walking from the begin position in chunk strides.
 */
module Access {
  import opened Wrappers
  import opened DequeModel

  /** The one error the container reports: at() with an index not below size(). */
  datatype AccessError = OutOfRange

  /**
   * Element i of the deque is cell (startCursor + i) % 10 of chunk
   * firstChunk + (startCursor + i) / 10.
   */
  lemma IndexTranslation<T>(d: Deque<T>, i: nat)
    requires Valid(d) && i < Size(d)
    ensures var c := d.firstChunk + (d.startCursor + i) / 10;
      && c < d.cap
      && d.dir[c].Live?
      && |d.dir[c].cells| == 10
      && d.dir[c].cells[(d.startCursor + i) % 10] == Some(Elems(d)[i])
  {
    var p := Begin(d) + i;
    assert Holds(d.dir, p);
    ShiftPosition(d.startCursor + i, d.firstChunk);
    assert p == d.startCursor + i + 10 * d.firstChunk;
    BlockSize(d, p / 10);
    assert Elems(d)[i] == Cell(d.dir, p);
  }

  /**
   * getElem (deque.h:203-212): inside the first chunk the offset is direct;
   * otherwise the remaining room of the first chunk is subtracted and whole
   * chunks are counted off one at a time.
   */
  method GetElem<T>(d: Deque<T>, i: nat) returns (chunk: nat, offset: nat, e: T)
    requires Valid(d) && i < Size(d)
    ensures chunk == d.firstChunk + (d.startCursor + i) / 10
    ensures offset == (d.startCursor + i) % 10
    ensures chunk < d.cap && d.dir[chunk].Live? && offset < |d.dir[chunk].cells|
    ensures d.dir[chunk].cells[offset] == Some(e)
    ensures e == Elems(d)[i]
  {
    if d.startCursor + i < 10 {
      chunk, offset := d.firstChunk, d.startCursor + i;
    } else {
      var counter := 1;
      var j: nat := i - (10 - d.startCursor);
      while j >= 10
        invariant counter * 10 + j == d.startCursor + i
        decreases j
      {
        j := j - 10;
        counter := counter + 1;
      }
      chunk, offset := d.firstChunk + counter, j;
    }
    IndexTranslation(d, i);
    e := d.dir[chunk].cells[offset].value;
  }

  /** at (deque.h:223-230): out_of_range exactly when i is not below size(), else element i. */
  method At<T>(d: Deque<T>, i: nat) returns (r: Result<T, AccessError>)
    requires Valid(d)
    ensures r.Failure? <==> i >= Size(d)
    ensures r.Success? ==> r.value == Elems(d)[i]
  {
    if i >= Size(d) {
      return Failure(OutOfRange);
    }
    var _, _, e := GetElem(d, i);
    return Success(e);
  }

  /** operator[] (deque.h:231-232): unchecked, so the caller must keep i below size(). */
  method Subscript<T>(d: Deque<T>, i: nat) returns (e: T)
    requires Valid(d) && i < Size(d)
    ensures e == Elems(d)[i]
  {
    var _, _, x := GetElem(d, i);
    e := x;
  }

  /**
   * Writing through the reference that at, operator[] and getElem return
   * (deque.h:203-232): the element at index i is replaced in place, and
   * nothing else changes.
   */
  function SetElem<T>(d: Deque<T>, i: nat, v: T): (r: Deque<T>)
    requires Valid(d) && i < Size(d)
    ensures Valid(r)
    ensures r.firstChunk == d.firstChunk && r.startCursor == d.startCursor
    ensures r.lastChunk == d.lastChunk && r.endCursor == d.endCursor && r.cap == d.cap
    ensures Elems(r) == Elems(d)[i := v]
  {
    IndexTranslation(d, i);
    var c := d.firstChunk + (d.startCursor + i) / 10;
    var o := (d.startCursor + i) % 10;
    var r := d.(dir := d.dir[c := Live(d.dir[c].cells[o := Some(v)])]);
    SetElemIsValid(d, i, v, r);
    SetElemWrites(d, i, v, r);
    r
  }

  /** The cell written by SetElem is the one holding element i. */
  lemma SetElemCell<T>(d: Deque<T>, i: nat)
    requires Valid(d) && i < Size(d)
    ensures (Begin(d) + i) / 10 == d.firstChunk + (d.startCursor + i) / 10
    ensures (Begin(d) + i) % 10 == (d.startCursor + i) % 10
  {
    ShiftPosition(d.startCursor + i, d.firstChunk);
  }

  lemma SetElemIsValid<T>(d: Deque<T>, i: nat, v: T, r: Deque<T>)
    requires Valid(d) && i < Size(d)
    requires var c := d.firstChunk + (d.startCursor + i) / 10;
      && c < d.cap && d.dir[c].Live? && |d.dir[c].cells| == 10
      && r == d.(dir := d.dir[c := Live(d.dir[c].cells[(d.startCursor + i) % 10 := Some(v)])])
    ensures Valid(r)
  {
    SetElemCell(d, i);
    var c := d.firstChunk + (d.startCursor + i) / 10;
    var q := Begin(d) + i;
    assert Holds(d.dir, q);
    assert Shape(r);
    forall j | 0 <= j < r.cap
      ensures SlotMatches(r, j)
    {
      assert SlotMatches(d, j);
    }
    forall p: nat | Begin(r) <= p < End(r)
      ensures Holds(r.dir, p)
    {
      assert Holds(d.dir, p);
    }
  }

  lemma SetElemWrites<T>(d: Deque<T>, i: nat, v: T, r: Deque<T>)
    requires Valid(d) && i < Size(d) && Valid(r)
    requires var c := d.firstChunk + (d.startCursor + i) / 10;
      && c < d.cap && d.dir[c].Live? && |d.dir[c].cells| == 10
      && r == d.(dir := d.dir[c := Live(d.dir[c].cells[(d.startCursor + i) % 10 := Some(v)])])
    ensures Elems(r) == Elems(d)[i := v]
  {
    SetElemCell(d, i);
    var q := Begin(d) + i;
    forall j | 0 <= j < Size(r)
      ensures Elems(r)[j] == Elems(d)[i := v][j]
    {
      var p := Begin(d) + j;
      assert Holds(d.dir, p);
      if j != i {
        assert Elems(r)[j] == Cell(r.dir, p) == Cell(d.dir, p);
      } else {
        assert Elems(r)[j] == Cell(r.dir, q) == v;
      }
    }
  }

  /** at(i) = v: out_of_range exactly when i is not below size(), else element i is replaced. */
  method AtStore<T>(d: Deque<T>, i: nat, v: T) returns (r: Result<Deque<T>, AccessError>)
    requires Valid(d)
    ensures r.Failure? <==> i >= Size(d)
    ensures r.Success? ==> Valid(r.value) && Elems(r.value) == Elems(d)[i := v]
  {
    if i >= Size(d) {
      return Failure(OutOfRange);
    }
    return Success(SetElem(d, i, v));
  }
}
