# Chunked deque — a Dafny model of `cs246e::deque`

`deque.h` implements a double-ended queue as a directory of chunk handles
(`theDeque`, `cap` entries), each of which points to a block of ten element
slots. Five counters delimit the live range:
- `firstChunk`/`startCursor` locate the first element;
- `lastChunk`/`endCursor` locate the position one past the last element;
- `cap` is the directory length.

The source reads positions like two-digit numbers: the chunk is the tens digit
and the cursor is the ones digit. The model does the same, with linear position
`chunk * 10 + cursor`.

The model is functional. A `Deque<T>` record holds the five counters and a
directory `seq<Slot<T>>`. Each slot is in one of three states:
- `Null`: no block;
- `Live(cells)`: an allocated block whose cells are `Some` exactly where an
  element has been constructed and not yet destroyed;
- `Freed`: the handle still points at a released block.

`operator new`/`delete`, placement new and `~T()` become transitions between
these states. The abstraction `Elems(d)` lists the elements between the begin
and end positions. Every operation is related to its effect on that sequence.

Modules:
- `Wrappers`: `Option` and `Result`.
- `Cursor`: `increment`/`decrement`.
- `DequeModel`: the state, the invariant the code keeps once `pop_back`
  nulls the handle it releases, `size`, `empty`, and the abstraction.
- `Growth`: `grow`, both as written and corrected.
- `Ends`: the four push/pop operations.
- `Access`: `getElem`, `at`, `operator[]`, and writes through the references they return.
- `Lifecycle`: the constructors, `makeChunk`, `copyDeque`, `operator=`,
  `clearChunk` and `clearDeque`.
- `Iteration`: `iterator`, `begin()`, `end()`, and writes through `operator*`.
- `Sequences`: whole operation sequences checked against a plain `seq` reference.
- `Findings`: the two defects listed below.

The invariant `DequeModel.Valid` is the invariant the code keeps once `pop_back`
nulls the handle of the block it releases (see Findings). It is not a tidier one:
- cursors are below 10, `firstChunk <= lastChunk <= cap`, and
  `lastChunk == cap` only when `endCursor == 0`;
- live blocks have ten cells, and a cell is constructed exactly when its
  position lies in `[begin, end)`;
- a non-zero start cursor or end cursor implies an allocated block there;
- no `Freed` handle sits at or after `firstChunk`.

Two things a reader might expect do not hold in the code:
- `pop_front` leaves `Freed` handles below `firstChunk`;
- `lastChunk` can equal `cap` when a push_back or the list constructor ends
  exactly on a chunk boundary (deque.h:144, 291).

## Model

| member | source | states |
|---|---|---|
| Cursor.Increment | deque.h:102-105 | A cursor below 10 steps to the next value modulo 10 and wraps to 0 exactly when it was 9 |
| Cursor.Decrement | deque.h:106-109 | A cursor below 10 steps back modulo 10 and wraps to 9 exactly when it was 0 |
| Cursor.StepsAreInverse | deque.h:102-109 | increment and decrement undo each other on every valid cursor |
| DequeModel.Elems | deque.h:234-238 | The abstract contents have exactly size() elements |
| DequeModel.Empty | deque.h:233 | empty() holds exactly when begin and end coincide, and exactly when the abstract contents are the empty sequence |
| DequeModel.SizeIsConstructedRun | deque.h:234-238 | size() counts the run of constructed positions from begin: every position in [begin, begin + size()) holds an element and the next one does not |
| DequeModel.SizeCountsConstructed | deque.h:234-238 | The linear-distance size formula equals the number of constructed element cells in the directory |
| Access.IndexTranslation | deque.h:203-212 | Element i lives at chunk firstChunk + (startCursor+i)/10, offset (startCursor+i)%10, in an allocated block |
| Access.GetElem | deque.h:203-212 | The subtraction loop computes that chunk/offset pair and returns the constructed value there, which is element i of the contents |
| Access.At | deque.h:223-226 | at(i) fails with out_of_range exactly when i >= size(), and otherwise returns element i |
| Access.Subscript | deque.h:231 | operator[] returns element i for every index below size() |
| Access.SetElem | deque.h:203-212 | Writing through the reference getElem returns for i < size() replaces element i and nothing else, keeps the invariant, and leaves the counters alone |
| Access.AtStore | deque.h:223-226 | Writing through at(i) fails with out_of_range exactly when i >= size(), and otherwise replaces element i and keeps the invariant |
| Growth.HasRoom | deque.h:243-244 | grow returns at once for back exactly when the end position is inside the directory (lastChunk != cap), and for front exactly when the begin position is not 0 (firstChunk or startCursor non-zero) |
| Growth.UsedSpan | deque.h:246-248 | The number of chunks grow moves is at least 1 and covers firstChunk up to lastChunk, excluding a trailing boundary chunk of a non-empty deque |
| Growth.RelocatedIsValid | deque.h:245-263 | Recentring keeps the invariant, shifts begin and end by whole chunks, and leaves free chunks on both sides |
| Growth.RelocatedKeepsElements | deque.h:250-258 | Moving the used handles into the middle third keeps the contents unchanged |
| Growth.Grow | deque.h:242-264 | grow keeps the contents and the invariant; it changes nothing when the requested side has room; otherwise it keeps both cursors and lastChunk - firstChunk, sets cap to three times the used span, and leaves firstChunk >= 1 and lastChunk < cap; afterwards the requested side always has room |
| Growth.GrowAsWrittenFaultsExactly | deque.h:242-264 | The code as written reads past the directory exactly for grow(back) on an empty deque with lastChunk == cap, and agrees with the corrected grow everywhere else |
| Ends.PlaceFrontPrepends | deque.h:268-273 | Once there is room, stepping the start back and constructing x puts x in front of the old contents |
| Ends.PlaceBackAppends | deque.h:287-291 | Once there is room, constructing x at the end and stepping the end forward puts x after the old contents |
| Ends.DropFirstRemovesFirst | deque.h:277-282 | Destroying the first element and stepping the start forward removes exactly the first element |
| Ends.DropLastRemovesLast | deque.h:295-298 | Stepping the end back and destroying that element removes exactly the last element |
| Ends.PushFront | deque.h:266-274 | push_front keeps the invariant and prepends x |
| Ends.PushBack | deque.h:285-292 | push_back keeps the invariant and appends x |
| Ends.PopFront | deque.h:275-283 | pop_front on an empty deque changes nothing; otherwise it removes exactly the first element, and the end and cap stay put |
| Ends.PopBack | deque.h:293-299 | pop_back on an empty deque changes nothing; otherwise it removes exactly the last element, and the start and cap stay put |
| Ends.PopBackAsWrittenDangles | deque.h:293-299 | The code as written removes the same element, but leaves a Freed handle at lastChunk when the end cursor reaches 0 |
| Lifecycle.DefaultDeque | deque.h:136-140 | The default constructor builds a valid empty deque with both cursors at the middle of its single chunk |
| Lifecycle.PlaceOneExtends | deque.h:149-152 | Placing element j allocates its chunk on entering it and constructs init[j] at linear position 4 + j |
| Lifecycle.Place | deque.h:147-153 | The placement loop constructs every element of the list at position 4 + j and leaves no other cell constructed |
| Lifecycle.FromList | deque.h:142-154 | The list constructor has size init.size() and element j equal to init[j] at chunk (4+j)/10, offset (4+j)%10, with the counters and cap the initialisers give |
| Lifecycle.LiveBounds | deque.h:128-131 | The bounds makeChunk is given for chunk i cover exactly the live positions of that chunk |
| Lifecycle.CopiedChunkHoldsLiveCells | deque.h:114-131 | For each chunk of the range, the block copyDeque allocates and fills by makeChunk is a ten-cell block holding a copy of exactly the source's live elements of that chunk, at the same offsets |
| Lifecycle.Copy | deque.h:119-161 | The copy constructor gives identical counters and the same contents, allocates exactly the chunks firstChunk..lastChunk, and nulls every other handle |
| Lifecycle.Assign | deque.h:169-177 | operator= swaps all six fields: the target takes the argument's counters, directory and contents, the by-value argument takes the target's, and validity of both is kept |
| Lifecycle.CopyAssignment | deque.h:169-177 | Assigning a copy gives the target the source's counters and contents; the by-value parameter carries away all six old fields, and destroying it cannot fault |
| Lifecycle.ClearChunk | deque.h:181-185 | Clearing an allocated block whose cells [lo, hi) are constructed frees it; clearing a released block always faults, as a double free exactly when no cell is destroyed; a null handle is safe exactly when there is nothing to destroy |
| Lifecycle.ClearStepSucceeds | deque.h:186-193 | On a valid deque, each step of clearDeque succeeds, releases every chunk in firstChunk..lastChunk, and leaves other handles alone |
| Lifecycle.ClearFrom | deque.h:186-195 | On a valid deque, the clearing loop from chunk i succeeds and releases every remaining handle as its step prescribes |
| Lifecycle.ClearFromStopsAtFirstFault | deque.h:181-195 | The clearing loop reports the fault of the first chunk whose clearChunk faults |
| Lifecycle.ClearDeque | deque.h:181-199 | Destroying a valid deque never faults, frees every chunk in the live range, keeps the others, and leaves no constructed element behind |
| Iteration.BeginIter | deque.h:332-334 | begin() points at the first element position |
| Iteration.EndIter | deque.h:335-337 | end() points at the one-past-last position |
| Iteration.Next | deque.h:309-316 | ++ moves a well-formed iterator exactly one position forward, across a chunk boundary when the cursor is 9 |
| Iteration.Differs | deque.h:306-308 | != holds exactly when the two iterators denote different positions |
| Iteration.Deref | deque.h:305 | Dereferencing an iterator inside [begin, end) yields the element at its offset from begin |
| Iteration.Store | deque.h:305 | Writing through *it for an iterator inside [begin, end) replaces the element at its offset from begin, keeps begin, end and the invariant, and a later *it reads the new value |
| Iteration.AdvanceMoves | deque.h:309-316 | k applications of ++ move an iterator k positions forward |
| Iteration.WalkFromBegin | deque.h:304-337 | After k < size() increments from begin() the iterator differs from end() and reads element k; after size() increments it equals end() |
| Iteration.Traverse | deque.h:304-337 | A begin()..end() loop visits exactly the contents, in order |
| Sequences.Apply | deque.h:266-299 | Each push/pop affects the contents exactly as the corresponding operation on a plain sequence does |
| Sequences.RunMatchesReference | deque.h:266-299 | Any sequence of pushes and pops leaves the same contents as the plain-sequence reference run |
| Sequences.SizeTracksNetCount | deque.h:266-299 | A push adds one to size(), and a pop subtracts one unless the deque was empty |
| Sequences.PopsOnEmptyStayEmpty | deque.h:275-299 | Any number of pops on an empty deque leave it unchanged |
| Sequences.PushBackAll | deque.h:285-292 | Repeated push_back appends the whole list in order |
| Sequences.PopFrontTimes | deque.h:275-283 | n pop_fronts drop exactly the first n elements, or empty a deque holding fewer |
| Sequences.PushPopScenario | deque.h:266-292 | Filling an empty deque by push_back, popping n from the front and pushing y at the front leaves y followed by the rest of the list |
| Findings.GrowReadsPastEndAfterDrain | deque.h:242-264 | A six-element list-constructed deque drained by pop_front reaches firstChunk == lastChunk == cap == 1, where grow(back) as written reads index 1 of a length-1 directory |
| Findings.DrainedDequeStillGrows | deque.h:242-264 | On such a drained deque the corrected grow makes room and push_back succeeds, where the code as written faults |
| Findings.PopBackThenDestroyDoubleFrees | deque.h:293-299 | After pop_back as written empties the last block, destroying the deque frees that block a second time |
| Findings.DoubleFreeIsReachable | deque.h:181-199 | A seven-element list-constructed deque followed by one pop_back as written double-frees chunk 1 on destruction |
| Findings.PopBackThenDestroyIsClean | deque.h:293-299 | With the corrected pop_back, destroying the deque afterwards never faults |

## Left out

- The `deque(T &&other)` constructor (deque.h:163-167): it takes the element type, not a deque, so it is not a move constructor of the deque.
- `const_iterator` and the const `begin()`/`end()` overloads (deque.h:70-79, 318-343): they duplicate `iterator`. The const overloads of `getElem` and `at` (deque.h:213-222, 227-232) duplicate the non-const ones in the same way.
- The debugging `printStuff` (deque.h:86-99).
- Raw memory: the allocator, `new T*[n]`, `delete []` of the directory, and `operator new`/`delete` of blocks are slot-state transitions (`Null`, `Live`, `Freed`), not addresses. Leaked blocks are not tracked. For example, the copy constructor allocates a block at `lastChunk` even when `endCursor` is 0 and `lastChunk < cap`, and a later push_back replaces it.
- Exceptions thrown by an element's copy constructor during `copyDeque` or push: the code has no cleanup to model.
- The `std::string` direction argument of `grow` is the two-valued `Growth.Direction`.
- Amortised complexity claims.
- `size_t` arithmetic: the counters are unbounded naturals. A directory large enough to overflow `10 * lastChunk` is not modelled.
- Lifecycle.ClearDeque: its contract is stated for valid deques only, because the destructor of an invalid state is meaningful only through the faults in `Findings`.

## Findings

| source | as written | input that shows it | evidently intended | confidence | as-written member | corrected member |
|---|---|---|---|---|---|---|
| deque.h:242-264 | `grow("back")` proceeds when `lastChunk == cap`. On an empty deque with `firstChunk == lastChunk == cap`, `currentSize` is 1 and the loop reads and nulls `theDeque[cap]`, one past the directory | list-construct six elements (cap 1, lastChunk 1, endCursor 0), pop_front six times, then push_back | an empty deque should relocate without touching handles past the directory | not executed | Growth.GrowAsWritten (shown by Findings.GrowReadsPastEndAfterDrain) | Growth.Grow |
| deque.h:293-299 | `pop_back` frees the block at `lastChunk` when `endCursor` becomes 0 but keeps the handle; `clearDeque` then calls `clearChunk(lastChunk, 0, 0)`, which frees it again | list-construct seven elements (lastChunk 1, endCursor 1), pop_back once, then destroy | the freed handle should be nulled (or the block kept) so that destruction frees each block once | not executed | Ends.PopBackAsWritten (shown by Findings.PopBackThenDestroyDoubleFrees and Findings.DoubleFreeIsReachable) | Ends.PopBack (clean destruction: Findings.PopBackThenDestroyIsClean) |
