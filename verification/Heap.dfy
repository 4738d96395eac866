/**
 `DefaultMemoryManager`: the interpreter's heap. Pages of fixed size hold blocks; a request
 goes into the first gap before a live block that is large enough, or else behind everything
 on the last page, or onto a new page. A block is a page and an offset, not a host address.
 */
module Heap {

  const PAGE_SIZE := 1024 * 1024
  const DEFAULT_MAXIMUM_HEAP_PAGES := 3

  datatype Block = Block(page: nat, offset: nat, size: nat)
  {
    function End(): nat {
      offset + size
    }
  }

  datatype Error = TooLarge | OutOfMemory | InvalidOffset | MemoryError

  datatype Outcome = Ok(block: Block) | Err(error: Error)

  /** m_buffers.size(), m_buffer_pos, and m_allocs in the order of its keys. */
  datatype State = State(pages: nat, pos: nat, allocs: seq<Block>)

  // The ordered map of live blocks.

  predicate KeyBefore(a: Block, b: Block) {
    a.page < b.page || (a.page == b.page && a.offset < b.offset)
  }

  predicate SameKey(a: Block, b: Block) {
    a.page == b.page && a.offset == b.offset
  }

  /** emplace: insert by key, unless the key is taken. */
  function Emplace(allocs: seq<Block>, b: Block): seq<Block> {
    if allocs == [] then [b]
    else if SameKey(allocs[0], b) then allocs
    else if KeyBefore(b, allocs[0]) then [b] + allocs
    else [allocs[0]] + Emplace(allocs[1..], b)
  }

  /** find, as an index; |allocs| if there is none. */
  function Find(allocs: seq<Block>, page: nat, offset: nat): (i: nat)
    ensures i <= |allocs|
    ensures i < |allocs| ==> allocs[i].page == page && allocs[i].offset == offset
  {
    if allocs == [] then 0
    else if allocs[0].page == page && allocs[0].offset == offset then 0
    else 1 + Find(allocs[1..], page, offset)
  }

  // What malloc and free do.

  /** last_pos when block i is reached: where the last block of the page before it ends. */
  function LastEnd(allocs: seq<Block>, i: nat, page: nat): nat
    requires i <= |allocs|
  {
    if i == 0 then 0
    else if allocs[i - 1].page == page then allocs[i - 1].End()
    else LastEnd(allocs, i - 1, page)
  }

  /** Is there room for `size` bytes right before block i on this page? */
  predicate GapBefore(allocs: seq<Block>, i: nat, page: nat, size: nat)
    requires i < |allocs|
  {
    allocs[i].page == page && allocs[i].offset - LastEnd(allocs, i, page) >= size
  }

  /** The first block from i on that has such a gap before it; |allocs| if none has. */
  function FirstGap(allocs: seq<Block>, i: nat, page: nat, size: nat): (k: nat)
    requires i <= |allocs|
    ensures i <= k <= |allocs|
    ensures k < |allocs| ==> GapBefore(allocs, k, page, size)
    ensures forall j :: i <= j < k ==> !GapBefore(allocs, j, page, size)
    decreases |allocs| - i
  {
    if i == |allocs| || GapBefore(allocs, i, page, size) then i else FirstGap(allocs, i + 1, page, size)
  }

  /** The first page from p on with a gap; `pages` if there is none. */
  function FirstPage(allocs: seq<Block>, p: nat, pages: nat, size: nat): (q: nat)
    requires p <= pages
    ensures p <= q <= pages
    ensures q < pages ==> FirstGap(allocs, 0, q, size) < |allocs|
    ensures forall r :: p <= r < q ==> FirstGap(allocs, 0, r, size) == |allocs|
    decreases pages - p
  {
    if p == pages || FirstGap(allocs, 0, p, size) < |allocs| then p else FirstPage(allocs, p + 1, pages, size)
  }

  function Assign(s: State, b: Block): (State, Outcome) {
    if b.End() > PAGE_SIZE then (s, Err(InvalidOffset))
    else (s.(allocs := Emplace(s.allocs, b)), Ok(b))
  }

  predicate OnLastPage(s: State) {
    s.pages > 0 && (s.pages - 1) * PAGE_SIZE <= s.pos < s.pages * PAGE_SIZE
  }

  function Bump(s: State, size: nat, maxPages: nat): (State, Outcome)
    requires OnLastPage(s)
  {
    if s.pos + size >= s.pages * PAGE_SIZE then
      if s.pages == maxPages then (s, Err(OutOfMemory))
      else Assign(State(s.pages + 1, s.pages * PAGE_SIZE + size, s.allocs), Block(s.pages, 0, size))
    else Assign(s.(pos := s.pos + size), Block(s.pages - 1, s.pos - (s.pages - 1) * PAGE_SIZE, size))
  }

  function Allocated(s: State, size: nat, maxPages: nat): (State, Outcome)
    requires OnLastPage(s)
  {
    if size >= PAGE_SIZE then (s, Err(TooLarge))
    else
      var q := FirstPage(s.allocs, 0, s.pages, size);
      if q < s.pages then
        Assign(s, Block(q, LastEnd(s.allocs, FirstGap(s.allocs, 0, q, size), q), size))
      else Bump(s, size, maxPages)
  }

  function Freed(s: State, page: nat, offset: nat): (State, Outcome) {
    var i := Find(s.allocs, page, offset);
    if i == |s.allocs| then (s, Err(MemoryError))
    else (s.(allocs := s.allocs[..i] + s.allocs[i + 1..]), Ok(s.allocs[i]))
  }

  // The invariant.

  /** a starts before b and does not reach into it. */
  predicate Before(a: Block, b: Block) {
    a.page < b.page || (a.page == b.page && a.offset < b.offset && a.End() <= b.offset)
  }

  ghost predicate Apart(allocs: seq<Block>) {
    forall i, j :: 0 <= i < j < |allocs| ==> Before(allocs[i], allocs[j])
  }

  /** A live block lies inside its page, and on the last page before `pos`. */
  predicate InPlace(b: Block, pages: nat, pos: nat) {
    && b.page < pages && b.End() <= PAGE_SIZE
    && (b.page == pages - 1 ==> b.page * PAGE_SIZE + b.End() <= pos)
  }

  /** No live block is empty. */
  ghost predicate Solid(s: State) {
    forall a :: a in s.allocs ==> a.size > 0
  }

  /** The place of the block is not that of a live one. */
  ghost predicate NewPlace(s: State, b: Block) {
    forall a :: a in s.allocs ==> !SameKey(a, b)
  }

  ghost predicate Safe(s: State, maxPages: nat) {
    && s.pages <= maxPages && OnLastPage(s)
    && Apart(s.allocs)
    && forall i :: 0 <= i < |s.allocs| ==> InPlace(s.allocs[i], s.pages, s.pos)
  }

  /** Two blocks share a byte. */
  predicate Overlap(a: Block, b: Block) {
    a.page == b.page && a.offset < b.End() && b.offset < a.End()
  }

  lemma {:induction false} LastEndInOrder(allocs: seq<Block>, i: nat, page: nat)
    requires Apart(allocs) && i < |allocs| && allocs[i].page == page
    ensures LastEnd(allocs, i, page) <= allocs[i].offset
    ensures forall j :: 0 <= j < i ==>
      allocs[j].page < page || (allocs[j].page == page && allocs[j].End() <= LastEnd(allocs, i, page))
  {
    forall j | 0 <= j < i
      ensures allocs[j].page < page || (allocs[j].page == page && allocs[j].End() <= LastEnd(allocs, i, page))
    {
      assert Before(allocs[j], allocs[i]);
      if j < i - 1 {
        assert Before(allocs[j], allocs[i - 1]) && Before(allocs[i - 1], allocs[i]);
      }
    }
    if i > 0 {
      assert Before(allocs[i - 1], allocs[i]);
      if allocs[i - 1].page != page {
        NoBlockBefore(allocs, i, page);
      }
    }
  }

  lemma {:induction false} NoBlockBefore(allocs: seq<Block>, i: nat, page: nat)
    requires i <= |allocs| && forall j :: 0 <= j < i ==> allocs[j].page != page
    ensures LastEnd(allocs, i, page) == 0
  {
    if i > 0 {
      NoBlockBefore(allocs, i - 1, page);
    }
  }

  /** A new block at index k, between its neighbours. */
  ghost predicate Fits(allocs: seq<Block>, k: nat, b: Block) {
    && k <= |allocs|
    && (forall j :: 0 <= j < k ==> Before(allocs[j], b))
    && (forall j :: k <= j < |allocs| ==> Before(b, allocs[j]))
  }

  /** Emplacing a block that fits between its neighbours puts it there: its key is not taken. */
  lemma {:induction false} EmplaceAt(allocs: seq<Block>, k: nat, b: Block)
    requires Fits(allocs, k, b)
    ensures k <= |allocs| && Emplace(allocs, b) == allocs[..k] + [b] + allocs[k..]
    decreases k
  {
    if k == 0 {
      assert allocs[..0] + [b] + allocs[0..] == [b] + allocs;
    } else {
      assert Before(allocs[0], b);
      assert forall j :: 0 <= j < |allocs| - 1 ==> allocs[1..][j] == allocs[j + 1];
      EmplaceAt(allocs[1..], k - 1, b);
      ShiftedSlices(allocs, k, b);
    }
  }

  lemma ShiftedSlices(allocs: seq<Block>, k: nat, b: Block)
    requires 0 < k <= |allocs|
    ensures [allocs[0]] + (allocs[1..][..k - 1] + [b] + allocs[1..][k - 1..]) == allocs[..k] + [b] + allocs[k..]
  {
    assert allocs[..k] == [allocs[0]] + allocs[1..][..k - 1] && allocs[1..][k - 1..] == allocs[k..];
  }

  lemma ApartWith(allocs: seq<Block>, k: nat, b: Block)
    requires Apart(allocs) && Fits(allocs, k, b)
    ensures k <= |allocs| && Apart(allocs[..k] + [b] + allocs[k..])
  {
  }

  // Every step keeps the invariant.

  lemma AssignSafe(s: State, t: State, k: nat, b: Block, maxPages: nat)
    requires Safe(s, maxPages) && Fits(s.allocs, k, b)
    requires t.allocs == s.allocs && s.pages <= t.pages <= maxPages && OnLastPage(t) && InPlace(b, t.pages, t.pos)
    requires t.pages == s.pages ==> t.pos >= s.pos
    ensures Assign(t, b).1 == Ok(b) && Safe(Assign(t, b).0, maxPages)
    ensures Assign(t, b).0.allocs == s.allocs[..k] + [b] + s.allocs[k..]
  {
    EmplaceAt(s.allocs, k, b);
    ApartWith(s.allocs, k, b);
    var after := s.allocs[..k] + [b] + s.allocs[k..];
    hide *;
    StillInPlace(s, t, k, b, maxPages);
    AssignIs(t, b, after, maxPages);
  }

  /** Where the place is taken, nothing is inserted. */
  lemma AssignTaken(s: State, t: State, b: Block, maxPages: nat)
    requires Safe(s, maxPages) && !NewPlace(s, b)
    requires t.allocs == s.allocs && s.pages <= t.pages <= maxPages && OnLastPage(t) && InPlace(b, t.pages, t.pos)
    requires t.pages == s.pages ==> t.pos >= s.pos
    ensures Assign(t, b).1 == Ok(b) && Safe(Assign(t, b).0, maxPages)
    ensures Assign(t, b).0.allocs == s.allocs
  {
    SafeKeys(s, maxPages);
    PlaceIs(s, b);
    EmplaceTaken(s.allocs, b);
    forall i | 0 <= i < |s.allocs| ensures InPlace(s.allocs[i], t.pages, t.pos) {
      assert InPlace(s.allocs[i], s.pages, s.pos);
    }
    assert Apart(t.allocs);
    hide *;
    AssignIs(t, b, t.allocs, maxPages);
  }

  lemma StillInPlace(s: State, t: State, k: nat, b: Block, maxPages: nat)
    requires Safe(s, maxPages) && k <= |s.allocs| && InPlace(b, t.pages, t.pos)
    requires s.pages <= t.pages && (t.pages == s.pages ==> t.pos >= s.pos)
    ensures var after := s.allocs[..k] + [b] + s.allocs[k..];
      forall i :: 0 <= i < |after| ==> InPlace(after[i], t.pages, t.pos)
  {
    var after := s.allocs[..k] + [b] + s.allocs[k..];
    forall i | 0 <= i < |after| ensures InPlace(after[i], t.pages, t.pos) {
      if i < k {
        assert after[i] == s.allocs[i] && InPlace(s.allocs[i], s.pages, s.pos);
      } else if i > k {
        assert after[i] == s.allocs[i - 1] && InPlace(s.allocs[i - 1], s.pages, s.pos);
      }
    }
  }

  lemma AssignIs(t: State, b: Block, after: seq<Block>, maxPages: nat)
    requires t.pages <= maxPages && OnLastPage(t) && InPlace(b, t.pages, t.pos)
    requires Emplace(t.allocs, b) == after && Apart(after)
    requires forall i :: 0 <= i < |after| ==> InPlace(after[i], t.pages, t.pos)
    ensures Assign(t, b).1 == Ok(b) && Assign(t, b).0.allocs == after && Safe(Assign(t, b).0, maxPages)
  {
    hide Emplace, Apart;
  }

  /** A gap takes a block, unless a block of no bytes is there or is to be put there. */
  lemma GapFits(s: State, size: nat, maxPages: nat, q: nat, k: nat)
    requires Safe(s, maxPages) && q < s.pages && k < |s.allocs| && GapBefore(s.allocs, k, q, size)
    ensures var b := Block(q, LastEnd(s.allocs, k, q), size);
      && InPlace(b, s.pages, s.pos) && (forall a :: a in s.allocs ==> !Overlap(a, b))
      && (NewPlace(s, b) ==> Fits(s.allocs, k, b))
  {
    LastEndInOrder(s.allocs, k, q);
    assert InPlace(s.allocs[k], s.pages, s.pos);
    hide LastEnd;
    var b := Block(q, LastEnd(s.allocs, k, q), size);
    forall j | k <= j < |s.allocs| ensures s.allocs[j].page > q || s.allocs[j].offset >= b.End() {
      assert j > k ==> Before(s.allocs[k], s.allocs[j]);
    }
    forall j | 0 <= j < |s.allocs| && !SameKey(s.allocs[j], b)
      ensures if j < k then Before(s.allocs[j], b) else Before(b, s.allocs[j])
    {
    }
  }

  lemma EndFits(s: State, b: Block, pages: nat, pos: nat, maxPages: nat)
    requires Safe(s, maxPages) && b.size < PAGE_SIZE
    requires (b == Block(s.pages, 0, b.size) && pages == s.pages + 1 && pos == s.pages * PAGE_SIZE + b.size)
      || (b == Block(s.pages - 1, s.pos - (s.pages - 1) * PAGE_SIZE, b.size)
          && pages == s.pages && pos == s.pos + b.size < s.pages * PAGE_SIZE)
    ensures InPlace(b, pages, pos) && (forall a :: a in s.allocs ==> !Overlap(a, b))
    ensures NewPlace(s, b) ==> Fits(s.allocs, |s.allocs|, b)
  {
    forall j | 0 <= j < |s.allocs|
      ensures s.allocs[j].page < b.page || (s.allocs[j].page == b.page && s.allocs[j].End() <= b.offset)
    {
      assert InPlace(s.allocs[j], s.pages, s.pos);
    }
    forall j | 0 <= j < |s.allocs| && !SameKey(s.allocs[j], b) ensures Before(s.allocs[j], b) {
    }
  }

  /** Some page has a gap for a block of this size. */
  ghost predicate HasGap(s: State, size: nat) {
    exists k :: 0 <= k < |s.allocs| && s.allocs[k].page < s.pages && GapBefore(s.allocs, k, s.allocs[k].page, size)
  }

  lemma NoGap(s: State, size: nat)
    ensures FirstPage(s.allocs, 0, s.pages, size) == s.pages <==> !HasGap(s, size)
  {
    hide GapBefore;
    var q := FirstPage(s.allocs, 0, s.pages, size);
    if q < s.pages {
      var k := FirstGap(s.allocs, 0, q, size);
      assert GapBefore(s.allocs, k, q, size);
      assert s.allocs[k].page == q by { GapPage(s.allocs, k, q, size); }
    } else {
      forall k | 0 <= k < |s.allocs| && s.allocs[k].page < s.pages
        ensures !GapBefore(s.allocs, k, s.allocs[k].page, size)
      {
        assert FirstGap(s.allocs, 0, s.allocs[k].page, size) == |s.allocs|;
      }
    }
  }

  lemma GapPage(allocs: seq<Block>, k: nat, page: nat, size: nat)
    requires k < |allocs| && GapBefore(allocs, k, page, size)
    ensures allocs[k].page == page
  {
  }

  ghost predicate NoRoom(s: State, size: nat, maxPages: nat) {
    !HasGap(s, size) && s.pos + size >= s.pages * PAGE_SIZE && s.pages == maxPages
  }

  /** The blocks are those of before and b, at index k. */
  ghost predicate InsertedAt(after: seq<Block>, before: seq<Block>, k: int, b: Block) {
    0 <= k <= |before| && after == before[..k] + [b] + before[k..]
  }

  lemma InsertedFacts(after: seq<Block>, before: seq<Block>, k: int, b: Block)
    requires InsertedAt(after, before, k, b)
    ensures 0 <= k < |after| && after[k] == b && after[..k] + after[k + 1..] == before
  {
  }

  /** b is the one block more, or its place was that of a live block and nothing has changed. */
  ghost predicate Recorded(s: State, t: State, b: Block) {
    if NewPlace(s, b) then exists k :: InsertedAt(t.allocs, s.allocs, k, b) else t.allocs == s.allocs
  }

  /**
     A request keeps the heap safe; a block that is handed out lies in its page, overlaps no live
     one, and is the only change, unless its place was taken; and a request fails only for its
     size or when there is neither a gap nor room for it on the last page nor another page.
   */
  lemma MallocSafe(s: State, size: nat, maxPages: nat)
    requires Safe(s, maxPages)
    ensures var (t, r) := Allocated(s, size, maxPages);
      && Safe(t, maxPages)
      && (r.Ok? ==>
          && r.block.size == size && InPlace(r.block, t.pages, t.pos)
          && (forall a :: a in s.allocs ==> !Overlap(a, r.block)) && Recorded(s, t, r.block))
      && (r.Err? ==> t == s && r.error == if size >= PAGE_SIZE then TooLarge else OutOfMemory)
      && (r.Err? <==> (size >= PAGE_SIZE || NoRoom(s, size, maxPages)))
  {
    hide *;
    AllocatedCases(s, size, maxPages);
    NoGap(s, size);
    NoRoomIs(s, size, maxPages);
    SafeRange(s, maxPages);
    var q := FirstPage(s.allocs, 0, s.pages, size);
    if size < PAGE_SIZE {
      if q < s.pages {
        var k := FirstGap(s.allocs, 0, q, size);
        var b := Block(q, LastEnd(s.allocs, k, q), size);
        GapFits(s, size, maxPages, q, k);
        Served(s, s, k, b, maxPages);
      } else if s.pos + size < s.pages * PAGE_SIZE {
        var b := Block(s.pages - 1, s.pos - (s.pages - 1) * PAGE_SIZE, size);
        EndFits(s, b, s.pages, s.pos + size, maxPages);
        OnSamePage(s, size);
        Served(s, s.(pos := s.pos + size), |s.allocs|, b, maxPages);
      } else if s.pages != maxPages {
        var b := Block(s.pages, 0, size);
        EndFits(s, b, s.pages + 1, s.pages * PAGE_SIZE + size, maxPages);
        OnNextPage(s, size, maxPages);
        Served(s, State(s.pages + 1, s.pages * PAGE_SIZE + size, s.allocs), |s.allocs|, b, maxPages);
      }
    }
  }

  /** The cases of malloc. */
  lemma AllocatedCases(s: State, size: nat, maxPages: nat)
    requires Safe(s, maxPages)
    ensures OnLastPage(s) && 1 <= s.pages && (s.pages - 1) * PAGE_SIZE <= s.pos
    ensures size >= PAGE_SIZE ==> Allocated(s, size, maxPages) == (s, Err(TooLarge))
    ensures size < PAGE_SIZE ==>
      var q := FirstPage(s.allocs, 0, s.pages, size);
      Allocated(s, size, maxPages) ==
      if q < s.pages then Assign(s, Block(q, LastEnd(s.allocs, FirstGap(s.allocs, 0, q, size), q), size))
      else if s.pos + size < s.pages * PAGE_SIZE then
        Assign(s.(pos := s.pos + size), Block(s.pages - 1, s.pos - (s.pages - 1) * PAGE_SIZE, size))
      else if s.pages == maxPages then (s, Err(OutOfMemory))
      else Assign(State(s.pages + 1, s.pages * PAGE_SIZE + size, s.allocs), Block(s.pages, 0, size))
  {
    hide FirstPage, FirstGap, LastEnd, Assign, Apart, InPlace;
  }

  lemma NoRoomIs(s: State, size: nat, maxPages: nat)
    ensures NoRoom(s, size, maxPages) <==>
      !HasGap(s, size) && s.pos + size >= s.pages * PAGE_SIZE && s.pages == maxPages
  {
    hide HasGap;
  }

  lemma OnSamePage(s: State, size: nat)
    requires OnLastPage(s) && s.pos + size < s.pages * PAGE_SIZE
    ensures OnLastPage(s.(pos := s.pos + size))
  {
  }

  lemma OnNextPage(s: State, size: nat, maxPages: nat)
    requires Safe(s, maxPages) && s.pages != maxPages && size < PAGE_SIZE
    ensures OnLastPage(State(s.pages + 1, s.pages * PAGE_SIZE + size, s.allocs)) && s.pages + 1 <= maxPages
  {
    hide Apart, InPlace;
  }

  /** A block that fits, if its place is new, is handed out, and it is the only change. */
  lemma Served(s: State, u: State, k: nat, b: Block, maxPages: nat)
    requires Safe(s, maxPages) && (NewPlace(s, b) ==> Fits(s.allocs, k, b))
    requires u.allocs == s.allocs && s.pages <= u.pages <= maxPages && OnLastPage(u) && InPlace(b, u.pages, u.pos)
    requires u.pages == s.pages ==> u.pos >= s.pos
    ensures Assign(u, b).1 == Ok(b) && Safe(Assign(u, b).0, maxPages)
    ensures InPlace(b, Assign(u, b).0.pages, Assign(u, b).0.pos) && Recorded(s, Assign(u, b).0, b)
  {
    hide *;
    var t := Assign(u, b).0;
    AssignKeeps(u, b);
    if NewPlace(s, b) {
      FitsIndex(s.allocs, k, b);
      AssignSafe(s, u, k, b, maxPages);
      InsertedAtIs(t.allocs, s.allocs, k, b);
      RecordedIs(s, t, b, k);
    } else {
      AssignTaken(s, u, b, maxPages);
      RecordedIs(s, t, b, 0);
    }
  }

  lemma AssignKeeps(u: State, b: Block)
    ensures Assign(u, b).0.pages == u.pages && Assign(u, b).0.pos == u.pos
  {
    hide Emplace;
  }

  lemma RecordedIs(s: State, t: State, b: Block, k: nat)
    ensures NewPlace(s, b) && InsertedAt(t.allocs, s.allocs, k, b) ==> Recorded(s, t, b)
    ensures !NewPlace(s, b) ==> (Recorded(s, t, b) <==> t.allocs == s.allocs)
  {
    hide NewPlace, InsertedAt;
  }

  lemma RecordedFacts(s: State, t: State, b: Block)
    requires Recorded(s, t, b)
    ensures NewPlace(s, b) ==> exists k :: InsertedAt(t.allocs, s.allocs, k, b)
    ensures !NewPlace(s, b) ==> t.allocs == s.allocs
  {
    hide NewPlace, InsertedAt;
  }

  lemma FitsIndex(allocs: seq<Block>, k: nat, b: Block)
    requires Fits(allocs, k, b)
    ensures k <= |allocs|
  {
    hide Before;
  }

  lemma InsertedAtIs(after: seq<Block>, before: seq<Block>, k: nat, b: Block)
    requires k <= |before| && after == before[..k] + [b] + before[k..]
    ensures InsertedAt(after, before, k, b)
  {
  }

  lemma FreeSafe(s: State, page: nat, offset: nat, maxPages: nat)
    requires Safe(s, maxPages)
    ensures Safe(Freed(s, page, offset).0, maxPages)
  {
    var i := Find(s.allocs, page, offset);
    if i < |s.allocs| {
      var after := s.allocs[..i] + s.allocs[i + 1..];
      assert forall j :: 0 <= j < |after| ==> after[j] == if j < i then s.allocs[j] else s.allocs[j + 1];
    }
  }

  /** Emplacing under a new key puts the block where it is found again, and is undone by erasing it. */
  lemma {:induction false} EmplaceNew(allocs: seq<Block>, b: Block)
    requires Find(allocs, b.page, b.offset) == |allocs|
    ensures var after := Emplace(allocs, b); var k := Find(after, b.page, b.offset);
      k < |after| && after[k] == b && after[..k] + after[k + 1..] == allocs
  {
    if allocs != [] && !KeyBefore(b, allocs[0]) {
      EmplaceNew(allocs[1..], b);
      var rest := Emplace(allocs[1..], b);
      WithoutOne(allocs[0], rest, Find(rest, b.page, b.offset));
    }
  }

  lemma WithoutOne(a: Block, rest: seq<Block>, k: nat)
    requires k < |rest|
    ensures ([a] + rest)[1..] == rest && ([a] + rest)[k + 1] == rest[k]
    ensures ([a] + rest)[..k + 1] + ([a] + rest)[k + 2..] == [a] + (rest[..k] + rest[k + 1..])
  {
  }

  /** Under a key that is taken, nothing is inserted. */
  lemma {:induction false} EmplaceTaken(allocs: seq<Block>, b: Block)
    requires KeysInOrder(allocs) && Find(allocs, b.page, b.offset) < |allocs|
    ensures Emplace(allocs, b) == allocs
  {
    if !SameKey(allocs[0], b) {
      var k := Find(allocs, b.page, b.offset);
      assert KeyBefore(allocs[0], allocs[k]);
      assert forall i :: 0 <= i < |allocs| - 1 ==> allocs[1..][i] == allocs[i + 1];
      EmplaceTaken(allocs[1..], b);
    }
  }

  ghost predicate KeysInOrder(allocs: seq<Block>) {
    forall i, j :: 0 <= i < j < |allocs| ==> KeyBefore(allocs[i], allocs[j])
  }

  lemma SafeKeys(s: State, maxPages: nat)
    requires Safe(s, maxPages)
    ensures KeysInOrder(s.allocs)
  {
    forall i, j | 0 <= i < j < |s.allocs| ensures KeyBefore(s.allocs[i], s.allocs[j]) {
      assert Before(s.allocs[i], s.allocs[j]);
    }
  }

  lemma {:induction false} FindNothing(allocs: seq<Block>, b: Block)
    ensures Find(allocs, b.page, b.offset) == |allocs| <==> forall a :: a in allocs ==> !SameKey(a, b)
  {
    if allocs != [] {
      FindNothing(allocs[1..], b);
      if SameKey(allocs[0], b) {
        assert allocs[0] in allocs;
      } else {
        assert forall a :: a in allocs <==> a == allocs[0] || a in allocs[1..];
      }
    }
  }

  /**
     Freeing what was just handed out leaves the blocks as they were before, exactly if it was
     handed out at a place of its own. Where no block is empty, a request for at least one byte
     always is.
   */
  lemma FreeUndoesMalloc(s: State, size: nat, maxPages: nat)
    requires Safe(s, maxPages)
    ensures var (t, r) := Allocated(s, size, maxPages);
      r.Ok? ==>
        && (Freed(t, r.block.page, r.block.offset) == (t.(allocs := s.allocs), Ok(r.block)) <==> NewPlace(s, r.block))
        && (Solid(s) && size > 0 ==> NewPlace(s, r.block))
  {
    hide *;
    SafeRange(s, maxPages);
    SafeKeys(s, maxPages);
    var (t, r) := Allocated(s, size, maxPages);
    if r.Ok? {
      var b := r.block;
      AllocatedIsEmplaced(s, size, maxPages);
      PlaceIs(s, b);
      if Find(s.allocs, b.page, b.offset) == |s.allocs| {
        EmplaceNew(s.allocs, b);
        FreeIs(t, Find(t.allocs, b.page, b.offset), b);
      } else {
        EmplaceTaken(s.allocs, b);
        ErasesOne(t, b);
      }
      MallocSafe(s, size, maxPages);
      if Solid(s) && size > 0 {
        OwnPlace(s, b);
      }
    }
  }

  /** Whatever malloc hands out has been emplaced. */
  lemma AllocatedIsEmplaced(s: State, size: nat, maxPages: nat)
    requires Safe(s, maxPages)
    ensures OnLastPage(s)
    ensures var (t, r) := Allocated(s, size, maxPages);
      r.Ok? ==> t.allocs == Emplace(s.allocs, r.block) && r.block.size == size
  {
    hide FirstPage, FirstGap, LastEnd, Emplace, Apart, InPlace;
  }

  lemma PlaceIs(s: State, b: Block)
    ensures NewPlace(s, b) <==> Find(s.allocs, b.page, b.offset) == |s.allocs|
  {
    hide Find;
    FindNothing(s.allocs, b);
  }

  lemma ErasesOne(t: State, b: Block)
    requires Find(t.allocs, b.page, b.offset) < |t.allocs|
    ensures Freed(t, b.page, b.offset).0.allocs != t.allocs
  {
  }

  lemma OwnPlace(s: State, b: Block)
    requires Solid(s) && b.size > 0 && (forall a :: a in s.allocs ==> !Overlap(a, b))
    ensures NewPlace(s, b)
  {
    forall a | a in s.allocs ensures !SameKey(a, b) {
      assert a.size > 0 && !Overlap(a, b);
    }
  }

  lemma SafeRange(s: State, maxPages: nat)
    requires Safe(s, maxPages)
    ensures OnLastPage(s) && s.pages <= maxPages
  {
  }

  lemma FreeIs(s: State, k: nat, b: Block)
    requires k < |s.allocs| && s.allocs[k] == b && Find(s.allocs, b.page, b.offset) == k
    ensures Freed(s, b.page, b.offset) == (s.(allocs := s.allocs[..k] + s.allocs[k + 1..]), Ok(b))
  {
  }

  // Whole runs.

  datatype Request = Allocate(size: nat) | Release(page: nat, offset: nat)

  const EMPTY := State(1, 0, [])

  function Step(s: State, q: Request, maxPages: nat): (State, Outcome)
    requires OnLastPage(s)
  {
    match q
    case Allocate(size) => Allocated(s, size, maxPages)
    case Release(page, offset) => Freed(s, page, offset)
  }

  lemma StepSafe(s: State, q: Request, maxPages: nat)
    requires Safe(s, maxPages)
    ensures Safe(Step(s, q, maxPages).0, maxPages) && Step(s, q, maxPages).1 != Err(InvalidOffset)
  {
    hide Allocated, Freed, HasGap, Recorded;
    match q {
      case Allocate(size) => MallocSafe(s, size, maxPages);
      case Release(page, offset) => FreeSafe(s, page, offset, maxPages); FreeOutcome(s, page, offset);
    }
  }

  lemma FreeOutcome(s: State, page: nat, offset: nat)
    ensures Freed(s, page, offset).1 != Err(InvalidOffset)
  {
  }

  /** The request takes one state to the other, with this outcome. */
  ghost predicate Leads(before: State, q: Request, outcome: Outcome, after: State, maxPages: nat) {
    OnLastPage(before) && Step(before, q, maxPages) == (after, outcome)
  }

  lemma LeadsIs(before: State, q: Request, outcome: Outcome, after: State, maxPages: nat)
    requires Leads(before, q, outcome, after, maxPages)
    ensures OnLastPage(before) && Step(before, q, maxPages) == (after, outcome)
  {
  }

  /** `after` is a state that the requests lead to, and the outcomes are what they got. */
  ghost predicate Reaches(requests: seq<Request>, outcomes: seq<Outcome>, after: State, maxPages: nat)
    decreases |requests|
  {
    if requests == [] then outcomes == [] && after == EMPTY
    else
      |outcomes| == |requests| &&
      var n := |requests| - 1;
      exists before: State ::
        Reaches(requests[..n], outcomes[..n], before, maxPages)
          && Leads(before, requests[n], outcomes[n], after, maxPages)
  }

  // What callers hold.

  /** The blocks at other places than this one. */
  function Elsewhere(blocks: seq<Block>, page: nat, offset: nat): (r: seq<Block>)
    ensures forall b :: b in r <==> b in blocks && !(b.page == page && b.offset == offset)
  {
    if blocks == [] then []
    else if blocks[0].page == page && blocks[0].offset == offset then Elsewhere(blocks[1..], page, offset)
    else [blocks[0]] + Elsewhere(blocks[1..], page, offset)
  }

  /**
     The blocks that callers hold after a run, in the order in which they got them: what was
     handed out to them and has not been released since.
   */
  function Held(requests: seq<Request>, outcomes: seq<Outcome>): seq<Block>
    requires |outcomes| == |requests|
  {
    if requests == [] then []
    else
      var n := |requests| - 1;
      HeldNext(Held(requests[..n], outcomes[..n]), requests[n], outcomes[n])
  }

  function HeldNext(held: seq<Block>, q: Request, outcome: Outcome): seq<Block> {
    if outcome.Err? then held
    else match q
      case Allocate(_) => held + [outcome.block]
      case Release(page, offset) => Elsewhere(held, page, offset)
  }

  /** No two of the blocks, at different indices, share a byte. */
  ghost predicate Disjoint(blocks: seq<Block>) {
    forall i, j :: 0 <= i < j < |blocks| ==> !Overlap(blocks[i], blocks[j])
  }

  /** The heap knows of exactly the blocks that callers hold, and they are disjoint. */
  ghost predicate Accounted(held: seq<Block>, allocs: seq<Block>) {
    (forall b :: b in held <==> b in allocs) && Disjoint(held)
  }

  lemma {:induction false} ElsewhereDisjoint(blocks: seq<Block>, page: nat, offset: nat)
    requires Disjoint(blocks)
    ensures Disjoint(Elsewhere(blocks, page, offset))
  {
    if blocks != [] {
      var rest := Elsewhere(blocks[1..], page, offset);
      assert forall i :: 0 <= i < |blocks| - 1 ==> blocks[1..][i] == blocks[i + 1];
      ElsewhereDisjoint(blocks[1..], page, offset);
      forall b | b in rest ensures !Overlap(blocks[0], b) {
        var j :| 0 <= j < |blocks| - 1 && blocks[1..][j] == b;
        assert blocks[j + 1] == b;
      }
    }
  }

  /** Handing out a block that overlaps no live one keeps the accounts. */
  lemma AllocateAccounted(held: seq<Block>, allocs: seq<Block>, after: seq<Block>, k: int, b: Block)
    requires Accounted(held, allocs) && InsertedAt(after, allocs, k, b)
    requires forall a :: a in allocs ==> !Overlap(a, b)
    ensures Accounted(held + [b], after)
  {
    hide Overlap;
    assert allocs == allocs[..k] + allocs[k..];
    forall i, j | 0 <= i < j < |held + [b]| ensures !Overlap((held + [b])[i], (held + [b])[j]) {
      assert held[i] in held;
    }
  }

  /** Erasing the one block at a place. */
  lemma ErasedAt(allocs: seq<Block>, i: nat, b: Block)
    requires KeysInOrder(allocs) && i < |allocs|
    ensures b in allocs[..i] + allocs[i + 1..] <==> b in allocs && !SameKey(allocs[i], b)
  {
    var before, after := allocs[..i], allocs[i + 1..];
    assert allocs == before + [allocs[i]] + after;
    if b in before {
      var j :| 0 <= j < |before| && before[j] == b;
      assert KeyBefore(allocs[j], allocs[i]);
    }
    if b in after {
      var j :| 0 <= j < |after| && after[j] == b;
      assert KeyBefore(allocs[i], allocs[i + 1 + j]);
    }
  }

  /** Erasing the block at a place, where live blocks have places of their own, does too. */
  lemma ReleaseAccounted(held: seq<Block>, allocs: seq<Block>, i: nat, page: nat, offset: nat)
    requires Accounted(held, allocs) && KeysInOrder(allocs)
    requires i < |allocs| && allocs[i].page == page && allocs[i].offset == offset
    ensures Accounted(Elsewhere(held, page, offset), allocs[..i] + allocs[i + 1..])
  {
    hide KeysInOrder, Disjoint, Elsewhere;
    ElsewhereDisjoint(held, page, offset);
    forall b: Block
      ensures b in allocs[..i] + allocs[i + 1..] <==> b in Elsewhere(held, page, offset)
    {
      ErasedAt(allocs, i, b);
    }
  }

  /** Every request for at least one byte, and every release, keeps the accounts. */
  lemma StepAccounted(s: State, q: Request, held: seq<Block>, maxPages: nat)
    requires Safe(s, maxPages) && (q.Allocate? ==> q.size > 0) && Solid(s) && Accounted(held, s.allocs)
    ensures OnLastPage(s)
    ensures var (t, r) := Step(s, q, maxPages); Solid(t) && Accounted(HeldNext(held, q, r), t.allocs)
  {
    hide *;
    SafeRange(s, maxPages);
    var (t, r) := Step(s, q, maxPages);
    StepIs(s, q, maxPages);
    HeldNextIs(held, q, r);
    match q {
      case Allocate(size) =>
        MallocSafe(s, size, maxPages);
        if r.Ok? {
          OwnPlace(s, r.block);
          RecordedFacts(s, t, r.block);
          var k :| InsertedAt(t.allocs, s.allocs, k, r.block);
          AllocateAccounted(held, s.allocs, t.allocs, k, r.block);
          SolidWith(s, t, k, r.block);
        }
      case Release(page, offset) =>
        SafeKeys(s, maxPages);
        FreedIs(s, page, offset);
        var i := Find(s.allocs, page, offset);
        if i < |s.allocs| {
          ReleaseAccounted(held, s.allocs, i, page, offset);
          SolidWithout(s, t, i);
        }
    }
  }

  lemma SolidWith(s: State, t: State, k: int, b: Block)
    requires Solid(s) && InsertedAt(t.allocs, s.allocs, k, b) && b.size > 0
    ensures Solid(t)
  {
    assert s.allocs == s.allocs[..k] + s.allocs[k..];
  }

  lemma SolidWithout(s: State, t: State, i: nat)
    requires Solid(s) && i < |s.allocs| && t.allocs == s.allocs[..i] + s.allocs[i + 1..]
    ensures Solid(t)
  {
    assert s.allocs == s.allocs[..i] + [s.allocs[i]] + s.allocs[i + 1..];
  }

  lemma StepIs(s: State, q: Request, maxPages: nat)
    requires OnLastPage(s)
    ensures q.Allocate? ==> Step(s, q, maxPages) == Allocated(s, q.size, maxPages)
    ensures q.Release? ==> Step(s, q, maxPages) == Freed(s, q.page, q.offset)
  {
    hide Allocated, Freed;
  }

  lemma FreedIs(s: State, page: nat, offset: nat)
    ensures var i := Find(s.allocs, page, offset);
      Freed(s, page, offset) ==
        if i == |s.allocs| then (s, Err(MemoryError))
        else (s.(allocs := s.allocs[..i] + s.allocs[i + 1..]), Ok(s.allocs[i]))
  {
    hide Find;
  }

  lemma HeldNextIs(held: seq<Block>, q: Request, outcome: Outcome)
    ensures outcome.Err? ==> HeldNext(held, q, outcome) == held
    ensures outcome.Ok? && q.Allocate? ==> HeldNext(held, q, outcome) == held + [outcome.block]
    ensures outcome.Ok? && q.Release? ==> HeldNext(held, q, outcome) == Elsewhere(held, q.page, q.offset)
  {
    hide Elsewhere;
  }

  /**
     Over every run of requests for any numbers of bytes: live blocks lie in their pages, in order
     and without overlap, there are never more pages than allowed, and the offset check never fails.
   */
  lemma {:induction false} RunsStayInPages(requests: seq<Request>, outcomes: seq<Outcome>, after: State, maxPages: nat)
    requires maxPages >= 1 && Reaches(requests, outcomes, after, maxPages)
    ensures |outcomes| == |requests|
    ensures Safe(after, maxPages) && forall i :: 0 <= i < |outcomes| ==> outcomes[i] != Err(InvalidOffset)
    decreases |requests|
  {
    hide *;
    if requests == [] {
      NothingReached(outcomes, after, maxPages);
    } else {
      var n := |requests| - 1;
      LastRequest(requests, outcomes, after, maxPages);
      var before: State :|
        Reaches(requests[..n], outcomes[..n], before, maxPages)
          && Leads(before, requests[n], outcomes[n], after, maxPages);
      assert forall i :: 0 <= i < n ==> outcomes[i] == outcomes[..n][i];
      RunsStayInPages(requests[..n], outcomes[..n], before, maxPages);
      StepSafe(before, requests[n], maxPages);
      LeadsIs(before, requests[n], outcomes[n], after, maxPages);
    }
  }

  /**
     Over every run whose requests ask for at least one byte, moreover, the blocks that callers
     hold are exactly the live ones, and no two of them share a byte.
   */
  lemma {:induction false} RunsAreSafe(requests: seq<Request>, outcomes: seq<Outcome>, after: State, maxPages: nat)
    requires maxPages >= 1 && Reaches(requests, outcomes, after, maxPages)
    requires forall i :: 0 <= i < |requests| && requests[i].Allocate? ==> requests[i].size > 0
    ensures |outcomes| == |requests| && Safe(after, maxPages) && Solid(after)
    ensures forall b :: b in Held(requests, outcomes) <==> b in after.allocs
    ensures Disjoint(Held(requests, outcomes))
    decreases |requests|
  {
    hide *;
    RunsStayInPages(requests, outcomes, after, maxPages);
    if requests == [] {
      NothingReached(outcomes, after, maxPages);
    } else {
      var n := |requests| - 1;
      LastRequest(requests, outcomes, after, maxPages);
      var before: State :|
        Reaches(requests[..n], outcomes[..n], before, maxPages)
          && Leads(before, requests[n], outcomes[n], after, maxPages);
      assert forall i :: 0 <= i < n ==> requests[i] == requests[..n][i];
      RunsAreSafe(requests[..n], outcomes[..n], before, maxPages);
      var held := Held(requests[..n], outcomes[..n]);
      AccountedIs(held, before.allocs);
      LeadsIs(before, requests[n], outcomes[n], after, maxPages);
      StepAccounted(before, requests[n], held, maxPages);
      HeldLast(requests, outcomes);
      AccountedIs(Held(requests, outcomes), after.allocs);
    }
  }

  lemma AccountedIs(held: seq<Block>, allocs: seq<Block>)
    ensures Accounted(held, allocs) <==> (forall b :: b in held <==> b in allocs) && Disjoint(held)
  {
    hide Disjoint;
  }

  lemma HeldLast(requests: seq<Request>, outcomes: seq<Outcome>)
    requires |outcomes| == |requests| > 0
    ensures var n := |requests| - 1;
      Held(requests, outcomes) == HeldNext(Held(requests[..n], outcomes[..n]), requests[n], outcomes[n])
  {
    hide HeldNext;
  }

  lemma NothingReached(outcomes: seq<Outcome>, after: State, maxPages: nat)
    requires maxPages >= 1 && Reaches([], outcomes, after, maxPages)
    ensures outcomes == [] && Safe(after, maxPages) && Solid(after)
    ensures Held([], []) == [] && after.allocs == [] && Disjoint([])
  {
  }

  lemma LastRequest(requests: seq<Request>, outcomes: seq<Outcome>, after: State, maxPages: nat)
    requires requests != [] && Reaches(requests, outcomes, after, maxPages)
    ensures |outcomes| == |requests|
    ensures var n := |requests| - 1;
      exists before: State ::
        Reaches(requests[..n], outcomes[..n], before, maxPages)
          && Leads(before, requests[n], outcomes[n], after, maxPages)
  {
    hide Leads;
  }

  /** In a safe heap no two live blocks share a byte. */
  lemma LiveBlocksDisjoint(s: State, maxPages: nat, i: nat, j: nat)
    requires Safe(s, maxPages) && i < j < |s.allocs|
    ensures !Overlap(s.allocs[i], s.allocs[j])
  {
    assert Before(s.allocs[i], s.allocs[j]);
  }

  // Requests for no bytes.

  /** What callers take malloc to promise: the heap is safe, with the block more, which is no empty one. */
  ghost predicate Honoured(s: State, t: State, b: Block, maxPages: nat) {
    Safe(t, maxPages) && Solid(t) && exists k :: InsertedAt(t.allocs, s.allocs, k, b)
  }

  /** Where no block is empty, this is so exactly if at least one byte was asked for. */
  lemma ZeroBytesNotHonoured(s: State, size: nat, maxPages: nat)
    requires Safe(s, maxPages) && Solid(s)
    ensures OnLastPage(s)
    ensures var (t, r) := Allocated(s, size, maxPages);
      r.Ok? ==> (Honoured(s, t, r.block, maxPages) <==> size > 0)
  {
    hide *;
    SafeRange(s, maxPages);
    MallocSafe(s, size, maxPages);
    var (t, r) := Allocated(s, size, maxPages);
    if r.Ok? {
      var b := r.block;
      HonouredIs(s, t, b, maxPages);
      if size > 0 {
        OwnPlace(s, b);
        RecordedFacts(s, t, b);
        var k :| InsertedAt(t.allocs, s.allocs, k, b);
        SolidWith(s, t, k, b);
      } else if Honoured(s, t, b, maxPages) {
        var k :| InsertedAt(t.allocs, s.allocs, k, b);
        InsertedFacts(t.allocs, s.allocs, k, b);
        SolidIs(t, b);
      }
    }
  }

  lemma SolidIs(s: State, a: Block)
    requires Solid(s) && a in s.allocs
    ensures a.size > 0
  {
  }

  lemma HonouredIs(s: State, t: State, b: Block, maxPages: nat)
    ensures Honoured(s, t, b, maxPages) <==>
      Safe(t, maxPages) && Solid(t) && exists k :: InsertedAt(t.allocs, s.allocs, k, b)
  {
    hide Safe, Solid, InsertedAt;
  }

  /**
     With a request for no bytes, callers can hold a block that the heap does not know of: it is
     given the place of a live one, and releasing it releases that.
   */
  lemma ZeroBytesAlias(maxPages: nat)
    requires maxPages >= 1
    ensures var requests, outcomes := [Allocate(1), Allocate(0)], [Ok(Block(0, 0, 1)), Ok(Block(0, 0, 0))];
      var after := State(1, 1, [Block(0, 0, 1)]);
      && Reaches(requests, outcomes, after, maxPages)
      && Held(requests, outcomes) == [Block(0, 0, 1), Block(0, 0, 0)]
      && Block(0, 0, 0) !in after.allocs
      && Freed(after, 0, 0) == (State(1, 1, []), Ok(Block(0, 0, 1)))
  {
    hide *;
    OneByte(maxPages);
    NoBytes(maxPages);
    var one := State(1, 1, [Block(0, 0, 1)]);
    TwoRequests(Allocate(1), Ok(Block(0, 0, 1)), one, Allocate(0), Ok(Block(0, 0, 0)), one, maxPages);
    HeldNextIs([], Allocate(1), Ok(Block(0, 0, 1)));
    HeldNextIs([Block(0, 0, 1)], Allocate(0), Ok(Block(0, 0, 0)));
    FreedIs(one, 0, 0);
    GapOfNothing();
    assert one.allocs[..0] + one.allocs[1..] == [];
    assert [] + [Block(0, 0, 1)] == [Block(0, 0, 1)];
    assert [Block(0, 0, 1)] + [Block(0, 0, 0)] == [Block(0, 0, 1), Block(0, 0, 0)];
  }

  /** A run of two requests. */
  lemma TwoRequests(q: Request, o: Outcome, s: State, r: Request, p: Outcome, t: State, maxPages: nat)
    requires Leads(EMPTY, q, o, s, maxPages) && Leads(s, r, p, t, maxPages)
    ensures Reaches([q, r], [o, p], t, maxPages)
    ensures Held([q, r], [o, p]) == HeldNext(HeldNext([], q, o), r, p)
  {
    hide *;
    assert [q, r][..1] == [q] && [o, p][..1] == [o] && [q][..0] == [] && [o][..0] == [];
    NothingRequested(maxPages);
    ReachesNext([q], [o], EMPTY, s, maxPages);
    ReachesNext([q, r], [o, p], s, t, maxPages);
    HeldLast([q], [o]);
    HeldLast([q, r], [o, p]);
  }

  lemma NothingRequested(maxPages: nat)
    ensures Reaches([], [], EMPTY, maxPages) && Held([], []) == []
  {
  }

  lemma ReachesNext(requests: seq<Request>, outcomes: seq<Outcome>, before: State, after: State, maxPages: nat)
    requires |outcomes| == |requests| > 0
    requires var n := |requests| - 1;
      Reaches(requests[..n], outcomes[..n], before, maxPages)
        && Leads(before, requests[n], outcomes[n], after, maxPages)
    ensures Reaches(requests, outcomes, after, maxPages)
  {
    hide Leads;
  }

  lemma OneByte(maxPages: nat)
    requires maxPages >= 1
    ensures Leads(EMPTY, Allocate(1), Ok(Block(0, 0, 1)), State(1, 1, [Block(0, 0, 1)]), maxPages)
  {
    OneBlock();
  }

  lemma NoBytes(maxPages: nat)
    ensures var one := State(1, 1, [Block(0, 0, 1)]); Leads(one, Allocate(0), Ok(Block(0, 0, 0)), one, maxPages)
  {
    OneBlock();
    GapOfNothing();
  }

  lemma OneBlock()
    ensures FirstPage([], 0, 1, 1) == 1 && Emplace([], Block(0, 0, 1)) == [Block(0, 0, 1)]
    ensures Emplace([Block(0, 0, 1)], Block(0, 0, 0)) == [Block(0, 0, 1)]
  {
    assert FirstGap([], 0, 0, 1) == 0;
  }

  lemma GapOfNothing()
    ensures var one := [Block(0, 0, 1)];
      FirstPage(one, 0, 1, 0) == 0 && FirstGap(one, 0, 0, 0) == 0 && LastEnd(one, 0, 0) == 0 && Find(one, 0, 0) == 0
  {
    assert GapBefore([Block(0, 0, 1)], 0, 0, 0);
  }

  // Where a request goes, said of the bytes that are free and not of a walk over the live blocks.

  /** The n bytes from o on are free, and before the last live block of the page. */
  ghost predicate Available(s: State, page: nat, o: nat, n: nat) {
    && (exists b :: b in s.allocs && b.page == page && b.offset >= o + n)
    && forall b :: b in s.allocs && b.page == page ==> b.offset + b.size <= o || b.offset >= o + n
  }

  ghost predicate SomeAvailable(s: State, n: nat) {
    exists page: nat, o: nat :: Available(s, page, o, n)
  }

  /** No such place is on an earlier page, or earlier on this one. */
  ghost predicate Lowest(s: State, page: nat, o: nat, n: nat) {
    Available(s, page, o, n)
    && forall p: nat, i: nat :: Available(s, p, i, n) ==> page < p || (page == p && o <= i)
  }

  /** The first block on the page that starts at o or later. */
  lemma {:induction false} FirstFrom(allocs: seq<Block>, i: nat, page: nat, o: nat) returns (k: nat)
    requires i <= |allocs| && exists j :: i <= j < |allocs| && allocs[j].page == page && allocs[j].offset >= o
    ensures i <= k < |allocs| && allocs[k].page == page && allocs[k].offset >= o
    ensures forall j :: i <= j < k && allocs[j].page == page ==> allocs[j].offset < o
    decreases |allocs| - i
  {
    if allocs[i].page == page && allocs[i].offset >= o {
      k := i;
    } else {
      k := FirstFrom(allocs, i + 1, page, o);
    }
  }

  /** The end of the blocks before k is no later than a bound on each. */
  lemma {:induction false} LastEndAtMost(allocs: seq<Block>, k: nat, page: nat, o: nat)
    requires k <= |allocs| && forall j :: 0 <= j < k && allocs[j].page == page ==> allocs[j].End() <= o
    ensures LastEnd(allocs, k, page) <= o
  {
    if k > 0 && allocs[k - 1].page != page {
      LastEndAtMost(allocs, k - 1, page, o);
    }
  }

  /** A place that is available lies in a gap. */
  lemma GapAround(s: State, page: nat, o: nat, n: nat) returns (k: nat)
    requires Available(s, page, o, n)
    ensures k < |s.allocs| && GapBefore(s.allocs, k, page, n) && LastEnd(s.allocs, k, page) <= o
  {
    var b :| b in s.allocs && b.page == page && b.offset >= o + n;
    var i :| 0 <= i < |s.allocs| && s.allocs[i] == b;
    k := FirstFrom(s.allocs, 0, page, o + n);
    LastEndAtMost(s.allocs, k, page, o);
  }

  /** The start of a gap is available. */
  lemma GapIsAvailable(s: State, page: nat, n: nat, k: nat)
    requires Apart(s.allocs) && k < |s.allocs| && GapBefore(s.allocs, k, page, n)
    ensures Available(s, page, LastEnd(s.allocs, k, page), n)
  {
    LastEndInOrder(s.allocs, k, page);
    var o := LastEnd(s.allocs, k, page);
    hide LastEnd;
    forall b | b in s.allocs && b.page == page ensures b.offset + b.size <= o || b.offset >= o + n {
      var j :| 0 <= j < |s.allocs| && s.allocs[j] == b;
      if j > k {
        assert Before(s.allocs[k], s.allocs[j]);
      }
    }
    assert s.allocs[k] in s.allocs;
  }

  /** Gaps further on start later. */
  lemma LaterGap(allocs: seq<Block>, i: nat, k: nat, page: nat)
    requires Apart(allocs) && i <= k < |allocs| && allocs[i].page == allocs[k].page == page
    ensures LastEnd(allocs, i, page) <= LastEnd(allocs, k, page)
  {
    LastEndInOrder(allocs, i, page);
    LastEndInOrder(allocs, k, page);
  }

  /** The first gap of the first page that has one starts at the lowest place. */
  lemma FirstGapIsLowest(s: State, n: nat, maxPages: nat)
    requires Safe(s, maxPages)
    ensures var q := FirstPage(s.allocs, 0, s.pages, n);
      if q < s.pages then Lowest(s, q, LastEnd(s.allocs, FirstGap(s.allocs, 0, q, n), q), n)
      else !SomeAvailable(s, n)
  {
    var q := FirstPage(s.allocs, 0, s.pages, n);
    if q < s.pages {
      GapIsAvailable(s, q, n, FirstGap(s.allocs, 0, q, n));
    }
    forall p: nat, i: nat | Available(s, p, i, n)
      ensures q < s.pages
      ensures q < p || (q == p && LastEnd(s.allocs, FirstGap(s.allocs, 0, q, n), q) <= i)
    {
      var k := GapAround(s, p, i, n);
      assert InPlace(s.allocs[k], s.pages, s.pos);
      assert FirstGap(s.allocs, 0, p, n) <= k;
      if p == q {
        LaterGap(s.allocs, FirstGap(s.allocs, 0, q, n), k, q);
      }
    }
  }

  /**
     malloc: of the places that are available it takes the lowest. Where there is none, it goes to
     the bump position of the last page, or onto a new page; and it fails exactly if there is no
     room on the last page either, and all pages are in use.
   */
  lemma FirstFit(s: State, n: nat, maxPages: nat)
    requires Safe(s, maxPages) && n < 1048576
    ensures var (t, r) := Allocated(s, n, maxPages);
      if SomeAvailable(s, n) then
        && r.Ok? && r.block.size == n && Lowest(s, r.block.page, r.block.offset, n)
        && t.pages == s.pages && t.pos == s.pos
      else if s.pos + n < s.pages * 1048576 then
        && r == Ok(Block(s.pages - 1, s.pos - (s.pages - 1) * 1048576, n))
        && t.pages == s.pages && t.pos == s.pos + n
      else if s.pages < maxPages then
        r == Ok(Block(s.pages, 0, n)) && t.pages == s.pages + 1 && t.pos == s.pages * 1048576 + n
      else r == Err(OutOfMemory) && t == s
  {
    AllocatedCases(s, n, maxPages);
    FirstGapIsLowest(s, n, maxPages);
    MallocSafe(s, n, maxPages);
    SafeRange(s, maxPages);
    hide Lowest, SomeAvailable, FirstPage, FirstGap, LastEnd, Apart, InPlace, Recorded, NoRoom;
    hide Allocated, Emplace;
  }

  /** A request for a page or more fails, and changes nothing. */
  lemma TooLargeFails(s: State, n: nat, maxPages: nat)
    requires Safe(s, maxPages)
    ensures Allocated(s, n, maxPages).1 == Err(TooLarge) <==> n >= 1048576
    ensures n >= 1048576 ==> Allocated(s, n, maxPages).0 == s
  {
    AllocatedCases(s, n, maxPages);
    hide Allocated, FirstPage, FirstGap, LastEnd, Emplace;
  }

  /** free: takes away the block at the address and no other, or fails where there is none. */
  lemma TakesAway(s: State, page: nat, offset: nat, maxPages: nat)
    requires Safe(s, maxPages)
    ensures var (t, r) := Freed(s, page, offset);
      && (r.Ok? <==> exists a :: a in s.allocs && a.page == page && a.offset == offset)
      && (r.Ok? ==> r.block in s.allocs && r.block.page == page && r.block.offset == offset)
      && (r.Err? ==> t == s && r.error == MemoryError)
      && t.pages == s.pages && t.pos == s.pos
      && forall a :: a in t.allocs <==> a in s.allocs && !(a.page == page && a.offset == offset)
  {
    var b := Block(page, offset, 0);
    FindNothing(s.allocs, b);
    SafeKeys(s, maxPages);
    var k := Find(s.allocs, page, offset);
    if k < |s.allocs| {
      assert s.allocs[k] in s.allocs;
      Others(s.allocs, k);
    }
    hide Find, Safe;
  }

  /** All blocks but one, whose key is that of no other. */
  lemma Others(allocs: seq<Block>, k: nat)
    requires KeysInOrder(allocs) && k < |allocs|
    ensures forall a :: a in allocs[..k] + allocs[k + 1..] <==> a in allocs && !SameKey(a, allocs[k])
  {
    var rest := allocs[..k] + allocs[k + 1..];
    forall a | a in rest ensures a in allocs && !SameKey(a, allocs[k]) {
      var i :| 0 <= i < |rest| && rest[i] == a;
      assert a == allocs[if i < k then i else i + 1];
    }
    forall a | a in allocs && !SameKey(a, allocs[k]) ensures a in rest {
      var i :| 0 <= i < |allocs| && allocs[i] == a;
      assert a == rest[if i < k then i else i - 1];
    }
  }

  /** malloc adds the block it hands out, unless there is one at its place, and takes away none. */
  lemma Adds(s: State, n: nat, maxPages: nat)
    requires Safe(s, maxPages)
    ensures var (t, r) := Allocated(s, n, maxPages);
      r.Ok? ==> forall a :: a in t.allocs <==>
        a in s.allocs || (a == r.block && forall b :: b in s.allocs ==> b.page != a.page || b.offset != a.offset)
  {
    MallocSafe(s, n, maxPages);
    hide Allocated, Safe, InPlace, Overlap, NoRoom;
    var (t, r) := Allocated(s, n, maxPages);
    if r.Ok? && NewPlace(s, r.block) {
      var k: int :| InsertedAt(t.allocs, s.allocs, k, r.block);
      assert s.allocs == s.allocs[..k] + s.allocs[k..];
    }
  }

  // The class.

  class DefaultMemoryManager {
    const maxPages: nat
    /** m_buffers, of which only the number matters. */
    var pages: nat
    var bufferPos: nat
    var allocs: seq<Block>

    ghost function Abstract(): State
      reads this
    {
      State(pages, bufferPos, allocs)
    }

    ghost predicate Valid()
      reads this
    {
      Safe(Abstract(), maxPages)
    }

    constructor (maxPages: nat)
      requires maxPages >= 1
      ensures Valid() && Abstract() == EMPTY && this.maxPages == maxPages
    {
      this.maxPages := maxPages;
      pages, bufferPos, allocs := 1, 0, [];
    }

    /** assign_alloc */
    method AssignAlloc(page: nat, offset: nat, size: nat) returns (r: Outcome)
      modifies this`allocs
      ensures (Abstract(), r) == Assign(old(Abstract()), Block(page, offset, size))
    {
      if offset + size > PAGE_SIZE {
        return Err(InvalidOffset);
      }
      allocs := Emplace(allocs, Block(page, offset, size));
      return Ok(Block(page, offset, size));
    }

    /** The inner loop of malloc: the offset of the first gap on a page. */
    method FindGap(page: nat, size: nat) returns (found: bool, offset: nat)
      requires Apart(allocs)
      ensures found <==> FirstGap(allocs, 0, page, size) < |allocs|
      ensures found ==> offset == LastEnd(allocs, FirstGap(allocs, 0, page, size), page)
    {
      var lastPos: nat := 0;
      var i := 0;
      while i < |allocs|
        invariant 0 <= i <= |allocs| && lastPos == LastEnd(allocs, i, page)
        invariant FirstGap(allocs, 0, page, size) == FirstGap(allocs, i, page, size)
      {
        var a := allocs[i];
        if a.page == page {
          LastEndInOrder(allocs, i, page);
          var s := a.offset - lastPos;
          if s >= size {
            return true, lastPos;
          }
          lastPos := a.offset + a.size;
        }
        i := i + 1;
      }
      return false, 0;
    }

    /** The outer loop of malloc: the first page with a gap. */
    method FindPage(size: nat) returns (page: nat, offset: nat)
      requires Apart(allocs)
      ensures page == FirstPage(allocs, 0, pages, size)
      ensures page < pages ==> offset == LastEnd(allocs, FirstGap(allocs, 0, page, size), page)
    {
      hide Apart, FirstGap, LastEnd;
      page, offset := 0, 0;
      while page < pages
        invariant 0 <= page <= pages && FirstPage(allocs, 0, pages, size) == FirstPage(allocs, page, pages, size)
      {
        var found;
        found, offset := FindGap(page, size);
        if found {
          return;
        }
        page := page + 1;
      }
    }

    /** The last part of malloc: on the last page, or on a new one. */
    method BumpAlloc(size: nat) returns (r: Outcome)
      requires OnLastPage(Abstract())
      modifies this
      ensures (Abstract(), r) == Bump(old(Abstract()), size, maxPages)
    {
      hide Assign;
      var bufferSize := pages * PAGE_SIZE;
      if bufferPos + size >= bufferSize {
        if pages == maxPages {
          return Err(OutOfMemory);
        }
        pages := pages + 1;
        bufferPos := bufferSize;
      }
      var newPos := bufferPos;
      bufferPos := bufferPos + size;
      var buffer := pages - 1;
      r := AssignAlloc(buffer, newPos - buffer * PAGE_SIZE, size);
    }

    /** malloc */
    method Malloc(size: nat) returns (r: Outcome)
      requires Valid()
      modifies this
      ensures Valid() && (Abstract(), r) == Allocated(old(Abstract()), size, maxPages)
      ensures size < 1048576 && old(SomeAvailable(Abstract(), size)) ==>
        r.Ok? && r.block.size == size && Lowest(old(Abstract()), r.block.page, r.block.offset, size)
      ensures r.Err? <==>
        size >= 1048576
        || old(!SomeAvailable(Abstract(), size) && bufferPos + size >= pages * 1048576 && pages >= maxPages)
    {
      MallocSafe(Abstract(), size, maxPages);
      if size < 1048576 {
        FirstFit(Abstract(), size, maxPages);
      }
      assert Apart(allocs) && OnLastPage(Abstract());
      hide Apart, FirstGap, FirstPage, LastEnd, Assign, Bump, Safe, HasGap, Overlap, Recorded;
      if size >= PAGE_SIZE {
        return Err(TooLarge);
      }
      var page, offset := FindPage(size);
      if page < pages {
        r := AssignAlloc(page, offset, size);
      } else {
        r := BumpAlloc(size);
      }
    }

    /** free */
    method Free(page: nat, offset: nat) returns (r: Outcome)
      requires Valid()
      modifies this`allocs
      ensures Valid() && (Abstract(), r) == Freed(old(Abstract()), page, offset)
    {
      FreeSafe(Abstract(), page, offset, maxPages);
      hide Safe, Find;
      var i := Find(allocs, page, offset);
      if i == |allocs| {
        return Err(MemoryError);
      }
      var b := allocs[i];
      allocs := allocs[..i] + allocs[i + 1..];
      return Ok(b);
    }
  }
}
