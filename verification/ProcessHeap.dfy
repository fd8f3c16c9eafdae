/** The user heap of a process: pages mapped from HEAP_START on, handed out by an inner allocator of
    which only this is known: a block it returns lies in its arena and overlaps no live block. */
module ProcessHeap {
  import opened Collections
  import opened HeapBlocks

  const HEAP_START: nat := 20 * 1024 * 1024 * 1024 * 1024
  const HEAP_PAGE: nat := HEAP_START / PAGE
  const USER_HEAP_INIT_SIZE: nat := 128 * 1024
  const INIT_PAGES: nat := USER_HEAP_INIT_SIZE / PAGE

  /** `pages` is the process's page table, page number to frame, and `others` what it holds beside the
      heap; `free` are the frame allocator's free frames; `arena` and `live` describe the inner
      allocator: the length of its arena and the blocks in use. */
  datatype Heap = Heap(size: int, usable: int, pages: map<int, nat>, others: map<int, nat>, free: set<nat>,
                       arena: int, live: seq<Block>)

  // ----- Invariant -----

  ghost predicate HeapPage(p: int, count: int) {
    HEAP_PAGE <= p < HEAP_PAGE + count
  }

  /** Beside the others, exactly `count` consecutive pages from the start of the heap are mapped, to
      distinct frames, none of them free. */
  ghost predicate Mapped(h: Heap, count: int) {
    && (forall p :: p in h.pages <==> p in h.others || HeapPage(p, count))
    && (forall p :: p in h.others ==> !HeapPage(p, count) && h.pages[p] == h.others[p])
    && (forall p, q :: HeapPage(p, count) && HeapPage(q, count) && p != q ==> h.pages[p] != h.pages[q])
    && (forall p :: HeapPage(p, count) ==> h.pages[p] !in h.free)
  }

  /** Every byte is either usable or in a live block. */
  ghost predicate Accounted(h: Heap) {
    Packed(h.live, h.arena) && 0 <= h.arena <= h.size && h.usable + Total(h.live) == h.size
  }

  ghost predicate Inv(h: Heap) {
    h.size >= 0 && h.size % PAGE == 0 && Mapped(h, h.size / PAGE) && Accounted(h)
  }

  /** Subtracting a block that the inner allocator returned cannot underflow. */
  lemma NoUnderflow(h: Heap, b: Block)
    requires Accounted(h) && Legal(h.live, h.arena, b)
    ensures b.size <= h.usable
  {
    PackedAppend(h.live, h.arena, b);
    TotalFits(h.live + [b], h.arena);
    TotalAppend(h.live, b);
  }

  // ----- Steps -----

  /** A block is handed out. */
  ghost predicate Took(h: Heap, h': Heap, b: Block) {
    Legal(h.live, h.arena, b) && h' == h.(usable := h.usable - b.size, live := h.live + [b])
  }

  /** A live block is given back. */
  ghost predicate Gave(h: Heap, h': Heap, i: int) {
    0 <= i < |h.live| && h' == h.(usable := h.usable + h.live[i].size, live := Drop(h.live, i))
  }

  ghost predicate Between(p: int, from: int, count: int) {
    from <= p < from + count
  }

  /** `count` pages from `from` on were mapped, each to a frame of its own taken from the free ones;
      more frames may have gone into new page tables. */
  ghost predicate Added(before: map<int, nat>, free: set<nat>, after: map<int, nat>, left: set<nat>,
                        from: int, count: int) {
    && (forall p :: p in after <==> p in before || Between(p, from, count))
    && (forall p :: p in before ==> !Between(p, from, count) && after[p] == before[p])
    && (forall p :: Between(p, from, count) ==> after[p] in free && after[p] !in left)
    && (forall p, q :: Between(p, from, count) && Between(q, from, count) && p != q ==> after[p] != after[q])
    && left <= free
  }

  /** `count` more pages are mapped, and the arena grows by at most `bytes`. */
  ghost predicate Grew(h: Heap, h': Heap, count: nat, bytes: nat) {
    && bytes <= PAGE * count && h.arena <= h'.arena <= h.size + bytes
    && h' == h.(size := h.size + PAGE * count, usable := h.usable + PAGE * count,
                pages := h'.pages, free := h'.free, arena := h'.arena)
    && Added(h.pages, h.free, h'.pages, h'.free, HEAP_PAGE + h.size / PAGE, count)
  }

  /** The rest of the system changes other pages, and frees and takes other frames. */
  ghost predicate Outside(h: Heap, h': Heap) {
    && h' == h.(pages := h'.pages, others := h'.others, free := h'.free)
    && (forall p :: p in h'.others ==> !HeapPage(p, h.size / PAGE))
    && (forall p :: !HeapPage(p, h.size / PAGE) ==>
          (p in h'.pages <==> p in h'.others) && (p in h'.others ==> h'.pages[p] == h'.others[p]))
    && (forall p :: HeapPage(p, h.size / PAGE) && p in h.pages ==>
          p in h'.pages && h'.pages[p] == h.pages[p] && (h.pages[p] !in h.free ==> h.pages[p] !in h'.free))
  }

  ghost predicate Next(h: Heap, h': Heap) {
    || (exists b :: Took(h, h', b))
    || (exists i :: Gave(h, h', i))
    || (exists count, bytes :: Grew(h, h', count, bytes))
    || Outside(h, h')
  }

  lemma TookInv(h: Heap, h': Heap, b: Block)
    requires Inv(h) && Took(h, h', b)
    ensures Inv(h') && h'.usable >= 0
  {
    NoUnderflow(h, b);
    PackedAppend(h.live, h.arena, b);
    TotalAppend(h.live, b);
  }

  lemma GaveInv(h: Heap, h': Heap, i: int)
    requires Inv(h) && Gave(h, h', i)
    ensures Inv(h')
  {
    PackedDrop(h.live, h.arena, i);
    TotalDrop(h.live, i);
  }

  lemma GrewInv(h: Heap, h': Heap, count: nat, bytes: nat)
    requires Inv(h) && Grew(h, h', count, bytes)
    ensures Inv(h')
  {
    PackedGrow(h.live, h.arena, h'.arena);
    var n := h.size / PAGE;
    assert h'.size / PAGE == n + count;
    forall p ensures HeapPage(p, n + count) <==> HeapPage(p, n) || Between(p, HEAP_PAGE + n, count) {
    }
    hide HeapPage, Between;
  }

  lemma NextInv(h: Heap, h': Heap)
    requires Inv(h) && Next(h, h')
    ensures Inv(h')
  {
    if b :| Took(h, h', b) {
      TookInv(h, h', b);
    } else if i :| Gave(h, h', i) {
      GaveInv(h, h', i);
    } else if count, bytes :| Grew(h, h', count, bytes) {
      GrewInv(h, h', count, bytes);
    }
  }

  /** On every run after `init`: pages, arena and accounts are right, and `usable` never underflows. */
  lemma {:induction false} RunInv(run: seq<Heap>, k: int)
    requires 0 <= k < |run| && Inv(run[0]) && forall i :: 0 <= i < |run| - 1 ==> Next(run[i], run[i + 1])
    ensures Inv(run[k]) && 0 <= run[k].usable <= run[k].size
    decreases k
  {
    if k == 0 {
    } else {
      RunInv(run, k - 1);
      assert Next(run[k - 1], run[k - 1 + 1]);
      NextInv(run[k - 1], run[k]);
    }
    TotalFits(run[k].live, run[k].arena);
  }

  // ----- Mapping and unmapping pages -----

  lemma AddedNothing(pages: map<int, nat>, free: set<nat>, from: int)
    ensures Added(pages, free, pages, free, from, 0)
  {
  }

  lemma AddedNext(before: map<int, nat>, free: set<nat>, now: map<int, nat>, left: set<nat>, from: int, count: nat,
                  f: nat, left': set<nat>)
    requires Added(before, free, now, left, from, count) && from + count !in now
    requires f in left && left' <= left - {f}
    ensures Added(before, free, now[from + count := f], left', from, count + 1)
  {
    forall p ensures Between(p, from, count + 1) <==> Between(p, from, count) || p == from + count {
    }
    hide Between;
  }

  /** One of the pages to be mapped is taken. */
  ghost predicate Blocked(pages: map<int, nat>, from: int, count: int) {
    exists p :: Between(p, from, count) && p in pages
  }

  /** The heap cannot grow: a page right above it is taken, or there are fewer than four free frames a
      page. */
  ghost predicate NoRoom(h: Heap, count: nat) {
    Blocked(h.pages, HEAP_PAGE + h.size / PAGE, count) || |h.free| < 4 * count
  }

  lemma BlockedAt(before: map<int, nat>, free: set<nat>, now: map<int, nat>, left: set<nat>, from: int, i: nat,
                  count: nat)
    requires Added(before, free, now, left, from, i) && i < count
    ensures from + i in now ==> Blocked(before, from, count)
  {
    assert Between(from + i, from, count) && !Between(from + i, from, i);
  }

  /** Frames of the first `count` heap pages. */
  ghost function HeapFrames(pages: map<int, nat>, count: nat): set<nat>
    requires forall p :: HeapPage(p, count) ==> p in pages
  {
    if count == 0 then {}
    else
      assert HeapPage(HEAP_PAGE + (count - 1), count);
      assert forall p :: HeapPage(p, count - 1) ==> HeapPage(p, count);
      HeapFrames(pages, count - 1) + {pages[HEAP_PAGE + (count - 1)]}
  }

  lemma {:induction false} HeapFramesIn(pages: map<int, nat>, count: nat, f: nat)
    requires forall p :: HeapPage(p, count) ==> p in pages
    ensures f in HeapFrames(pages, count) <==> exists p :: HeapPage(p, count) && pages[p] == f
    decreases count
  {
    if count == 0 {
    } else {
      var last := HEAP_PAGE + (count - 1);
      assert forall p :: HeapPage(p, count) <==> HeapPage(p, count - 1) || p == last;
      HeapFramesIn(pages, count - 1, f);
      hide HeapPage;
      if f in HeapFrames(pages, count - 1) {
        var p :| HeapPage(p, count - 1) && pages[p] == f;
        assert HeapPage(p, count) && pages[p] == f;
      }
      if f == pages[last] {
        assert HeapPage(last, count) && pages[last] == f;
      }
    }
  }

  /** The first `count` heap pages were unmapped and their frames given back. */
  ghost predicate Removed(h: Heap, pages: map<int, nat>, free: set<nat>, count: nat) {
    && (forall p :: HeapPage(p, count) ==> p in h.pages)
    && (forall p :: p in pages <==> p in h.pages && !HeapPage(p, count))
    && (forall p :: p in pages ==> pages[p] == h.pages[p])
    && free == h.free + HeapFrames(h.pages, count) && |free| == |h.free| + count
  }

  /** Giving back the next frame: it was not free, so it is given back for the first time. */
  lemma RemovedNext(h: Heap, total: int, pages: map<int, nat>, free: set<nat>, count: nat)
    requires Mapped(h, total) && count < total && Removed(h, pages, free, count)
    ensures var p := HEAP_PAGE + count;
      p in pages && pages[p] !in free && Removed(h, pages - {p}, free + {pages[p]}, count + 1)
  {
    var page := HEAP_PAGE + count;
    forall p ensures HeapPage(p, count + 1) <==> HeapPage(p, count) || p == page {
    }
    forall p | HeapPage(p, count) ensures HeapPage(p, total) && p != page {
    }
    assert HeapPage(page, total) && !HeapPage(page, count);
    hide HeapPage;
    HeapFramesIn(h.pages, count, h.pages[page]);
    assert h.pages[page] !in free;
  }

  lemma ClearStart(h: Heap)
    requires Inv(h)
    ensures h.size >= 0 && PagesFor(h.size) == h.size / PAGE && Mapped(h, h.size / PAGE)
    ensures Removed(h, h.pages, h.free, 0)
  {
    hide Mapped, Accounted;
  }

  /** Without the heap's pages only the others remain. */
  lemma OnlyOthers(h: Heap, total: nat, pages: map<int, nat>, free: set<nat>)
    requires Mapped(h, total) && Removed(h, pages, free, total)
    ensures pages == h.others
  {
    hide HeapPage, HeapFrames;
    assert forall p :: p in pages <==> p in h.others;
    assert forall p :: p in pages ==> pages[p] == h.others[p];
  }

  /** The state that `new` leaves: a size, but no pages yet. */
  ghost predicate Created(h: Heap) {
    && h.size == h.usable == USER_HEAP_INIT_SIZE && 0 <= h.arena <= h.size && h.live == []
    && h.pages == h.others
  }

  lemma InitInv(h: Heap, pages: map<int, nat>, free: set<nat>)
    requires Created(h) && Added(h.pages, h.free, pages, free, HEAP_PAGE, INIT_PAGES)
    ensures Inv(h.(pages := pages, free := free))
  {
    forall p ensures HeapPage(p, INIT_PAGES) <==> Between(p, HEAP_PAGE, INIT_PAGES) {
    }
    hide HeapPage, Between;
    assert Total([]) == 0;
  }

  // ----- The heap object -----

  /** Pages needed for a number of bytes. */
  function PagesFor(bytes: nat): (n: nat)
    ensures bytes <= PAGE * n < bytes + PAGE
  {
    (bytes + 4095) / 4096
  }

  /** The page just above the heap. */
  lemma NextPage(size: nat, i: nat)
    requires size % PAGE == 0
    ensures (HEAP_START + (size + PAGE * i)) / PAGE == HEAP_PAGE + size / PAGE + i
  {
  }

  lemma WholePages(h: Heap)
    requires Inv(h)
    ensures h.size >= 0 && h.size % PAGE == 0
  {
  }

  lemma NoRoomLeft(h: Heap, count: nat)
    requires Blocked(h.pages, HEAP_PAGE + h.size / PAGE, count) || |h.free| < 4 * count
    ensures NoRoom(h, count)
  {
  }

  lemma GrewBy(h: Heap, h': Heap, count: nat, bytes: nat)
    requires bytes <= PAGE * count && h.arena <= h'.arena <= h.size + bytes
    requires h'.size == h.size + PAGE * count && h'.usable == h.usable + PAGE * count
    requires h'.others == h.others && h'.live == h.live
    requires Added(h.pages, h.free, h'.pages, h'.free, HEAP_PAGE + h.size / PAGE, count)
    ensures Grew(h, h', count, bytes)
  {
    hide Added;
  }

  class UserHeap {
    var size: int
    var usableSize: int
    var pages: map<int, nat>
    var free: set<nat>
    ghost var others: map<int, nat>
    ghost var arena: int
    ghost var live: seq<Block>

    ghost function View(): Heap
      reads this
    {
      Heap(size, usableSize, pages, others, free, arena, live)
    }

    /** `allocate_frame` and `map_to`, which takes up to three frames for missing tables; all results
        are unwrapped, so a failure is a panic. */
    method MapPage(page: int) returns (ok: bool, ghost f: nat)
      modifies this`pages, this`free
      ensures !ok ==> page in old(pages) || |old(free)| < 4
      ensures ok ==> page !in old(pages) && f in old(free)
      ensures ok ==> pages == old(pages)[page := f] && free <= old(free) - {f}
      ensures |free| + 4 >= |old(free)|
    {
      ok, f := false, 0;
      if free == {} || page in pages {
        return;
      }
      var frame :| frame in free;
      free := free - {frame};
      var tables: nat :| tables <= 3;
      var i := 0;
      while i < tables
        invariant 0 <= i <= tables && !ok && pages == old(pages)
        invariant free <= old(free) - {frame} && |free| + i + 1 == |old(free)|
      {
        if free == {} {
          return;
        }
        var table :| table in free;
        free := free - {table};
        i := i + 1;
      }
      pages := pages[page := frame];
      ok, f := true, frame;
    }

    method Init() returns (ok: bool)
      requires Created(View())
      modifies this`pages, this`free
      ensures ok ==> Inv(View())
      ensures ok ==> Added(old(pages), old(free), pages, free, HEAP_PAGE, INIT_PAGES)
      ensures !ok ==> Blocked(old(pages), HEAP_PAGE, INIT_PAGES) || |old(free)| < 4 * INIT_PAGES
    {
      hide Blocked, Inv;
      var page := 0;
      AddedNothing(pages, free, HEAP_PAGE);
      while page < USER_HEAP_INIT_SIZE / 4096
        invariant 0 <= page <= INIT_PAGES
        invariant Added(old(pages), old(free), pages, free, HEAP_PAGE, page)
        invariant |free| + 4 * page >= |old(free)|
      {
        hide Added, Created;
        ghost var now, left := pages, free;
        ghost var f;
        ok, f := MapPage(HEAP_PAGE + page);
        if !ok {
          BlockedAt(old(pages), old(free), now, left, HEAP_PAGE, page, INIT_PAGES);
          return;
        }
        AddedNext(old(pages), old(free), now, left, HEAP_PAGE, page, f, free);
        page := page + 1;
      }
      hide Added;
      InitInv(old(View()), pages, free);
      ok := true;
    }

    /** `sbrk`; the inner allocator's arena becomes `newArena`. */
    method Sbrk(bytes: nat, ghost newArena: int) returns (ok: bool)
      requires Inv(View()) && arena <= newArena <= size + bytes
      modifies this
      ensures ok ==> Grew(old(View()), View(), PagesFor(bytes), bytes) && arena == newArena
      ensures !ok ==> NoRoom(old(View()), PagesFor(bytes))
    {
      hide Inv, Added, Blocked, NoRoom, Grew, PagesFor;
      WholePages(View());
      var count := PagesFor(bytes);
      arena := newArena;
      var i := 0;
      ghost var from := HEAP_PAGE + size / PAGE;
      AddedNothing(pages, free, from);
      while i < count
        invariant 0 <= i <= count
        invariant size == old(size) + PAGE * i && usableSize == old(usableSize) + PAGE * i
        invariant live == old(live) && others == old(others) && arena == newArena
        invariant Added(old(pages), old(free), pages, free, from, i) && |free| + 4 * i >= |old(free)|
      {
        ghost var now, left := pages, free;
        NextPage(old(size), i);
        ghost var f;
        ok, f := MapPage((HEAP_START + size) / 4096);
        if !ok {
          BlockedAt(old(pages), old(free), now, left, from, i, count);
          NoRoomLeft(old(View()), count);
          return;
        }
        AddedNext(old(pages), old(free), now, left, from, i, f, free);
        size := size + 4096;
        usableSize := usableSize + 4096;
        i := i + 1;
      }
      GrewBy(old(View()), View(), count, bytes);
      ok := true;
    }

    /** `allocate`: `first` is the inner allocator's answer, `second` its answer after `sbrk`, whose
        failure panics. */
    method Allocate(bytes: nat, first: Option<int>, second: Option<int>, ghost newArena: int)
      returns (ok: bool, address: int)
      requires Inv(View())
      requires first.Some? ==> Legal(live, arena, Block(first.value, bytes))
      requires arena <= newArena <= size + bytes * 2
      requires second.Some? ==> Legal(live, newArena, Block(second.value, bytes))
      modifies this
      ensures ok && first.Some? ==>
        address == HEAP_START + first.value && Took(old(View()), View(), Block(first.value, bytes))
      ensures ok && first.None? ==> second.Some? && address == HEAP_START + second.value
      ensures ok && first.None? ==> exists grown :: Grew(old(View()), grown, PagesFor(bytes * 2), bytes * 2)
                                                   && Took(grown, View(), Block(second.value, bytes))
      ensures ok ==> Inv(View()) && usableSize >= 0
      ensures !ok ==> first.None? && (second.None? || NoRoom(old(View()), PagesFor(bytes * 2)))
    {
      ok, address := false, 0;
      if first.Some? {
        usableSize := usableSize - bytes;
        live := live + [Block(first.value, bytes)];
        TookInv(old(View()), View(), Block(first.value, bytes));
        return true, HEAP_START + first.value;
      }
      ok := Sbrk(bytes * 2, newArena);
      if !ok || second.None? {
        return false, 0;
      }
      ghost var grown := View();
      GrewInv(old(View()), grown, PagesFor(bytes * 2), bytes * 2);
      usableSize := usableSize - bytes;
      live := live + [Block(second.value, bytes)];
      TookInv(grown, View(), Block(second.value, bytes));
      address := HEAP_START + second.value;
    }

    method Deallocate(address: int, bytes: nat, ghost i: int)
      requires Inv(View()) && 0 <= i < |live| && live[i] == Block(address - HEAP_START, bytes)
      modifies this
      ensures Gave(old(View()), View(), i) && Inv(View())
    {
      live := Drop(live, i);
      usableSize := usableSize + bytes;
      GaveInv(old(View()), View(), i);
    }

    /** `clear` unmaps every heap page and gives each frame back once; no unmapping fails. */
    method Clear()
      requires Inv(View())
      modifies this
      ensures pages == old(others) && size == usableSize == 0
      ensures Removed(old(View()), pages, free, old(size) / PAGE)
    {
      hide Inv, Mapped, Removed, PagesFor;
      ClearStart(View());
      var count := PagesFor(size);
      var i := 0;
      while i < count
        invariant 0 <= i <= count && size == old(size) && others == old(others)
        invariant Removed(old(View()), pages, free, i)
      {
        RemovedNext(old(View()), count, pages, free, i);
        var page := HEAP_PAGE + i;
        var frame := pages[page];
        pages := pages - {page};
        free := free + {frame};
        i := i + 1;
      }
      OnlyOthers(old(View()), count, pages, free);
      size, usableSize := 0, 0;
    }
  }
}
