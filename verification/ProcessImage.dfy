/** Loading an ELF image: mapping fresh frames under each segment and writing its bytes through the
    page table of the new process. */
module ProcessImage {
  import opened Collections

  /** The mapped pages of a process, by page number. */
  datatype Mapping = Mapping(frame: nat, flags: nat)

  type Pages = map<nat, Mapping>

  /** Physical memory, by address. */
  type Memory = map<nat, byte>

  function ByteAt(mem: Memory, address: nat): byte {
    if address in mem then mem[address] else 0
  }

  function PageOf(va: nat): nat {
    va / PAGE
  }

  /** `translate_addr`. */
  function Translate(pages: Pages, va: nat): Option<nat> {
    if PageOf(va) in pages then Some(pages[PageOf(va)].frame * PAGE + va % PAGE) else None
  }

  /** The bytes of a page are those of its frame, in order. */
  lemma TranslatePage(pages: Pages, page: nat, offset: nat)
    requires offset < 4096
    ensures Translate(pages, 4096 * page + offset) ==
      if page in pages then Some(4096 * pages[page].frame + offset) else None
  {
    assert (4096 * page + offset) / 4096 == page && (4096 * page + offset) % 4096 == offset;
  }

  // ----- Bytes through the page table -----

  ghost predicate AllMapped(pages: Pages, va: nat, len: nat) {
    forall a :: va <= a < va + len ==> Translate(pages, a).Some?
  }

  /** The bytes at `va` are `data`. */
  ghost predicate Holds(mem: Memory, pages: Pages, va: nat, data: seq<byte>) {
    forall a :: va <= a < va + |data| ==>
      Translate(pages, a).Some? && ByteAt(mem, Translate(pages, a).value) == data[a - va]
  }

  /** The pages in `own` are mapped, each to a frame of its own. */
  ghost predicate OwnFrames(pages: Pages, own: set<nat>) {
    && (forall p :: p in own ==> p in pages)
    && (forall p, q :: p in own && q in own && p != q ==> pages[p].frame != pages[q].frame)
  }

  ghost predicate InPages(va: nat, len: nat, own: set<nat>) {
    forall a :: va <= a < va + len ==> PageOf(a) in own
  }

  lemma SamePhysical(pages: Pages, own: set<nat>, a: nat, b: nat)
    requires OwnFrames(pages, own) && PageOf(a) in own && PageOf(b) in own
    ensures Translate(pages, a) == Translate(pages, b) <==> a == b
  {
    var f, g := pages[PageOf(a)].frame, pages[PageOf(b)].frame;
    if f * PAGE + a % PAGE == g * PAGE + b % PAGE {
      assert f == g && a % PAGE == b % PAGE;
    }
  }

  // ----- Segments -----

  /** A loadable segment; `data` is what the file holds for it, if it can be read. */
  datatype Segment = Segment(address: nat, size: nat, data: Option<seq<byte>>)

  /** The flags of a program's pages: present, writable, user-accessible. */
  const USER_PAGE: nat := 1 + 2 + 4

  datatype MapError = AlreadyMapped(page: nat) | OutOfFrames

  ghost predicate InSpan(p: nat, first: int, last: int) {
    first <= p <= last
  }

  ghost function PageSet(first: int, last: int): set<nat>
    requires first >= 0
  {
    set p | first <= p <= last && InSpan(p, first, last)
  }

  /** The pages `range_inclusive` yields for `length` bytes at `start`. */
  ghost function Span(start: nat, length: nat): set<nat>
    requires start + length >= 1
  {
    PageSet(start / PAGE, (start + length - 1) / PAGE)
  }

  /** Those are the pages that hold one of the bytes; for no bytes it is the page of an unaligned start. */
  lemma SpanPages(start: nat, length: nat, page: nat)
    requires start + length >= 1
    ensures length > 0 ==>
      (page in Span(start, length) <==> exists a :: start <= a < start + length && PageOf(a) == page)
    ensures length == 0 ==> (page in Span(start, length) <==> 4096 * page < start < 4096 * (page + 1))
  {
    var first, last := start / 4096, (start + length - 1) / 4096;
    assert page in Span(start, length) <==> InSpan(page, first, last);
    if length > 0 && first <= page <= last {
      var a := if page == first then start else 4096 * page;
      assert start <= a < start + length && PageOf(a) == page;
    }
  }

  /** How many pages that is. */
  function PageCount(start: nat, length: nat): nat
    requires start + length >= 1
  {
    (start + length - 1) / PAGE + 1 - start / PAGE
  }

  ghost predicate ValidSegment(seg: Segment) {
    && seg.address + seg.size >= 1
    && (seg.data.Some? ==> |seg.data.value| <= seg.size)
  }

  ghost predicate ValidSegments(segments: seq<Segment>) {
    forall i :: 0 <= i < |segments| ==> ValidSegment(segments[i])
  }

  lemma SegmentInSpan(seg: Segment)
    requires ValidSegment(seg) && seg.data.Some?
    ensures InPages(seg.address, |seg.data.value|, Span(seg.address, seg.size))
  {
    forall a | seg.address <= a < seg.address + |seg.data.value| ensures PageOf(a) in Span(seg.address, seg.size) {
      assert InSpan(PageOf(a), seg.address / PAGE, (seg.address + seg.size - 1) / PAGE);
    }
  }

  /** Pages of the first `n` segments. */
  ghost function Spans(segments: seq<Segment>, n: nat): set<nat>
    requires n <= |segments| && ValidSegments(segments)
  {
    if n == 0 then {} else Spans(segments, n - 1) + Span(segments[n - 1].address, segments[n - 1].size)
  }

  /** Pages of the first `n` segments, counted segment by segment. */
  ghost function TotalPages(segments: seq<Segment>, n: nat): nat
    requires n <= |segments| && ValidSegments(segments)
  {
    if n == 0 then 0 else TotalPages(segments, n - 1) + PageCount(segments[n - 1].address, segments[n - 1].size)
  }

  lemma {:induction false} TotalPagesGrow(segments: seq<Segment>, i: nat, n: nat)
    requires i <= n <= |segments| && ValidSegments(segments)
    ensures TotalPages(segments, i) <= TotalPages(segments, n)
    decreases n
  {
    if i == n {
    } else {
      TotalPagesGrow(segments, i, n - 1);
    }
  }

  lemma {:induction false} SpanInSpans(segments: seq<Segment>, n: nat, j: nat)
    requires j < n <= |segments| && ValidSegments(segments)
    ensures Span(segments[j].address, segments[j].size) <= Spans(segments, n)
    decreases n
  {
    if j == n - 1 {
    } else {
      SpanInSpans(segments, n - 1, j);
    }
  }

  /** Frames still to be granted are distinct and back none of the pages in `own`. */
  ghost predicate Supply(pages: Pages, free: seq<nat>, own: set<nat>) {
    && OwnFrames(pages, own)
    && NoDuplicates(free)
    && (forall p :: p in own ==> pages[p].frame !in free)
  }

  /** Mappings are only added. */
  ghost predicate Extends(before: Pages, after: Pages) {
    forall p :: p in before ==> p in after && after[p] == before[p]
  }

  ghost predicate SegmentLoaded(mem: Memory, pages: Pages, seg: Segment) {
    seg.data.Some? ==> Holds(mem, pages, seg.address, seg.data.value)
  }

  lemma LoadedExtends(mem: Memory, before: Pages, after: Pages, seg: Segment)
    requires SegmentLoaded(mem, before, seg) && Extends(before, after)
    ensures SegmentLoaded(mem, after, seg)
  {
    if seg.data.Some? {
      forall a | seg.address <= a < seg.address + |seg.data.value|
        ensures Translate(after, a).Some? && ByteAt(mem, Translate(after, a).value) == seg.data.value[a - seg.address]
      {
        assert Translate(before, a).Some?;
      }
    }
  }

  /** Writing one segment leaves a segment on other pages as it was. */
  lemma LoadedKept(m: Memory, n: Memory, pages: Pages, own: set<nat>, seg: Segment, va: nat, data: seq<byte>,
                   span: set<nat>)
    requires OwnFrames(pages, own) && ValidSegment(seg) && SegmentLoaded(m, pages, seg)
    requires Span(seg.address, seg.size) <= own && span !! Span(seg.address, seg.size)
    requires Written(m, n, pages, own, va, data) && InPages(va, |data|, span)
    ensures SegmentLoaded(n, pages, seg)
  {
    if seg.data.Some? {
      SegmentInSpan(seg);
      hide Translate, ByteAt, PageOf, Span;
      forall a: nat | seg.address <= a < seg.address + |seg.data.value|
        ensures Translate(pages, a).Some? && ByteAt(n, Translate(pages, a).value) == seg.data.value[a - seg.address]
      {
        assert PageOf(a) in Span(seg.address, seg.size);
      }
    }
  }

  /** Memory after the bytes were stored one after the other at `va`. */
  ghost function Stored(mem: Memory, pages: Pages, va: nat, data: seq<byte>): Memory {
    if data == [] then mem
    else
      var n := |data| - 1;
      var before := Stored(mem, pages, va, data[..n]);
      match Translate(pages, va + n)
      case None => before
      case Some(a) => before[a := data[n]]
  }

  lemma StoredNext(mem: Memory, pages: Pages, va: nat, data: seq<byte>, n: nat)
    requires n < |data| && Translate(pages, va + n).Some?
    ensures Stored(mem, pages, va, []) == mem
    ensures Stored(mem, pages, va, data[..n + 1])
      == Stored(mem, pages, va, data[..n])[Translate(pages, va + n).value := data[n]]
  {
    hide Translate;
    assert data[..n + 1][..n] == data[..n];
  }

  lemma MappedNext(pages: Pages, va: nat, n: nat)
    requires AllMapped(pages, va, n)
    ensures AllMapped(pages, va, n + 1) <==> Translate(pages, va + n).Some?
  {
    hide Translate;
  }

  lemma MappedPrefix(pages: Pages, va: nat, n: nat, len: nat)
    requires n <= len && AllMapped(pages, va, len)
    ensures AllMapped(pages, va, n) && (n < len ==> Translate(pages, va + n).Some?)
  {
    hide Translate;
  }

  /** Only the bytes' own places have changed. */
  lemma {:induction false} StoredFrame(mem: Memory, pages: Pages, va: nat, data: seq<byte>, a: nat)
    requires forall k :: va <= k < va + |data| ==> Translate(pages, k) != Some(a)
    ensures ByteAt(Stored(mem, pages, va, data), a) == ByteAt(mem, a)
    decreases |data|
  {
    if data == [] {
    } else {
      hide Translate;
      StoredFrame(mem, pages, va, data[..|data| - 1], a);
    }
  }

  /** Two byte strings of equal length at one address are equal, so a read returns what was written. */
  lemma HoldsUnique(mem: Memory, pages: Pages, va: nat, d: seq<byte>, e: seq<byte>)
    requires |d| == |e| && Holds(mem, pages, va, d) && Holds(mem, pages, va, e)
    ensures d == e
  {
    forall k | 0 <= k < |d| ensures d[k] == e[k] {
      assert Translate(pages, va + k).Some?;
    }
  }

  /** The pages are mapped with these flags, each to one of the frames. */
  ghost predicate Backed(pages: Pages, span: set<nat>, flags: nat, frames: seq<nat>) {
    forall p :: p in span ==> p in pages && pages[p].flags == flags && pages[p].frame in frames
  }

  ghost predicate Among(some: seq<nat>, all: seq<nat>) {
    forall f :: f in some ==> f in all
  }

  lemma AmongTrans(a: seq<nat>, b: seq<nat>, c: seq<nat>)
    requires Among(a, b) && Among(b, c)
    ensures Among(a, c)
  {
  }

  lemma ExtendsTrans(a: Pages, b: Pages, c: Pages)
    requires Extends(a, b) && Extends(b, c)
    ensures Extends(a, c)
  {
  }

  lemma NothingBacked(pages: Pages, flags: nat, free: seq<nat>)
    ensures Backed(pages, {}, flags, free) && Among(free, free) && Extends(pages, pages)
  {
  }

  lemma BackedNext(before: Pages, after: Pages, done: set<nat>, more: set<nat>, flags: nat, frames: seq<nat>,
                   left: seq<nat>)
    requires Extends(before, after) && Backed(before, done, flags, frames)
    requires Backed(after, more, flags, left) && Among(left, frames)
    ensures Backed(after, done + more, flags, frames)
  {
  }

  class AddressSpace {
    var pages: Pages
    var mem: Memory
    var free: seq<nat>   // frames the allocator grants next

    /** `write`: byte by byte, stopping at the first unmapped address, after `n` bytes.  `own` is any set of
        pages with frames of their own; if the bytes go there, they can be read back and nothing else changed. */
    method Write(buffer: seq<byte>, address: nat, ghost own: set<nat>) returns (ok: bool, ghost n: nat)
      requires OwnFrames(pages, own)
      modifies this`mem
      ensures ok <==> AllMapped(pages, address, |buffer|)
      ensures n <= |buffer| && AllMapped(pages, address, n) && mem == Stored(old(mem), pages, address, buffer[..n])
      ensures n < |buffer| ==> Translate(pages, address + n).None?
      ensures ok && InPages(address, |buffer|, own) ==> Written(old(mem), mem, pages, own, address, buffer)
    {
      hide Stored, Translate, AllMapped, OwnFrames, Written, InPages;
      var offset := 0;
      WriteStart(mem, pages, own, address, buffer);
      while offset < |buffer|
        invariant 0 <= offset <= |buffer| && AllMapped(pages, address, offset)
        invariant mem == Stored(old(mem), pages, address, buffer[..offset])
        invariant InPages(address, |buffer|, own) ==> Written(old(mem), mem, pages, own, address, buffer[..offset])
      {
        var target := Translate(pages, address + offset);
        MappedNext(pages, address, offset);
        if target.None? {
          if AllMapped(pages, address, |buffer|) {
            MappedPrefix(pages, address, offset, |buffer|);
          }
          return false, offset;
        }
        ghost var before := mem;
        mem := mem[target.value := buffer[offset]];
        StoredNext(old(mem), pages, address, buffer, offset);
        if InPages(address, |buffer|, own) {
          assert buffer[..offset + 1] == buffer[..offset] + [buffer[offset]];
          InPagesAt(address, |buffer|, own, offset);
          WrittenNext(old(mem), before, mem, pages, own, address, buffer[..offset], buffer[offset]);
        }
        offset := offset + 1;
      }
      assert buffer[..offset] == buffer;
      return true, offset;
    }

    /** `read`: byte by byte; fails if any address is unmapped. */
    method Read(address: nat, len: nat) returns (data: Option<seq<byte>>)
      ensures data.Some? <==> AllMapped(pages, address, len)
      ensures data.Some? ==> |data.value| == len && Holds(mem, pages, address, data.value)
    {
      var buffer: seq<byte> := [];
      while |buffer| < len
        invariant |buffer| <= len && AllMapped(pages, address, |buffer|) && Holds(mem, pages, address, buffer)
        decreases len - |buffer|
      {
        var source := Translate(pages, address + |buffer|);
        if source.None? {
          return None;
        }
        buffer := buffer + [ByteAt(mem, source.value)];
      }
      return Some(buffer);
    }

    /** `map_to`: adds one mapping, taking up to three frames for missing tables. */
    method MapTo(page: nat, frame: nat, flags: nat) returns (e: Option<MapError>, ghost taken: nat)
      modifies this`pages, this`free
      ensures page in old(pages) ==> e == Some(AlreadyMapped(page))
      ensures e.None? ==> page !in old(pages) && pages == old(pages)[page := Mapping(frame, flags)]
      ensures e.Some? ==> pages == old(pages) && (e.value == OutOfFrames || page in old(pages))
      ensures e == Some(OutOfFrames) ==> |old(free)| < 3
      ensures taken <= 3 && taken <= |old(free)| && free == old(free)[taken..]
    {
      var tables: nat :| tables <= 3;
      taken := 0;
      if page in pages {
        return Some(AlreadyMapped(page)), 0;
      }
      if tables > |free| {
        return Some(OutOfFrames), 0;
      }
      free := free[tables..];
      pages := pages[page := Mapping(frame, flags)];
      return None, tables;
    }

    /** One page of the range: a frame from the allocator, mapped. */
    method BackPage(page: nat, flags: nat, ghost own: set<nat>) returns (e: Option<MapError>)
      requires Supply(pages, free, own)
      modifies this`pages, this`free
      ensures e.None? ==>
        && page !in old(pages) && pages.Keys == old(pages).Keys + {page} && Supply(pages, free, own + {page})
      ensures e.Some? ==> pages == old(pages) && Supply(pages, free, own)
      ensures e.Some? && e.value.AlreadyMapped? ==> e.value.page == page && page in old(pages)
      ensures e == Some(OutOfFrames) ==> |old(free)| < 4
      ensures |free| + 4 >= |old(free)|
      ensures Extends(old(pages), pages) && Among(free, old(free))
      ensures e.None? ==> Backed(pages, {page}, flags, old(free))
    {
      if free == [] {
        return Some(OutOfFrames);
      }
      hide Supply;
      ghost var before, supply := pages, free;
      var frame := free[0];
      free := free[1..];
      ghost var k;
      e, k := MapTo(page, frame, flags);
      DropMore(supply, k);
      if e.Some? {
        SupplyShrinks(before, supply, own, k + 1);
      } else {
        SupplyNext(before, pages, supply, own, page, frame, flags, k + 1);
      }
    }

    /** `alloc_range`: backs every page of the range with a fresh frame of its own. */
    method AllocRange(start: nat, length: nat, flags: nat, ghost own: set<nat>) returns (e: Option<MapError>)
      requires start + length >= 1 && Supply(pages, free, own)
      modifies this`pages, this`free
      ensures Extends(old(pages), pages) && Among(free, old(free))
      ensures e.None? ==> Backed(pages, Span(start, length), flags, old(free))
      ensures e.None? ==> Span(start, length) !! old(pages).Keys
      ensures e.None? ==> pages.Keys == old(pages).Keys + Span(start, length)
      ensures e.None? ==> Supply(pages, free, own + Span(start, length))
      ensures e.Some? && e.value.AlreadyMapped? ==> !(Span(start, length) !! old(pages).Keys)
      ensures e == Some(OutOfFrames) ==> |old(free)| < 4 * PageCount(start, length)
      ensures |free| + 4 * PageCount(start, length) >= |old(free)|
    {
      hide Supply, Backed, Among, Extends;
      NothingBacked(pages, flags, free);
      var first, last := start / PAGE, (start + length - 1) / PAGE;
      var page := first;
      ghost var done := PageSet(first, page - 1);
      assert done == {} && own + done == own;
      while page <= last
        invariant first <= page && (page <= last + 1 || page == first)
        invariant done == PageSet(first, page - 1) && done !! old(pages).Keys
        invariant pages.Keys == old(pages).Keys + done && Extends(old(pages), pages)
        invariant Supply(pages, free, own + done)
        invariant Backed(pages, done, flags, old(free)) && Among(free, old(free))
        invariant |free| + 4 * (page - first) >= |old(free)|
        decreases last + 1 - page
      {
        PageSetNext(first, page);
        ghost var now, left := pages, free;
        e := BackPage(page, flags, own + done);
        ExtendsTrans(old(pages), now, pages);
        AmongTrans(free, left, old(free));
        if e.Some? {
          if e.value.AlreadyMapped? {
            assert page in PageSet(first, last) by {
              assert InSpan(page, first, last);
            }
          }
          return;
        }
        BackedNext(now, pages, done, {page}, flags, old(free), left);
        assert own + done + {page} == own + (done + {page});
        done := done + {page};
        page := page + 1;
      }
      assert PageSet(first, page - 1) == Span(start, length);
      return None;
    }

    /** `map_segments`: if it returns without panicking, every segment's file bytes are readable at
        their virtual addresses, the segments lie on separate pages, none of those was mapped, and each is now
        mapped present, writable and user-accessible to a frame that was free.  With separate segments and
        four frames a page it does not panic. */
    method MapSegments(segments: seq<Segment>) returns (panic: Option<MapError>)
      requires ValidSegments(segments) && Supply(pages, free, {})
      modifies this
      ensures panic.None? ==>
        && (forall j :: 0 <= j < |segments| ==> SegmentLoaded(mem, pages, segments[j]))
        && pages.Keys == old(pages).Keys + Spans(segments, |segments|)
        && Separate(segments, |segments|, old(pages).Keys)
        && Backed(pages, Spans(segments, |segments|), 1 + 2 + 4, old(free))
      ensures panic.Some? && panic.value.AlreadyMapped? ==> !Separate(segments, |segments|, old(pages).Keys)
      ensures panic == Some(OutOfFrames) ==> |old(free)| < 4 * TotalPages(segments, |segments|)
      ensures Separate(segments, |segments|, old(pages).Keys) && |old(free)| >= 4 * TotalPages(segments, |segments|) ==>
        panic.None?
    {
      hide Supply, SegmentLoaded, Span, Spans, Separate, TotalPages, PageCount, Backed, Among, Extends;
      NoSegments(segments, pages.Keys);
      NothingBacked(pages, USER_PAGE, free);
      var i := 0;
      while i < |segments|
        invariant 0 <= i <= |segments| && Supply(pages, free, Spans(segments, i))
        invariant pages.Keys == old(pages).Keys + Spans(segments, i)
        invariant Separate(segments, i, old(pages).Keys)
        invariant forall j :: 0 <= j < i ==> SegmentLoaded(mem, pages, segments[j])
        invariant |free| + 4 * TotalPages(segments, i) >= |old(free)|
        invariant Backed(pages, Spans(segments, i), USER_PAGE, old(free)) && Among(free, old(free))
      {
        TotalPagesGrow(segments, i + 1, |segments|);
        NextSegment(segments, i, old(pages).Keys);
        ghost var now, left := pages, free;
        panic := LoadSegment(segments, i, USER_PAGE, old(pages).Keys);
        AmongTrans(free, left, old(free));
        if panic.Some? {
          if panic.value.AlreadyMapped? {
            NotSeparate(segments, i, old(pages).Keys);
          }
          return;
        }
        ghost var done, more := Spans(segments, i), Span(segments[i].address, segments[i].size);
        BackedNext(now, pages, done, more, USER_PAGE, old(free), left);
        i := i + 1;
      }
      return None;
    }

    /** One segment: its pages, then its bytes. */
    method LoadSegment(segments: seq<Segment>, i: nat, flags: nat, ghost base: set<nat>)
      returns (panic: Option<MapError>)
      requires ValidSegments(segments) && i < |segments| && Supply(pages, free, Spans(segments, i))
      requires pages.Keys == base + Spans(segments, i)
      requires forall j :: 0 <= j < i ==> SegmentLoaded(mem, pages, segments[j])
      modifies this
      ensures Extends(old(pages), pages) && Among(free, old(free))
      ensures panic.None? ==> Backed(pages, Span(segments[i].address, segments[i].size), flags, old(free))
      ensures panic.None? ==>
        && Span(segments[i].address, segments[i].size) !! old(pages).Keys
        && Supply(pages, free, Spans(segments, i + 1)) && pages.Keys == base + Spans(segments, i + 1)
        && forall j :: 0 <= j < i + 1 ==> SegmentLoaded(mem, pages, segments[j])
      ensures panic.Some? && panic.value.AlreadyMapped? ==>
        !(Span(segments[i].address, segments[i].size) !! base + Spans(segments, i))
      ensures panic == Some(OutOfFrames) ==> |old(free)| < 4 * PageCount(segments[i].address, segments[i].size)
      ensures |free| + 4 * PageCount(segments[i].address, segments[i].size) >= |old(free)|
    {
      hide Stored, AllMapped, Translate, Among, Backed;
      var seg := segments[i];
      ghost var own, span := Spans(segments, i), Span(seg.address, seg.size);
      panic := AllocRange(seg.address, seg.size, flags, own);
      if panic.Some? {
        return;
      }
      forall j | 0 <= j < i ensures SegmentLoaded(mem, pages, segments[j]) {
        LoadedExtends(mem, old(pages), pages, segments[j]);
      }
      if seg.data.Some? {
        SegmentInSpan(seg);
        MappedSpan(pages, seg.address, |seg.data.value|, span);
        ghost var before := mem;
        var ok, n := Write(seg.data.value, seg.address, own + span);
        forall j | 0 <= j < i ensures SegmentLoaded(mem, pages, segments[j]) {
          SpanInSpans(segments, i, j);
          LoadedKept(before, mem, pages, own + span, segments[j], seg.address, seg.data.value, span);
        }
      }
    }
  }

  lemma PageSetNext(first: int, page: int)
    requires 0 <= first <= page
    ensures PageSet(first, page) == PageSet(first, page - 1) + {page} && page !in PageSet(first, page - 1)
  {
    assert forall p :: p in PageSet(first, page) <==> InSpan(p, first, page);
  }

  lemma DropMore(s: seq<nat>, k: nat)
    requires 1 + k <= |s|
    ensures s[1..][k..] == s[k + 1..]
  {
  }

  lemma SupplyShrinks(pages: Pages, free: seq<nat>, own: set<nat>, k: nat)
    requires Supply(pages, free, own) && k <= |free|
    ensures Supply(pages, free[k..], own)
  {
    forall p | p in own ensures pages[p].frame !in free[k..] {
      assert pages[p].frame !in free;
    }
  }

  /** Backing a new page with the first frame of the supply keeps frames distinct. */
  lemma SupplyNext(before: Pages, after: Pages, free: seq<nat>, own: set<nat>, page: nat, frame: nat, flags: nat,
                   k: nat)
    requires Supply(before, free, own) && page !in before && 1 <= k <= |free| && frame == free[0]
    requires after == before[page := Mapping(frame, flags)]
    ensures Supply(after, free[k..], own + {page})
  {
    SupplyShrinks(before, free, own, k);
    assert frame in free;
    assert frame !in free[k..];
  }

  lemma MappedSpan(pages: Pages, va: nat, len: nat, span: set<nat>)
    requires InPages(va, len, span) && span <= pages.Keys
    ensures AllMapped(pages, va, len)
  {
  }

  /** The first `n` segments lie on pages of their own, outside `base`. */
  ghost predicate Separate(segments: seq<Segment>, n: nat, base: set<nat>)
    requires n <= |segments| && ValidSegments(segments)
  {
    n == 0 || (Separate(segments, n - 1, base)
               && Span(segments[n - 1].address, segments[n - 1].size) !! base + Spans(segments, n - 1))
  }

  lemma NoSegments(segments: seq<Segment>, base: set<nat>)
    requires ValidSegments(segments)
    ensures Spans(segments, 0) == {} && TotalPages(segments, 0) == 0 && Separate(segments, 0, base)
  {
  }

  lemma NextSegment(segments: seq<Segment>, i: nat, base: set<nat>)
    requires ValidSegments(segments) && i < |segments|
    ensures TotalPages(segments, i + 1) == TotalPages(segments, i) + PageCount(segments[i].address, segments[i].size)
    ensures Spans(segments, i + 1) == Spans(segments, i) + Span(segments[i].address, segments[i].size)
    ensures Separate(segments, i + 1, base) <==>
      Separate(segments, i, base) && Span(segments[i].address, segments[i].size) !! base + Spans(segments, i)
  {
    hide Span, PageCount;
  }

  lemma {:induction false} NotSeparate(segments: seq<Segment>, i: nat, base: set<nat>)
    requires ValidSegments(segments) && i < |segments|
    requires !(Span(segments[i].address, segments[i].size) !! base + Spans(segments, i))
    ensures !Separate(segments, |segments|, base)
  {
    var n := |segments|;
    while n > i + 1
      invariant i + 1 <= n <= |segments| && (Separate(segments, |segments|, base) ==> Separate(segments, n, base))
    {
      n := n - 1;
    }
  }

  /** `data` has been written at `va`, and no other byte of the pages in `own` has changed. */
  ghost predicate Written(m: Memory, n: Memory, pages: Pages, own: set<nat>, va: nat, data: seq<byte>)
    requires OwnFrames(pages, own)
  {
    && Holds(n, pages, va, data)
    && forall a: nat :: PageOf(a) in own && !(va <= a < va + |data|) ==>
         ByteAt(n, Translate(pages, a).value) == ByteAt(m, Translate(pages, a).value)
  }

  lemma WriteStart(m: Memory, pages: Pages, own: set<nat>, va: nat, data: seq<byte>)
    requires OwnFrames(pages, own)
    ensures AllMapped(pages, va, 0) && data[..0] == [] && Stored(m, pages, va, data[..0]) == m
    ensures Written(m, m, pages, own, va, data[..0])
  {
  }

  lemma InPagesAt(va: nat, len: nat, own: set<nat>, n: nat)
    requires n < len && InPages(va, len, own)
    ensures InPages(va, n + 1, own)
  {
  }

  lemma WrittenNext(m: Memory, n: Memory, k: Memory, pages: Pages, own: set<nat>, va: nat, data: seq<byte>, b: byte)
    requires OwnFrames(pages, own) && InPages(va, |data| + 1, own) && Written(m, n, pages, own, va, data)
    requires Translate(pages, va + |data|).Some? && k == n[Translate(pages, va + |data|).value := b]
    ensures Written(m, k, pages, own, va, data + [b])
  {
    var end := va + |data|;
    forall a | va <= a < end + 1
      ensures Translate(pages, a).Some? && ByteAt(k, Translate(pages, a).value) == (data + [b])[a - va]
    {
      SamePhysical(pages, own, a, end);
    }
    forall a: nat | PageOf(a) in own && !(va <= a < va + |data| + 1)
      ensures ByteAt(k, Translate(pages, a).value) == ByteAt(m, Translate(pages, a).value)
    {
      SamePhysical(pages, own, a, end);
    }
  }
}
