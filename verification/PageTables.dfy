/** Four-level page tables in physical memory, and the recursive copy that gives every process its
    own tables. */
module PageTables {
  import opened Collections

  /** A page-table entry: the frame it refers to and all its flag bits. */
  datatype Entry = Entry(addr: nat, flags: nat)

  const ENTRIES: nat := 512

  type Table = t: seq<Entry> | |t| == ENTRIES witness seq(ENTRIES, _ => Entry(0, 0))

  type Memory = map<nat, Table>

  /** The table stored in a frame; a frame nothing was stored in reads as zero. */
  function TableAt(mem: Memory, frame: nat): Table {
    if frame in mem then mem[frame] else seq(ENTRIES, _ => Entry(0, 0))
  }

  predicate IsUnused(e: Entry) {
    e.addr == 0 && e.flags == 0
  }

  predicate IsPresent(flags: nat) {
    flags % 2 == 1
  }

  predicate IsHuge(flags: nat) {
    flags / 128 % 2 == 1
  }

  /** The copy descends into the entry's table instead of copying the entry. */
  predicate Descends(level: nat, e: Entry) {
    level != 1 && !IsUnused(e) && !IsHuge(e.flags)
  }

  // ----- Translation -----

  /** Where a walk ends: the level and address of the leaf and the flags of every entry on the path. */
  datatype Translation = NotMapped | Mapped(level: nat, addr: nat, path: seq<nat>)

  ghost predicate IsPath(idx: seq<nat>, level: nat) {
    |idx| == level && forall i :: 0 <= i < |idx| ==> idx[i] < ENTRIES
  }

  /** The processor's walk along the table indices `idx` of a virtual address. */
  ghost function Walk(mem: Memory, frame: nat, level: nat, idx: seq<nat>): Translation
    requires level >= 1 && IsPath(idx, level)
    decreases level
  {
    var e := TableAt(mem, frame)[idx[0]];
    if !IsPresent(e.flags) then NotMapped
    else if level == 1 || IsHuge(e.flags) then Mapped(level, e.addr, [e.flags])
    else
      match Walk(mem, e.addr, level - 1, idx[1..])
      case NotMapped => NotMapped
      case Mapped(l, a, path) => Mapped(l, a, [e.flags] + path)
  }

  /** Every table frame the copy can visit from `frame`. */
  ghost function Tables(mem: Memory, frame: nat, level: nat): set<nat>
    requires level >= 1
    decreases level, 1
  {
    {frame} + set i, f | 0 <= i < ENTRIES && f in TablesBelow(mem, frame, level, i) :: f
  }

  ghost function TablesBelow(mem: Memory, frame: nat, level: nat, i: nat): set<nat>
    requires level >= 1 && i < ENTRIES
    decreases level, 0
  {
    var e := TableAt(mem, frame)[i];
    if Descends(level, e) then Tables(mem, e.addr, level - 1) else {}
  }

  ghost predicate Agree(m: Memory, n: Memory, frames: set<nat>) {
    forall f :: f in frames ==> TableAt(m, f) == TableAt(n, f)
  }

  lemma SubTables(mem: Memory, frame: nat, level: nat, i: nat)
    requires level >= 2 && i < ENTRIES && Descends(level, TableAt(mem, frame)[i])
    ensures Tables(mem, TableAt(mem, frame)[i].addr, level - 1) <= Tables(mem, frame, level)
  {
    assert TablesBelow(mem, frame, level, i) == Tables(mem, TableAt(mem, frame)[i].addr, level - 1);
  }

  lemma {:induction false} TablesFrame(m: Memory, n: Memory, frame: nat, level: nat)
    requires level >= 1 && Agree(m, n, Tables(m, frame, level))
    ensures Tables(n, frame, level) == Tables(m, frame, level)
    decreases level
  {
    assert TableAt(m, frame) == TableAt(n, frame);
    forall i | 0 <= i < ENTRIES
      ensures TablesBelow(n, frame, level, i) == TablesBelow(m, frame, level, i)
    {
      if Descends(level, TableAt(m, frame)[i]) {
        SubTables(m, frame, level, i);
        TablesFrame(m, n, TableAt(m, frame)[i].addr, level - 1);
      }
    }
  }

  /** A translation depends only on the tables reachable from the root. */
  lemma {:induction false} WalkFrame(m: Memory, n: Memory, frame: nat, level: nat, idx: seq<nat>)
    requires level >= 1 && IsPath(idx, level) && Agree(m, n, Tables(m, frame, level))
    ensures Walk(n, frame, level, idx) == Walk(m, frame, level, idx)
    decreases level
  {
    assert TableAt(m, frame) == TableAt(n, frame);
    var e := TableAt(m, frame)[idx[0]];
    if IsPresent(e.flags) && level != 1 && !IsHuge(e.flags) {
      SubTables(m, frame, level, idx[0]);
      WalkFrame(m, n, e.addr, level - 1, idx[1..]);
    }
  }

  // ----- Copies -----

  /** The table tree at `dst` mirrors the one at `src`: leaves and flags are equal, and every table the
      source descends into has a counterpart. */
  ghost predicate CopyOf(mem: Memory, src: nat, dst: nat, level: nat)
    requires level >= 1
    decreases level, 1
  {
    forall i :: 0 <= i < ENTRIES ==> EntryCopied(mem, src, dst, level, i)
  }

  ghost predicate EntryCopied(mem: Memory, src: nat, dst: nat, level: nat, i: nat)
    requires level >= 1 && i < ENTRIES
    decreases level, 0
  {
    var s, d := TableAt(mem, src)[i], TableAt(mem, dst)[i];
    if Descends(level, s) then d.flags == s.flags && CopyOf(mem, s.addr, d.addr, level - 1) else d == s
  }

  /** An entry of a level-1 table, a zero entry and a huge page (bit 7) are copied as they are; for every other
      entry, present or not, the copy has a table of its own and the same flags. */
  lemma CopiedEntry(mem: Memory, src: nat, dst: nat, level: nat, i: nat)
    requires level >= 1 && i < 512 && CopyOf(mem, src, dst, level)
    ensures var s, d := TableAt(mem, src)[i], TableAt(mem, dst)[i];
      if level == 1 || (s.addr == 0 && s.flags == 0) || s.flags / 128 % 2 == 1 then d == s
      else d.flags == s.flags && CopyOf(mem, s.addr, d.addr, level - 1)
  {
    assert EntryCopied(mem, src, dst, level, i);
  }

  /** The frames of the copy's tables. */
  ghost function Copied(mem: Memory, src: nat, dst: nat, level: nat): set<nat>
    requires level >= 1
    decreases level, 1
  {
    {dst} + set i, f | 0 <= i < ENTRIES && f in CopiedBelow(mem, src, dst, level, i) :: f
  }

  ghost function CopiedBelow(mem: Memory, src: nat, dst: nat, level: nat, i: nat): set<nat>
    requires level >= 1 && i < ENTRIES
    decreases level, 0
  {
    var s, d := TableAt(mem, src)[i], TableAt(mem, dst)[i];
    if Descends(level, s) then Copied(mem, s.addr, d.addr, level - 1) else {}
  }

  lemma SubCopied(mem: Memory, src: nat, dst: nat, level: nat, i: nat)
    requires level >= 2 && i < ENTRIES && Descends(level, TableAt(mem, src)[i])
    ensures Copied(mem, TableAt(mem, src)[i].addr, TableAt(mem, dst)[i].addr, level - 1) <= Copied(mem, src, dst, level)
  {
    assert CopiedBelow(mem, src, dst, level, i)
        == Copied(mem, TableAt(mem, src)[i].addr, TableAt(mem, dst)[i].addr, level - 1);
  }

  /** Being a copy depends only on the two trees. */
  lemma {:induction false} CopyFrame(m: Memory, n: Memory, src: nat, dst: nat, level: nat)
    requires level >= 1 && CopyOf(m, src, dst, level)
    requires Agree(m, n, Tables(m, src, level)) && Agree(m, n, Copied(m, src, dst, level))
    ensures CopyOf(n, src, dst, level) && Copied(n, src, dst, level) == Copied(m, src, dst, level)
    decreases level, 1
  {
    assert TableAt(m, src) == TableAt(n, src) && TableAt(m, dst) == TableAt(n, dst);
    forall i | 0 <= i < ENTRIES
      ensures EntryCopied(n, src, dst, level, i)
      ensures CopiedBelow(n, src, dst, level, i) == CopiedBelow(m, src, dst, level, i)
    {
      assert EntryCopied(m, src, dst, level, i);
      if Descends(level, TableAt(m, src)[i]) {
        SubTables(m, src, level, i);
        SubCopied(m, src, dst, level, i);
      }
      EntryFrame(m, n, src, dst, level, i);
    }
  }

  lemma {:induction false} EntryFrame(m: Memory, n: Memory, src: nat, dst: nat, level: nat, i: nat)
    requires level >= 1 && i < ENTRIES && EntryCopied(m, src, dst, level, i)
    requires TableAt(m, src) == TableAt(n, src) && TableAt(m, dst)[i] == TableAt(n, dst)[i]
    requires Agree(m, n, TablesBelow(m, src, level, i)) && Agree(m, n, CopiedBelow(m, src, dst, level, i))
    ensures EntryCopied(n, src, dst, level, i)
    ensures CopiedBelow(n, src, dst, level, i) == CopiedBelow(m, src, dst, level, i)
    decreases level, 0
  {
    if Descends(level, TableAt(m, src)[i]) {
      CopyFrame(m, n, TableAt(m, src)[i].addr, TableAt(m, dst)[i].addr, level - 1);
    }
  }

  /** A copy translates every address as its source does: same leaf, same flags, same absence. */
  lemma {:induction false} CopyTranslates(mem: Memory, src: nat, dst: nat, level: nat, idx: seq<nat>)
    requires level >= 1 && CopyOf(mem, src, dst, level) && IsPath(idx, level)
    ensures Walk(mem, dst, level, idx) == Walk(mem, src, level, idx)
    decreases level
  {
    var s, d := TableAt(mem, src)[idx[0]], TableAt(mem, dst)[idx[0]];
    assert EntryCopied(mem, src, dst, level, idx[0]);
    if IsPresent(s.flags) && level != 1 && !IsHuge(s.flags) {
      assert Descends(level, s);
      CopyTranslates(mem, s.addr, d.addr, level - 1, idx[1..]);
    }
  }

  /** The tables reachable from the copy's root are among the frames the copy was given. */
  lemma {:induction false} CopyTables(mem: Memory, src: nat, dst: nat, level: nat)
    requires level >= 1 && CopyOf(mem, src, dst, level)
    ensures Tables(mem, dst, level) <= Copied(mem, src, dst, level)
    decreases level
  {
    forall i | 0 <= i < ENTRIES
      ensures TablesBelow(mem, dst, level, i) <= Copied(mem, src, dst, level)
    {
      var s, d := TableAt(mem, src)[i], TableAt(mem, dst)[i];
      assert EntryCopied(mem, src, dst, level, i);
      if Descends(level, d) {
        CopyTables(mem, s.addr, d.addr, level - 1);
        SubCopied(mem, src, dst, level, i);
      }
    }
  }

  // ----- How many frames a copy needs -----

  /** Tables below entries `i` and on of a table. */
  ghost function Needed(mem: Memory, frame: nat, level: nat, i: nat): nat
    requires level >= 1 && i <= ENTRIES
    decreases level, ENTRIES - i
  {
    if i == ENTRIES then 0
    else
      var e := TableAt(mem, frame)[i];
      (if Descends(level, e) then 1 + Needed(mem, e.addr, level - 1, 0) else 0) + Needed(mem, frame, level, i + 1)
  }

  /** One frame is needed for each entry that leads to a table, and those that its table needs. */
  lemma NeededStep(mem: Memory, frame: nat, level: nat, i: nat)
    requires level >= 1 && i < 512
    ensures var e := TableAt(mem, frame)[i];
      Needed(mem, frame, level, i) == Needed(mem, frame, level, i + 1) +
        if level == 1 || (e.addr == 0 && e.flags == 0) || e.flags / 128 % 2 == 1 then 0
        else 1 + Needed(mem, e.addr, level - 1, 0)
    ensures Needed(mem, frame, level, 512) == 0
  {
  }

  lemma {:induction false} NeededFrame(m: Memory, n: Memory, frame: nat, level: nat, i: nat)
    requires level >= 1 && i <= ENTRIES && Agree(m, n, Tables(m, frame, level))
    ensures Needed(n, frame, level, i) == Needed(m, frame, level, i)
    decreases level, ENTRIES - i
  {
    if i == ENTRIES {
    } else {
      assert TableAt(m, frame) == TableAt(n, frame);
      var e := TableAt(m, frame)[i];
      if Descends(level, e) {
        SubTables(m, frame, level, i);
        NeededFrame(m, n, e.addr, level - 1, 0);
      }
      NeededFrame(m, n, frame, level, i + 1);
    }
  }

  // ----- The copy itself -----

  ghost function Elements(xs: seq<nat>): set<nat> {
    set x | x in xs
  }

  /** The frames handed out are distinct and neither in the source tree nor the target table. */
  ghost predicate FreshFor(mem: Memory, src: nat, dst: nat, level: nat, free: seq<nat>)
    requires level >= 1
  {
    && NoDuplicates(free) && dst !in free && dst !in Tables(mem, src, level)
    && forall f :: f in free ==> f !in Tables(mem, src, level)
  }

  /** Nothing but the frames in `written` changed. */
  ghost predicate OnlyChanged(m: Memory, n: Memory, written: set<nat>) {
    forall f :: f !in written ==> TableAt(n, f) == TableAt(m, f)
  }

  lemma OnlyChangedAgrees(m: Memory, n: Memory, written: set<nat>, frames: set<nat>)
    requires OnlyChanged(m, n, written) && written !! frames
    ensures Agree(m, n, frames) && Agree(n, m, frames)
  {
  }

  /** Entry `i` was copied with the frames `taken`; nothing else in the target table changed. */
  ghost predicate EntryDone(m: Memory, n: Memory, src: nat, dst: nat, level: nat, i: nat, taken: seq<nat>)
    requires level >= 1 && i < ENTRIES
  {
    && OnlyChanged(m, n, {dst} + Elements(taken))
    && (forall j :: 0 <= j < ENTRIES && j != i ==> TableAt(n, dst)[j] == TableAt(m, dst)[j])
    && EntryCopied(n, src, dst, level, i) && CopiedBelow(n, src, dst, level, i) <= Elements(taken)
  }

  /** The first `i` entries have been copied with the frames `taken`. */
  ghost predicate Copying(m: Memory, n: Memory, src: nat, dst: nat, level: nat, i: nat, taken: seq<nat>)
    requires level >= 1 && i <= ENTRIES
  {
    && OnlyChanged(m, n, {dst} + Elements(taken))
    && (forall j :: 0 <= j < i ==>
          EntryCopied(n, src, dst, level, j) && CopiedBelow(n, src, dst, level, j) <= Elements(taken))
    && |taken| + Needed(m, src, level, i) == Needed(m, src, level, 0)
  }

  /** Frames entry `i` of the source needs. */
  ghost function EntryNeeded(mem: Memory, src: nat, level: nat, i: nat): nat
    requires level >= 1 && i < ENTRIES
  {
    var e := TableAt(mem, src)[i];
    if Descends(level, e) then 1 + Needed(mem, e.addr, level - 1, 0) else 0
  }

  /** Writing only granted frames and the target leaves the source tree as it was. */
  lemma SourceIntact(m: Memory, n: Memory, src: nat, dst: nat, level: nat, taken: seq<nat>, all: seq<nat>)
    requires level >= 1 && FreshFor(m, src, dst, level, all) && taken <= all
    requires OnlyChanged(m, n, {dst} + Elements(taken))
    ensures Agree(m, n, Tables(m, src, level)) && Tables(n, src, level) == Tables(m, src, level)
    ensures TableAt(n, src) == TableAt(m, src)
  {
    PrefixElements(taken, all);
    OnlyChangedAgrees(m, n, {dst} + Elements(taken), Tables(m, src, level));
    TablesFrame(m, n, src, level);
  }

  lemma EntryNeeds(m: Memory, n: Memory, src: nat, dst: nat, level: nat, i: nat, taken: seq<nat>, all: seq<nat>)
    requires level >= 1 && i < ENTRIES && FreshFor(m, src, dst, level, all) && taken <= all
    requires OnlyChanged(m, n, {dst} + Elements(taken))
    ensures EntryNeeded(n, src, level, i) == EntryNeeded(m, src, level, i)
    ensures Needed(m, src, level, i) == EntryNeeded(m, src, level, i) + Needed(m, src, level, i + 1)
  {
    SourceIntact(m, n, src, dst, level, taken, all);
    var e := TableAt(m, src)[i];
    if Descends(level, e) {
      SubTables(m, src, level, i);
      NeededFrame(m, n, e.addr, level - 1, 0);
    }
  }

  lemma PrefixElements(a: seq<nat>, all: seq<nat>)
    requires a <= all
    ensures forall x :: x in a ==> x in all
  {
    forall x | x in a ensures x in all {
      var i :| 0 <= i < |a| && a[i] == x;
      assert all[i] == x;
    }
  }

  lemma SplitDuplicates(a: seq<nat>, b: seq<nat>, c: seq<nat>)
    requires NoDuplicates(a + b + c)
    ensures NoDuplicates(c) && Elements(a) !! Elements(b) && Elements(a + b) !! Elements(c)
    ensures Elements(a + b) == Elements(a) + Elements(b)
  {
    var all := a + b + c;
    forall x | x in a ensures x !in b {
      var i :| 0 <= i < |a| && a[i] == x;
      forall j | 0 <= j < |b| ensures b[j] != x {
        assert all[i] != all[|a| + j];
      }
    }
    forall x | x in a + b ensures x !in c {
      var i :| 0 <= i < |a + b| && (a + b)[i] == x;
      forall j | 0 <= j < |c| ensures c[j] != x {
        assert all[i] != all[|a + b| + j];
      }
    }
    forall i, j | 0 <= i < j < |c| ensures c[i] != c[j] {
      assert all[|a + b| + i] != all[|a + b| + j];
    }
  }

  /** Earlier entries stay copied while a later one is being copied. */
  lemma EarlierEntry(m: Memory, n: Memory, k: Memory, src: nat, dst: nat, level: nat, i: nat, j: nat,
                     taken: seq<nat>, more: seq<nat>)
    requires level >= 1 && j < i < ENTRIES && Agree(n, k, Tables(n, src, level))
    requires Copying(m, n, src, dst, level, i, taken) && EntryDone(n, k, src, dst, level, i, more)
    requires Elements(taken) !! {dst} + Elements(more)
    ensures EntryCopied(k, src, dst, level, j) && CopiedBelow(k, src, dst, level, j) <= Elements(taken)
  {
    assert EntryCopied(n, src, dst, level, j) && CopiedBelow(n, src, dst, level, j) <= Elements(taken);
    if Descends(level, TableAt(n, src)[j]) {
      SubTables(n, src, level, j);
    }
    OnlyChangedAgrees(n, k, {dst} + Elements(more), CopiedBelow(n, src, dst, level, j));
    EntryFrame(n, k, src, dst, level, j);
  }

  lemma CopyingNext(m: Memory, n: Memory, k: Memory, src: nat, dst: nat, level: nat, i: nat,
                    taken: seq<nat>, more: seq<nat>, free: seq<nat>)
    requires level >= 1 && i < ENTRIES && FreshFor(m, src, dst, level, taken + more + free)
    requires Copying(m, n, src, dst, level, i, taken) && EntryDone(n, k, src, dst, level, i, more)
    requires |more| == EntryNeeded(n, src, level, i)
    ensures Copying(m, k, src, dst, level, i + 1, taken + more)
    ensures FreshFor(k, src, dst, level, free)
  {
    var all := taken + more + free;
    SplitDuplicates(taken, more, free);
    assert taken <= all && taken + more <= all;
    assert forall f :: f in free ==> f in all;
    assert forall f :: f in more ==> f in all;
    SourceIntact(m, n, src, dst, level, taken, all);
    EntryNeeds(m, n, src, dst, level, i, taken, all);
    SourceIntact(m, k, src, dst, level, taken + more, all);
    PrefixElements(taken, all);
    forall j | 0 <= j < i + 1
      ensures EntryCopied(k, src, dst, level, j) && CopiedBelow(k, src, dst, level, j) <= Elements(taken + more)
    {
      if j < i {
        EarlierEntry(m, n, k, src, dst, level, i, j, taken, more);
      }
    }
  }

  lemma CopyingDone(m: Memory, n: Memory, src: nat, dst: nat, level: nat, taken: seq<nat>)
    requires level >= 1 && Copying(m, n, src, dst, level, ENTRIES, taken)
    ensures OnlyChanged(m, n, {dst} + Elements(taken)) && |taken| == Needed(m, src, level, 0)
    ensures CopyOf(n, src, dst, level) && Copied(n, src, dst, level) <= {dst} + Elements(taken)
  {
    var below := set i, f | 0 <= i < ENTRIES && f in CopiedBelow(n, src, dst, level, i) :: f;
    assert Copied(n, src, dst, level) == {dst} + below;
    assert below <= Elements(taken);
  }

  lemma CopyingNeeds(m: Memory, n: Memory, src: nat, dst: nat, level: nat, i: nat, taken: seq<nat>, all: seq<nat>)
    requires level >= 1 && i < ENTRIES && FreshFor(m, src, dst, level, all) && taken <= all
    requires Copying(m, n, src, dst, level, i, taken)
    ensures |taken| + EntryNeeded(n, src, level, i) <= Needed(m, src, level, 0)
  {
    EntryNeeds(m, n, src, dst, level, i, taken, all);
  }

  lemma CopyingStart(m: Memory, src: nat, dst: nat, level: nat)
    requires level >= 1
    ensures Copying(m, m, src, dst, level, 0, [])
  {
  }

  /** What a failed entry leaves behind. */
  lemma CopyingFailed(m: Memory, n: Memory, k: Memory, src: nat, dst: nat, level: nat, i: nat,
                      taken: seq<nat>, more: seq<nat>)
    requires level >= 1 && i < ENTRIES && Copying(m, n, src, dst, level, i, taken)
    requires OnlyChanged(n, k, {dst} + Elements(more))
    ensures OnlyChanged(m, k, {dst} + Elements(taken + more))
  {
    assert forall x :: x in taken + more <==> x in taken || x in more;
  }

  lemma LeafDone(m: Memory, n: Memory, src: nat, dst: nat, level: nat, i: nat, free: seq<nat>)
    requires level >= 1 && i < ENTRIES && !Descends(level, TableAt(m, src)[i])
    requires FreshFor(m, src, dst, level, free) && OnlyChanged(m, n, {dst})
    requires TableAt(n, dst) == TableAt(m, dst)[i := TableAt(m, src)[i]]
    ensures EntryDone(m, n, src, dst, level, i, [])
  {
    assert src in Tables(m, src, level);
  }

  /** Storing the new table's address in the target does not touch the subtree to copy. */
  lemma DescendReady(m: Memory, n: Memory, src: nat, dst: nat, level: nat, i: nat, frame: nat, free: seq<nat>)
    requires level >= 2 && i < ENTRIES && Descends(level, TableAt(m, src)[i])
    requires FreshFor(m, src, dst, level, [frame] + free) && OnlyChanged(m, n, {dst})
    ensures FreshFor(n, TableAt(m, src)[i].addr, frame, level - 1, free)
    ensures Needed(n, TableAt(m, src)[i].addr, level - 1, 0) == Needed(m, TableAt(m, src)[i].addr, level - 1, 0)
  {
    var all, child := [frame] + free, TableAt(m, src)[i].addr;
    SubTables(m, src, level, i);
    assert Agree(m, n, Tables(m, child, level - 1));
    TablesFrame(m, n, child, level - 1);
    NeededFrame(m, n, child, level - 1, 0);
    assert forall j :: 0 <= j < |free| ==> free[j] == all[j + 1];
    assert all[0] == frame;
    forall f | f in free ensures f in all && f != frame {
      var j :| 0 <= j < |free| && free[j] == f;
      assert all[j + 1] == f;
    }
  }

  lemma DescendDone(m: Memory, n: Memory, k: Memory, src: nat, dst: nat, level: nat, i: nat, frame: nat,
                    more: seq<nat>, all: seq<nat>)
    requires level >= 2 && i < ENTRIES && Descends(level, TableAt(m, src)[i])
    requires FreshFor(m, src, dst, level, all) && [frame] + more <= all
    requires OnlyChanged(m, n, {dst}) && OnlyChanged(n, k, {frame} + Elements(more))
    requires TableAt(n, dst) == TableAt(m, dst)[i := Entry(frame, TableAt(m, src)[i].flags)]
    ensures OnlyChanged(m, k, {dst} + Elements([frame] + more))
    ensures CopyOf(k, TableAt(m, src)[i].addr, frame, level - 1)
      && Copied(k, TableAt(m, src)[i].addr, frame, level - 1) <= {frame} + Elements(more)
      ==> EntryDone(m, k, src, dst, level, i, [frame] + more)
  {
    var taken := [frame] + more;
    assert Elements(taken) == {frame} + Elements(more) by {
      assert forall x :: x in taken <==> x == frame || x in more;
    }
    PrefixElements(taken, all);
    assert TableAt(k, dst) == TableAt(n, dst);
    SourceIntact(m, k, src, dst, level, taken, all);
  }

  /** Physical memory and the frames its allocator will grant next. */
  class PhysicalMemory {
    var mem: Memory
    var free: seq<nat>

    /** `new_from_recursion`: copies the tree at `src` into the table at `dst`, taking a fresh frame for
        every table.  `false` is the allocation panic.  It succeeds exactly when there are enough
        frames, and then all 512 entries of every table of the copy have been written. */
    method NewFromRecursion(src: nat, dst: nat, level: nat) returns (ok: bool, ghost taken: seq<nat>)
      requires level >= 1 && FreshFor(mem, src, dst, level, free)
      modifies this
      ensures taken + free == old(free)
      ensures OnlyChanged(old(mem), mem, {dst} + Elements(taken))
      ensures ok <==> |old(free)| >= Needed(old(mem), src, level, 0)
      ensures ok ==> CopyOf(mem, src, dst, level) && Copied(mem, src, dst, level) <= {dst} + Elements(taken)
      ensures ok ==> |taken| == Needed(old(mem), src, level, 0)
      decreases level, 1
    {
      hide Copying, FreshFor, CopyOf, Copied, Needed, EntryDone, EntryNeeded, OnlyChanged, Elements;
      ghost var m := mem;
      taken := [];
      CopyingStart(m, src, dst, level);
      var i := 0;
      while i < ENTRIES
        invariant 0 <= i <= ENTRIES && taken + free == old(free)
        invariant Copying(m, mem, src, dst, level, i, taken)
        invariant FreshFor(mem, src, dst, level, free)
      {
        ghost var n, all := mem, old(free);
        ghost var more: seq<nat>;
        CopyingNeeds(m, n, src, dst, level, i, taken, all);
        ok, more := CopyEntry(src, dst, level, i);
        assert taken + more + free == all;
        if !ok {
          CopyingFailed(m, n, mem, src, dst, level, i, taken, more);
          taken := taken + more;
          return;
        }
        CopyingNext(m, n, mem, src, dst, level, i, taken, more, free);
        taken := taken + more;
        i := i + 1;
      }
      CopyingDone(m, mem, src, dst, level, taken);
      ok := true;
    }

    /** One iteration of the loop over the source table's entries. */
    method CopyEntry(src: nat, dst: nat, level: nat, i: nat) returns (ok: bool, ghost taken: seq<nat>)
      requires level >= 1 && i < ENTRIES && FreshFor(mem, src, dst, level, free)
      modifies this
      ensures taken + free == old(free)
      ensures OnlyChanged(old(mem), mem, {dst} + Elements(taken))
      ensures ok <==> |old(free)| >= EntryNeeded(old(mem), src, level, i)
      ensures ok ==> EntryDone(old(mem), mem, src, dst, level, i, taken)
      ensures ok ==> |taken| == EntryNeeded(old(mem), src, level, i)
      decreases level, 0
    {
      hide FreshFor, CopyOf, Copied, Needed, EntryDone;
      ghost var m := mem;
      var source, target := TableAt(mem, src), TableAt(mem, dst);
      var entry := source[i];
      if !Descends(level, entry) {
        mem := mem[dst := target[i := entry]];
        LeafDone(m, mem, src, dst, level, i, free);
        return true, [];
      }
      if free == [] {
        return false, [];
      }
      var frame := free[0];
      free := free[1..];
      assert [frame] + free == old(free);
      mem := mem[dst := target[i := Entry(frame, entry.flags)]];
      DescendReady(m, mem, src, dst, level, i, frame, free);
      ghost var n, more := mem, [];
      ok, more := NewFromRecursion(entry.addr, frame, level - 1);
      taken := [frame] + more;
      assert taken + free == old(free);
      DescendDone(m, n, mem, src, dst, level, i, frame, more, old(free));
    }

    /** `new_from_address`: a new root table and a copy of everything below the old one.  Given frames
        outside the source's tables, every virtual address translates in the copy as it did in the
        source, the source still translates as before, and no table is shared. */
    method NewFromAddress(src: nat) returns (root: Option<nat>)
      requires NoDuplicates(free) && forall f :: f in free ==> f !in Tables(mem, src, 4)
      modifies this
      ensures root.Some? <==> |old(free)| >= 1 + Needed(old(mem), src, 4, 0)
      ensures root.Some? ==>
        && (forall idx :: IsPath(idx, 4) ==> Walk(mem, root.value, 4, idx) == Walk(old(mem), src, 4, idx))
        && (forall idx :: IsPath(idx, 4) ==> Walk(mem, src, 4, idx) == Walk(old(mem), src, 4, idx))
        && Tables(mem, src, 4) == Tables(old(mem), src, 4)
        && Tables(mem, root.value, 4) !! Tables(mem, src, 4)
        && |old(free)| - |free| == 1 + Needed(old(mem), src, 4, 0)
        && CopyOf(mem, src, root.value, 4) && root.value in old(free)
    {
      if free == [] {
        return None;
      }
      ghost var m, all := mem, free;
      var frame := free[0];
      free := free[1..];
      assert [frame] + free == all;
      RootReady(m, src, frame, free);
      hide FreshFor, CopyOf, Copied, Needed, Tables, Walk;
      var ok, taken := NewFromRecursion(src, frame, 4);
      if !ok {
        return None;
      }
      RootDone(m, mem, src, frame, taken, taken + free);
      return Some(frame);
    }
  }

  lemma RootReady(m: Memory, src: nat, frame: nat, free: seq<nat>)
    requires NoDuplicates([frame] + free) && forall f :: f in [frame] + free ==> f !in Tables(m, src, 4)
    ensures FreshFor(m, src, frame, 4, free)
  {
    var all := [frame] + free;
    assert all[0] == frame && forall j :: 0 <= j < |free| ==> free[j] == all[j + 1];
    assert frame in all;
    forall f | f in free ensures f in all && f != frame {
      var j :| 0 <= j < |free| && free[j] == f;
      assert all[j + 1] == f;
    }
  }

  lemma RootDone(m: Memory, n: Memory, src: nat, root: nat, taken: seq<nat>, all: seq<nat>)
    requires FreshFor(m, src, root, 4, all) && taken <= all && OnlyChanged(m, n, {root} + Elements(taken))
    requires CopyOf(n, src, root, 4) && Copied(n, src, root, 4) <= {root} + Elements(taken)
    ensures forall idx :: IsPath(idx, 4) ==> Walk(n, root, 4, idx) == Walk(m, src, 4, idx)
    ensures forall idx :: IsPath(idx, 4) ==> Walk(n, src, 4, idx) == Walk(m, src, 4, idx)
    ensures Tables(n, src, 4) == Tables(m, src, 4) && Tables(n, root, 4) !! Tables(n, src, 4)
  {
    SourceIntact(m, n, src, root, 4, taken, all);
    PrefixElements(taken, all);
    CopyTables(n, src, root, 4);
    hide Walk, Tables, CopyOf;
    forall idx | IsPath(idx, 4)
      ensures Walk(n, root, 4, idx) == Walk(m, src, 4, idx) && Walk(n, src, 4, idx) == Walk(m, src, 4, idx)
    {
      CopyTranslates(n, src, root, 4, idx);
      WalkFrame(m, n, src, 4, idx);
    }
  }

  /** Whatever is later written to the copy's tables, the source translates as before, and the other
      way round. */
  lemma CopyIsIndependent(m: Memory, n: Memory, src: nat, root: nat, idx: seq<nat>)
    requires Tables(m, root, 4) !! Tables(m, src, 4) && IsPath(idx, 4)
    ensures OnlyChanged(m, n, Tables(m, root, 4)) ==> Walk(n, src, 4, idx) == Walk(m, src, 4, idx)
    ensures OnlyChanged(m, n, Tables(m, src, 4)) ==> Walk(n, root, 4, idx) == Walk(m, root, 4, idx)
  {
    hide Walk, Tables;
    if OnlyChanged(m, n, Tables(m, root, 4)) {
      WalkFrame(m, n, src, 4, idx);
    }
    if OnlyChanged(m, n, Tables(m, src, 4)) {
      WalkFrame(m, n, root, 4, idx);
    }
  }
}
