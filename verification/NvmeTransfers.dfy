/** The layout of a batched transfer: how `batched_write` and `batched_read` cut a chunk of data
    into commands, and when the commands together move the whole chunk. */
module NvmeTransfers {
  import opened Collections
  import opened NvmeTypes
  import opened NvmeSystem
  import opened NvmeBatch
  import RingArith

  /** A chunk of `size` bytes split into `count` commands of `blocks` blocks each, `stride` bytes apart. */
  datatype Split = Split(count: nat, stride: nat, blocks: nat)

  function Min(a: nat, b: nat): nat {
    if a < b then a else b
  }

  /** `batch_len`, `batch_size` and `blocks` of one chunk; dividing needs a batch of at least one
      command and a chunk of at least one block. */
  function SplitChunk(size: nat, batchLen: nat): Split
    requires batchLen >= 1 && size >= BLOCK
  {
    var count := Min(batchLen, size / BLOCK);
    Split(count, size / count, size / count / BLOCK)
  }

  /** Bytes a command of the split moves. */
  function Per(p: Split): nat {
    p.blocks * BLOCK
  }

  ghost predicate Fits(p: Split, size: nat) {
    && 1 <= p.count && 1 <= p.blocks && Per(p) <= p.stride && p.count * p.stride <= size
  }

  lemma Row(i: nat, n: nat, q: nat)
    requires i < n
    ensures 0 <= i * q && i * q + q <= n * q
  {
    RingArith.Multiple(q, n - i);
    assert n * q == i * q + q * (n - i);
  }

  lemma SplitFits(size: nat, batchLen: nat)
    requires batchLen >= 1 && size >= BLOCK
    ensures Fits(SplitChunk(size, batchLen), size)
  {
    var p := SplitChunk(size, batchLen);
    assert 1 <= p.count <= size / BLOCK;
    assert p.count * p.stride <= size;
    RingArith.DivBound(size, BLOCK, p.count);
    RingArith.DivBound(size, p.count, BLOCK);
  }

  /** Command `c` moves part `i` of the split between the disk at `lba` and the memory at `base`. */
  ghost predicate IsPart(c: Command, i: nat, op: nat, lba: nat, base: nat, p: Split) {
    && c.opcode == op && Bytes(c) == Per(p)
    && StartBlock(c) == lba + i * p.blocks && c.prp1 == base + i * p.stride && c.prp2 == 0
  }

  /** The commands from `first` on are the first `m` of the split. */
  ghost predicate IsBatch(cmds: seq<Command>, first: nat, m: nat, op: nat, lba: nat, base: nat, p: Split) {
    && |cmds| == first + m
    && forall k :: first <= k < |cmds| ==> IsPart(cmds[k], k - first, op, lba, base, p)
  }

  /** The split fits a page of memory at `base` and the disk from block `lba` on. */
  ghost predicate Placed(p: Split, lba: nat, base: nat, memSize: nat, diskSize: nat) {
    && Fits(p, PAGE) && base % PAGE == 0 && base + PAGE <= memSize
    && (lba + p.count * p.blocks) * BLOCK <= diskSize
  }

  lemma PlacedBlocks(p: Split, lba: nat, base: nat, memSize: nat, diskSize: nat)
    requires Placed(p, lba, base, memSize, diskSize)
    ensures 1 <= p.blocks <= 8 && 1 <= p.count
  {
    Row(0, p.count, p.stride);
  }

  /** The command the driver builds for part `i` is part `i` as the controller reads it. */
  lemma PartCommand(op: nat, cId: nat, nsId: nat, lba: nat, p: Split, i: nat, base: nat)
    requires 1 <= p.blocks <= 0x1_0000 && lba + i * p.blocks < 0x1_0000_0000_0000_0000
    ensures var c := IoCommand(op, cId, nsId, lba + i * p.blocks, p.blocks, base + i * p.stride, 0);
      IsPart(c, i, op, lba, base, p) && c.cId == cId && c.nsId == nsId
  {
    CommandRoundTrip(op, cId, nsId, lba + i * p.blocks, p.blocks, base + i * p.stride, 0);
  }

  /** Where part `i` starts on either side: the offset `i * step` with its two low bits clear, which
      changes nothing for whole blocks. */
  function PartOffset(i: nat, step: nat): nat {
    Dword(i * step)
  }

  lemma PartRow(i: nat, n: nat, step: nat, per: nat)
    requires i < n && per <= step
    ensures PartOffset(i, step) + per <= n * step && PartOffset(i, step) <= i * step
  {
    Row(i, n, step);
  }

  /** Parts of whole blocks stay apart. */
  lemma PartsApart(i: nat, j: nat, step: nat, per: nat)
    requires i < j && per <= step && per % 4 == 0
    ensures PartOffset(i, step) + per <= PartOffset(j, step)
  {
    Row(i, j, step);
    DwordApart(i * step, j * step, per);
  }

  lemma DwordApart(a: nat, b: nat, per: nat)
    requires a + per <= b && per % 4 == 0
    ensures Dword(a) + per <= Dword(b)
  {
  }

  lemma PartExact(i: nat, blocks: nat)
    ensures PartOffset(i, blocks * BLOCK) == i * (blocks * BLOCK)
  {
    assert i * (blocks * BLOCK) == 4 * (i * blocks * 128);
  }

  lemma PageStart(base: nat, o: nat)
    requires base % PAGE == 0 && o <= PAGE - BLOCK
    ensures Dword(base + o) == base + Dword(o) && (base + Dword(o)) % PAGE == Dword(o) <= o
  {
    var q := base / 4096;
    assert base == 4 * (1024 * q) && base == 4096 * q;
    DwordShift(1024 * q, o);
    hide Dword;
    RingArith.Unique(base + Dword(o), 4096, q, Dword(o));
  }

  lemma DwordShift(k: nat, o: nat)
    ensures Dword(4 * k + o) == 4 * k + Dword(o) && 0 <= Dword(o) <= o
  {
    RingArith.Unique(4 * k + o, 4, k + o / 4, o % 4);
  }

  /** A command at offset `o` of a page-aligned base reaches `Per` contiguous bytes through one PRP entry. */
  lemma OnePage(c: Command, base: nat, o: nat, j: int)
    requires base % PAGE == 0 && o + Bytes(c) <= PAGE && c.prp1 == base + o
    ensures FirstAddress(c) == base + Dword(o) && Bytes(c) <= FirstPage(c)
    ensures 0 <= j < Bytes(c) ==> PrpAddress(c, j) == base + Dword(o) + j
    ensures j >= 0 ==>
      PrpIndex(c, j) == if base + Dword(o) <= j < base + Dword(o) + Bytes(c) then Some(j - (base + Dword(o))) else None
  {
    assert Bytes(c) >= BLOCK;
    hide Dword, Bytes;
    PageStart(base, o);
  }

  lemma CommandOfBatch(i: nat, op: nat, lba: nat, base: nat, p: Split, c: Command, memSize: nat, diskSize: nat)
    requires Placed(p, lba, base, memSize, diskSize) && op in {WRITE, READ}
    requires i < p.count && IsPart(c, i, op, lba, base, p)
    ensures Executable(c, memSize, diskSize)
    ensures DiskStart(c) == lba * BLOCK + PartOffset(i, Per(p))
  {
    Row(i, p.count, p.stride);
    Row(i, p.count, p.blocks);
    PartExact(i, p.blocks);
    PartOnDisk(lba, i, p.blocks, p.count);
    hide PartOffset;
    PartExecutable(c, base, i * p.stride, memSize, diskSize);
  }

  lemma PartOnDisk(lba: nat, i: nat, blocks: nat, n: nat)
    requires i < n
    ensures (lba + i * blocks) * BLOCK == lba * BLOCK + i * (blocks * BLOCK)
    ensures (lba + i * blocks) * BLOCK + blocks * BLOCK <= (lba + n * blocks) * BLOCK
  {
    Row(i, n, blocks);
    RingArith.Reassociate(i, blocks, BLOCK);
  }

  lemma PartExecutable(c: Command, base: nat, o: nat, memSize: nat, diskSize: nat)
    requires c.opcode in {WRITE, READ} && base % PAGE == 0 && base + PAGE <= memSize
    requires o + Bytes(c) <= PAGE && c.prp1 == base + o && DiskStart(c) + Bytes(c) <= diskSize
    ensures Executable(c, memSize, diskSize)
  {
    OnePage(c, base, o, 0);
    assert Dword(o) <= o;
    hide Dword, Bytes, DiskStart;
  }

  /** The memory of part `i`. */
  lemma PartMemory(i: nat, base: nat, p: Split, c: Command, j: nat)
    requires Fits(p, PAGE) && base % PAGE == 0 && i < p.count && c.prp1 == base + i * p.stride && Bytes(c) == Per(p)
    ensures j < Bytes(c) ==> PrpAddress(c, j) == base + PartOffset(i, p.stride) + j
    ensures PrpIndex(c, j) ==
      var start := base + PartOffset(i, p.stride);
      if start <= j < start + Per(p) then Some(j - start) else None
  {
    Row(i, p.count, p.stride);
    OnePage(c, base, i * p.stride, j);
  }

  /** Different commands of a split touch different disk and memory bytes. */
  lemma Separate(i: nat, j: nat, op: nat, lba: nat, base: nat, p: Split, c: Command, d: Command)
    requires Fits(p, PAGE) && i < j < p.count && base % PAGE == 0
    requires IsPart(c, i, op, lba, base, p) && IsPart(d, j, op, lba, base, p)
    ensures SeparateOnDisk(c, d) && SeparateInMemory(c, d)
  {
    Row(i, j, p.blocks);
    PartsApart(i, j, p.stride, Per(p));
    forall a: nat | InMemory(c, a) ensures !InMemory(d, a) {
      hide PartOffset, PrpIndex;
      PartMemory(i, base, p, c, a);
      PartMemory(j, base, p, d, a);
    }
  }

  // ----- The outcome of a chunk -----

  function Splice(s: seq<byte>, at: nat, part: seq<byte>): (r: seq<byte>)
    requires at + |part| <= |s|
    ensures |r| == |s|
  {
    s[..at] + part + s[at + |part|..]
  }

  lemma SpliceNothing(s: seq<byte>, at: nat, part: seq<byte>)
    requires at <= |s| && part == []
    ensures Splice(s, at, part) == s
  {
  }

  lemma SpliceTwice(s: seq<byte>, at: nat, a: seq<byte>, b: seq<byte>)
    requires at + |a| + |b| <= |s|
    ensures Splice(Splice(s, at, a), at + |a|, b) == Splice(s, at, a + b)
  {
  }

  /** Copying up to `m` and then from `m` to `n` is copying up to `n`. */
  lemma SpliceNext(dst: seq<byte>, at: nat, src: seq<byte>, from: nat, m: nat, n: nat)
    requires m <= n && at + n <= |dst| && from + n <= |src|
    ensures Splice(Splice(dst, at, src[from..from + m]), at + m, src[from + m..from + n])
      == Splice(dst, at, src[from..from + n])
  {
    SpliceTwice(dst, at, src[from..from + m], src[from + m..from + n]);
    assert src[from..from + m] + src[from + m..from + n] == src[from..from + n];
  }

  /** Copies `m` parts of `per` bytes in order; parts are `step` apart in `dst` and `fstep` apart in `src`. */
  function CopyParts(dst: seq<byte>, at: nat, step: nat, src: seq<byte>, from: nat, fstep: nat, per: nat, m: nat)
    : (r: seq<byte>)
    requires per <= step && per <= fstep && at + m * step <= |dst| && from + m * fstep <= |src|
    ensures |r| == |dst|
    decreases m
  {
    if m == 0 then dst
    else
      Row(m - 1, m, step);
      Row(m - 1, m, fstep);
      PartRow(m - 1, m, step, per);
      PartRow(m - 1, m, fstep, per);
      var lo := from + PartOffset(m - 1, fstep);
      Splice(CopyParts(dst, at, step, src, from, fstep, per, m - 1), at + PartOffset(m - 1, step), src[lo..lo + per])
  }

  /** What one part changes. */
  lemma SpliceAt(s: seq<byte>, at: nat, part: seq<byte>, x: nat)
    requires at + |part| <= |s| && x < |s|
    ensures Splice(s, at, part)[x] == if at <= x < at + |part| then part[x - at] else s[x]
  {
  }

  lemma {:induction false} CopyInside(dst: seq<byte>, at: nat, step: nat, src: seq<byte>, from: nat, fstep: nat,
                                      per: nat, m: nat, i: nat, r: nat)
    requires per <= step && per <= fstep && at + m * step <= |dst| && from + m * fstep <= |src|
    requires i < m && r < per && per % 4 == 0
    ensures at + PartOffset(i, step) + r < |dst| && from + PartOffset(i, fstep) + r < |src|
    ensures CopyParts(dst, at, step, src, from, fstep, per, m)[at + PartOffset(i, step) + r]
      == src[from + PartOffset(i, fstep) + r]
    decreases m
  {
    hide Splice, PartOffset;
    Row(m - 1, m, step);
    Row(m - 1, m, fstep);
    PartRow(m - 1, m, step, per);
    PartRow(m - 1, m, fstep, per);
    PartRow(i, m, step, per);
    PartRow(i, m, fstep, per);
    var lo := from + PartOffset(m - 1, fstep);
    var before := CopyParts(dst, at, step, src, from, fstep, per, m - 1);
    SpliceAt(before, at + PartOffset(m - 1, step), src[lo..lo + per], at + PartOffset(i, step) + r);
    if i == m - 1 {
    } else {
      PartsApart(i, m - 1, step, per);
      CopyInside(dst, at, step, src, from, fstep, per, m - 1, i, r);
    }
  }

  /** Byte `x` of the target is in no part. */
  ghost predicate NoPart(x: nat, at: nat, step: nat, per: nat, m: nat) {
    forall i: nat :: i < m ==> !(0 <= x - (at + PartOffset(i, step)) < per)
  }

  lemma {:induction false} CopyOutside(dst: seq<byte>, at: nat, step: nat, src: seq<byte>, from: nat, fstep: nat,
                                       per: nat, m: nat, x: nat)
    requires per <= step && per <= fstep && at + m * step <= |dst| && from + m * fstep <= |src|
    requires x < |dst| && NoPart(x, at, step, per, m)
    ensures CopyParts(dst, at, step, src, from, fstep, per, m)[x] == dst[x]
    decreases m
  {
    hide Splice, PartOffset;
    if m == 0 {
    } else {
      Row(m - 1, m, step);
      Row(m - 1, m, fstep);
      PartRow(m - 1, m, step, per);
      PartRow(m - 1, m, fstep, per);
      var lo := from + PartOffset(m - 1, fstep);
      var before := CopyParts(dst, at, step, src, from, fstep, per, m - 1);
      SpliceAt(before, at + PartOffset(m - 1, step), src[lo..lo + per], x);
      CopyOutside(dst, at, step, src, from, fstep, per, m - 1, x);
    }
  }

  /** Parts of whole blocks that touch on both sides are one copy. */
  lemma {:induction false} CopyContiguous(dst: seq<byte>, at: nat, src: seq<byte>, from: nat, blocks: nat, m: nat)
    requires at + m * (blocks * BLOCK) <= |dst| && from + m * (blocks * BLOCK) <= |src|
    ensures var per := blocks * BLOCK;
      CopyParts(dst, at, per, src, from, per, per, m) == Splice(dst, at, src[from..from + m * per])
    decreases m
  {
    hide Splice, PartOffset;
    var per := blocks * BLOCK;
    if m == 0 {
      SpliceNothing(dst, at, src[from..from + m * per]);
    } else {
      Row(m - 1, m, per);
      PartRow(m - 1, m, per, per);
      PartExact(m - 1, blocks);
      CopyContiguous(dst, at, src, from, blocks, m - 1);
      var q := (m - 1) * per;
      assert m * per == q + per;
      SpliceTwice(dst, at, src[from..from + q], src[from + q..from + q + per]);
      assert src[from..from + q] + src[from + q..from + q + per] == src[from..from + q + per];
    }
  }

  lemma PlacedBounds(p: Split, lba: nat, base: nat, memSize: nat, diskSize: nat)
    requires Placed(p, lba, base, memSize, diskSize)
    ensures lba * BLOCK + p.count * Per(p) <= diskSize && base + p.count * p.stride <= memSize
    ensures Per(p) <= p.stride && base % PAGE == 0
  {
    assert p.count * Per(p) == p.count * p.blocks * BLOCK;
  }

  /** The chunk at `base` written to the disk part by part. */
  ghost function WrittenChunk(disk: seq<byte>, mem: seq<byte>, lba: nat, base: nat, p: Split): (r: seq<byte>)
    requires Placed(p, lba, base, |mem|, |disk|)
  {
    PlacedBounds(p, lba, base, |mem|, |disk|);
    CopyParts(disk, lba * BLOCK, Per(p), mem, base, p.stride, Per(p), p.count)
  }

  /** The disk from `lba` on read part by part into the chunk at `base`. */
  ghost function LoadedChunk(mem: seq<byte>, disk: seq<byte>, lba: nat, base: nat, p: Split): (r: seq<byte>)
    requires Placed(p, lba, base, |mem|, |disk|)
  {
    PlacedBounds(p, lba, base, |mem|, |disk|);
    CopyParts(mem, base, p.stride, disk, lba * BLOCK, Per(p), Per(p), p.count)
  }

  /** Memory outside the page at `base` is the same. */
  ghost predicate SameBeyond(m: seq<byte>, n: seq<byte>, base: nat) {
    |n| == |m| && forall a :: 0 <= a < |m| && !(base <= a < base + PAGE) ==> n[a] == m[a]
  }

  lemma SameBeyondTrans(m: seq<byte>, n: seq<byte>, o: seq<byte>, base: nat)
    requires SameBeyond(m, n, base) && SameBeyond(n, o, base)
    ensures SameBeyond(m, o, base)
  {
  }

  lemma LoadedBeyond(mem: seq<byte>, disk: seq<byte>, lba: nat, base: nat, p: Split)
    requires Placed(p, lba, base, |mem|, |disk|)
    ensures SameBeyond(mem, LoadedChunk(mem, disk, lba, base, p), base)
  {
    PlacedBounds(p, lba, base, |mem|, |disk|);
    forall a | 0 <= a < |mem| && !(base <= a < base + PAGE)
      ensures LoadedChunk(mem, disk, lba, base, p)[a] == mem[a]
    {
      hide PartOffset, CopyParts;
      forall i: nat | i < p.count ensures !(0 <= a - (base + PartOffset(i, p.stride)) < Per(p)) {
        PartRow(i, p.count, p.stride, Per(p));
      }
      CopyOutside(mem, base, p.stride, disk, lba * BLOCK, Per(p), Per(p), p.count, a);
    }
  }

  /** A fully executed batch, laid out over the page at `base`. */
  ghost predicate BatchDone(cmds: seq<Command>, executed: set<nat>, first: nat, op: nat,
                            lba: nat, base: nat, p: Split, memSize: nat, diskSize: nat) {
    && IsBatch(cmds, first, p.count, op, lba, base, p) && op in {WRITE, READ}
    && (forall k :: first <= k < |cmds| ==> k in executed)
    && Placed(p, lba, base, memSize, diskSize)
  }

  lemma WrittenInside(i: nat, lba: nat, base: nat, p: Split, c: Command, mem: seq<byte>, disk: seq<byte>,
                      disk0: seq<byte>, x: nat)
    requires Placed(p, lba, base, |mem|, |disk|) && |disk| == |disk0|
    requires i < p.count && IsPart(c, i, WRITE, lba, base, p)
    requires x < |disk| && OnDisk(c, x) && Written(c, mem, disk)
    ensures disk[x] == WrittenChunk(disk0, mem, lba, base, p)[x]
  {
    hide Placed, IsPart, OnDisk, Written, CopyParts, PartOffset;
    assert Per(p) % 4 == 0;
    hide Per;
    PlacedBounds(p, lba, base, |mem|, |disk|);
    PartByte(i, lba, base, p, c, mem, disk, x);
    var r := x - (lba * BLOCK + PartOffset(i, Per(p)));
    CopyInside(disk0, lba * BLOCK, Per(p), mem, base, p.stride, Per(p), p.count, i, r);
  }

  /** The disk byte `r` bytes into part `i` comes from the memory byte `r` bytes into part `i`. */
  lemma PartByte(i: nat, lba: nat, base: nat, p: Split, c: Command, mem: seq<byte>, disk: seq<byte>, x: nat)
    requires Placed(p, lba, base, |mem|, |disk|) && i < p.count && IsPart(c, i, WRITE, lba, base, p)
    requires x < |disk| && OnDisk(c, x) && Written(c, mem, disk)
    ensures var r := x - (lba * BLOCK + PartOffset(i, Per(p)));
      && 0 <= r < Per(p) && base + PartOffset(i, p.stride) + r < |mem|
      && disk[x] == mem[base + PartOffset(i, p.stride) + r]
  {
    CommandOfBatch(i, WRITE, lba, base, p, c, |mem|, |disk|);
    hide Executable, PrpIndex, PrpAddress, PartOffset, DiskStart;
    PartMemory(i, base, p, c, x - DiskStart(c));
  }

  lemma WrittenOutside(cmds: seq<Command>, executed: set<nat>, first: nat, mem: seq<byte>, disk0: seq<byte>,
                       lba: nat, base: nat, p: Split, x: nat)
    requires BatchDone(cmds, executed, first, WRITE, lba, base, p, |mem|, |disk0|)
    requires x < |disk0| && !Overwritten(cmds, executed, first, x)
    ensures WrittenChunk(disk0, mem, lba, base, p)[x] == disk0[x]
  {
    PlacedBounds(p, lba, base, |mem|, |disk0|);
    forall i: nat | i < p.count ensures !(0 <= x - (lba * BLOCK + PartOffset(i, Per(p))) < Per(p)) {
      var c := cmds[first + i];
      CommandOfBatch(i, WRITE, lba, base, p, c, |mem|, |disk0|);
      hide PartOffset;
      assert !OnDisk(c, x);
    }
    hide CopyParts, PartOffset;
    CopyOutside(disk0, lba * BLOCK, Per(p), mem, base, p.stride, Per(p), p.count, x);
  }

  /** Once every command of a write batch has executed, in whatever order, the disk is as if the
      parts had been copied one after the other. */
  lemma WriteBatchDone(cmds: seq<Command>, executed: set<nat>, first: nat, mem: seq<byte>, disk: seq<byte>,
                       disk0: seq<byte>, lba: nat, base: nat, p: Split)
    requires WriteProgress(cmds, executed, first, mem, disk, disk0)
    requires BatchDone(cmds, executed, first, WRITE, lba, base, p, |mem|, |disk|)
    ensures disk == WrittenChunk(disk0, mem, lba, base, p)
  {
    var want := WrittenChunk(disk0, mem, lba, base, p);
    forall x | 0 <= x < |disk| ensures disk[x] == want[x] {
      if k :| first <= k < |cmds| && k in executed && OnDisk(cmds[k], x) {
        WrittenInside(k - first, lba, base, p, cmds[k], mem, disk, disk0, x);
      } else {
        assert !Overwritten(cmds, executed, first, x);
        WrittenOutside(cmds, executed, first, mem, disk0, lba, base, p, x);
      }
    }
  }

  lemma LoadedInside(i: nat, lba: nat, base: nat, p: Split, c: Command, mem: seq<byte>, disk: seq<byte>,
                     mem0: seq<byte>, a: nat)
    requires Placed(p, lba, base, |mem|, |disk|) && |mem| == |mem0|
    requires i < p.count && IsPart(c, i, READ, lba, base, p)
    requires a < |mem| && InMemory(c, a) && Loaded(c, mem, disk)
    ensures mem[a] == LoadedChunk(mem0, disk, lba, base, p)[a]
  {
    hide Placed, IsPart, InMemory, Loaded, CopyParts, PartOffset;
    assert Per(p) % 4 == 0;
    hide Per;
    PlacedBounds(p, lba, base, |mem|, |disk|);
    LoadedByte(i, lba, base, p, c, mem, disk, a);
    var r := a - (base + PartOffset(i, p.stride));
    CopyInside(mem0, base, p.stride, disk, lba * BLOCK, Per(p), Per(p), p.count, i, r);
  }

  /** The memory byte `r` bytes into part `i` comes from the disk byte `r` bytes into part `i`. */
  lemma LoadedByte(i: nat, lba: nat, base: nat, p: Split, c: Command, mem: seq<byte>, disk: seq<byte>, a: nat)
    requires Placed(p, lba, base, |mem|, |disk|) && i < p.count && IsPart(c, i, READ, lba, base, p)
    requires a < |mem| && InMemory(c, a) && Loaded(c, mem, disk)
    ensures var r := a - (base + PartOffset(i, p.stride));
      && 0 <= r < Per(p) && lba * BLOCK + PartOffset(i, Per(p)) + r < |disk|
      && mem[a] == disk[lba * BLOCK + PartOffset(i, Per(p)) + r]
  {
    CommandOfBatch(i, READ, lba, base, p, c, |mem|, |disk|);
    hide Executable, PrpIndex, PrpAddress, PartOffset, DiskStart;
    PartMemory(i, base, p, c, a);
  }

  lemma LoadedOutside(cmds: seq<Command>, executed: set<nat>, first: nat, mem0: seq<byte>, disk: seq<byte>,
                      lba: nat, base: nat, p: Split, a: nat)
    requires BatchDone(cmds, executed, first, READ, lba, base, p, |mem0|, |disk|)
    requires a < |mem0| && !Filled(cmds, executed, first, a)
    ensures LoadedChunk(mem0, disk, lba, base, p)[a] == mem0[a]
  {
    PlacedBounds(p, lba, base, |mem0|, |disk|);
    hide CopyParts, PartOffset, PrpIndex, PrpAddress;
    forall i: nat | i < p.count ensures !(0 <= a - (base + PartOffset(i, p.stride)) < Per(p)) {
      var c := cmds[first + i];
      PartMemory(i, base, p, c, a);
      assert !InMemory(c, a);
    }
    CopyOutside(mem0, base, p.stride, disk, lba * BLOCK, Per(p), Per(p), p.count, a);
  }

  /** Once every command of a read batch has executed, in whatever order, memory is as if the parts
      had been copied one after the other. */
  lemma ReadBatchDone(cmds: seq<Command>, executed: set<nat>, first: nat, mem: seq<byte>, disk: seq<byte>,
                      mem0: seq<byte>, lba: nat, base: nat, p: Split)
    requires ReadProgress(cmds, executed, first, mem, disk, mem0)
    requires BatchDone(cmds, executed, first, READ, lba, base, p, |mem|, |disk|)
    ensures mem == LoadedChunk(mem0, disk, lba, base, p)
  {
    var want := LoadedChunk(mem0, disk, lba, base, p);
    forall a | 0 <= a < |mem| ensures mem[a] == want[a] {
      if k :| first <= k < |cmds| && k in executed && InMemory(cmds[k], a) {
        LoadedInside(k - first, lba, base, p, cmds[k], mem, disk, mem0, a);
      } else {
        assert !Filled(cmds, executed, first, a);
        LoadedOutside(cmds, executed, first, mem0, disk, lba, base, p, a);
      }
    }
  }
}
