/** DMA buffers cut into chunks, and what a single command on a chunk moves. */
module NvmeDma {
  import opened Collections
  import opened NvmeTypes
  import opened NvmeSystem
  import opened NvmeBatch
  import opened NvmeTransfers

  const CHUNK: nat := 8192

  datatype Chunk = Chunk(phys: nat, len: nat)

  /** `Dma::allocate` rounds the size up to whole pages. */
  function RoundedSize(size: nat): (r: nat)
    ensures r % PAGE == 0 && size <= r < size + PAGE
  {
    if size % PAGE != 0 then (size / PAGE + 1) * PAGE else size
  }

  /** The chunks of a buffer from `offset` on. */
  function Chunks(phys: nat, size: nat, offset: nat): seq<Chunk>
    decreases size - offset
  {
    if offset >= size then []
    else
      var len := Min(CHUNK, size - offset);
      [Chunk(phys + offset, len)] + Chunks(phys, size, offset + len)
  }

  /** The iterator over a byte buffer; `chunks` starts it at offset 0. */
  class DmaChunks {
    var currentOffset: nat
    const phys: nat
    const size: nat

    constructor (phys: nat, size: nat)
      ensures currentOffset == 0 && this.phys == phys && this.size == size
    {
      currentOffset, this.phys, this.size := 0, phys, size;
    }

    method Next() returns (r: Option<Chunk>)
      modifies this
      ensures r.None? <==> old(currentOffset) >= size
      ensures r.None? ==> currentOffset == old(currentOffset)
      ensures r.Some? ==> Chunks(phys, size, old(currentOffset)) == [r.value] + Chunks(phys, size, currentOffset)
      ensures r.Some? ==>
        && currentOffset == old(currentOffset) + Min(CHUNK, size - old(currentOffset))
        && r.value == Chunk(phys + old(currentOffset), Min(CHUNK, size - old(currentOffset)))
    {
      if currentOffset >= size {
        r := None;
      } else {
        var len := Min(CHUNK, size - currentOffset);
        r := Some(Chunk(phys + currentOffset, len));
        currentOffset := currentOffset + len;
      }
    }
  }

  /** Chunks lie end to end from `offset` to the end of the buffer; all but the last are full. */
  lemma {:induction false} ChunksPartition(phys: nat, size: nat, offset: nat)
    requires offset <= size
    ensures var cs := Chunks(phys, size, offset);
      && (cs == [] <==> offset == size)
      && (cs != [] ==> cs[0].phys == phys + offset && cs[|cs| - 1].phys + cs[|cs| - 1].len == phys + size)
      && (forall i :: 0 <= i < |cs| - 1 ==> cs[i].phys + cs[i].len == cs[i + 1].phys && cs[i].len == CHUNK)
      && (forall i :: 0 <= i < |cs| ==> 1 <= cs[i].len <= CHUNK)
    decreases size - offset
  {
    if offset == size {
    } else {
      var len := Min(CHUNK, size - offset);
      ChunksPartition(phys, size, offset + len);
      var cs, rest := Chunks(phys, size, offset), Chunks(phys, size, offset + len);
      assert forall i :: 1 <= i < |cs| ==> cs[i] == rest[i - 1];
    }
  }

  /** Chunk `k` of a buffer starts at offset `8192 k`. */
  lemma {:induction false} ChunkAt(phys: nat, size: nat, offset: nat, k: nat)
    requires k < |Chunks(phys, size, offset)|
    ensures offset + k * CHUNK < size
    ensures Chunks(phys, size, offset)[k] == Chunk(phys + offset + k * CHUNK, Min(CHUNK, size - offset - k * CHUNK))
    decreases k
  {
    if k == 0 {
    } else {
      ChunkAt(phys, size, offset + Min(CHUNK, size - offset), k - 1);
    }
  }

  // ----- PRP entries -----

  /** Blocks for a chunk of `len` bytes, rounded up. */
  function Blocks(len: nat): nat {
    (len + BLOCK - 1) / BLOCK
  }

  /** A chunk of whole pages is a whole number of blocks, at most sixteen. */
  lemma PageBlocks(len: nat)
    requires 0 < len <= CHUNK && len % PAGE == 0
    ensures Blocks(len) * BLOCK == len && 1 <= Blocks(len) <= 16
  {
  }

  /** The second PRP entry as `submit_io` and `namespace_io` compute it for up to 8192 bytes. */
  function SecondPrp(addr: nat, bytes: nat): nat {
    if bytes <= PAGE then 0 else addr + PAGE
  }

  /** The two PRP entries address the bytes from `addr` on exactly when `addr` is aligned to four bytes and
      either page-aligned or followed by the whole transfer within its page; slices of a buffer need not
      be. */
  lemma PrpContiguousIff(c: Command, addr: nat)
    requires c.prp1 == addr && c.prp2 == SecondPrp(addr, Bytes(c)) && Bytes(c) <= CHUNK
    ensures (forall j :: 0 <= j < Bytes(c) ==> PrpAddress(c, j) == addr + j)
      <==> addr % 4 == 0 && (addr % PAGE == 0 || addr % PAGE + Bytes(c) <= PAGE)
  {
    if addr % 4 != 0 {
      assert PrpAddress(c, 0) != addr + 0;
    } else if addr % PAGE != 0 && addr % PAGE + Bytes(c) > PAGE {
      var j := FirstPage(c);
      assert j < Bytes(c) && PrpAddress(c, j) != addr + j;
    }
  }

  lemma AlignedFirst(c: Command)
    requires c.prp1 % PAGE == 0
    ensures FirstAddress(c) == c.prp1 && FirstPage(c) == PAGE
  {
    PageStart(c.prp1, 0);
    assert Dword(0) == 0;
    hide Dword;
  }

  /** On a page-aligned chunk the PRP list is never needed and the transfer is one contiguous range. */
  lemma AlignedTransfer(c: Command, addr: nat, memSize: nat, diskSize: nat)
    requires OnAlignedChunk(c, addr, memSize, diskSize) && c.opcode in {WRITE, READ}
    ensures Executable(c, memSize, diskSize)
    ensures forall j :: 0 <= j < Bytes(c) ==> PrpAddress(c, j) == addr + j
    ensures forall a: nat :: PrpIndex(c, a) == if addr <= a < addr + Bytes(c) then Some(a - addr) else None
  {
    hide Dword, FirstAddress, FirstPage, Bytes, DiskStart;
    AlignedFirst(c);
  }

  /** Command `c` moves the page-aligned range from `addr` on. */
  predicate OnAlignedChunk(c: Command, addr: nat, memSize: nat, diskSize: nat) {
    && c.prp1 == addr && c.prp2 == SecondPrp(addr, Bytes(c)) && Bytes(c) <= CHUNK && addr % PAGE == 0
    && addr + Bytes(c) <= memSize && DiskStart(c) + Bytes(c) <= diskSize
  }

  lemma SingleWrite(cmds: seq<Command>, executed: set<nat>, first: nat, mem: seq<byte>, disk: seq<byte>,
                    disk0: seq<byte>, c: Command, addr: nat)
    requires WriteProgress(cmds, executed, first, mem, disk, disk0)
    requires |cmds| == first + 1 && cmds[first] == c && first in executed
    requires OnAlignedChunk(c, addr, |mem|, |disk|)
    ensures disk == Splice(disk0, DiskStart(c), mem[addr..addr + Bytes(c)])
  {
    AlignedTransfer(c, addr, |mem|, |disk|);
    hide Executable;
    var want := Splice(disk0, DiskStart(c), mem[addr..addr + Bytes(c)]);
    assert Written(c, mem, disk);
    forall x | 0 <= x < |disk| ensures disk[x] == want[x] {
      if OnDisk(c, x) {
        assert PrpAddress(c, x - DiskStart(c)) == addr + (x - DiskStart(c));
      } else {
        assert !Overwritten(cmds, executed, first, x);
      }
    }
  }

  lemma SingleRead(cmds: seq<Command>, executed: set<nat>, first: nat, mem: seq<byte>, disk: seq<byte>,
                   mem0: seq<byte>, c: Command, addr: nat)
    requires ReadProgress(cmds, executed, first, mem, disk, mem0)
    requires |cmds| == first + 1 && cmds[first] == c && first in executed
    requires OnAlignedChunk(c, addr, |mem|, |disk|)
    ensures mem == Splice(mem0, addr, disk[DiskStart(c)..DiskStart(c) + Bytes(c)])
  {
    AlignedTransfer(c, addr, |mem|, |disk|);
    hide Executable;
    var want := Splice(mem0, addr, disk[DiskStart(c)..DiskStart(c) + Bytes(c)]);
    assert Loaded(c, mem, disk);
    forall a: nat | a < |mem| ensures mem[a] == want[a] {
      if !InMemory(c, a) {
        assert !Filled(cmds, executed, first, a);
      }
    }
  }

  /** A single executed command has copied its range and nothing else. */
  lemma SingleDone(u: System, op: nat, first: nat, mem0: seq<byte>, disk0: seq<byte>, c: Command, addr: nat)
    requires Quiet(u) && Progress(u, op, first, mem0, disk0) && op in {WRITE, READ}
    requires |u.sq.submitted| == first + 1 && u.sq.submitted[first] == c
    requires OnAlignedChunk(c, addr, |u.mem|, |u.disk|)
    ensures |mem0| == |u.mem| && |disk0| == |u.disk|
    ensures op == WRITE ==> u.mem == mem0 && u.disk == Splice(disk0, DiskStart(c), mem0[addr..addr + Bytes(c)])
    ensures op == READ ==> u.disk == disk0 && u.mem == Splice(mem0, addr, disk0[DiskStart(c)..DiskStart(c) + Bytes(c)])
  {
    QuietMeansDone(u);
    hide Quiet, Inv;
    assert first in u.executed;
    if op == WRITE {
      SingleWrite(u.sq.submitted, u.executed, first, u.mem, u.disk, disk0, c, addr);
    } else {
      SingleRead(u.sq.submitted, u.executed, first, u.mem, u.disk, mem0, c, addr);
    }
  }

  lemma SplitHead(all: seq<Chunk>, i: nat, head: Chunk, tail: seq<Chunk>)
    requires i <= |all| && all[i..] == [head] + tail
    ensures i < |all| && all[i] == head && all[i + 1..] == tail
  {
    assert |all[i..]| == |all| - i && all[i..][0] == head;
    assert all[i + 1..] == all[i..][1..];
  }

  lemma ChunksEnd(phys: nat, size: nat, offset: nat)
    requires offset >= size
    ensures Chunks(phys, size, offset) == []
  {
  }

  lemma FullChunk(len: nat)
    ensures len == CHUNK ==> Blocks(len) == CHUNK / BLOCK
  {
  }
}
