/** What `batched_write` does to the disk as a whole, and exactly when that is what its caller wants. */
module NvmeData {
  import opened Collections
  import opened NvmeSystem
  import opened NvmeTransfers
  import RingArith

  /** No chunk is shorter than a block, so no batch length is zero and no division traps. */
  predicate Splittable(total: nat, batchLen: nat) {
    batchLen >= 1 && (total % PAGE == 0 || total % PAGE >= BLOCK)
  }

  lemma SplitBounds(size: nat, batchLen: nat)
    requires batchLen >= 1 && BLOCK <= size <= PAGE
    ensures var p := SplitChunk(size, batchLen);
      && Fits(p, size) && p.count <= 8 && p.count <= batchLen
      && p.count * Per(p) <= p.count * p.stride <= size <= PAGE
      && p.count * p.blocks * BLOCK == p.count * Per(p)
  {
    SplitFits(size, batchLen);
    var p := SplitChunk(size, batchLen);
    assert p.count <= 8 && p.count <= batchLen;
    hide SplitChunk;
    RingArith.Difference(p.count, p.stride, Per(p));
    RingArith.Multiple(p.count, p.stride - Per(p));
    RingArith.Reassociate(p.count, p.blocks, BLOCK);
  }

  lemma NextChunk(total: nat, batchLen: nat)
    requires Splittable(total, batchLen) && total > 0
    ensures BLOCK <= Min(total, PAGE) && Splittable(total - Min(total, PAGE), batchLen)
  {
  }

  /** Blocks written for a chunk. */
  ghost function ChunkBlocks(size: nat, batchLen: nat): (b: nat)
    requires batchLen >= 1 && BLOCK <= size <= PAGE
    ensures b * BLOCK <= size
  {
    SplitBounds(size, batchLen);
    SplitChunk(size, batchLen).count * SplitChunk(size, batchLen).blocks
  }

  lemma ChunkBlocksAre(size: nat, batchLen: nat)
    requires batchLen >= 1 && BLOCK <= size <= PAGE
    ensures ChunkBlocks(size, batchLen) == SplitChunk(size, batchLen).count * SplitChunk(size, batchLen).blocks
  {
  }

  /** The disk after one chunk has been written. */
  ghost function WriteChunk(disk: seq<byte>, chunk: seq<byte>, lba: nat, batchLen: nat): (r: seq<byte>)
    requires batchLen >= 1 && BLOCK <= |chunk| <= PAGE && lba * BLOCK + |chunk| <= |disk|
    ensures |r| == |disk|
  {
    SplitBounds(|chunk|, batchLen);
    var p := SplitChunk(|chunk|, batchLen);
    CopyParts(disk, lba * BLOCK, Per(p), chunk, 0, p.stride, Per(p), p.count)
  }

  /** The disk after all chunks have been written. */
  ghost function WriteAll(disk: seq<byte>, data: seq<byte>, lba: nat, batchLen: nat): (r: seq<byte>)
    requires Splittable(|data|, batchLen) && lba * BLOCK + |data| <= |disk|
    ensures |r| == |disk|
    decreases |data|
  {
    if data == [] then disk
    else
      NextChunk(|data|, batchLen);
      var n := Min(|data|, PAGE);
      WriteAll(WriteChunk(disk, data[..n], lba, batchLen), data[n..], lba + ChunkBlocks(n, batchLen), batchLen)
  }

  /** One round of the loop. */
  lemma WriteAllNext(disk: seq<byte>, data: seq<byte>, lba: nat, batchLen: nat)
    requires Splittable(|data|, batchLen) && lba * BLOCK + |data| <= |disk| && data != []
    ensures BLOCK <= Min(|data|, PAGE) && Splittable(|data| - Min(|data|, PAGE), batchLen)
    ensures var n := Min(|data|, PAGE);
      && (lba + ChunkBlocks(n, batchLen)) * BLOCK + (|data| - n) <= |disk|
      && WriteAll(disk, data, lba, batchLen)
        == WriteAll(WriteChunk(disk, data[..n], lba, batchLen), data[n..], lba + ChunkBlocks(n, batchLen), batchLen)
  {
    hide WriteChunk, ChunkBlocks;
    NextChunk(|data|, batchLen);
  }

  lemma WriteNothing(disk: seq<byte>, data: seq<byte>, lba: nat, batchLen: nat)
    requires batchLen >= 1 && lba * BLOCK <= |disk| && data == []
    ensures WriteAll(disk, data, lba, batchLen) == disk
  {
  }

  /** The commands of a chunk of `size` bytes cover the whole chunk. */
  ghost predicate Whole(size: nat, batchLen: nat)
    requires batchLen >= 1 && BLOCK <= size <= PAGE
  {
    ChunkBlocks(size, batchLen) * BLOCK == size
  }

  ghost predicate WholeAll(total: nat, batchLen: nat)
    requires Splittable(total, batchLen)
  {
    || total == 0
    || (NextChunk(total, batchLen);
        Whole(Min(total, PAGE), batchLen) && WholeAll(total - Min(total, PAGE), batchLen))
  }

  lemma WholeAllNext(total: nat, batchLen: nat)
    requires Splittable(total, batchLen) && total > 0 && WholeAll(total, batchLen)
    ensures BLOCK <= Min(total, PAGE) && Splittable(total - Min(total, PAGE), batchLen)
    ensures Whole(Min(total, PAGE), batchLen) && WholeAll(total - Min(total, PAGE), batchLen)
    ensures ChunkBlocks(Min(total, PAGE), batchLen) * BLOCK == Min(total, PAGE)
  {
    NextChunk(total, batchLen);
  }

  lemma WholeStride(size: nat, batchLen: nat)
    requires batchLen >= 1 && BLOCK <= size <= PAGE && Whole(size, batchLen)
    ensures var p := SplitChunk(size, batchLen);
      p.stride == Per(p) && p.count * Per(p) == size
  {
    var p := SplitChunk(size, batchLen);
    SplitBounds(size, batchLen);
    hide SplitChunk;
    RingArith.Difference(p.count, p.stride, Per(p));
    RingArith.Multiple(p.count, p.stride - Per(p));
  }

  lemma WriteChunkWhole(disk: seq<byte>, chunk: seq<byte>, lba: nat, batchLen: nat)
    requires batchLen >= 1 && BLOCK <= |chunk| <= PAGE && lba * BLOCK + |chunk| <= |disk|
    requires Whole(|chunk|, batchLen)
    ensures WriteChunk(disk, chunk, lba, batchLen) == Splice(disk, lba * BLOCK, chunk)
  {
    hide SplitChunk;
    var p := SplitChunk(|chunk|, batchLen);
    SplitBounds(|chunk|, batchLen);
    WholeStride(|chunk|, batchLen);
    CopyContiguous(disk, lba * BLOCK, chunk, 0, p.blocks, p.count);
    assert chunk[0..0 + |chunk|] == chunk;
  }

  lemma WriteChunkBeyond(disk: seq<byte>, chunk: seq<byte>, lba: nat, batchLen: nat, x: nat)
    requires batchLen >= 1 && BLOCK <= |chunk| <= PAGE && lba * BLOCK + |chunk| <= |disk|
    requires (lba + ChunkBlocks(|chunk|, batchLen)) * BLOCK <= x < |disk|
    ensures WriteChunk(disk, chunk, lba, batchLen)[x] == disk[x]
  {
    hide SplitChunk;
    var p := SplitChunk(|chunk|, batchLen);
    SplitBounds(|chunk|, batchLen);
    forall i: nat | i < p.count ensures !(0 <= x - (lba * BLOCK + PartOffset(i, Per(p))) < Per(p)) {
      PartRow(i, p.count, Per(p), Per(p));
    }
    hide CopyParts, PartOffset;
    CopyOutside(disk, lba * BLOCK, Per(p), chunk, 0, p.stride, Per(p), p.count, x);
  }

  /** When every chunk divides evenly the disk ends up holding exactly the data. */
  lemma {:induction false} WriteAllWhole(disk: seq<byte>, data: seq<byte>, lba: nat, batchLen: nat)
    requires Splittable(|data|, batchLen) && lba * BLOCK + |data| <= |disk|
    requires WholeAll(|data|, batchLen)
    ensures WriteAll(disk, data, lba, batchLen) == Splice(disk, lba * BLOCK, data)
    decreases |data|
  {
    hide WriteChunk, ChunkBlocks, Splice;
    if data == [] {
      SpliceNothing(disk, lba * BLOCK, data);
    } else {
      NextChunk(|data|, batchLen);
      var n := Min(|data|, PAGE);
      WriteChunkWhole(disk, data[..n], lba, batchLen);
      var disk1 := Splice(disk, lba * BLOCK, data[..n]);
      WriteAllWhole(disk1, data[n..], lba + ChunkBlocks(n, batchLen), batchLen);
      SpliceTwice(disk, lba * BLOCK, data[..n], data[n..]);
      assert data == data[..n] + data[n..];
    }
  }

  /** Bytes of disk written for `total` bytes of data. */
  ghost function Covered(total: nat, batchLen: nat): (c: nat)
    requires Splittable(total, batchLen)
    ensures c <= total
    ensures c == total <==> WholeAll(total, batchLen)
  {
    if total == 0 then 0
    else
      NextChunk(total, batchLen);
      ChunkBlocks(Min(total, PAGE), batchLen) * BLOCK + Covered(total - Min(total, PAGE), batchLen)
  }

  lemma {:induction false} WriteAllBeyond(disk: seq<byte>, data: seq<byte>, lba: nat, batchLen: nat, x: nat)
    requires Splittable(|data|, batchLen) && lba * BLOCK + |data| <= |disk|
    requires lba * BLOCK + Covered(|data|, batchLen) <= x < |disk|
    ensures WriteAll(disk, data, lba, batchLen)[x] == disk[x]
    decreases |data|
  {
    hide WriteChunk, ChunkBlocks;
    if data == [] {
    } else {
      NextChunk(|data|, batchLen);
      var n := Min(|data|, PAGE);
      WriteChunkBeyond(disk, data[..n], lba, batchLen, x);
      var next := WriteChunk(disk, data[..n], lba, batchLen);
      WriteAllBeyond(next, data[n..], lba + ChunkBlocks(n, batchLen), batchLen, x);
    }
  }

  ghost predicate AlwaysWrites(data: seq<byte>, lba: nat, batchLen: nat, size: nat)
    requires Splittable(|data|, batchLen) && lba * BLOCK + |data| <= size
  {
    forall disk :: |disk| == size ==> WriteAll(disk, data, lba, batchLen) == Splice(disk, lba * BLOCK, data)
  }

  /** `batched_write` stores the data whatever was on the disk, exactly when every chunk is a
      multiple of its batch's blocks; otherwise the last byte may be missing. */
  lemma BatchedWriteExact(data: seq<byte>, lba: nat, batchLen: nat, size: nat)
    requires Splittable(|data|, batchLen) && lba * BLOCK + |data| <= size
    ensures AlwaysWrites(data, lba, batchLen, size) <==> WholeAll(|data|, batchLen)
  {
    hide WriteAll, WholeAll, Covered;
    if WholeAll(|data|, batchLen) {
      forall disk | |disk| == size
        ensures WriteAll(disk, data, lba, batchLen) == Splice(disk, lba * BLOCK, data)
      {
        WriteAllWhole(disk, data, lba, batchLen);
      }
    } else {
      assert Covered(|data|, batchLen) < |data|;
      var last := data[|data| - 1];
      var disk := Filler(size, if last == 0 then 1 else 0);
      var x := lba * BLOCK + |data| - 1;
      WriteAllBeyond(disk, data, lba, batchLen, x);
      assert Splice(disk, lba * BLOCK, data)[x] == last;
    }
  }

  ghost function Filler(size: nat, b: byte): (s: seq<byte>)
    ensures |s| == size && forall i :: 0 <= i < size ==> s[i] == b
  {
    seq(size, _ => b)
  }

  /** For full chunks the batch length, capped at eight, must be a power of two. */
  lemma WholePage(batchLen: nat)
    requires batchLen >= 1
    ensures Whole(PAGE, batchLen) <==> Min(batchLen, 8) in {1, 2, 4, 8}
  {
    SplitBounds(PAGE, batchLen);
    assert PAGE / BLOCK == 8;
    assert PAGE / 3 == 1365 && PAGE / 5 == 819 && PAGE / 6 == 682 && PAGE / 7 == 585;
  }

  lemma {:induction false} WholePages(total: nat, batchLen: nat)
    requires batchLen >= 1 && total % PAGE == 0 && total > 0
    ensures WholeAll(total, batchLen) <==> Min(batchLen, 8) in {1, 2, 4, 8}
  {
    hide Whole;
    WholePage(batchLen);
    if total == PAGE {
    } else {
      WholePages(total - PAGE, batchLen);
    }
  }

  lemma SliceOfSlice(s: seq<byte>, base: nat, n: nat, lo: nat, len: nat)
    requires base + n <= |s| && lo + len <= n
    ensures s[base..base + n][lo..lo + len] == s[base + lo..base + lo + len]
  {
    var t := s[base..base + n];
    assert forall k :: 0 <= k < n ==> t[k] == s[base + k];
    assert t[lo..lo + len] == s[base + lo..base + lo + len];
  }

  /** Copying from a slice of memory or from memory at an offset is the same. */
  lemma {:induction false} CopyFromSlice(dst: seq<byte>, at: nat, step: nat, mem: seq<byte>, base: nat, n: nat,
                                         fstep: nat, per: nat, m: nat)
    requires per <= step && per <= fstep && at + m * step <= |dst| && m * fstep <= n && base + n <= |mem|
    ensures CopyParts(dst, at, step, mem[base..base + n], 0, fstep, per, m)
      == CopyParts(dst, at, step, mem, base, fstep, per, m)
    decreases m
  {
    hide Splice, PartOffset;
    if m == 0 {
    } else {
      Row(m - 1, m, step);
      Row(m - 1, m, fstep);
      PartRow(m - 1, m, step, per);
      PartRow(m - 1, m, fstep, per);
      CopyFromSlice(dst, at, step, mem, base, n, fstep, per, m - 1);
      SliceOfSlice(mem, base, n, PartOffset(m - 1, fstep), per);
    }
  }
}
