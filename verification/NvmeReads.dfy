/** What `batched_read` returns, for any batch length, and exactly when that is the disk's content. */
module NvmeReads {
  import opened Collections
  import opened NvmeSystem
  import opened NvmeTransfers
  import opened NvmeData

  /** The staging page after one chunk of `n` bytes was read into it; the bytes that no command of the
      batch covers keep what they held. */
  ghost function ReadChunk(stage: seq<byte>, disk: seq<byte>, lba: nat, n: nat, batchLen: nat): (r: seq<byte>)
    requires |stage| == PAGE && batchLen >= 1 && BLOCK <= n <= PAGE && lba * BLOCK + n <= |disk|
    ensures |r| == PAGE
  {
    SplitBounds(n, batchLen);
    var p := SplitChunk(n, batchLen);
    CopyParts(stage, 0, p.stride, disk, lba * BLOCK, Per(p), Per(p), p.count)
  }

  /** The caller's buffer after all chunks. */
  ghost function ReadAll(stage: seq<byte>, disk: seq<byte>, total: nat, lba: nat, batchLen: nat): (r: seq<byte>)
    requires |stage| == PAGE && Splittable(total, batchLen) && lba * BLOCK + total <= |disk|
    ensures |r| == total
    decreases total
  {
    if total == 0 then []
    else
      NextChunk(total, batchLen);
      var n := Min(total, PAGE);
      var next := ReadChunk(stage, disk, lba, n, batchLen);
      next[..n] + ReadAll(next, disk, total - n, lba + ChunkBlocks(n, batchLen), batchLen)
  }

  /** One round of the loop, after `got` was read. */
  lemma ReadAllNext(stage: seq<byte>, disk: seq<byte>, total: nat, lba: nat, batchLen: nat, got: seq<byte>)
    requires |stage| == PAGE && Splittable(total, batchLen) && lba * BLOCK + total <= |disk| && total > 0
    ensures BLOCK <= Min(total, PAGE) && Splittable(total - Min(total, PAGE), batchLen)
    ensures var n := Min(total, PAGE);
      var next := ReadChunk(stage, disk, lba, n, batchLen);
      && (lba + ChunkBlocks(n, batchLen)) * BLOCK + (total - n) <= |disk|
      && got + ReadAll(stage, disk, total, lba, batchLen)
        == got + next[..n] + ReadAll(next, disk, total - n, lba + ChunkBlocks(n, batchLen), batchLen)
  {
    hide ReadChunk, ChunkBlocks;
    NextChunk(total, batchLen);
  }

  /** After `got` the rest of `want` is what reading on from here gives. */
  ghost predicate ReadTo(got: seq<byte>, stage: seq<byte>, disk: seq<byte>, left: nat, lba: nat, batchLen: nat,
                          want: seq<byte>) {
    && |stage| == PAGE && Splittable(left, batchLen) && lba * BLOCK + left <= |disk|
    && got + ReadAll(stage, disk, left, lba, batchLen) == want
  }

  lemma ReadToStart(stage: seq<byte>, disk: seq<byte>, total: nat, lba: nat, batchLen: nat)
    requires |stage| == PAGE && Splittable(total, batchLen) && lba * BLOCK + total <= |disk|
    ensures ReadTo([], stage, disk, total, lba, batchLen, ReadAll(stage, disk, total, lba, batchLen))
  {
  }

  /** The next chunk can be read. */
  lemma ReadToOn(got: seq<byte>, stage: seq<byte>, disk: seq<byte>, left: nat, lba: nat, batchLen: nat, want: seq<byte>)
    requires ReadTo(got, stage, disk, left, lba, batchLen, want) && left > 0
    ensures |stage| == PAGE && batchLen >= 1 && BLOCK <= Min(left, PAGE) && lba * BLOCK + Min(left, PAGE) <= |disk|
    ensures Splittable(left, batchLen)
  {
    hide ReadAll;
    NextChunk(left, batchLen);
  }

  lemma ReadToNext(got: seq<byte>, stage: seq<byte>, disk: seq<byte>, left: nat, lba: nat, batchLen: nat,
                    want: seq<byte>, n: nat, next: seq<byte>)
    requires ReadTo(got, stage, disk, left, lba, batchLen, want) && left > 0 && n == Min(left, PAGE)
    requires |stage| == PAGE && batchLen >= 1 && BLOCK <= n <= PAGE && lba * BLOCK + n <= |disk|
    requires next == ReadChunk(stage, disk, lba, n, batchLen)
    ensures ReadTo(got + next[..n], next, disk, left - n, lba + ChunkBlocks(n, batchLen), batchLen, want)
  {
    hide ReadAll, ReadChunk, ChunkBlocks;
    ReadAllNext(stage, disk, left, lba, batchLen, got);
  }

  lemma ReadToEnd(got: seq<byte>, stage: seq<byte>, disk: seq<byte>, lba: nat, batchLen: nat, want: seq<byte>)
    requires ReadTo(got, stage, disk, 0, lba, batchLen, want)
    ensures got == want
  {
  }

  // ----- The staging page is a slice of memory -----

  lemma SpliceSlice(s: seq<byte>, base: nat, n: nat, at: nat, part: seq<byte>)
    requires base + n <= |s| && at + |part| <= n
    ensures Splice(s, base + at, part)[base..base + n] == Splice(s[base..base + n], at, part)
  {
    var a, b := Splice(s, base + at, part)[base..base + n], Splice(s[base..base + n], at, part);
    forall k | 0 <= k < n ensures a[k] == b[k] {
      assert a[k] == Splice(s, base + at, part)[base + k];
    }
  }

  lemma {:induction false} CopyIntoSlice(mem: seq<byte>, base: nat, n: nat, step: nat, src: seq<byte>, from: nat,
                                         fstep: nat, per: nat, m: nat)
    requires per <= step && per <= fstep && m * step <= n && base + n <= |mem| && from + m * fstep <= |src|
    ensures CopyParts(mem, base, step, src, from, fstep, per, m)[base..base + n]
      == CopyParts(mem[base..base + n], 0, step, src, from, fstep, per, m)
    decreases m
  {
    hide Splice, PartOffset;
    if m == 0 {
    } else {
      Row(m - 1, m, step);
      Row(m - 1, m, fstep);
      PartRow(m - 1, m, step, per);
      PartRow(m - 1, m, fstep, per);
      CopyIntoSlice(mem, base, n, step, src, from, fstep, per, m - 1);
      var lo := from + PartOffset(m - 1, fstep);
      var before := CopyParts(mem, base, step, src, from, fstep, per, m - 1);
      SpliceSlice(before, base, n, PartOffset(m - 1, step), src[lo..lo + per]);
    }
  }

  /** Reading a chunk into the page at `base` is reading it into that page on its own. */
  lemma StagedRead(mem: seq<byte>, disk: seq<byte>, lba: nat, base: nat, n: nat, batchLen: nat)
    requires batchLen >= 1 && BLOCK <= n <= PAGE && lba * BLOCK + n <= |disk|
    requires Placed(SplitChunk(n, batchLen), lba, base, |mem|, |disk|)
    ensures base + PAGE <= |LoadedChunk(mem, disk, lba, base, SplitChunk(n, batchLen))|
    ensures LoadedChunk(mem, disk, lba, base, SplitChunk(n, batchLen))[base..base + PAGE]
      == ReadChunk(mem[base..base + PAGE], disk, lba, n, batchLen)
  {
    SplitBounds(n, batchLen);
    hide SplitChunk;
    var p := SplitChunk(n, batchLen);
    PlacedBounds(p, lba, base, |mem|, |disk|);
    CopyIntoSlice(mem, base, PAGE, p.stride, disk, lba * BLOCK, Per(p), Per(p), p.count);
  }

  // ----- When every chunk divides evenly -----

  lemma ReadChunkWhole(stage: seq<byte>, disk: seq<byte>, lba: nat, n: nat, batchLen: nat)
    requires |stage| == PAGE && batchLen >= 1 && BLOCK <= n <= PAGE && lba * BLOCK + n <= |disk|
    requires Whole(n, batchLen)
    ensures ReadChunk(stage, disk, lba, n, batchLen)[..n] == disk[lba * BLOCK..lba * BLOCK + n]
  {
    hide SplitChunk;
    var p := SplitChunk(n, batchLen);
    SplitBounds(n, batchLen);
    WholeStride(n, batchLen);
    CopyContiguous(stage, 0, disk, lba * BLOCK, p.blocks, p.count);
  }

  lemma {:induction false} ReadAllWhole(stage: seq<byte>, disk: seq<byte>, total: nat, lba: nat, batchLen: nat)
    requires |stage| == PAGE && Splittable(total, batchLen) && lba * BLOCK + total <= |disk|
    requires WholeAll(total, batchLen)
    ensures ReadAll(stage, disk, total, lba, batchLen) == disk[lba * BLOCK..lba * BLOCK + total]
    decreases total
  {
    hide ReadChunk, ChunkBlocks;
    if total == 0 {
    } else {
      WholeAllNext(total, batchLen);
      var n := Min(total, PAGE);
      var next, at := ReadChunk(stage, disk, lba, n, batchLen), lba * BLOCK;
      ReadChunkWhole(stage, disk, lba, n, batchLen);
      ReadAllWhole(next, disk, total - n, lba + ChunkBlocks(n, batchLen), batchLen);
      assert disk[at..at + total] == disk[at..at + n] + disk[at + n..at + total];
    }
  }

  // ----- And when not -----

  ghost predicate Zeros(s: seq<byte>, lo: nat, hi: nat) {
    hi <= |s| && forall k :: lo <= k < hi ==> s[k] == 0
  }

  lemma {:induction false} CopyZeros(dst: seq<byte>, step: nat, src: seq<byte>, from: nat, per: nat, m: nat)
    requires per <= step && m * step <= |dst| && from + m * per <= |src|
    requires Zeros(dst, 0, |dst|) && Zeros(src, from, from + m * per)
    ensures Zeros(CopyParts(dst, 0, step, src, from, per, per, m), 0, |dst|)
    decreases m
  {
    if m == 0 {
    } else {
      Row(m - 1, m, step);
      Row(m - 1, m, per);
      PartRow(m - 1, m, step, per);
      PartRow(m - 1, m, per, per);
      hide PartOffset;
      CopyZeros(dst, step, src, from, per, m - 1);
    }
  }

  lemma ReadChunkZeros(stage: seq<byte>, disk: seq<byte>, lba: nat, n: nat, batchLen: nat)
    requires |stage| == PAGE && batchLen >= 1 && BLOCK <= n <= PAGE && lba * BLOCK + n <= |disk|
    requires Zeros(stage, 0, PAGE) && Zeros(disk, lba * BLOCK, lba * BLOCK + ChunkBlocks(n, batchLen) * BLOCK)
    ensures Zeros(ReadChunk(stage, disk, lba, n, batchLen), 0, PAGE)
  {
    SplitBounds(n, batchLen);
    hide SplitChunk;
    var p := SplitChunk(n, batchLen);
    CopyZeros(stage, p.stride, disk, lba * BLOCK, Per(p), p.count);
  }

  /** The read looks at no byte beyond those it counts. */
  lemma {:induction false} ReadAllZeros(stage: seq<byte>, disk: seq<byte>, total: nat, lba: nat, batchLen: nat)
    requires |stage| == PAGE && Splittable(total, batchLen) && lba * BLOCK + total <= |disk|
    requires Zeros(stage, 0, PAGE) && Zeros(disk, lba * BLOCK, lba * BLOCK + Covered(total, batchLen))
    ensures Zeros(ReadAll(stage, disk, total, lba, batchLen), 0, total)
    decreases total
  {
    hide ReadChunk, ChunkBlocks;
    if total == 0 {
    } else {
      NextChunk(total, batchLen);
      var n := Min(total, PAGE);
      ReadChunkZeros(stage, disk, lba, n, batchLen);
      ReadAllZeros(ReadChunk(stage, disk, lba, n, batchLen), disk, total - n, lba + ChunkBlocks(n, batchLen), batchLen);
    }
  }

  ghost predicate AlwaysReads(total: nat, lba: nat, batchLen: nat, size: nat)
    requires Splittable(total, batchLen) && lba * BLOCK + total <= size
  {
    forall stage, disk :: |stage| == PAGE && |disk| == size ==>
      ReadAll(stage, disk, total, lba, batchLen) == disk[lba * BLOCK..lba * BLOCK + total]
  }

  /** `batched_read` returns the disk's content, whatever that is and whatever the staging page held,
      exactly when every chunk is a multiple of its batch's blocks. */
  lemma BatchedReadExact(total: nat, lba: nat, batchLen: nat, size: nat)
    requires Splittable(total, batchLen) && lba * BLOCK + total <= size
    ensures AlwaysReads(total, lba, batchLen, size) <==> WholeAll(total, batchLen)
  {
    hide ReadAll, WholeAll, Covered;
    if WholeAll(total, batchLen) {
      forall stage, disk | |stage| == PAGE && |disk| == size
        ensures ReadAll(stage, disk, total, lba, batchLen) == disk[lba * BLOCK..lba * BLOCK + total]
      {
        ReadAllWhole(stage, disk, total, lba, batchLen);
      }
    } else {
      assert Covered(total, batchLen) < total;
      var stage := Filler(PAGE, 0);
      var x := lba * BLOCK + total - 1;
      var disk := Filler(size, 0)[x := 1];
      ReadAllZeros(stage, disk, total, lba, batchLen);
      var got, want := ReadAll(stage, disk, total, lba, batchLen), disk[lba * BLOCK..lba * BLOCK + total];
      assert got[total - 1] == 0 && want[total - 1] == 1;
    }
  }
}
