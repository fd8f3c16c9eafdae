/** `NvmeQueuePair`: asynchronous submission that may stop short, and polling. */
module NvmeQueuePair {
  import opened Collections
  import opened NvmeTypes
  import opened NvmeSystem
  import opened NvmeDma
  import opened NvmeProgress
  import opened NvmeQueues
  import SQ = SubmissionRing
  import CQ = CompletionRing
  import RingArith

  /** The command `submit_io` builds for a chunk. */
  function PairCommand(id: nat, tail: nat, op: nat, chunk: Chunk, lba: nat): Command
    requires tail < QUEUE_LENGTH && chunk.len > 0
  {
    var blocks := Blocks(chunk.len);
    IoCommand(op, SQ.CommandId(id, tail), 1, lba, blocks, chunk.phys, SecondPrp(chunk.phys, blocks * BLOCK))
  }

  /** Commands the host may still submit as far as it knows. */
  ghost function Room(s: System): int {
    |s.sq.slots| - 1 - (|s.sq.submitted| - s.sq.known)
  }

  lemma RoomExact(s: System, waiting: bool)
    requires Inv(s, waiting)
    ensures Room(s) >= 0 && (SQ.IsFull(s.sq) <==> Room(s) == 0)
    ensures s.sq.tail == |s.sq.submitted| % |s.sq.slots|
  {
    SQ.IsFullIff(s.sq);
  }

  lemma PairStep(s: System, c: Command, acts: seq<Action>)
    requires Inv(s, false) && !SQ.IsFull(s.sq)
    ensures var t := Acts(RingTail(Submit(s, c)), acts);
      && Inv(t, false) && t.sq.submitted == s.sq.submitted + [c] && Room(t) == Room(s) - 1
      && |t.sq.slots| == |s.sq.slots|
  {
    SubmitInv(s, c);
    RingTailInv(Submit(s, c));
    var u := RingTail(Submit(s, c));
    InvBounds(u, false);
    hide Inv;
    ActsFrame(u, acts);
    ActsInv(u, acts, false);
  }

  /** `c` is the command for chunk `i`, put into the ring at position `first + i`. */
  ghost predicate IsChunkCommand(c: Command, i: nat, first: nat, slots: nat, id: nat, op: nat,
                                 chunks: seq<Chunk>, lba: nat) {
    && 0 < slots <= QUEUE_LENGTH && i < |chunks| && chunks[i].len > 0
    && c == PairCommand(id, (first + i) % slots, op, chunks[i], lba + i * (CHUNK / BLOCK))
  }

  /** The commands submitted from `first` on are those of the first chunks of a buffer, in order,
      on consecutive block ranges. */
  ghost predicate SubmittedChunks(submitted: seq<Command>, first: nat, slots: nat, id: nat, op: nat,
                                  chunks: seq<Chunk>, lba: nat, reqs: nat) {
    && |submitted| == first + reqs
    && forall k :: first <= k < |submitted| ==>
         IsChunkCommand(submitted[k], k - first, first, slots, id, op, chunks, lba)
  }

  /** State `s` after `reqs` chunks were submitted from state `s0`. */
  ghost predicate PairProgress(s: System, s0: System, id: nat, op: nat, chunks: seq<Chunk>, lba: nat, reqs: nat) {
    && Inv(s, false) && |s.sq.slots| == |s0.sq.slots| && Room(s) == Room(s0) - reqs && Room(s) >= 0
    && s0.sq.submitted <= s.sq.submitted && |s.sq.slots| <= QUEUE_LENGTH
    && SubmittedChunks(s.sq.submitted, |s0.sq.submitted|, |s0.sq.slots|, id, op, chunks, lba, reqs)
  }

  lemma PairStart(s: System, id: nat, op: nat, chunks: seq<Chunk>, lba: nat)
    requires Inv(s, false) && |s.sq.slots| <= QUEUE_LENGTH
    ensures PairProgress(s, s, id, op, chunks, lba, 0)
  {
    RoomExact(s, false);
  }

  /** The next chunk is refused exactly when the room is used up. */
  lemma PairRefused(s: System, s0: System, id: nat, op: nat, chunks: seq<Chunk>, lba: nat, reqs: nat)
    requires PairProgress(s, s0, id, op, chunks, lba, reqs)
    ensures SQ.IsFull(s.sq) <==> Room(s0) == reqs
    ensures s.sq.tail < |s.sq.slots| <= QUEUE_LENGTH && s.sq.tail == |s.sq.submitted| % |s.sq.slots|
  {
    hide SubmittedChunks;
    RoomExact(s, false);
  }

  /** Otherwise it is appended. */
  lemma PairAccepted(s: System, s0: System, id: nat, op: nat, chunks: seq<Chunk>, lba: nat, reqs: nat,
                     c: Command, acts: seq<Action>)
    requires PairProgress(s, s0, id, op, chunks, lba, reqs) && !SQ.IsFull(s.sq)
    requires IsChunkCommand(c, reqs, |s0.sq.submitted|, |s0.sq.slots|, id, op, chunks, lba)
    ensures PairProgress(Acts(RingTail(Submit(s, c)), acts), s0, id, op, chunks, lba, reqs + 1)
  {
    hide IsChunkCommand, Inv;
    InvBounds(s, false);
    PairStep(s, c, acts);
    RoomExact(Acts(RingTail(Submit(s, c)), acts), false);
  }

  /** The identifiers stay those of the pair. */
  lemma PairOwnIds(s: System, s0: System, id: nat, op: nat, chunks: seq<Chunk>, lba: nat, reqs: nat)
    requires PairProgress(s, s0, id, op, chunks, lba, reqs)
    ensures SQ.OwnIds(s0.sq, id) ==> SQ.OwnIds(s.sq, id)
  {
    hide Inv, SQ.CommandId, Blocks;
    if SQ.OwnIds(s0.sq, id) {
      var n, first := |s.sq.slots|, |s0.sq.submitted|;
      forall k | 0 <= k < |s.sq.submitted| ensures s.sq.submitted[k].cId == SQ.CommandId(id, k % n) {
        if k < first {
          assert s.sq.submitted[k] == s0.sq.submitted[k];
        } else {
          assert IsChunkCommand(s.sq.submitted[k], k - first, first, n, id, op, chunks, lba);
        }
      }
    }
  }

  // ----- What the controller is asked to do -----

  lemma RoundedBlocks(len: nat)
    requires 0 < len <= CHUNK
    ensures 1 <= Blocks(len) <= 16 && len <= Blocks(len) * BLOCK < len + BLOCK
  {
  }

  /** The `i`-th accepted command moves chunk `i` of the buffer, rounded up to whole blocks, to or from the
      blocks of namespace 1 that follow those of the chunks before it.  Its memory is the chunk's if and only
      if the chunk's address is a multiple of four and page-aligned or in one page with the whole transfer. */
  lemma SubmittedRanges(submitted: seq<Command>, first: nat, slots: nat, id: nat, op: nat, phys: nat, size: nat,
                        lba: nat, reqs: nat, i: nat)
    requires SubmittedChunks(submitted, first, slots, id, op, Chunks(phys, size, 0), lba, reqs) && i < reqs
    requires lba + 16 * i < 0x1_0000_0000_0000_0000
    ensures var c, at := submitted[first + i], phys + i * CHUNK;
      && i * CHUNK < size && c.opcode == op && (op == WRITE ==> c.opcode == 1) && (op == READ ==> c.opcode == 2)
      && c.nsId == 1 && StartBlock(c) == lba + 16 * i
      && 0 < slots <= QUEUE_LENGTH && c.cId == id % 32 * 2048 + (first + i) % slots
      && var len := if size - i * CHUNK < 8192 then size - i * CHUNK else 8192;
      && Bytes(c) % 512 == 0 && len <= Bytes(c) < len + 512
      && ((forall j :: 0 <= j < Bytes(c) ==> PrpAddress(c, j) == at + j)
          <==> at % 4 == 0 && (at % PAGE == 0 || at % PAGE + Bytes(c) <= PAGE))
  {
    var chunks, c := Chunks(phys, size, 0), submitted[first + i];
    assert IsChunkCommand(c, i, first, slots, id, op, chunks, lba);
    ChunkAt(phys, size, 0, i);
    var chunk := chunks[i];
    RoundedBlocks(chunk.len);
    ChunkCommand(c, id, (first + i) % slots, op, chunk, lba + 16 * i);
  }

  lemma ChunkCommand(c: Command, id: nat, tail: nat, op: nat, chunk: Chunk, lba: nat)
    requires tail < QUEUE_LENGTH && 0 < chunk.len <= CHUNK && c == PairCommand(id, tail, op, chunk, lba)
    requires lba < 0x1_0000_0000_0000_0000 && 1 <= Blocks(chunk.len) <= 16
    ensures c.opcode == op && c.nsId == 1 && c.cId == id % 32 * 2048 + tail && StartBlock(c) == lba
    ensures Bytes(c) == Blocks(chunk.len) * BLOCK
    ensures (forall j :: 0 <= j < Bytes(c) ==> PrpAddress(c, j) == chunk.phys + j)
      <==> chunk.phys % 4 == 0 && (chunk.phys % PAGE == 0 || chunk.phys % PAGE + Bytes(c) <= PAGE)
  {
    hide PrpAddress, Blocks;
    var blocks := Blocks(chunk.len);
    CommandRoundTrip(op, SQ.CommandId(id, tail), 1, lba, blocks, chunk.phys, SecondPrp(chunk.phys, blocks * BLOCK));
    PrpContiguousIff(c, chunk.phys);
  }

  /** For a page-aligned buffer of whole pages the accepted commands cut its first bytes and the blocks from
      `lba` on into the same consecutive pieces. */
  lemma SubmittedPages(submitted: seq<Command>, first: nat, slots: nat, id: nat, op: nat, phys: nat, size: nat,
                       lba: nat, reqs: nat, i: nat)
    requires SubmittedChunks(submitted, first, slots, id, op, Chunks(phys, size, 0), lba, reqs) && i < reqs
    requires phys % PAGE == 0 && size % PAGE == 0 && lba + 16 * i < 0x1_0000_0000_0000_0000
    ensures var c := submitted[first + i];
      && i * CHUNK < size && Bytes(c) == (if i + 1 < |Chunks(phys, size, 0)| then CHUNK else size - i * CHUNK)
      && DiskStart(c) == lba * BLOCK + i * CHUNK
      && forall j :: 0 <= j < Bytes(c) ==> PrpAddress(c, j) == phys + i * CHUNK + j
  {
    var chunks := Chunks(phys, size, 0);
    assert |submitted| == first + reqs && IsChunkCommand(submitted[first + i], i, first, slots, id, op, chunks, lba);
    hide SubmittedChunks, IsChunkCommand, PrpAddress, Chunks, StartBlock, Bytes;
    SubmittedRanges(submitted, first, slots, id, op, phys, size, lba, reqs, i);
    LastChunk(phys, size, i);
    PieceAligned(phys, size, i);
    var c, left := submitted[first + i], size - i * CHUNK;
    SameMultiple(if left < 8192 then left else 8192, Bytes(c));
  }

  /** Exactly the last chunk reaches the end of the buffer. */
  lemma LastChunk(phys: nat, size: nat, i: nat)
    requires i < |Chunks(phys, size, 0)|
    ensures i * CHUNK < size && (i + 1 < |Chunks(phys, size, 0)| <==> size - i * CHUNK > CHUNK)
  {
    ChunkAt(phys, size, 0, i);
    ChunksPartition(phys, size, 0);
    hide Chunks;
    if i + 1 < |Chunks(phys, size, 0)| {
      ChunkAt(phys, size, 0, i + 1);
    }
  }

  lemma SameMultiple(a: nat, b: nat)
    requires a % 512 == 0 && b % 512 == 0 && a <= b < a + 512
    ensures a == b
  {
    var p, q := a / 512, b / 512;
    assert a == 512 * p && b == 512 * q;
  }

  lemma PieceAligned(phys: nat, size: nat, i: nat)
    requires phys % PAGE == 0 && size % PAGE == 0 && i * CHUNK < size
    ensures (phys + i * CHUNK) % PAGE == 0 && (phys + i * CHUNK) % 4 == 0
    ensures (size - i * CHUNK) % 512 == 0
  {
    var p, n := phys / 4096, size / 4096;
    assert phys == 4096 * p && size == 4096 * n && i * CHUNK == 8192 * i;
    RingArith.Unique(phys + i * CHUNK, 4096, p + 2 * i, 0);
    RingArith.Unique(phys + i * CHUNK, 4, 1024 * (p + 2 * i), 0);
    RingArith.Unique(size - i * CHUNK, 512, 8 * (n - 2 * i), 0);
  }

  lemma NextCommand(s: System, s0: System, id: nat, op: nat, chunks: seq<Chunk>, lba: nat, reqs: nat)
    requires PairProgress(s, s0, id, op, chunks, lba, reqs) && reqs < |chunks| && chunks[reqs].len > 0
    ensures s.sq.tail < |s.sq.slots| <= QUEUE_LENGTH
    ensures IsChunkCommand(PairCommand(id, s.sq.tail, op, chunks[reqs], lba + reqs * (CHUNK / BLOCK)),
                           reqs, |s0.sq.submitted|, |s0.sq.slots|, id, op, chunks, lba)
  {
    PairRefused(s, s0, id, op, chunks, lba, reqs);
    hide PairCommand;
  }

  class NvmeQueuePair {
    const id: nat
    const link: Channel

    constructor (id: nat, link: Channel)
      ensures this.id == id && this.link == link
    {
      this.id, this.link := id, link;
    }

    /** Submits the chunks of a buffer until the ring is full.  The result is the number of commands
        accepted: all of them, or as many as the host knows room for. */
    method SubmitIo(phys: nat, size: nat, lba: nat, op: nat) returns (reqs: nat)
      requires link.Valid() && Inv(link.state, false)
      modifies link.Repr()
      ensures link.Valid()
      ensures var chunks := Chunks(phys, size, 0);
        && reqs == (if |chunks| <= Room(old(link.state)) then |chunks| else Room(old(link.state)))
        && PairProgress(link.state, old(link.state), id, op, chunks, lba, reqs)
      ensures SQ.OwnIds(old(link.state).sq, id) ==> SQ.OwnIds(link.state.sq, id)
    {
      hide Channel.Valid, Inv, SQ.IsFull, Room, PairProgress, PairCommand, IsChunkCommand, Blocks;
      hide Submit, Acts, NvmeSystem.RingTail, Chunks, SQ.OwnIds;
      ghost var s0, all := link.state, Chunks(phys, size, 0);
      var t := link.Tail();
      PairStart(s0, id, op, all, lba);
      RoomExact(s0, false);
      reqs := 0;
      assert all[0..] == all;
      var at := lba;
      var it := new DmaChunks(phys, size);
      while it.currentOffset < size
        invariant link.Valid() && PairProgress(link.state, s0, id, op, all, lba, reqs)
        invariant it.phys == phys && it.size == size
        invariant reqs <= |all| && reqs <= Room(s0) && Chunks(phys, size, it.currentOffset) == all[reqs..]
        invariant it.currentOffset < size ==> at == lba + reqs * (CHUNK / BLOCK)
        decreases size - it.currentOffset
      {
        ghost var s := link.state;
        var chunk := it.Next();
        SplitHead(all, reqs, chunk.value, Chunks(phys, size, it.currentOffset));
        PairRefused(s, s0, id, op, all, lba, reqs);
        NextCommand(s, s0, id, op, all, lba, reqs);
        t := link.Tail();
        var c := PairCommand(id, t, op, chunk.value, at);
        var tail, acts := link.SubmitAndRing(c);
        if tail.None? {
          PairOwnIds(s, s0, id, op, all, lba, reqs);
          return;
        }
        PairAccepted(s, s0, id, op, all, lba, reqs, c, acts);
        FullChunk(chunk.value.len);
        at := at + Blocks(chunk.value.len);
        reqs := reqs + 1;
      }
      ChunksEnd(phys, size, it.currentOffset);
      PairOwnIds(link.state, s0, id, op, all, lba, reqs);
      assert |all[reqs..]| == |all| - reqs;
    }

    /** `complete_io(n)`: returns only once `n` more completions have been posted and consumes exactly
        those; the reported head is the last one's.  It returns exactly when the controller's steps post
        them. */
    method CompleteIo(n: nat) returns (sqHead: Option<nat>)
      requires link.Valid() && Inv(link.state, false) && 1 <= n <= |link.state.cq.slots|
      modifies link.Repr()
      ensures link.Valid()
      ensures sqHead.Some? ==>
        && Inv(link.state, false) && link.state.seen == old(link.state).seen + n <= |link.state.cq.posted|
        && sqHead.value == link.state.cq.posted[link.state.seen - 1].sqHead == link.state.sq.head
        && link.state.sq.submitted == old(link.state).sq.submitted
      ensures sqHead.Some? <==> Ends(old(link.state), n, Flat(old(link.schedule)))
      ensures sqHead.Some? && SQ.OwnIds(old(link.state).sq, id) ==> SQ.OwnIds(link.state.sq, id)
    {
      hide Channel.Valid, Inv, Poll, Acts, BeginWait;
      ghost var s := link.state;
      var entry, acts := link.CompleteN(n);
      PairWaited(s, n, acts);
      assert Ends(s, n, acts) <==> entry.Some?;
      hide Ends;
      SpinExact(s, n, old(link.schedule), link.schedule, acts);
      if entry.None? {
        return None;
      }
      link.RingHead();
      return Some(entry.value.sqHead);
    }

    /** `quick_poll`: succeeds exactly when an unconsumed completion has been posted; then it consumes
        it, tells the controller, and takes over the reported submission head. */
    method QuickPoll() returns (r: Option<Completion>)
      requires link.Valid() && Inv(link.state, false)
      modifies link.Repr()
      ensures link.Valid() && Inv(link.state, false)
      ensures var s := old(link.state);
        && r == (if s.seen < |s.cq.posted| then Some(s.cq.posted[s.seen]) else None)
        && link.state.seen == (if r.Some? then s.seen + 1 else s.seen)
        && (r.None? ==> link.state == s)
        && (r.Some? ==> link.state.cq.rung == link.state.cq.pos && s.sq.known <= link.state.sq.known)
      ensures SQ.OwnIds(old(link.state).sq, id) ==> SQ.OwnIds(link.state.sq, id)
    {
      ghost var s := link.state;
      PollInv(s, false);
      PollLearns(s);
      r := link.PollOnce();
      if r.Some? {
        RingHeadInv(link.state);
        link.RingHead();
      }
    }
  }

  /** A successful poll takes the head from the entry it returns. */
  lemma PollEntry(s: System)
    requires s.cq.head < |s.cq.slots|
    ensures var (u, e) := Poll(s);
      e.Some? ==> u.cq.posted == s.cq.posted && u.sq.slots == s.sq.slots && e.value.sqHead == u.sq.head
  {
  }

  lemma PairWaited(s: System, n: nat, acts: seq<Action>)
    requires Inv(s, false) && 1 <= n <= |s.cq.slots|
    ensures var t := Acts(BeginWait(s, n), acts);
      && t.cq.head < |t.cq.slots|
      && var (u, e) := Poll(t);
         e.Some? ==>
           && Inv(RingHead(u), false) && u.seen == s.seen + n <= |u.cq.posted|
           && e.value == u.cq.posted[u.seen - 1] && e.value.sqHead == u.sq.head
           && u.sq.submitted == s.sq.submitted && |u.sq.slots| == |s.sq.slots|
  {
    hide Inv, Poll, Acts, CQ.Jump, RingHead;
    BeginWaitInv(s, n);
    var w := BeginWait(s, n);
    InvBounds(w, true);
    ActsFrame(w, acts);
    ActsInv(w, acts, true);
    hide BeginWait;
    InvBounds(Acts(w, acts), true);
    PollInv(Acts(w, acts), true);
    PollEntry(Acts(w, acts));
    if Poll(Acts(w, acts)).1.Some? {
      RingHeadInv(Poll(Acts(w, acts)).0);
    }
  }

  lemma PollLearns(s: System)
    requires Inv(s, false)
    ensures Poll(s).1.Some? ==> s.sq.known <= Poll(s).0.sq.known
  {
    PollInv(s, false);
  }
}
