/** `NvmeDevice`: batched and single transfers over one I/O channel. */
module NvmeDriver {
  import opened Collections
  import opened NvmeTypes
  import opened NvmeSystem
  import opened NvmeBatch
  import opened NvmeTransfers
  import opened NvmeData
  import opened NvmeDma
  import opened NvmeReads
  import opened NvmeProgress
  import opened NvmeQueues
  import SQ = SubmissionRing
  import CQ = CompletionRing

  // ----- Steps of a transfer, on states -----

  /** Both doorbells are up to date. */
  ghost predicate Announced(s: System) {
    s.sq.rung == |s.sq.submitted| && s.cq.rung == s.cq.pos
  }

  /** Nothing is in flight, the staging page exists and both rings have room for a batch of eight. */
  ghost predicate Idle(s: System, buffer: nat) {
    && Quiet(s) && s.cq.rung == s.cq.pos && buffer % PAGE == 0 && buffer + PAGE <= |s.mem|
    && 9 <= |s.sq.slots| && 9 <= |s.cq.slots|
  }

  lemma IdleAnnounced(s: System, buffer: nat)
    requires Idle(s, buffer)
    ensures Announced(s) && 0 < |s.sq.slots| && s.sq.tail == |s.sq.submitted| % |s.sq.slots|
  {
    QuietMeansDone(s);
  }

  lemma IdleFacts(s: System, buffer: nat)
    requires Idle(s, buffer)
    ensures Quiet(s) && s.cq.rung == s.cq.pos && 9 <= |s.sq.slots| && 9 <= |s.cq.slots| && buffer + PAGE <= |s.mem|
  {
  }

  /** A new device with clear completion memory is idle. */
  lemma FreshIdle(sqSlots: seq<Command>, cqSlots: seq<Completion>, mem: seq<byte>, disk: seq<byte>, buffer: nat)
    requires 9 <= |sqSlots| && 9 <= |cqSlots| && CQ.PhasesClear(cqSlots) && buffer % PAGE == 0 && buffer + PAGE <= |mem|
    ensures Idle(Fresh(sqSlots, cqSlots, mem, disk), buffer)
  {
    FreshQuiet(sqSlots, cqSlots, mem, disk);
  }

  lemma AnnouncedRound(s: System, c: Command, acts: seq<Action>)
    requires Inv(s, false) && s.cq.rung == s.cq.pos
    ensures Announced(Acts(RingTail(Submit(s, c)), acts))
  {
    InvBounds(s, false);
    ActsFrame(RingTail(Submit(s, c)), acts);
  }

  ghost predicate SameSizes(s: System, t: System) {
    && |t.mem| == |s.mem| && |t.disk| == |s.disk|
    && |t.sq.slots| == |s.sq.slots| && |t.cq.slots| == |s.cq.slots|
  }

  lemma StaysIdle(s: System, t: System, buffer: nat)
    requires Idle(s, buffer) && Quiet(t) && t.cq.rung == t.cq.pos && SameSizes(s, t)
    ensures Idle(t, buffer)
  {
  }

  /** State `s` after `i` commands of the batch were submitted from the quiet state `s0`. */
  ghost predicate Submitting(s: System, s0: System, op: nat, lba: nat, base: nat, p: Split, i: nat) {
    && Inv(s, false) && op in {WRITE, READ}
    && s.seen == s0.seen == s.sq.known == |s0.sq.submitted|
    && |s.sq.slots| == |s0.sq.slots| && |s.cq.slots| == |s0.cq.slots|
    && Placed(p, lba, base, |s.mem|, |s.disk|)
    && IsBatch(s.sq.submitted, |s0.sq.submitted|, i, op, lba, base, p)
    && Progress(s, op, |s0.sq.submitted|, s0.mem, s0.disk)
  }

  lemma SubmittingStart(s0: System, op: nat, lba: nat, base: nat, p: Split)
    requires Quiet(s0) && op in {WRITE, READ} && Placed(p, lba, base, |s0.mem|, |s0.disk|)
    ensures Submitting(s0, s0, op, lba, base, p, 0)
  {
    QuietMeansDone(s0);
    StartProgress(s0, op);
  }

  /** The command of part `i` is new: it is executable and touches nothing an earlier part touches. */
  lemma NextPart(s: System, s0: System, op: nat, lba: nat, base: nat, p: Split, i: nat, c: Command)
    requires Submitting(s, s0, op, lba, base, p, i) && i < p.count && IsPart(c, i, op, lba, base, p)
    ensures Executable(c, |s.mem|, |s.disk|)
    ensures forall k :: |s0.sq.submitted| <= k < |s.sq.submitted| ==>
      SeparateOnDisk(s.sq.submitted[k], c) && SeparateInMemory(s.sq.submitted[k], c)
  {
    CommandOfBatch(i, op, lba, base, p, c, |s.mem|, |s.disk|);
    forall k | |s0.sq.submitted| <= k < |s.sq.submitted|
      ensures SeparateOnDisk(s.sq.submitted[k], c) && SeparateInMemory(s.sq.submitted[k], c)
    {
      Separate(k - |s0.sq.submitted|, i, op, lba, base, p, s.sq.submitted[k], c);
    }
  }

  /** Submitting part `i` is never refused and keeps the batch in order. */
  lemma SubmittingStep(s: System, s0: System, op: nat, lba: nat, base: nat, p: Split, i: nat, c: Command)
    requires Submitting(s, s0, op, lba, base, p, i) && i < p.count < |s.sq.slots| && IsPart(c, i, op, lba, base, p)
    ensures !SQ.IsFull(s.sq)
    ensures Submitting(Submit(s, c), s0, op, lba, base, p, i + 1)
  {
    NextPart(s, s0, op, lba, base, p, i, c);
    SQ.IsFullIff(s.sq);
    SubmitInv(s, c);
    SubmitProgress(s, c, op, |s0.sq.submitted|, s0.mem, s0.disk);
    BatchNext(s.sq.submitted, |s0.sq.submitted|, i, op, lba, base, p, c);
    hide Inv, Progress, IsBatch, IsPart, Placed, Executable, SeparateOnDisk, SeparateInMemory;
  }

  lemma BatchNext(cmds: seq<Command>, first: nat, i: nat, op: nat, lba: nat, base: nat, p: Split, c: Command)
    requires IsBatch(cmds, first, i, op, lba, base, p) && IsPart(c, i, op, lba, base, p)
    ensures IsBatch(cmds + [c], first, i + 1, op, lba, base, p)
  {
    hide IsPart;
  }

  lemma SubmittingRound(s: System, s0: System, op: nat, lba: nat, base: nat, p: Split, i: nat, c: Command,
                        acts: seq<Action>)
    requires Submitting(s, s0, op, lba, base, p, i) && i < p.count < |s.sq.slots| && IsPart(c, i, op, lba, base, p)
    ensures !SQ.IsFull(s.sq)
    ensures Submitting(Acts(RingTail(Submit(s, c)), acts), s0, op, lba, base, p, i + 1)
  {
    SubmittingStep(s, s0, op, lba, base, p, i, c);
    var t := RingTail(Submit(s, c));
    RingTailInv(Submit(s, c));
    ActsFrame(t, acts);
    ActsInv(t, acts, false);
    ActsProgress(t, acts, false, op, |s0.sq.submitted|, s0.mem, s0.disk);
  }

  /** When `complete_n` returns, as many completions were seen as commands submitted. */
  lemma WaitQuiet(s: System, n: nat, acts: seq<Action>)
    requires Inv(s, false) && 1 <= n <= |s.cq.slots| && s.seen + n == |s.sq.submitted|
    ensures var t := Acts(BeginWait(s, n), acts);
      && t.cq.head < |t.cq.slots|
      && (Poll(t).1.Some? ==> Quiet(Poll(t).0) && Quiet(RingHead(Poll(t).0)))
  {
    hide Inv, Poll;
    BeginWaitInv(s, n);
    var w := BeginWait(s, n);
    InvBounds(w, true);
    ActsFrame(w, acts);
    ActsInv(w, acts, true);
    InvBounds(Acts(w, acts), true);
    PollInv(Acts(w, acts), true);
    if Poll(Acts(w, acts)).1.Some? {
      RingHeadInv(Poll(Acts(w, acts)).0);
    }
  }

  /** ... so the whole batch has been executed, nothing is in flight and the ring is empty. */
  lemma WaitDone(s: System, n: nat, acts: seq<Action>, op: nat, first: nat, mem0: seq<byte>, disk0: seq<byte>)
    requires Inv(s, false) && 1 <= n <= |s.cq.slots| && s.seen + n == |s.sq.submitted|
    requires Progress(s, op, first, mem0, disk0)
    ensures var t := Acts(BeginWait(s, n), acts);
      && t.cq.head < |t.cq.slots|
      && var (u, e) := Poll(t);
         e.Some? ==>
           && Quiet(RingHead(u)) && u.sq.submitted == s.sq.submitted
           && u.sq.head == u.sq.tail == e.value.sqHead
           && Progress(RingHead(u), op, first, mem0, disk0)
           && SameSizes(s, RingHead(u))
  {
    hide Inv, WriteProgress, ReadProgress;
    BeginWaitInv(s, n);
    var w := BeginWait(s, n);
    InvBounds(w, true);
    ActsFrame(w, acts);
    ActsProgress(w, acts, true, op, first, mem0, disk0);
    WaitQuiet(s, n, acts);
    if Poll(Acts(w, acts)).1.Some? {
      QuietMeansDone(Poll(Acts(w, acts)).0);
    }
  }

  /** The split chunk has moved between `mem0` and `disk0`. */
  ghost predicate Transferred(u: System, op: nat, mem0: seq<byte>, disk0: seq<byte>, lba: nat, base: nat, p: Split) {
    && |mem0| == |u.mem| && |disk0| == |u.disk| && Placed(p, lba, base, |mem0|, |disk0|)
    && u.sq.head == u.sq.tail
    && (op == WRITE ==> u.mem == mem0 && u.disk == WrittenChunk(disk0, mem0, lba, base, p))
    && (op == READ ==> u.disk == disk0 && u.mem == LoadedChunk(mem0, disk0, lba, base, p))
  }

  /** A batch that is over has moved the split chunk, in whatever order it was executed. */
  lemma ChunkDone(u: System, op: nat, first: nat, mem0: seq<byte>, disk0: seq<byte>, lba: nat, base: nat, p: Split)
    requires Quiet(u) && op in {WRITE, READ} && Placed(p, lba, base, |u.mem|, |u.disk|)
    requires IsBatch(u.sq.submitted, first, p.count, op, lba, base, p)
    requires Progress(u, op, first, mem0, disk0)
    ensures Transferred(u, op, mem0, disk0, lba, base, p)
  {
    QuietMeansDone(u);
    hide Inv, Quiet, WrittenChunk, LoadedChunk;
    if op == WRITE {
      WriteBatchDone(u.sq.submitted, u.executed, first, u.mem, u.disk, disk0, lba, base, p);
    } else {
      ReadBatchDone(u.sq.submitted, u.executed, first, u.mem, u.disk, mem0, lba, base, p);
    }
  }

  lemma SubmittedAll(s: System, s0: System, op: nat, lba: nat, base: nat, p: Split)
    requires Submitting(s, s0, op, lba, base, p, p.count)
    ensures Inv(s, false) && s.seen + p.count == |s.sq.submitted|
    ensures Progress(s, op, |s0.sq.submitted|, s0.mem, s0.disk)
    ensures IsBatch(s.sq.submitted, |s0.sq.submitted|, p.count, op, lba, base, p)
    ensures Placed(p, lba, base, |s.mem|, |s.disk|) && op in {WRITE, READ}
    ensures SameSizes(s0, s)
  {
  }

  /** Writing a chunk staged at `base` is writing the chunk. */
  lemma StagedChunk(t: System, mem: seq<byte>, disk: seq<byte>, chunk: seq<byte>, lba: nat, base: nat, batchLen: nat)
    requires batchLen >= 1 && BLOCK <= |chunk| <= PAGE && lba * BLOCK + |chunk| <= |disk|
    requires base + PAGE <= |mem|
    requires var staged := mem[..base] + chunk + mem[base + |chunk|..];
      Transferred(t, WRITE, staged, disk, lba, base, SplitChunk(|chunk|, batchLen))
    ensures t.disk == WriteChunk(disk, chunk, lba, batchLen) && SameBeyond(mem, t.mem, base)
  {
    hide SplitChunk;
    var p := SplitChunk(|chunk|, batchLen);
    var m := mem[..base] + chunk + mem[base + |chunk|..];
    SplitBounds(|chunk|, batchLen);
    CopyFromSlice(disk, lba * BLOCK, Per(p), m, base, |chunk|, p.stride, Per(p), p.count);
    assert m[base..base + |chunk|] == chunk;
  }

  lemma StagedPlaced(s: System, n: nat, lba: nat, buffer: nat, batchLen: nat)
    requires batchLen >= 1 && BLOCK <= n <= PAGE && Idle(s, buffer)
    requires lba * BLOCK + n <= |s.disk| < 0x1_0000_0000_0000_0000
    ensures var p := SplitChunk(n, batchLen);
      && Placed(p, lba, buffer, |s.mem|, |s.disk|)
      && p.count <= 8 && lba + p.count * p.blocks < 0x1_0000_0000_0000_0000
  {
    hide SplitChunk, Quiet;
    SplitBounds(n, batchLen);
  }

  /** A chunk read into the staging page. */
  lemma LoadedStage(t: System, mem: seq<byte>, disk: seq<byte>, n: nat, lba: nat, base: nat, batchLen: nat)
    requires batchLen >= 1 && BLOCK <= n <= PAGE && lba * BLOCK + n <= |disk| && base + PAGE <= |mem|
    requires Transferred(t, READ, mem, disk, lba, base, SplitChunk(n, batchLen))
    ensures base + PAGE <= |t.mem|
    ensures t.mem[base..base + PAGE] == ReadChunk(mem[base..base + PAGE], disk, lba, n, batchLen)
    ensures SameBeyond(mem, t.mem, base)
  {
    hide SplitChunk, LoadedChunk, ReadChunk, Placed, SameBeyond;
    StagedRead(mem, disk, lba, base, n, batchLen);
    LoadedBeyond(mem, disk, lba, base, SplitChunk(n, batchLen));
  }

  // ----- Scheduling points -----

  /** Scheduling points of a batched transfer: one for each command and one for the wait of each chunk. */
  ghost function Points(total: nat, batchLen: nat): nat
    requires Splittable(total, batchLen)
  {
    if total == 0 then 0
    else
      NextChunk(total, batchLen);
      SplitChunk(Min(total, PAGE), batchLen).count + 1 + Points(total - Min(total, PAGE), batchLen)
  }

  lemma PointsNext(total: nat, batchLen: nat)
    requires Splittable(total, batchLen) && total > 0
    ensures BLOCK <= Min(total, PAGE) && Splittable(total - Min(total, PAGE), batchLen)
    ensures Points(total, batchLen)
      == SplitChunk(Min(total, PAGE), batchLen).count + 1 + Points(total - Min(total, PAGE), batchLen)
  {
    NextChunk(total, batchLen);
  }

  lemma PromptFewer(schedule: seq<seq<Action>>, commands: nat, fewer: nat, points: nat)
    requires Prompt(schedule, commands, points) && fewer <= commands
    ensures Prompt(schedule, fewer, points)
  {
  }

  /** The wait for the last `n` commands ends at the next scheduling point. */
  ghost predicate PromptWait(schedule: seq<seq<Action>>, s: System, n: nat)
    requires |s.sq.submitted| >= 1
  {
    Announced(s) && n < |s.cq.slots| && Prompt(schedule, |s.sq.submitted| - 1, 1)
  }

  lemma PromptWaits(schedule: seq<seq<Action>>, s: System, n: nat)
    requires |s.sq.submitted| >= 1 && Announced(s) && n < |s.cq.slots| && Prompt(schedule, |s.sq.submitted|, 1)
    ensures PromptWait(schedule, s, n)
  {
    PromptFewer(schedule, |s.sq.submitted|, |s.sq.submitted| - 1, 1);
  }

  lemma SpentOne(before: seq<seq<Action>>, commands: nat)
    ensures Spent(before, commands, Rest(before), commands + 1, 1)
  {
  }

  /** A transfer that needs `all` points in total and still needs `left`: if there were enough, there
      still are. */
  ghost predicate OnTrack(before: seq<seq<Action>>, l: nat, all: nat, now: seq<seq<Action>>, m: nat, left: nat) {
    && left <= all
    && (Prompt(before, l, all) ==> Prompt(now, m, left) && Spent(before, l, now, m, all - left))
  }

  lemma TrackStart(schedule: seq<seq<Action>>, l: nat, all: nat)
    ensures OnTrack(schedule, l, all, schedule, l, all)
  {
    SpentNothing(schedule, l);
  }

  /** A part of the transfer that did not end for want of points means there were not enough. */
  lemma TrackStuck(before: seq<seq<Action>>, l: nat, all: nat, now: seq<seq<Action>>, m: nat, left: nat, points: nat)
    requires OnTrack(before, l, all, now, m, left) && points <= left && !Prompt(now, m, points)
    ensures !Prompt(before, l, all)
  {
    if Prompt(before, l, all) {
      PromptLess(now, m, left, points);
    }
  }

  lemma TrackEnd(before: seq<seq<Action>>, l: nat, all: nat, now: seq<seq<Action>>, m: nat)
    requires OnTrack(before, l, all, now, m, 0)
    ensures Prompt(before, l, all) ==> Spent(before, l, now, m, all)
  {
  }

  lemma NoPoints(batchLen: nat)
    requires batchLen >= 1
    ensures Points(0, batchLen) == 0
  {
  }

  lemma TrackNext(before: seq<seq<Action>>, l: nat, all: nat, now: seq<seq<Action>>, m: nat, left: nat,
                  next: seq<seq<Action>>, n: nat, points: nat)
    requires OnTrack(before, l, all, now, m, left) && points <= left
    requires Prompt(now, m, points) ==> Spent(now, m, next, n, points)
    ensures OnTrack(before, l, all, next, n, left - points)
  {
    if Prompt(before, l, all) {
      PromptLess(now, m, left, points);
      StillPrompt(now, m, next, n, points, left - points);
      SpentTwice(before, l, now, m, next, n, all - left, points);
    }
  }

  // ----- Single commands -----

  /** The range of `bytes` bytes at `addr` has moved to or from the disk at `start`. */
  ghost predicate Moved(s: System, t: System, op: nat, start: nat, bytes: nat, addr: nat) {
    && SameSizes(s, t) && addr + bytes <= |s.mem| && start + bytes <= |s.disk|
    && (op == WRITE ==> t.mem == s.mem && t.disk == Splice(s.disk, start, s.mem[addr..addr + bytes]))
    && (op == READ ==> t.disk == s.disk && t.mem == Splice(s.mem, addr, s.disk[start..start + bytes]))
  }

  /** The command of `namespace_io`. */
  function SingleCommand(op: nat, cId: nat, lba: nat, blocks: nat, addr: nat): Command
    requires blocks > 0
  {
    IoCommand(op, cId, 1, lba, blocks, addr, SecondPrp(addr, blocks * BLOCK))
  }

  lemma QuietRoom(s: System)
    requires Quiet(s)
    ensures Inv(s, false) && s.seen == |s.sq.submitted| && s.sq.tail < |s.sq.slots| && !SQ.IsFull(s.sq)
  {
    QuietMeansDone(s);
    SQ.IsFullIff(s.sq);
  }

  /** One command submitted while nothing is in flight: the ring has room and the batch is that command. */
  lemma SingleStart(s: System, op: nat, c: Command, addr: nat)
    requires Quiet(s) && op in {WRITE, READ} && c.opcode == op
    requires OnAlignedChunk(c, addr, |s.mem|, |s.disk|)
    ensures var t := RingTail(s.(sq := SQ.Submit(s.sq, c)));
      && Inv(t, false) && t.seen + 1 == |t.sq.submitted| && t.sq.submitted == s.sq.submitted + [c]
      && SameSizes(s, t) && Progress(t, op, |s.sq.submitted|, s.mem, s.disk)
      && (s.cq.rung == s.cq.pos ==> Announced(t))
  {
    hide Inv, Quiet, WriteProgress, ReadProgress, OnAlignedChunk, Executable, SQ.IsFull;
    QuietRoom(s);
    StartProgress(s, op);
    assert Executable(c, |s.mem|, |s.disk|) by {
      AlignedTransfer(c, addr, |s.mem|, |s.disk|);
    }
    SubmitInv(s, c);
    SubmitProgress(s, c, op, |s.sq.submitted|, s.mem, s.disk);
    RingTailInv(Submit(s, c));
  }

  lemma SingleCommandFits(op: nat, cId: nat, lba: nat, blocks: nat, addr: nat, memSize: nat, diskSize: nat)
    requires 1 <= blocks <= 16 && addr % PAGE == 0 && addr + blocks * BLOCK <= memSize
    requires (lba + blocks) * BLOCK <= diskSize < 0x1_0000_0000_0000_0000
    ensures var c := SingleCommand(op, cId, lba, blocks, addr);
      && OnAlignedChunk(c, addr, memSize, diskSize) && c.opcode == op
      && Bytes(c) == blocks * BLOCK && DiskStart(c) == lba * BLOCK
  {
    CommandRoundTrip(op, cId, 1, lba, blocks, addr, SecondPrp(addr, blocks * BLOCK));
  }

  lemma SingleMoved(s: System, u: System, op: nat, c: Command, addr: nat)
    requires Quiet(u) && Progress(u, op, |s.sq.submitted|, s.mem, s.disk) && op in {WRITE, READ}
    requires u.sq.submitted == s.sq.submitted + [c] && SameSizes(s, u)
    requires OnAlignedChunk(c, addr, |s.mem|, |s.disk|)
    ensures Moved(s, u, op, DiskStart(c), Bytes(c), addr)
  {
    hide Quiet, Progress;
    SingleDone(u, op, |s.sq.submitted|, s.mem, s.disk, c, addr);
  }

  /** Moving the next range after the first `m` bytes extends the move to `n` bytes. */
  lemma MovedNext(s: System, t: System, u: System, op: nat, start: nat, phys: nat, m: nat, n: nat)
    requires op in {WRITE, READ} && m <= n
    requires Moved(s, t, op, start, m, phys) && Moved(t, u, op, start + m, n - m, phys + m)
    ensures Moved(s, u, op, start, n, phys)
  {
    if op == WRITE {
      SpliceNext(s.disk, start, s.mem, phys, m, n);
    } else {
      SpliceNext(s.mem, phys, s.disk, start, m, n);
    }
  }

  /** Where the chunk loop stands: `o` bytes and `i` chunks done, the next one at block `at`. */
  ghost predicate AtChunk(phys: nat, size: nat, lba: nat, o: nat, at: nat, i: nat) {
    && phys % PAGE == 0 && size % PAGE == 0 && o % PAGE == 0 && o <= size
    && at * BLOCK == lba * BLOCK + o
    && (o < size ==> at == lba + i * (CHUNK / BLOCK))
  }

  lemma AtChunkStart(phys: nat, size: nat, lba: nat)
    requires phys % PAGE == 0 && size % PAGE == 0
    ensures AtChunk(phys, size, lba, 0, lba, 0)
  {
  }

  lemma AtChunkNext(phys: nat, size: nat, lba: nat, o: nat, at: nat, i: nat, len: nat, blocks: nat)
    requires AtChunk(phys, size, lba, o, at, i) && o < size && len == Min(CHUNK, size - o) && blocks == Blocks(len)
    ensures (phys + o) % PAGE == 0 && 1 <= blocks <= 16 && blocks * BLOCK == len > 0
    ensures at * BLOCK == lba * BLOCK + o && (at + blocks) * BLOCK == lba * BLOCK + (o + len)
    ensures at == lba + i * (CHUNK / BLOCK) && AtChunk(phys, size, lba, o + len, at + blocks, i + 1)
  {
    AlignedPieces(phys, size, o);
    PageBlocks(len);
    FullChunk(len);
    hide Blocks;
    assert blocks * BLOCK == 512 * blocks && at * BLOCK == 512 * at && lba * BLOCK == 512 * lba;
    assert (at + blocks) * BLOCK == 512 * at + 512 * blocks;
    assert o + len < size ==> blocks == 16;
  }

  /** A chunk of a page-aligned buffer is page-aligned. */
  lemma AlignedPieces(phys: nat, size: nat, o: nat)
    requires phys % PAGE == 0 && size % PAGE == 0 && o % PAGE == 0 && o < size
    ensures (phys + o) % PAGE == 0
    ensures var len := Min(CHUNK, size - o); 0 < len <= CHUNK && len % PAGE == 0 && (o + len) % PAGE == 0
  {
    var p, q, r := phys / 4096, size / 4096, o / 4096;
    assert phys == 4096 * p && size == 4096 * q && o == 4096 * r;
    PageMultiple(p + r);
    PageMultiple(q - r);
    PageMultiple(q);
    PageMultiple(r + 2);
  }

  lemma PageMultiple(k: int)
    ensures 4096 * k % 4096 == 0
  {
  }

  lemma MovedNothing(s: System, op: nat, start: nat, phys: nat)
    requires phys <= |s.mem| && start <= |s.disk|
    ensures Moved(s, s, op, start, 0, phys)
  {
  }

  lemma MovedSizes(s: System, t: System, op: nat, start: nat, m: nat, phys: nat)
    requires Moved(s, t, op, start, m, phys)
    ensures |t.mem| == |s.mem| && |t.disk| == |s.disk| && |t.sq.slots| == |s.sq.slots|
  {
  }

  lemma SizesFacts(s: System, t: System)
    requires SameSizes(s, t)
    ensures |t.mem| == |s.mem| && |t.disk| == |s.disk|
    ensures |t.sq.slots| == |s.sq.slots| && |t.cq.slots| == |s.cq.slots|
  {
  }

  lemma SizesTrans(s: System, t: System, u: System)
    requires SameSizes(s, t) && SameSizes(t, u)
    ensures SameSizes(s, u)
  {
  }

  /** `c` is the command that `write` and `read` issue for chunk `i` of a buffer as the `k`-th of the ring. */
  ghost predicate IsIssued(c: Command, k: nat, i: nat, slots: nat, op: nat, chunks: seq<Chunk>, lba: nat) {
    && 0 < slots && i < |chunks| && chunks[i].len > 0
    && c == SingleCommand(op, k % slots, lba + i * (CHUNK / BLOCK), Blocks(chunks[i].len), chunks[i].phys)
  }

  /** The commands submitted since `before` are those of the first `n` chunks, in order. */
  ghost predicate Issued(before: seq<Command>, after: seq<Command>, slots: nat, op: nat, chunks: seq<Chunk>,
                         lba: nat, n: nat) {
    && before <= after && |after| == |before| + n
    && forall k :: |before| <= k < |after| ==> IsIssued(after[k], k, k - |before|, slots, op, chunks, lba)
  }

  lemma IssuedNext(before: seq<Command>, now: seq<Command>, after: seq<Command>, slots: nat, op: nat,
                   chunks: seq<Chunk>, lba: nat, n: nat)
    requires Issued(before, now, slots, op, chunks, lba, n) && |after| == |now| + 1 && now <= after
    requires IsIssued(after[|now|], |now|, n, slots, op, chunks, lba)
    ensures Issued(before, after, slots, op, chunks, lba, n + 1)
  {
    hide IsIssued;
  }

  /** Those commands cut the buffer and the blocks from `lba` on into the same pieces, in order and
      without gap or overlap; each piece is one contiguous physical range of at most two pages, so the PRP
      list is not needed. */
  lemma IssuedRanges(before: seq<Command>, after: seq<Command>, slots: nat, op: nat, phys: nat, size: nat,
                     lba: nat, i: nat)
    requires phys % PAGE == 0 && size % PAGE == 0 && lba * BLOCK + size < 0x1_0000_0000_0000_0000
    requires Issued(before, after, slots, op, Chunks(phys, size, 0), lba, |Chunks(phys, size, 0)|)
    requires i < |Chunks(phys, size, 0)|
    ensures var c := after[|before| + i];
      && c.opcode == op && (op == WRITE ==> c.opcode == 1) && (op == READ ==> c.opcode == 2)
      && i * CHUNK < size && Bytes(c) <= 2 * PAGE
      && Bytes(c) == (if i + 1 < |Chunks(phys, size, 0)| then CHUNK else size - i * CHUNK)
      && DiskStart(c) == lba * BLOCK + i * CHUNK
      && forall j :: 0 <= j < Bytes(c) ==> PrpAddress(c, j) == phys + i * CHUNK + j
  {
    var chunks := Chunks(phys, size, 0);
    var c, chunk := after[|before| + i], chunks[i];
    assert IsIssued(c, |before| + i, i, slots, op, chunks, lba);
    ChunkAt(phys, size, 0, i);
    ChunksPartition(phys, size, 0);
    ChunkAligned(phys, size, i);
    PageBlocks(chunk.len);
    IssuedCommand(c, op, (|before| + i) % slots, lba + i * (CHUNK / BLOCK), chunk.len, chunk.phys);
  }

  lemma ChunkAligned(phys: nat, size: nat, i: nat)
    requires phys % PAGE == 0 && size % PAGE == 0 && i < |Chunks(phys, size, 0)|
    ensures Chunks(phys, size, 0)[i].phys % PAGE == 0 && Chunks(phys, size, 0)[i].len % PAGE == 0
  {
    ChunkAt(phys, size, 0, i);
  }

  lemma IssuedCommand(c: Command, op: nat, cId: nat, lba: nat, len: nat, addr: nat)
    requires 0 < len <= CHUNK && len % PAGE == 0 && addr % PAGE == 0
    requires Blocks(len) * BLOCK == len && 1 <= Blocks(len) <= 16
    requires lba < 0x1_0000_0000_0000_0000 && c == SingleCommand(op, cId, lba, Blocks(len), addr)
    ensures c.opcode == op && Bytes(c) == len && DiskStart(c) == lba * BLOCK
    ensures forall j :: 0 <= j < Bytes(c) ==> PrpAddress(c, j) == addr + j
  {
    hide PrpAddress;
    CommandRoundTrip(op, cId, 1, lba, Blocks(len), addr, SecondPrp(addr, Blocks(len) * BLOCK));
    PrpContiguousIff(c, addr);
  }

  lemma IssuedNothing(submitted: seq<Command>, slots: nat, op: nat, chunks: seq<Chunk>, lba: nat)
    ensures Issued(submitted, submitted, slots, op, chunks, lba, 0)
  {
  }

  /** All chunks of a buffer were issued between two states. */
  ghost predicate IssuedAll(s: System, t: System, op: nat, phys: nat, size: nat, lba: nat) {
    Issued(s.sq.submitted, t.sq.submitted, |s.sq.slots|, op, Chunks(phys, size, 0), lba, |Chunks(phys, size, 0)|)
  }

  lemma AllIssued(s: System, t: System, op: nat, phys: nat, size: nat, lba: nat)
    requires var chunks := Chunks(phys, size, 0);
      Issued(s.sq.submitted, t.sq.submitted, |s.sq.slots|, op, chunks, lba, |chunks|)
    ensures IssuedAll(s, t, op, phys, size, lba)
  {
  }

  lemma NextIssued(s: System, t: System, u: System, op: nat, chunks: seq<Chunk>, lba: nat, i: nat)
    requires Issued(s.sq.submitted, t.sq.submitted, |s.sq.slots|, op, chunks, lba, i)
    requires 0 < |s.sq.slots| && i < |chunks| && chunks[i].len > 0
    requires var at := lba + i * (CHUNK / BLOCK);
      var c := SingleCommand(op, |t.sq.submitted| % |s.sq.slots|, at, Blocks(chunks[i].len), chunks[i].phys);
      u.sq.submitted == t.sq.submitted + [c]
    ensures Issued(s.sq.submitted, u.sq.submitted, |s.sq.slots|, op, chunks, lba, i + 1)
  {
    hide Issued, SingleCommand, Blocks;
    IssuedNext(s.sq.submitted, t.sq.submitted, u.sq.submitted, |s.sq.slots|, op, chunks, lba, i);
  }

  lemma SubmittingInv(s: System, s0: System, op: nat, lba: nat, base: nat, p: Split, i: nat)
    requires Submitting(s, s0, op, lba, base, p, i)
    ensures Inv(s, false)
  {
  }

  lemma SubmittingSizes(s: System, s0: System, op: nat, lba: nat, base: nat, p: Split, i: nat)
    requires Submitting(s, s0, op, lba, base, p, i)
    ensures |s.sq.slots| == |s0.sq.slots| && |s.sq.submitted| == |s0.sq.submitted| + i
  {
  }

  lemma SubmittedCount(s: System, s0: System, t: System, op: nat, lba: nat, base: nat, p: Split, i: nat)
    requires Submitting(s, s0, op, lba, base, p, i) && Submitting(t, s0, op, lba, base, p, i + 1)
    ensures |t.sq.submitted| == |s.sq.submitted| + 1
  {
  }

  /** What one round of the submission loop leaves. */
  lemma SubmittedRound(s: System, s0: System, t: System, op: nat, lba: nat, base: nat, p: Split, i: nat, c: Command,
                       acts: seq<Action>, schedule: seq<seq<Action>>)
    requires Submitting(s, s0, op, lba, base, p, i) && Announced(s) && i < p.count < |s.sq.slots|
    requires IsPart(c, i, op, lba, base, p) && (!SQ.IsFull(s.sq) ==> Accepted(s, c, acts, t))
    ensures !SQ.IsFull(s.sq) && Submitting(t, s0, op, lba, base, p, i + 1) && Announced(t)
    ensures Spent(schedule, |s.sq.submitted|, Rest(schedule), |t.sq.submitted|, 1)
  {
    SubmittingInv(s, s0, op, lba, base, p, i);
    SubmittingRound(s, s0, op, lba, base, p, i, c, acts);
    AnnouncedRound(s, c, acts);
    hide Submitting, Acts, Submit, RingTail, Spent, IsPart, Inv;
    SubmittedCount(s, s0, t, op, lba, base, p, i);
    SpentOne(schedule, |s.sq.submitted|);
  }

  // ----- Namespace and identifiers -----

  /** Every command submitted between the states is for the namespace and carries the number of its slot. */
  ghost predicate Addressed(s: System, t: System, nsId: nat) {
    && s.sq.submitted <= t.sq.submitted && 0 < |t.sq.slots| == |s.sq.slots|
    && forall k :: |s.sq.submitted| <= k < |t.sq.submitted| ==>
         t.sq.submitted[k].nsId == nsId && t.sq.submitted[k].cId == k % |t.sq.slots|
  }

  lemma AddressedNothing(s: System, t: System, nsId: nat)
    requires 0 < |s.sq.slots| == |t.sq.slots| && t.sq.submitted == s.sq.submitted
    ensures Addressed(s, t, nsId)
  {
  }

  lemma AddressedTrans(s: System, t: System, u: System, nsId: nat)
    requires Addressed(s, t, nsId) && Addressed(t, u, nsId)
    ensures Addressed(s, u, nsId)
  {
  }

  lemma AddressedRound(s: System, c: Command, acts: seq<Action>, t: System, nsId: nat)
    requires Inv(s, false) && !SQ.IsFull(s.sq) && Accepted(s, c, acts, t) && c.nsId == nsId && c.cId == s.sq.tail
    ensures Addressed(s, t, nsId)
  {
    InvBounds(s, false);
    ActsFrame(RingTail(Submit(s, c)), acts);
    hide Acts;
  }

  /** Every command carries the number of its slot. */
  ghost predicate SlotIds(s: System) {
    0 < |s.sq.slots| && forall k :: 0 <= k < |s.sq.submitted| ==> s.sq.submitted[k].cId == k % |s.sq.slots|
  }

  /** A transfer keeps that, so at any time the identifiers of the commands in flight differ. */
  lemma AddressedIds(s: System, t: System, nsId: nat, i: nat, j: nat)
    requires SlotIds(s) && Addressed(s, t, nsId) && Inv(t, false)
    requires t.sq.known <= i < |t.sq.submitted| && t.sq.known <= j < |t.sq.submitted|
    ensures SlotIds(t) && (t.sq.submitted[i].cId == t.sq.submitted[j].cId <==> i == j)
  {
    SQ.InFlightTailsDiffer(t.sq, i, j);
    hide Inv;
  }

  /** `write` and `read` address namespace 1. */
  lemma IssuedAddressed(s: System, t: System, op: nat, phys: nat, size: nat, lba: nat)
    requires IssuedAll(s, t, op, phys, size, lba) && 0 < |s.sq.slots| == |t.sq.slots|
    ensures Addressed(s, t, 1)
  {
    hide Chunks, Blocks;
    var chunks := Chunks(phys, size, 0);
    forall k | |s.sq.submitted| <= k < |t.sq.submitted|
      ensures t.sq.submitted[k].nsId == 1 && t.sq.submitted[k].cId == k % |t.sq.slots|
    {
      assert IsIssued(t.sq.submitted[k], k, k - |s.sq.submitted|, |s.sq.slots|, op, chunks, lba);
    }
  }

  class NvmeDevice {
    const io: Channel
    const buffer: nat        // physical address of the one-page staging buffer
    var submissions: nat
    var completions: nat

    constructor (io: Channel, buffer: nat)
      ensures this.io == io && this.buffer == buffer && submissions == completions == 0
    {
      this.io, this.buffer := io, buffer;
      submissions, completions := 0, 0;
    }

    ghost predicate Ready()
      reads this, io, io.Repr()
    {
      io.Valid() && Idle(io.state, buffer)
    }

    /** One round of the submission loop: `submit_io`, the tail doorbell, and whatever the controller does. */
    method SubmitOne(op: nat, nsId: nat, ghost lba: nat, p: Split, i: nat, at: nat, ghost s0: System)
      requires io.Valid() && Submitting(io.state, s0, op, lba, buffer, p, i) && Announced(io.state)
      requires i < p.count < |io.state.sq.slots| && 1 <= p.blocks <= 0x1_0000
      requires at == lba + i * p.blocks < 0x1_0000_0000_0000_0000
      modifies this, io.Repr()
      ensures io.Valid() && Submitting(io.state, s0, op, lba, buffer, p, i + 1)
      ensures submissions == old(submissions) + 1 && completions == old(completions)
      ensures Announced(io.state) && Addressed(old(io.state), io.state, nsId)
      ensures Spent(old(io.schedule), |old(io.state).sq.submitted|, io.schedule, |io.state.sq.submitted|, 1)
    {
      hide Channel.Valid, Channel.View, Submitting, IoCommand, IsPart, Announced, Spent, SQ.IsFull, Rest, Inv;
      hide Acts, Submit, NvmeSystem.RingTail, Accepted, Addressed;
      ghost var s := io.state;
      var slot := io.Tail();
      var c := IoCommand(op, slot, nsId, at, p.blocks, buffer + i * p.stride, 0);
      PartCommand(op, slot, nsId, lba, p, i, buffer);
      var tail, acts := io.SubmitAndRing(c);
      SubmittedRound(s, s0, io.state, op, lba, buffer, p, i, c, acts, old(io.schedule));
      SubmittingInv(s, s0, op, lba, buffer, p, i);
      AddressedRound(s, c, acts, io.state, nsId);
      submissions := submissions + 1;
    }

    /** The submission loop of `batched_write` and `batched_read`.  Every command is accepted. */
    method SubmitBatch(op: nat, nsId: nat, lba: nat, p: Split)
      requires io.Valid() && Quiet(io.state) && Announced(io.state) && op in {WRITE, READ}
      requires Placed(p, lba, buffer, |io.state.mem|, |io.state.disk|)
      requires p.count < |io.state.sq.slots| && lba + p.count * p.blocks < 0x1_0000_0000_0000_0000
      modifies this, io.Repr()
      ensures io.Valid() && Submitting(io.state, old(io.state), op, lba, buffer, p, p.count)
      ensures submissions == old(submissions) + p.count && completions == old(completions)
      ensures Announced(io.state) && Addressed(old(io.state), io.state, nsId)
      ensures Spent(old(io.schedule), |old(io.state).sq.submitted|, io.schedule, |io.state.sq.submitted|, p.count)
    {
      hide Channel.Valid, Inv, Progress, IsBatch, Placed, Announced, Spent, Submitting, Addressed;
      ghost var s0 := io.state;
      AddressedNothing(s0, s0, nsId);
      SubmittingStart(s0, op, lba, buffer, p);
      PlacedBlocks(p, lba, buffer, |s0.mem|, |s0.disk|);
      SpentNothing(io.schedule, |s0.sq.submitted|);
      var i, at := 0, lba;
      while i < p.count
        invariant 0 <= i <= p.count && at == lba + i * p.blocks
        invariant io.Valid() && Submitting(io.state, s0, op, lba, buffer, p, i) && Announced(io.state)
        invariant |io.state.sq.slots| == |s0.sq.slots|
        invariant Spent(old(io.schedule), |s0.sq.submitted|, io.schedule, |io.state.sq.submitted|, i)
        invariant submissions == old(submissions) + i && completions == old(completions)
        invariant Addressed(s0, io.state, nsId)
      {
        Row(i, p.count, p.blocks);
        ghost var schedule, s := io.schedule, io.state;
        ghost var m := |s.sq.submitted|;
        SubmitOne(op, nsId, lba, p, i, at, s0);
        AddressedTrans(s0, s, io.state, nsId);
        SubmittingSizes(io.state, s0, op, lba, buffer, p, i + 1);
        SpentTwice(old(io.schedule), |s0.sq.submitted|, schedule, m, io.schedule, |io.state.sq.submitted|, i, 1);
        i, at := i + 1, at + p.blocks;
      }
    }

    /** `complete_io(n)` for the last `n` commands in flight: it returns once all have been executed, and
        exactly when the controller's steps complete them. */
    method CompleteIo(n: nat, ghost op: nat, ghost first: nat, ghost mem0: seq<byte>, ghost disk0: seq<byte>)
      returns (sqHead: Option<nat>)
      requires io.Valid() && Inv(io.state, false)
      requires 1 <= n <= |io.state.cq.slots| && io.state.seen + n == |io.state.sq.submitted|
      requires Progress(io.state, op, first, mem0, disk0)
      modifies this, io.Repr()
      ensures io.Valid() && submissions == old(submissions)
      ensures sqHead.Some? ==>
        && Quiet(io.state) && sqHead.value == io.state.sq.head == io.state.sq.tail
        && io.state.sq.submitted == old(io.state).sq.submitted && SameSizes(old(io.state), io.state)
        && Progress(io.state, op, first, mem0, disk0)
        && completions == old(completions) + 1 && io.state.cq.rung == io.state.cq.pos
      ensures sqHead.Some? <==> Ends(old(io.state), n, Flat(old(io.schedule)))
      ensures PromptWait(old(io.schedule), old(io.state), n) ==>
        sqHead.Some? && Spent(old(io.schedule), |old(io.state).sq.submitted|, io.schedule, |io.state.sq.submitted|, 1)
    {
      hide Channel.Valid, Inv, Progress, Quiet, SameSizes, Prompt, Acts, Poll, BeginWait;
      ghost var s := io.state;
      var entry, acts := io.CompleteN(n);
      WaitDone(s, n, acts, op, first, mem0, disk0);
      assert Ends(s, n, acts) <==> entry.Some?;
      hide Ends;
      SpinExact(s, n, old(io.schedule), io.schedule, acts);
      if PromptWait(old(io.schedule), s, n) {
        PromptSpin(s, n, old(io.schedule), io.schedule, acts);
      }
      if entry.None? {
        return None;
      }
      io.RingHead();
      completions := completions + 1;
      return Some(entry.value.sqHead);
    }

    /** One chunk of `batched_write` or `batched_read`: submit the batch and wait for all of it.
        `false` means the wait outlasted the schedule. */
    method TransferChunk(op: nat, nsId: nat, lba: nat, p: Split) returns (done: bool)
      requires Ready() && op in {WRITE, READ}
      requires Placed(p, lba, buffer, |io.state.mem|, |io.state.disk|)
      requires p.count <= 8 && lba + p.count * p.blocks < 0x1_0000_0000_0000_0000
      modifies this, io.Repr()
      ensures io.Valid()
      ensures done ==>
        && Ready() && SameSizes(old(io.state), io.state)
        && submissions == old(submissions) + p.count && completions == old(completions) + 1
        && |io.state.sq.submitted| == |old(io.state).sq.submitted| + p.count
        && Transferred(io.state, op, old(io.state).mem, old(io.state).disk, lba, buffer, p)
        && Addressed(old(io.state), io.state, nsId)
      ensures Prompt(old(io.schedule), |old(io.state).sq.submitted|, p.count + 1) ==>
        && done
        && Spent(old(io.schedule), |old(io.state).sq.submitted|, io.schedule, |io.state.sq.submitted|, p.count + 1)
    {
      hide Channel.Valid, Inv, Progress, IsBatch, Quiet, Submitting, Transferred, Placed, Prompt, Spent, Announced;
      hide Idle, SameSizes, PromptWait, Ends, Flat, Addressed;
      IdleAnnounced(io.state, buffer);
      IdleFacts(io.state, buffer);
      ghost var s0, schedule0 := io.state, io.schedule;
      PlacedBlocks(p, lba, buffer, |s0.mem|, |s0.disk|);
      SubmitBatch(op, nsId, lba, p);
      SubmittedAll(io.state, s0, op, lba, buffer, p);
      SubmittingSizes(io.state, s0, op, lba, buffer, p, p.count);
      ghost var s1, schedule1, m := io.state, io.schedule, |io.state.sq.submitted|;
      SizesFacts(s0, s1);
      if Prompt(schedule0, |s0.sq.submitted|, p.count + 1) {
        StillPrompt(schedule0, |s0.sq.submitted|, schedule1, m, p.count, 1);
        PromptWaits(schedule1, s1, p.count);
      }
      var head := CompleteIo(p.count, op, |s0.sq.submitted|, s0.mem, s0.disk);
      if head.None? {
        return false;
      }
      SizesTrans(s0, s1, io.state);
      SizesFacts(s0, io.state);
      StaysIdle(s0, io.state, buffer);
      SizesFacts(s1, io.state);
      AddressedNothing(s1, io.state, nsId);
      AddressedTrans(s0, s1, io.state, nsId);
      ChunkDone(io.state, op, |s0.sq.submitted|, s0.mem, s0.disk, lba, buffer, p);
      if Prompt(schedule0, |s0.sq.submitted|, p.count + 1) {
        SpentTwice(schedule0, |s0.sq.submitted|, schedule1, m, io.schedule, |io.state.sq.submitted|, p.count, 1);
      }
      return true;
    }

    /** Writes `data` to the disk from block `lba` on, through the staging page, `batchLen` commands
        at a time.  However the controller orders its work, the disk ends up as `WriteAll` says; the
        staging page is only refilled while nothing is in flight. */
    method BatchedWrite(nsId: nat, data: seq<byte>, lba: nat, batchLen: nat) returns (done: bool)
      requires Ready() && Splittable(|data|, batchLen)
      requires lba * BLOCK + |data| <= |io.state.disk| < 0x1_0000_0000_0000_0000
      modifies this, io.Repr()
      ensures io.Valid()
      ensures done ==> Ready() && SameBeyond(old(io.state).mem, io.state.mem, buffer)
      ensures done ==> io.state.disk == WriteAll(old(io.state).disk, data, lba, batchLen)
      ensures done ==> Addressed(old(io.state), io.state, nsId)
      ensures done ==> submissions - old(submissions) == |io.state.sq.submitted| - |old(io.state).sq.submitted|
      ensures var points := Points(|data|, batchLen);
        Prompt(old(io.schedule), |old(io.state).sq.submitted|, points) ==>
          done && Spent(old(io.schedule), |old(io.state).sq.submitted|, io.schedule, |io.state.sq.submitted|, points)
    {
      hide Channel.Valid, Idle, WriteChunk, WriteAll, ChunkBlocks, SplitChunk, Prompt, Spent, Points, OnTrack;
      hide Addressed, Quiet;
      IdleFacts(io.state, buffer);
      AddressedNothing(io.state, io.state, nsId);
      ghost var l, all := |io.state.sq.submitted|, Points(|data|, batchLen);
      TrackStart(io.schedule, l, all);
      var i, at: nat := 0, lba;
      ghost var want := WriteAll(io.state.disk, data, lba, batchLen);
      assert data[0..] == data;
      while i < |data|
        invariant 0 <= i <= |data| && Ready() && SameBeyond(old(io.state).mem, io.state.mem, buffer)
        invariant Splittable(|data| - i, batchLen)
        invariant at * BLOCK + |data| - i <= |io.state.disk| < 0x1_0000_0000_0000_0000
        invariant WriteAll(io.state.disk, data[i..], at, batchLen) == want && Addressed(old(io.state), io.state, nsId)
        invariant submissions - old(submissions) == |io.state.sq.submitted| - l
        invariant OnTrack(old(io.schedule), l, all, io.schedule, |io.state.sq.submitted|, Points(|data| - i, batchLen))
      {
        PointsNext(|data| - i, batchLen);
        ghost var schedule, m, left := io.schedule, |io.state.sq.submitted|, Points(|data| - i, batchLen);
        var n := Min(|data| - i, PAGE);
        assert data[i..][..n] == data[i..i + n] && data[i..][n..] == data[i + n..];
        WriteAllNext(io.state.disk, data[i..], at, batchLen);
        var p := SplitChunk(n, batchLen);
        ghost var s := io.state;
        var ok := WriteStaged(nsId, data[i..i + n], at, batchLen);
        if !ok {
          TrackStuck(old(io.schedule), l, all, schedule, m, left, p.count + 1);
          return false;
        }
        TrackNext(old(io.schedule), l, all, schedule, m, left, io.schedule, |io.state.sq.submitted|, p.count + 1);
        AddressedTrans(old(io.state), s, io.state, nsId);
        SameBeyondTrans(old(io.state).mem, s.mem, io.state.mem, buffer);
        ChunkBlocksAre(n, batchLen);
        i, at := i + n, at + p.count * p.blocks;
      }
      NoPoints(batchLen);
      TrackEnd(old(io.schedule), l, all, io.schedule, |io.state.sq.submitted|);
      WriteNothing(io.state.disk, data[i..], at, batchLen);
      return true;
    }

    /** One chunk of `batched_write`, including the copy into the staging page. */
    method WriteStaged(nsId: nat, chunk: seq<byte>, lba: nat, batchLen: nat) returns (done: bool)
      requires Ready() && batchLen >= 1 && BLOCK <= |chunk| <= PAGE
      requires lba * BLOCK + |chunk| <= |io.state.disk| < 0x1_0000_0000_0000_0000
      modifies this, io.Repr()
      ensures io.Valid()
      ensures done ==> Ready() && SameBeyond(old(io.state).mem, io.state.mem, buffer)
      ensures done ==> io.state.disk == WriteChunk(old(io.state).disk, chunk, lba, batchLen)
      ensures done ==> Addressed(old(io.state), io.state, nsId)
      ensures done ==> submissions - old(submissions) == |io.state.sq.submitted| - |old(io.state).sq.submitted|
      ensures var points := SplitChunk(|chunk|, batchLen).count + 1;
        Prompt(old(io.schedule), |old(io.state).sq.submitted|, points) ==>
          done && Spent(old(io.schedule), |old(io.state).sq.submitted|, io.schedule, |io.state.sq.submitted|, points)
    {
      hide Channel.Valid, Quiet, SplitChunk, Placed, Transferred, WriteChunk, Prompt, Spent;
      var p := SplitChunk(|chunk|, batchLen);
      ghost var s := io.state;
      io.StoreMemory(buffer, chunk);
      QuietStore(s, io.state.mem);
      StagedPlaced(io.state, |chunk|, lba, buffer, batchLen);
      done := TransferChunk(WRITE, nsId, lba, p);
      if done {
        StagedChunk(io.state, s.mem, s.disk, chunk, lba, buffer, batchLen);
      }
    }

    /** Reads `data.Length` bytes from block `lba` on.  However the controller orders its work, `data` ends
        up as `ReadAll` says of what the staging page held; the disk is not changed. */
    method BatchedRead(nsId: nat, data: array<byte>, lba: nat, batchLen: nat) returns (done: bool)
      requires Ready() && Splittable(data.Length, batchLen) && data !in io.Repr()
      requires lba * BLOCK + data.Length <= |io.state.disk| < 0x1_0000_0000_0000_0000
      modifies this, io.Repr(), data
      ensures io.Valid()
      ensures done ==> Ready() && SameBeyond(old(io.state).mem, io.state.mem, buffer)
      ensures done ==> io.state.disk == old(io.state).disk
      ensures done ==>
        data[..] == ReadAll(old(io.state).mem[buffer..buffer + PAGE], old(io.state).disk, data.Length, lba, batchLen)
      ensures done ==> Addressed(old(io.state), io.state, nsId)
      ensures done ==> submissions - old(submissions) == |io.state.sq.submitted| - |old(io.state).sq.submitted|
      ensures var points := Points(data.Length, batchLen);
        Prompt(old(io.schedule), |old(io.state).sq.submitted|, points) ==>
          done && Spent(old(io.schedule), |old(io.state).sq.submitted|, io.schedule, |io.state.sq.submitted|, points)
    {
      hide Channel.Valid, Quiet, ChunkBlocks, SplitChunk, ReadChunk, ReadAll, Prompt, Spent, Points, OnTrack, Addressed;
      hide Idle, ReadTo;
      IdleFacts(io.state, buffer);
      AddressedNothing(io.state, io.state, nsId);
      var i, at: nat := 0, lba;
      ghost var disk, stage := io.state.disk, io.state.mem[buffer..buffer + PAGE];
      ghost var want := ReadAll(stage, disk, data.Length, lba, batchLen);
      ghost var l, all := |io.state.sq.submitted|, Points(data.Length, batchLen);
      TrackStart(io.schedule, l, all);
      ReadToStart(stage, disk, data.Length, lba, batchLen);
      assert data[..0] == [];
      while i < data.Length
        invariant 0 <= i <= data.Length && Ready() && SameBeyond(old(io.state).mem, io.state.mem, buffer)
        invariant io.state.disk == disk && |disk| < 0x1_0000_0000_0000_0000
        invariant stage == io.state.mem[buffer..buffer + PAGE] && Addressed(old(io.state), io.state, nsId)
        invariant submissions - old(submissions) == |io.state.sq.submitted| - l
        invariant Splittable(data.Length - i, batchLen)
        invariant ReadTo(data[..i], stage, disk, data.Length - i, at, batchLen, want)
        invariant var left := Points(data.Length - i, batchLen);
          OnTrack(old(io.schedule), l, all, io.schedule, |io.state.sq.submitted|, left)
      {
        ReadToOn(data[..i], stage, disk, data.Length - i, at, batchLen, want);
        PointsNext(data.Length - i, batchLen);
        ghost var schedule, m, left := io.schedule, |io.state.sq.submitted|, Points(data.Length - i, batchLen);
        var n := Min(data.Length - i, PAGE);
        var p := SplitChunk(n, batchLen);
        ghost var next := ReadChunk(stage, disk, at, n, batchLen);
        ghost var got, s := data[..i], io.state;
        var ok := ReadInto(nsId, data, i, n, at, batchLen);
        if !ok {
          TrackStuck(old(io.schedule), l, all, schedule, m, left, p.count + 1);
          return false;
        }
        TrackNext(old(io.schedule), l, all, schedule, m, left, io.schedule, |io.state.sq.submitted|, p.count + 1);
        AddressedTrans(old(io.state), s, io.state, nsId);
        SameBeyondTrans(old(io.state).mem, s.mem, io.state.mem, buffer);
        ReadToNext(got, stage, disk, data.Length - i, at, batchLen, want, n, next);
        assert data[..i + n] == got + next[..n];
        ChunkBlocksAre(n, batchLen);
        stage := next;
        i, at := i + n, at + p.count * p.blocks;
      }
      NoPoints(batchLen);
      TrackEnd(old(io.schedule), l, all, io.schedule, |io.state.sq.submitted|);
      assert data[..i] == data[..];
      ReadToEnd(data[..], stage, disk, at, batchLen, want);
      return true;
    }

    /** One chunk of `batched_read`, copied out to `data` at offset `i`. */
    method ReadInto(nsId: nat, data: array<byte>, i: nat, n: nat, lba: nat, batchLen: nat) returns (done: bool)
      requires Ready() && batchLen >= 1 && BLOCK <= n <= PAGE && i + n <= data.Length && data !in io.Repr()
      requires lba * BLOCK + n <= |io.state.disk| < 0x1_0000_0000_0000_0000
      modifies this, io.Repr(), data
      ensures io.Valid() && data[..i] == old(data[..i])
      ensures done ==>
        && Ready() && SameBeyond(old(io.state).mem, io.state.mem, buffer) && io.state.disk == old(io.state).disk
        && Addressed(old(io.state), io.state, nsId)
        && submissions - old(submissions) == |io.state.sq.submitted| - |old(io.state).sq.submitted|
        && var next := ReadChunk(old(io.state).mem[buffer..buffer + PAGE], old(io.state).disk, lba, n, batchLen);
        && io.state.mem[buffer..buffer + PAGE] == next && data[i..i + n] == next[..n]
      ensures var points := SplitChunk(n, batchLen).count + 1;
        Prompt(old(io.schedule), |old(io.state).sq.submitted|, points) ==>
          done && Spent(old(io.schedule), |old(io.state).sq.submitted|, io.schedule, |io.state.sq.submitted|, points)
    {
      hide Channel.Valid, Quiet, SplitChunk, ReadChunk, Prompt, Spent, Addressed;
      done := ReadStaged(nsId, n, lba, batchLen);
      if done {
        var bytes := io.LoadMemory(buffer, n);
        SliceOfSlice(io.state.mem, buffer, PAGE, 0, n);
        CopyOut(data, i, bytes);
      }
    }

    /** One chunk of `batched_read` up to the staging page. */
    method ReadStaged(nsId: nat, n: nat, lba: nat, batchLen: nat) returns (done: bool)
      requires Ready() && batchLen >= 1 && BLOCK <= n <= PAGE
      requires lba * BLOCK + n <= |io.state.disk| < 0x1_0000_0000_0000_0000
      modifies this, io.Repr()
      ensures io.Valid()
      ensures done ==>
        && Ready() && SameBeyond(old(io.state).mem, io.state.mem, buffer) && io.state.disk == old(io.state).disk
        && Addressed(old(io.state), io.state, nsId)
        && submissions - old(submissions) == |io.state.sq.submitted| - |old(io.state).sq.submitted|
        && io.state.mem[buffer..buffer + PAGE]
             == ReadChunk(old(io.state).mem[buffer..buffer + PAGE], old(io.state).disk, lba, n, batchLen)
      ensures var points := SplitChunk(n, batchLen).count + 1;
        Prompt(old(io.schedule), |old(io.state).sq.submitted|, points) ==>
          done && Spent(old(io.schedule), |old(io.state).sq.submitted|, io.schedule, |io.state.sq.submitted|, points)
    {
      hide Channel.Valid, Quiet, SplitChunk, Placed, ReadChunk, LoadedChunk, WrittenChunk, Prompt, Spent, Addressed;
      var p := SplitChunk(n, batchLen);
      ghost var s := io.state;
      StagedPlaced(s, n, lba, buffer, batchLen);
      done := TransferChunk(READ, nsId, lba, p);
      if done {
        LoadedStage(io.state, s.mem, s.disk, n, lba, buffer, batchLen);
      }
    }

    /** `chunk.copy_from_slice`. */
    method CopyOut(data: array<byte>, at: nat, bytes: seq<byte>)
      requires at + |bytes| <= data.Length
      modifies data
      ensures data[..at] == old(data[..at]) && data[at..at + |bytes|] == bytes
      ensures data[at + |bytes|..] == old(data[at + |bytes|..])
    {
      var j := 0;
      while j < |bytes|
        invariant 0 <= j <= |bytes|
        invariant forall k :: 0 <= k < j ==> data[at + k] == bytes[k]
        invariant forall k :: 0 <= k < data.Length && !(at <= k < at + j) ==> data[k] == old(data[k])
      {
        data[at + j] := bytes[j];
        j := j + 1;
      }
    }

    /** What was written comes back, whatever two batch lengths were used. */
    method WriteThenRead(nsId: nat, data: seq<byte>, out: array<byte>, lba: nat, b1: nat, b2: nat) returns (done: bool)
      requires Ready() && out.Length == |data| && out !in io.Repr()
      requires Splittable(|data|, b1) && Splittable(|data|, b2)
      requires WholeAll(|data|, b1) && WholeAll(|data|, b2)
      requires lba * BLOCK + |data| <= |io.state.disk| < 0x1_0000_0000_0000_0000
      modifies this, io.Repr(), out
      ensures io.Valid()
      ensures done ==> out[..] == data
      ensures Prompt(old(io.schedule), |old(io.state).sq.submitted|, Points(|data|, b1) + Points(|data|, b2)) ==> done
    {
      hide Channel.Valid, Quiet, WriteAll, WholeAll, ReadAll, Prompt, Spent, Points;
      ghost var schedule, l, m, n := io.schedule, |io.state.sq.submitted|, Points(|data|, b1), Points(|data|, b2);
      TrackStart(schedule, l, m + n);
      WriteAllWhole(io.state.disk, data, lba, b1);
      done := BatchedWrite(nsId, data, lba, b1);
      if !done {
        TrackStuck(schedule, l, m + n, schedule, l, m + n, m);
      } else {
        TrackNext(schedule, l, m + n, schedule, l, m + n, io.schedule, |io.state.sq.submitted|, m);
        ReadAllWhole(io.state.mem[buffer..buffer + PAGE], io.state.disk, |data|, lba, b2);
        done := BatchedRead(nsId, out, lba, b2);
      }
    }

    /** `namespace_io`: one command, submitted unchecked, and its completion.  Nothing else is in
        flight, so the unchecked submission overwrites nothing. */
    method NamespaceIo(op: nat, blocks: nat, lba: nat, addr: nat) returns (done: bool)
      requires Ready() && op in {WRITE, READ} && 1 <= blocks <= 16 && addr % PAGE == 0
      requires addr + blocks * BLOCK <= |io.state.mem|
      requires (lba + blocks) * BLOCK <= |io.state.disk| < 0x1_0000_0000_0000_0000
      modifies this, io.Repr()
      ensures io.Valid()
      ensures done ==>
        && Ready() && Moved(old(io.state), io.state, op, lba * BLOCK, blocks * BLOCK, addr)
        && io.state.sq.submitted ==
             old(io.state).sq.submitted + [SingleCommand(op, old(io.state).sq.tail, lba, blocks, addr)]
        && submissions == old(submissions) + 1 && completions == old(completions) + 1
      ensures Prompt(old(io.schedule), |old(io.state).sq.submitted|, 1) ==>
        done && Spent(old(io.schedule), |old(io.state).sq.submitted|, io.schedule, |io.state.sq.submitted|, 1)
    {
      hide Channel.Valid, Channel.View, Inv, Progress, Quiet, Idle, Announced, Moved, SameSizes, Ends, Flat, Prompt;
      hide SingleCommand, OnAlignedChunk, DiskStart, Bytes, NvmeSystem.RingTail, SQ.Submit;
      ghost var s := io.state;
      IdleFacts(s, buffer);
      var slot := io.Tail();
      var c := SingleCommand(op, slot, lba, blocks, addr);
      SingleCommandFits(op, slot, lba, blocks, addr, |s.mem|, |s.disk|);
      SingleStart(s, op, c, addr);
      var tail := io.SubmitUnchecked(c);
      submissions := submissions + 1;
      ghost var t := io.state;
      SizesFacts(s, t);
      var head := CompleteIo(1, op, |s.sq.submitted|, s.mem, s.disk);
      if head.None? {
        return false;
      }
      SizesTrans(s, t, io.state);
      SizesFacts(s, io.state);
      SingleMoved(s, io.state, op, c, addr);
      StaysIdle(s, io.state, buffer);
      return true;
    }

    /** `write` of a DMA buffer from `Dma::allocate`: the disk gets the buffer's bytes. */
    method Write(phys: nat, size: nat, lba: nat) returns (done: bool)
      requires Ready() && phys % PAGE == 0 && size % PAGE == 0 && phys + size <= |io.state.mem|
      requires lba * BLOCK + size <= |io.state.disk| < 0x1_0000_0000_0000_0000
      modifies this, io.Repr()
      ensures io.Valid()
      ensures done ==> Ready() && Moved(old(io.state), io.state, WRITE, lba * BLOCK, size, phys)
      ensures done ==> IssuedAll(old(io.state), io.state, WRITE, phys, size, lba)
      ensures done ==> submissions - old(submissions) == completions - old(completions) == |Chunks(phys, size, 0)|
      ensures var points := |Chunks(phys, size, 0)|;
        Prompt(old(io.schedule), |old(io.state).sq.submitted|, points) ==>
          done && Spent(old(io.schedule), |old(io.state).sq.submitted|, io.schedule, |io.state.sq.submitted|, points)
    {
      done := TransferBuffer(WRITE, phys, size, lba);
    }

    /** `read` into a DMA buffer from `Dma::allocate`: the buffer gets the disk's bytes. */
    method Read(phys: nat, size: nat, lba: nat) returns (done: bool)
      requires Ready() && phys % PAGE == 0 && size % PAGE == 0 && phys + size <= |io.state.mem|
      requires lba * BLOCK + size <= |io.state.disk| < 0x1_0000_0000_0000_0000
      modifies this, io.Repr()
      ensures io.Valid()
      ensures done ==> Ready() && Moved(old(io.state), io.state, READ, lba * BLOCK, size, phys)
      ensures done ==> IssuedAll(old(io.state), io.state, READ, phys, size, lba)
      ensures done ==> submissions - old(submissions) == completions - old(completions) == |Chunks(phys, size, 0)|
      ensures var points := |Chunks(phys, size, 0)|;
        Prompt(old(io.schedule), |old(io.state).sq.submitted|, points) ==>
          done && Spent(old(io.schedule), |old(io.state).sq.submitted|, io.schedule, |io.state.sq.submitted|, points)
    {
      done := TransferBuffer(READ, phys, size, lba);
    }

    /** The chunk loop that `write` and `read` share but for the direction. */
    method TransferBuffer(op: nat, phys: nat, size: nat, lba: nat) returns (done: bool)
      requires Ready() && op in {WRITE, READ}
      requires phys % PAGE == 0 && size % PAGE == 0 && phys + size <= |io.state.mem|
      requires lba * BLOCK + size <= |io.state.disk| < 0x1_0000_0000_0000_0000
      modifies this, io.Repr()
      ensures io.Valid()
      ensures done ==> Ready() && Moved(old(io.state), io.state, op, lba * BLOCK, size, phys)
      ensures done ==> IssuedAll(old(io.state), io.state, op, phys, size, lba)
      ensures done ==> submissions - old(submissions) == completions - old(completions) == |Chunks(phys, size, 0)|
      ensures var points := |Chunks(phys, size, 0)|;
        Prompt(old(io.schedule), |old(io.state).sq.submitted|, points) ==>
          done && Spent(old(io.schedule), |old(io.state).sq.submitted|, io.schedule, |io.state.sq.submitted|, points)
    {
      hide Channel.Valid, Idle, Moved, Chunks, SingleCommand, Blocks, Issued, IsIssued, IssuedAll;
      hide Prompt, Spent, SameSizes, OnTrack, AtChunk;
      var chunks := new DmaChunks(phys, size);
      var at: nat := lba;
      ghost var s, start, all, i := io.state, lba * BLOCK, Chunks(phys, size, 0), 0;
      ghost var l, schedule0 := |s.sq.submitted|, io.schedule;
      MovedNothing(s, op, start, phys);
      IssuedNothing(s.sq.submitted, |s.sq.slots|, op, all, lba);
      TrackStart(schedule0, l, |all|);
      AtChunkStart(phys, size, lba);
      assert all[0..] == all;
      while chunks.currentOffset < size
        invariant Ready() && chunks.phys == phys && chunks.size == size
        invariant chunks.currentOffset <= size && AtChunk(phys, size, lba, chunks.currentOffset, at, i)
        invariant Moved(s, io.state, op, start, chunks.currentOffset, phys)
        invariant i <= |all| && Chunks(phys, size, chunks.currentOffset) == all[i..]
        invariant Issued(s.sq.submitted, io.state.sq.submitted, |s.sq.slots|, op, all, lba, i)
        invariant OnTrack(schedule0, l, |all|, io.schedule, |io.state.sq.submitted|, |all| - i)
        invariant submissions == old(submissions) + i && completions == old(completions) + i
        decreases size - chunks.currentOffset
      {
        ghost var o, t, schedule := chunks.currentOffset, io.state, io.schedule;
        MovedSizes(s, t, op, start, o, phys);
        IdleAnnounced(t, buffer);
        var chunk := chunks.Next();
        SplitHead(all, i, chunk.value, Chunks(phys, size, chunks.currentOffset));
        var blocks := Blocks(chunk.value.len);
        AtChunkNext(phys, size, lba, o, at, i, chunk.value.len, blocks);
        var ok := NamespaceIo(op, blocks, at, chunk.value.phys);
        if !ok {
          TrackStuck(schedule0, l, |all|, schedule, |t.sq.submitted|, |all| - i, 1);
          return false;
        }
        TrackNext(schedule0, l, |all|, schedule, |t.sq.submitted|, |all| - i, io.schedule, |io.state.sq.submitted|, 1);
        MovedNext(s, t, io.state, op, start, phys, o, chunks.currentOffset);
        NextIssued(s, t, io.state, op, all, lba, i);
        at := at + blocks;
        i := i + 1;
      }
      ChunksEnd(phys, size, chunks.currentOffset);
      assert |all[i..]| == |all| - i;
      TrackEnd(schedule0, l, |all|, io.schedule, |io.state.sq.submitted|);
      AllIssued(s, io.state, op, phys, size, lba);
      return true;
    }
  }
}
