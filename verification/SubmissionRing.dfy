/** The submission queue as a protocol between the host and the controller.

    `slots`, `head` and `tail` are the host's `NvmeSubQueue`; `doorbell` is the
    tail doorbell and `fetch` the controller's own head.  The host learns `head`
    only from completion entries, so it lags behind `fetch`.  The other fields
    record history: all commands submitted, how many the doorbell announced, all
    commands fetched, and the absolute position the host's `head` stands for. */
module SubmissionRing {
  import opened NvmeTypes
  import opened RingArith

  datatype Ring = Ring(
    slots: seq<Command>, head: nat, tail: nat,
    doorbell: nat, fetch: nat,
    submitted: seq<Command>, rung: nat, fetched: seq<Command>, known: nat)

  predicate IsFull(r: Ring)
    requires |r.slots| > 0
  {
    r.head == (r.tail + 1) % |r.slots|
  }

  function Submit(r: Ring, c: Command): Ring
    requires r.tail < |r.slots|
  {
    r.(slots := r.slots[r.tail := c], tail := (r.tail + 1) % |r.slots|, submitted := r.submitted + [c])
  }

  function SubmitChecked(r: Ring, c: Command): Ring
    requires r.tail < |r.slots|
  {
    if IsFull(r) then r else Submit(r, c)
  }

  function RingDoorbell(r: Ring): Ring {
    r.(doorbell := r.tail, rung := |r.submitted|)
  }

  /** The controller takes the entry at its head unless the doorbell says there is none. */
  function Fetch(r: Ring): Ring
    requires r.fetch < |r.slots|
  {
    if r.fetch == r.doorbell then r
    else r.(fetch := (r.fetch + 1) % |r.slots|, fetched := r.fetched + [r.slots[r.fetch]])
  }

  /** The host sets its head to the `sq_head` of a completion, which stands for position `known`. */
  function LearnHead(r: Ring, head: nat, known: nat): Ring {
    r.(head := head, known := known)
  }

  /** Whatever the controller has fetched is exactly what was submitted, in order,
      and every command it has not fetched is still in its slot. */
  ghost predicate Inv(r: Ring) {
    var n := |r.slots|;
    && 2 <= n
    && r.head == r.known % n && r.tail == |r.submitted| % n
    && r.doorbell == r.rung % n && r.fetch == |r.fetched| % n
    && r.known <= |r.fetched| <= r.rung <= |r.submitted| < r.known + n
    && r.fetched == r.submitted[..|r.fetched|]
    && forall k :: |r.fetched| <= k < |r.submitted| ==> r.slots[k % n] == r.submitted[k]
  }

  function Fresh(slots: seq<Command>): Ring {
    Ring(slots, 0, 0, 0, 0, [], 0, [], 0)
  }

  lemma FreshInv(slots: seq<Command>)
    requires 2 <= |slots|
    ensures Inv(Fresh(slots))
  {
    Unique(0, |slots|, 0, 0);
  }

  /** The full test is exact: it reports full when `n - 1` commands may be unfetched
      as far as the host knows. */
  lemma IsFullIff(r: Ring)
    requires Inv(r)
    ensures IsFull(r) <==> |r.submitted| + 1 == r.known + |r.slots|
  {
    var n := |r.slots|;
    Next(|r.submitted|, n);
    LapBack(r.known + n, n);
    Distinct(|r.submitted| + 1, r.known + n, n);
  }

  /** A submission that is not refused overwrites no command the controller has yet to fetch. */
  lemma SubmitInv(r: Ring, c: Command)
    requires Inv(r) && !IsFull(r)
    ensures Inv(Submit(r, c))
  {
    var n, t, s := |r.slots|, |r.submitted|, Submit(r, c);
    IsFullIff(r);
    Next(t, n);
    forall k | |r.fetched| <= k < t + 1
      ensures s.slots[k % n] == s.submitted[k]
    {
      if k < t {
        Distinct(k, t, n);
      }
    }
  }

  lemma FetchInv(r: Ring)
    requires Inv(r)
    ensures Inv(Fetch(r))
    ensures |Fetch(r).fetched| == |r.fetched| + if |r.fetched| < r.rung then 1 else 0
  {
    var f, n := |r.fetched|, |r.slots|;
    Distinct(f, r.rung, n);
    if f < r.rung {
      Next(f, n);
      assert r.submitted[..f + 1] == r.submitted[..f] + [r.submitted[f]];
    }
  }

  /** Learning the head the controller had at a completion that is no older than the last one learnt. */
  lemma LearnHeadInv(r: Ring, known: nat)
    requires Inv(r) && r.known <= known <= |r.fetched|
    ensures Inv(LearnHead(r, known % |r.slots|, known))
  {
  }

  /** The host's view is empty, `head == tail`, exactly when every command is known fetched. */
  lemma IsEmptyIff(r: Ring)
    requires Inv(r)
    ensures r.head == r.tail <==> r.known == |r.submitted|
  {
    Distinct(r.known, |r.submitted|, |r.slots|);
  }

  // ----- Command identifiers -----

  /** Slots that fit beside the queue number in an identifier. */
  const ID_SLOTS: nat := 2048
  const ID_QUEUES: nat := 32

  /** `id << 11 | tail` on sixteen bits: only the five low bits of the queue number survive. */
  function CommandId(id: nat, tail: nat): nat
    requires tail < ID_SLOTS
  {
    id % ID_QUEUES * ID_SLOTS + tail
  }

  /** The shift and the or on sixteen bits compute that identifier. */
  lemma ShiftOrIsSum(id: bv16, tail: bv16)
    requires tail < 2048
    ensures tail as nat < ID_SLOTS && CommandId(id as nat, tail as nat) == ((id << 11) | tail) as nat
  {
    PackedId(id, tail);
    assert Number(id) == id as nat && Number(tail) == tail as nat;
    hide CommandId;
  }

  function Number(x: bv16): nat {
    x as nat
  }

  lemma PackedId(id: bv16, tail: bv16)
    requires tail < 2048
    ensures Number(tail) < ID_SLOTS && CommandId(Number(id), Number(tail)) == Number((id << 11) | tail)
  {
    hide Number, CommandId;
    var high, low, slot := IdParts(id, tail);
    PackedParts(high, low, slot);
  }

  lemma PackedParts(high: bv11, low: bv5, slot: bv11)
    ensures var id, tail := Number(((high as bv16) << 5) | (low as bv16)), Number(slot as bv16);
      tail < ID_SLOTS && CommandId(id, tail) == Number(((low as bv16) << 11) | (slot as bv16))
  {
    hide Number;
    PackFive(high, low);
    PackEleven(low, slot);
    IdOfParts(Number(((high as bv16) << 5) | (low as bv16)), high as nat, low as nat, Number(slot as bv16));
    hide CommandId;
  }

  lemma IdOfParts(id: nat, high: nat, low: nat, tail: nat)
    requires id == high * 32 + low && low < 32 && tail < 2048
    ensures CommandId(id, tail) == low * 2048 + tail
  {
  }

  /** The queue number in its eleven high and five low bits, and the tail in eleven bits. */
  lemma IdParts(id: bv16, tail: bv16) returns (high: bv11, low: bv5, slot: bv11)
    requires tail < 2048
    ensures id == ((high as bv16) << 5) | (low as bv16) && slot as bv16 == tail
    ensures (id << 11) | tail == ((low as bv16) << 11) | (slot as bv16)
  {
    IdPartsFit(id, tail);
    high, low, slot := (id >> 5) as bv11, (id & 31) as bv5, tail as bv11;
  }

  lemma IdPartsFit(id: bv16, tail: bv16)
    requires tail < 2048
    ensures id >> 5 < 2048 && id & 31 < 32
    ensures var high, low, slot := (id >> 5) as bv11, (id & 31) as bv5, tail as bv11;
      && id == ((high as bv16) << 5) | (low as bv16) && slot as bv16 == tail
      && (id << 11) | tail == ((low as bv16) << 11) | (slot as bv16)
  {
  }

  lemma PackFive(high: bv11, low: bv5)
    ensures Number(((high as bv16) << 5) | (low as bv16)) == high as nat * 32 + low as nat
  {
  }

  lemma PackEleven(low: bv5, slot: bv11)
    ensures Number(((low as bv16) << 11) | (slot as bv16)) == low as nat * 2048 + slot as nat
    ensures low as nat < 32 && slot as nat < 2048 && Number(slot as bv16) == slot as nat
  {
  }

  /** Identifiers collide exactly for the same slot of two queues whose numbers agree modulo 32. */
  lemma CommandIdCollision(id1: nat, id2: nat, tail1: nat, tail2: nat)
    requires tail1 < ID_SLOTS && tail2 < ID_SLOTS
    ensures CommandId(id1, tail1) == CommandId(id2, tail2) <==> id1 % ID_QUEUES == id2 % ID_QUEUES && tail1 == tail2
  {
    Unique(CommandId(id1, tail1), ID_SLOTS, id1 % ID_QUEUES, tail1);
    Unique(CommandId(id2, tail2), ID_SLOTS, id2 % ID_QUEUES, tail2);
  }

  /** Every command carries the identifier of queue `id` and the slot it was put into. */
  ghost predicate OwnIds(r: Ring, id: nat) {
    && 0 < |r.slots| <= ID_SLOTS
    && forall k :: 0 <= k < |r.submitted| ==> r.submitted[k].cId == CommandId(id, k % |r.slots|)
  }

  lemma SubmitOwnIds(r: Ring, c: Command, id: nat)
    requires Inv(r) && OwnIds(r, id) && c.cId == CommandId(id, r.tail)
    ensures OwnIds(SubmitChecked(r, c), id)
  {
  }

  /** Over all queue pairs numbered below 32, two commands between head and tail have the same identifier
      only if they are the same command. */
  lemma InFlightIdsDiffer(r1: Ring, id1: nat, i: nat, r2: Ring, id2: nat, j: nat)
    requires Inv(r1) && OwnIds(r1, id1) && r1.known <= i < |r1.submitted|
    requires Inv(r2) && OwnIds(r2, id2) && r2.known <= j < |r2.submitted|
    requires id1 < ID_QUEUES && id2 < ID_QUEUES && (id1 == id2 ==> r1 == r2)
    ensures r1.submitted[i].cId == r2.submitted[j].cId <==> id1 == id2 && i == j
  {
    hide Inv, OwnIds, CommandId;
    OwnId(r1, id1, i);
    OwnId(r2, id2, j);
    if id1 == id2 {
      InFlightTailsDiffer(r1, i, j);
    }
    SmallIdCollision(id1, id2, i % |r1.slots|, j % |r2.slots|);
  }

  lemma SmallIdCollision(id1: nat, id2: nat, tail1: nat, tail2: nat)
    requires id1 < ID_QUEUES && id2 < ID_QUEUES && tail1 < ID_SLOTS && tail2 < ID_SLOTS
    ensures CommandId(id1, tail1) == CommandId(id2, tail2) <==> id1 == id2 && tail1 == tail2
  {
    hide CommandId;
    CommandIdCollision(id1, id2, tail1, tail2);
  }

  lemma OwnId(r: Ring, id: nat, k: nat)
    requires OwnIds(r, id) && k < |r.submitted|
    ensures |r.slots| > 0 && 0 <= k % |r.slots| < ID_SLOTS && r.submitted[k].cId == CommandId(id, k % |r.slots|)
  {
  }

  /** Commands in flight on one queue sit at different tails. */
  lemma InFlightTailsDiffer(r: Ring, i: nat, j: nat)
    requires Inv(r) && r.known <= i < |r.submitted| && r.known <= j < |r.submitted|
    ensures i % |r.slots| == j % |r.slots| <==> i == j
  {
    if i <= j {
      Distinct(i, j, |r.slots|);
    } else {
      Distinct(j, i, |r.slots|);
    }
  }
}
