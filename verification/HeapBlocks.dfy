/** Blocks of an arena: disjoint blocks cannot add up to more than the arena. */
module HeapBlocks {
  import opened Collections

  /** `size` bytes at `base`, counted from the start of the heap. */
  datatype Block = Block(base: int, size: nat)

  ghost predicate Inside(b: Block, arena: int) {
    b.size > 0 ==> 0 <= b.base && b.base + b.size <= arena
  }

  ghost predicate Apart(b: Block, c: Block) {
    b.size > 0 && c.size > 0 ==> b.base + b.size <= c.base || c.base + c.size <= b.base
  }

  /** Pairwise disjoint blocks of the arena. */
  ghost predicate Packed(live: seq<Block>, arena: int) {
    && (forall i :: 0 <= i < |live| ==> Inside(live[i], arena))
    && (forall i, j :: 0 <= i < j < |live| ==> Apart(live[i], live[j]))
  }

  ghost function Total(live: seq<Block>): nat {
    if live == [] then 0 else live[0].size + Total(live[1..])
  }

  ghost predicate InBlock(a: int, b: Block) {
    b.base <= a < b.base + b.size
  }

  /** The bytes that some block covers. */
  ghost function Bytes(live: seq<Block>): set<int> {
    if live == [] then {} else Range(live[0].base, live[0].size) + Bytes(live[1..])
  }

  lemma {:induction false} BytesIn(live: seq<Block>, a: int)
    ensures a in Bytes(live) <==> exists i :: 0 <= i < |live| && InBlock(a, live[i])
  {
    if live == [] {
    } else {
      BytesIn(live[1..], a);
      if a in Bytes(live[1..]) {
        var i :| 0 <= i < |live[1..]| && InBlock(a, live[1..][i]);
        assert InBlock(a, live[i + 1]);
      }
      if i :| 0 <= i < |live| && InBlock(a, live[i]) {
        if i > 0 {
          assert InBlock(a, live[1..][i - 1]);
        }
      }
    }
  }

  lemma Cardinality(a: set<int>, b: set<int>)
    requires a <= b
    ensures |a| <= |b|
  {
    assert b == a + (b - a);
  }

  lemma DisjointUnion(a: set<int>, b: set<int>)
    requires a !! b
    ensures |a + b| == |a| + |b|
  {
  }

  /** Disjoint blocks cover as many bytes as their sizes add up to. */
  lemma {:induction false} TotalIsBytes(live: seq<Block>, arena: int)
    requires Packed(live, arena)
    ensures |Bytes(live)| == Total(live)
  {
    if live == [] {
    } else {
      TotalIsBytes(live[1..], arena);
      var head := Range(live[0].base, live[0].size);
      forall a | a in head ensures a !in Bytes(live[1..]) {
        BytesIn(live[1..], a);
        forall i | 0 <= i < |live[1..]| ensures !InBlock(a, live[1..][i]) {
          assert Apart(live[0], live[i + 1]);
        }
      }
      DisjointUnion(head, Bytes(live[1..]));
    }
  }

  lemma TotalFits(live: seq<Block>, arena: nat)
    requires Packed(live, arena)
    ensures Total(live) <= arena
  {
    TotalIsBytes(live, arena);
    forall a | a in Bytes(live) ensures a in Range(0, arena) {
      BytesIn(live, a);
      var i :| 0 <= i < |live| && InBlock(a, live[i]);
      assert Inside(live[i], arena);
    }
    Cardinality(Bytes(live), Range(0, arena));
  }

  // ----- Taking and giving back -----

  lemma {:induction false} TotalAppend(live: seq<Block>, b: Block)
    ensures Total(live + [b]) == Total(live) + b.size
  {
    if live == [] {
      assert live + [b] == [b] && [b][1..] == [];
      assert Total([b]) == b.size + Total([]);
    } else {
      assert (live + [b])[1..] == live[1..] + [b];
      TotalAppend(live[1..], b);
    }
  }

  /** The allocator's answer for a block: inside the arena and apart from every live block. */
  ghost predicate Legal(live: seq<Block>, arena: int, b: Block) {
    Inside(b, arena) && forall i :: 0 <= i < |live| ==> Apart(live[i], b)
  }

  lemma PackedAppend(live: seq<Block>, arena: int, b: Block)
    requires Packed(live, arena) && Legal(live, arena, b)
    ensures Packed(live + [b], arena)
  {
  }

  ghost function Drop(live: seq<Block>, i: int): seq<Block>
    requires 0 <= i < |live|
  {
    live[..i] + live[i + 1..]
  }

  lemma {:induction false} TotalDrop(live: seq<Block>, i: int)
    requires 0 <= i < |live|
    ensures Total(Drop(live, i)) == Total(live) - live[i].size
  {
    if i == 0 {
      assert Drop(live, i) == live[1..];
    } else {
      TotalDrop(live[1..], i - 1);
      assert Drop(live, i)[1..] == Drop(live[1..], i - 1);
    }
  }

  lemma PackedDrop(live: seq<Block>, arena: int, i: int)
    requires Packed(live, arena) && 0 <= i < |live|
    ensures Packed(Drop(live, i), arena)
  {
    var d := Drop(live, i);
    assert forall j :: 0 <= j < |d| ==> d[j] == live[if j < i then j else j + 1];
  }

  lemma PackedGrow(live: seq<Block>, arena: int, more: int)
    requires Packed(live, arena) && arena <= more
    ensures Packed(live, more)
  {
    assert forall i :: 0 <= i < |live| ==> Inside(live[i], arena);
  }
}
