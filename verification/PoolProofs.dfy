/** Every valid operation keeps the slots partitioned between the free list and the live elements. */
module PoolProofs {
  import opened Words
  import opened Lists
  import opened PoolModel

  lemma LiveIff<T>(p: Pool<T>, a: SlotAddr)
    ensures IsLive(p, a) <==> a in LiveSlots(p.slots)
  {
  }

  // ---------------------------------------------------------------- a new chunk

  lemma {:induction false} NewSlotsAre<T>(c: ChunkId, n: nat, size: nat, tail: Option<SlotAddr>)
    ensures |NewSlots<T>(c, n, size, tail)| == n
    ensures forall a :: a in NewSlots<T>(c, n, size, tail) <==> a.chunk == c && a.index < n
    ensures forall a :: a in NewSlots<T>(c, n, size, tail) ==>
      NewSlots<T>(c, n, size, tail)[a] == Link(LinkAfter(c, a.index, size, tail))
  {
    if n > 0 {
      NewSlotsAre<T>(c, n - 1, size, tail);
    }
  }

  /** The slots of a chunk in address order. */
  function ChunkSlots(c: ChunkId, size: nat): (r: seq<SlotAddr>)
    ensures |r| == size
    ensures forall i :: 0 <= i < size ==> r[i] == SlotAddr(c, i)
  {
    seq(size, (i: nat) => SlotAddr(c, i))
  }

  lemma PushChunk(next: map<ChunkId, Option<ChunkId>>, first: Option<ChunkId>, list: seq<ChunkId>, c: ChunkId)
    requires ChunkList(next, first, list) && c !in next
    ensures ChunkList(next[c := first], Some(c), [c] + list)
  {
    var list', next' := [c] + list, next[c := first];
    forall i | 0 <= i < |list'| ensures ChunkLinked(next', list', i) {
      if i > 0 { assert ChunkLinked(next, list, i - 1); }
    }
  }

  lemma NewDistinct<T>(slots: Slots<T>, free: seq<SlotAddr>, c: ChunkId, size: nat)
    requires Distinct(free) && forall i :: 0 <= i < |free| ==> free[i] in slots
    requires forall a :: a in slots ==> a.chunk != c
    ensures Distinct(ChunkSlots(c, size) + free)
  {
    var here := ChunkSlots(c, size);
    forall i, j | 0 <= i < j < |here + free| ensures (here + free)[i] != (here + free)[j] {
      if j >= |here| { assert free[j - |here|] in slots; }
    }
  }

  lemma NewLinkedHere<T>(slots: Slots<T>, first: Option<SlotAddr>, free: seq<SlotAddr>, c: ChunkId, size: nat, i: nat)
    requires first == Head(free) && i < size
    ensures SlotLinked(slots + NewSlots<T>(c, size, size, first), ChunkSlots(c, size) + free, i)
  {
    NewSlotsAre<T>(c, size, size, first);
    assert (ChunkSlots(c, size) + free)[i] == SlotAddr(c, i);
  }

  lemma NewLinkedThere<T>(slots: Slots<T>, first: Option<SlotAddr>, free: seq<SlotAddr>, c: ChunkId, size: nat, i: nat)
    requires i < |free| && SlotLinked(slots, free, i) && free[i].chunk != c
    ensures SlotLinked(slots + NewSlots<T>(c, size, size, first), ChunkSlots(c, size) + free, size + i)
  {
    NewSlotsAre<T>(c, size, size, first);
    assert free[i] !in NewSlots<T>(c, size, size, first);
    var free' := ChunkSlots(c, size) + free;
    assert free'[size + i] == free[i];
    assert i + 1 < |free| ==> free'[size + i + 1] == free[i + 1];
  }

  lemma NewFree<T>(slots: Slots<T>, first: Option<SlotAddr>, free: seq<SlotAddr>, c: ChunkId, size: nat)
    requires FreeList(slots, first, free) && size >= 1
    requires forall a :: a in slots ==> a.chunk != c
    ensures FreeList(slots + NewSlots<T>(c, size, size, first), Some(SlotAddr(c, 0)), ChunkSlots(c, size) + free)
  {
    var more := slots + NewSlots<T>(c, size, size, first);
    var free' := ChunkSlots(c, size) + free;
    NewDistinct(slots, free, c, size);
    forall i | 0 <= i < |free'| ensures SlotLinked(more, free', i) && free'[i] in more {
      if i < size {
        NewLinkedHere(slots, first, free, c, size, i);
      } else {
        assert SlotLinked(slots, free, i - size);
        NewLinkedThere(slots, first, free, c, size, i - size);
      }
    }
  }

  lemma DisjointUnion<K, V>(m: map<K, V>, n: map<K, V>)
    requires m.Keys !! n.Keys
    ensures |m + n| == |m| + |n|
  {
    assert (m + n).Keys == m.Keys + n.Keys;
  }

  lemma NewCount<T>(slots: Slots<T>, chunks: nat, size: nat, c: ChunkId, first: Option<SlotAddr>)
    requires |slots| == SlotCount(chunks, size) && forall a :: a in slots ==> a.chunk != c
    ensures |slots + NewSlots<T>(c, size, size, first)| == SlotCount(chunks + 1, size)
  {
    NewSlotsAre<T>(c, size, size, first);
    DisjointUnion(slots, NewSlots<T>(c, size, size, first));
  }

  lemma NewCover<T>(slots: Slots<T>, chunks: map<ChunkId, Option<ChunkId>>, size: nat, c: ChunkId, first: Option<SlotAddr>,
                    next: Option<ChunkId>)
    requires Cover(slots, chunks, size) && c !in chunks
    ensures Cover(slots + NewSlots<T>(c, size, size, first), chunks[c := next], size)
  {
    NewSlotsAre<T>(c, size, size, first);
  }

  lemma NewSplit<T>(slots: Slots<T>, free: seq<SlotAddr>, size: nat, c: ChunkId, first: Option<SlotAddr>)
    requires Split(slots, free) && (forall a :: a in slots ==> a.chunk != c) && (forall a :: a in free ==> a in slots)
    ensures Split(slots + NewSlots<T>(c, size, size, first), ChunkSlots(c, size) + free)
    ensures LiveSlots(slots + NewSlots<T>(c, size, size, first)) == LiveSlots(slots)
  {
    NewSlotsAre<T>(c, size, size, first);
    var more := slots + NewSlots<T>(c, size, size, first);
    var here := ChunkSlots(c, size);
    forall a | a in more ensures more[a].Link? <==> a in here + free {
      if a.chunk == c { assert here[a.index] == a; }
    }
  }

  lemma NewCounts<T>(slots: Slots<T>, free: seq<SlotAddr>, live: nat, c: ChunkId, size: nat, first: Option<SlotAddr>)
    requires Counts(slots, free, live) && Split(slots, free)
    requires (forall a :: a in slots ==> a.chunk != c) && (forall a :: a in free ==> a in slots)
    ensures Counts(slots + NewSlots<T>(c, size, size, first), ChunkSlots(c, size) + free, live)
  {
    NewSlotsAre<T>(c, size, size, first);
    NewSplit(slots, free, size, c, first);
    DisjointUnion(slots, NewSlots<T>(c, size, size, first));
  }

  lemma AddChunkLists<T>(p: Pool<T>, list: seq<ChunkId>, free: seq<SlotAddr>, c: ChunkId)
    requires Parts(p, list, free) && c !in p.chunkNext
    ensures ChunkList(AddChunk(p, c).chunkNext, AddChunk(p, c).chunks, [c] + list)
    ensures FreeList(AddChunk(p, c).slots, AddChunk(p, c).freeList, ChunkSlots(c, p.chunkSize) + free)
  {
    PushChunk(p.chunkNext, p.chunks, list, c);
    assert forall a :: a in p.slots ==> a.chunk != c;
    NewFree(p.slots, p.freeList, free, c, p.chunkSize);
  }

  lemma AddChunkSlots<T>(p: Pool<T>, list: seq<ChunkId>, free: seq<SlotAddr>, c: ChunkId)
    requires Parts(p, list, free) && c !in p.chunkNext
    ensures Cover(AddChunk(p, c).slots, AddChunk(p, c).chunkNext, p.chunkSize)
    ensures |AddChunk(p, c).slots| == SlotCount(|list| + 1, p.chunkSize)
  {
    assert forall a :: a in p.slots ==> a.chunk != c;
    NewCover(p.slots, p.chunkNext, p.chunkSize, c, p.freeList, p.chunks);
    NewCount(p.slots, |list|, p.chunkSize, c, p.freeList);
  }

  lemma AddChunkSplit<T>(p: Pool<T>, list: seq<ChunkId>, free: seq<SlotAddr>, c: ChunkId)
    requires Parts(p, list, free) && c !in p.chunkNext
    ensures Split(AddChunk(p, c).slots, ChunkSlots(c, p.chunkSize) + free)
    ensures Counts(AddChunk(p, c).slots, ChunkSlots(c, p.chunkSize) + free, p.allocatedCount)
  {
    assert forall a :: a in p.slots ==> a.chunk != c;
    assert forall a :: a in free ==> a in p.slots;
    NewSplit(p.slots, free, p.chunkSize, c, p.freeList);
    NewCounts(p.slots, free, p.allocatedCount, c, p.chunkSize, p.freeList);
  }

  /** A new chunk keeps every slot accounted for. */
  lemma AddChunkInv<T>(p: Pool<T>, list: seq<ChunkId>, free: seq<SlotAddr>, c: ChunkId)
    requires Parts(p, list, free) && c !in p.chunkNext
    ensures Inv(AddChunk(p, c), [c] + list, ChunkSlots(c, p.chunkSize) + free)
  {
    AddChunkLists(p, list, free, c);
    AddChunkSlots(p, list, free, c);
    AddChunkSplit(p, list, free, c);
    assert |[c] + list| == |list| + 1;
  }

  lemma EmptyParts<T>(p: Pool<T>)
    requires p == Pool(p.chunkSize, None, map[], map[], None, 0) && p.chunkSize >= 1
    ensures Parts(p, [], [])
  {
    assert LiveSlots(p.slots) == {};
  }

  lemma InitInv<T>(chunkSize: nat, c: ChunkId)
    requires chunkSize >= 1
    ensures Inv(Init<T>(chunkSize, c), [c], ChunkSlots(c, chunkSize))
    ensures Init<T>(chunkSize, c) == AddChunk(Pool(chunkSize, None, map[], map[], None, 0), c)
    ensures var p := Init<T>(chunkSize, c); p.allocatedCount == 0 && p.chunkNext == map[c := None]
  {
    var p: Pool<T> := Pool(chunkSize, None, map[], map[], None, 0);
    EmptyParts(p);
    AddChunkInv(p, [], [], c);
    assert [c] + [] == [c] && ChunkSlots(c, chunkSize) + [] == ChunkSlots(c, chunkSize);
  }

  // ---------------------------------------------------------------- allocation

  lemma TakeFree<T>(slots: Slots<T>, free: seq<SlotAddr>, value: T)
    requires FreeList(slots, Head(free), free) && free != []
    ensures slots[free[0]] == Link(Head(free[1..]))
    ensures FreeList(slots[free[0] := Element(value)], Head(free[1..]), free[1..])
  {
    var rest := free[1..];
    assert SlotLinked(slots, free, 0);
    var less := slots[free[0] := Element(value)];
    forall i | 0 <= i < |rest| ensures SlotLinked(less, rest, i) {
      assert SlotLinked(slots, free, i + 1);
    }
  }

  lemma TakeSplit<T>(slots: Slots<T>, free: seq<SlotAddr>, value: T)
    requires FreeList(slots, Head(free), free) && Split(slots, free) && free != []
    ensures Split(slots[free[0] := Element(value)], free[1..])
  {
    forall a | a in slots ensures slots[free[0] := Element(value)][a].Link? <==> a in free[1..] {
      if a in free && a != free[0] {
        var i :| 0 <= i < |free| && free[i] == a;
        assert free[1..][i - 1] == a;
      }
    }
  }

  lemma SameKeys<K, V>(m: map<K, V>, k: K, v: V)
    requires k in m
    ensures m[k := v].Keys == m.Keys && |m[k := v]| == |m|
  {
    assert m[k := v].Keys == m.Keys;
    assert |m[k := v].Keys| == |m.Keys|;
  }

  lemma TakeCounts<T>(slots: Slots<T>, a: SlotAddr, value: T)
    requires a in slots && slots[a].Link?
    ensures LiveSlots(slots[a := Element(value)]) == LiveSlots(slots) + {a}
    ensures |LiveSlots(slots[a := Element(value)])| == |LiveSlots(slots)| + 1
  {
    assert LiveSlots(slots[a := Element(value)]) == LiveSlots(slots) + {a};
  }

  /** Taking the first free slot of a pool that has one. */
  lemma TakeInv<T>(g: Pool<T>, list: seq<ChunkId>, free: seq<SlotAddr>, value: T)
    requires Inv(g, list, free) && free != [] && g.allocatedCount + 1 < MODULUS
    ensures NextOf(g, free[0]) == Head(free[1..])
    ensures Inv(g.(freeList := Head(free[1..]), allocatedCount := g.allocatedCount + 1,
                   slots := g.slots[free[0] := Element(value)]), list, free[1..])
  {
    TakeFree(g.slots, free, value);
    TakeSplit(g.slots, free, value);
    TakeCounts(g.slots, free[0], value);
    SameKeys(g.slots, free[0], Element(value));
  }

  /** The chunk list and the free list once `allocate` has made sure a slot is free. */
  function GrownList<T>(p: Pool<T>, list: seq<ChunkId>, c: ChunkId): seq<ChunkId> {
    if p.freeList == None then [c] + list else list
  }

  function GrownFree<T>(p: Pool<T>, free: seq<SlotAddr>, c: ChunkId): seq<SlotAddr> {
    if p.freeList == None then ChunkSlots(c, p.chunkSize) + free else free
  }

  lemma GrownInv<T>(p: Pool<T>, list: seq<ChunkId>, free: seq<SlotAddr>, c: ChunkId)
    requires Inv(p, list, free) && (p.freeList == None ==> c !in p.chunkNext)
    ensures Inv(Grown(p, c), GrownList(p, list, c), GrownFree(p, free, c))
    ensures GrownFree(p, free, c) != [] && Grown(p, c).freeList == Some(GrownFree(p, free, c)[0])
    ensures Grown(p, c).allocatedCount == p.allocatedCount
  {
    if p.freeList == None {
      AddChunkInv(p, list, free, c);
    }
  }

  lemma GrownSlots<T>(p: Pool<T>, list: seq<ChunkId>, free: seq<SlotAddr>, c: ChunkId)
    requires Inv(p, list, free) && (p.freeList == None ==> c !in p.chunkNext)
    ensures LiveSlots(Grown(p, c).slots) == LiveSlots(p.slots)
    ensures forall b :: b in LiveSlots(p.slots) ==> b in Grown(p, c).slots && Grown(p, c).slots[b] == p.slots[b]
  {
    if p.freeList == None {
      NewSlotsAre<T>(c, p.chunkSize, p.chunkSize, p.freeList);
      NewSplit(p.slots, free, p.chunkSize, c, p.freeList);
    }
  }

  lemma AllocateShape<T>(p: Pool<T>, value: T, c: ChunkId, a: SlotAddr)
    requires Grown(p, c).freeList == Some(a) && p.allocatedCount + 1 < MODULUS
    ensures var g := Grown(p, c);
      Allocate(p, value, c) ==
      (g.(freeList := NextOf(g, a), allocatedCount := g.allocatedCount + 1, slots := g.slots[a := Element(value)]), a)
  {
  }

  /** Allocation keeps the partition: the first free slot, possibly of a new chunk, becomes live. */
  lemma AllocateInv<T>(p: Pool<T>, list: seq<ChunkId>, free: seq<SlotAddr>, value: T, c: ChunkId)
    requires Inv(p, list, free) && (p.freeList == None ==> c !in p.chunkNext)
    requires p.allocatedCount + 1 < MODULUS
    ensures Inv(Allocate(p, value, c).0, GrownList(p, list, c), GrownFree(p, free, c)[1..])
    ensures Allocate(p, value, c).1 == GrownFree(p, free, c)[0]
    ensures Allocate(p, value, c).0.allocatedCount == p.allocatedCount + 1
  {
    GrownInv(p, list, free, c);
    TakeInv(Grown(p, c), GrownList(p, list, c), GrownFree(p, free, c), value);
    AllocateShape(p, value, c, GrownFree(p, free, c)[0]);
  }

  /** From `slots` to `slots'` element `a` appeared, and what was live is live and unchanged. */
  ghost predicate OneMore<T>(slots: Slots<T>, slots': Slots<T>, a: SlotAddr, value: T) {
    && a !in LiveSlots(slots) && LiveSlots(slots') == LiveSlots(slots) + {a}
    && a in slots' && slots'[a] == Element(value)
    && (forall b :: b in LiveSlots(slots) ==> b in slots' && slots'[b] == slots[b])
  }

  lemma TakeOneMore<T>(slots: Slots<T>, grown: Slots<T>, a: SlotAddr, value: T)
    requires forall b :: b in LiveSlots(grown) <==> b in LiveSlots(slots)
    requires forall b :: b in LiveSlots(slots) ==> b in grown && grown[b] == slots[b]
    requires a in grown && grown[a].Link?
    ensures OneMore(slots, grown[a := Element(value)], a, value)
  {
    TakeCounts(grown, a, value);
  }

  /** The slot returned was not live and now holds the value; no other live slot has changed. */
  lemma AllocateFrame<T>(p: Pool<T>, list: seq<ChunkId>, free: seq<SlotAddr>, value: T, c: ChunkId)
    requires Inv(p, list, free) && (p.freeList == None ==> c !in p.chunkNext)
    requires p.allocatedCount + 1 < MODULUS
    ensures OneMore(p.slots, Allocate(p, value, c).0.slots, Allocate(p, value, c).1, value)
  {
    var a := GrownFree(p, free, c)[0];
    GrownInv(p, list, free, c);
    GrownSlots(p, list, free, c);
    assert SlotLinked(Grown(p, c).slots, GrownFree(p, free, c), 0);
    TakeOneMore(p.slots, Grown(p, c).slots, a, value);
    AllocateShape(p, value, c, a);
  }

  // ---------------------------------------------------------------- deallocation

  lemma GiveFree<T>(slots: Slots<T>, first: Option<SlotAddr>, free: seq<SlotAddr>, a: SlotAddr)
    requires FreeList(slots, first, free) && a in slots && slots[a].Element?
    ensures FreeList(slots[a := Link(first)], Some(a), [a] + free)
  {
    var free' := [a] + free;
    forall i | 0 <= i < |free| ensures free[i] != a {
      assert SlotLinked(slots, free, i);
    }
    var more := slots[a := Link(first)];
    forall i | 0 <= i < |free'| ensures SlotLinked(more, free', i) {
      if i > 0 { assert SlotLinked(slots, free, i - 1); }
    }
  }

  lemma GiveCounts<T>(slots: Slots<T>, first: Option<SlotAddr>, a: SlotAddr)
    requires a in slots && slots[a].Element?
    ensures LiveSlots(slots[a := Link(first)]) == LiveSlots(slots) - {a}
    ensures |LiveSlots(slots[a := Link(first)])| == |LiveSlots(slots)| - 1
  {
    assert a in LiveSlots(slots);
    assert LiveSlots(slots[a := Link(first)]) == LiveSlots(slots) - {a};
  }

  /** Deallocation of a live slot keeps the partition: the slot heads the free list. */
  lemma DeallocateInv<T>(p: Pool<T>, list: seq<ChunkId>, free: seq<SlotAddr>, a: SlotAddr)
    requires Inv(p, list, free) && IsLive(p, a) && p.allocatedCount < MODULUS
    ensures Inv(Deallocate(p, Some(a)), list, [a] + free)
    ensures Deallocate(p, Some(a)).allocatedCount == p.allocatedCount - 1
  {
    GiveFree(p.slots, p.freeList, free, a);
    GiveCounts(p.slots, p.freeList, a);
    SameKeys(p.slots, a, Link(p.freeList));
  }

  /** The slot given back is no longer live; no other live slot has changed. */
  lemma DeallocateFrame<T>(p: Pool<T>, a: SlotAddr)
    requires IsLive(p, a)
    ensures OneMore(Deallocate(p, Some(a)).slots, p.slots, a, p.slots[a].value)
  {
    GiveCounts(p.slots, p.freeList, a);
    assert a in LiveSlots(p.slots);
  }

  // ---------------------------------------------------------------- invalid deallocation

  /** A free list that starts with a slot linked to an old list runs through the old list. */
  lemma {:induction false} SameWalk<T>(before: Slots<T>, first: Option<SlotAddr>, free: seq<SlotAddr>,
                                       after: Slots<T>, free': seq<SlotAddr>, n: nat)
    requires FreeList(before, first, free) && FreeList(after, Head(free'), free') && n < |free|
    requires free' != [] && after[free'[0]] == Link(first)
    requires forall i :: 0 <= i < n ==> free[i] in after && after[free[i]] == before[free[i]]
    ensures n + 1 < |free'| && free'[n + 1] == free[n]
  {
    if n == 0 {
      assert SlotLinked(after, free', 0);
    } else {
      SameWalk(before, first, free, after, free', n - 1);
      assert SlotLinked(before, free, n - 1);
      assert SlotLinked(after, free', n);
    }
  }

  /**
   Giving back a slot of the pool leaves a proper free list exactly when the slot was live: given
   back twice, it turns the list into a cycle.
   */
  lemma DeallocateKeepsIffLive<T>(p: Pool<T>, list: seq<ChunkId>, free: seq<SlotAddr>, a: SlotAddr)
    requires Inv(p, list, free) && a in p.slots
    ensures (exists free' :: FreeList(Deallocate(p, Some(a)).slots, Some(a), free')) <==> IsLive(p, a)
  {
    if IsLive(p, a) {
      GiveFree(p.slots, p.freeList, free, a);
      assert FreeList(Deallocate(p, Some(a)).slots, Some(a), [a] + free);
    } else {
      var q := Deallocate(p, Some(a));
      var n :| 0 <= n < |free| && free[n] == a;
      forall free' ensures !FreeList(q.slots, Some(a), free') {
        if FreeList(q.slots, Some(a), free') {
          SameWalk(p.slots, p.freeList, free, q.slots, free', n);
          assert false;
        }
      }
    }
  }
}
