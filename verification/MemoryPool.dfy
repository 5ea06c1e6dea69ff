/** The pool as an object, with the loops of its chunk allocation and its destructor. */
module MemoryPool {
  import opened Words
  import opened Lists
  import opened PoolModel
  import opened PoolProofs

  /** One more slot of a new chunk linked. */
  lemma ExtendSlots<T>(slots: Slots<T>, c: ChunkId, i: nat, size: nat, tail: Option<SlotAddr>)
    ensures (slots + NewSlots<T>(c, i, size, tail))[SlotAddr(c, i) := Link(LinkAfter(c, i, size, tail))] ==
            slots + NewSlots<T>(c, i + 1, size, tail)
  {
  }

  class MemoryPool<T> {
    const chunkSize: nat
    var chunks: Option<ChunkId>
    var freeList: Option<SlotAddr>
    var allocatedCount: nat

    // memory: the `next` field of each chunk, and the slots of all chunks
    var chunkNext: map<ChunkId, Option<ChunkId>>
    var slots: map<SlotAddr, Slot<T>>

    ghost var chunkList: seq<ChunkId>
    ghost var free: seq<SlotAddr>

    ghost function View(): Pool<T>
      reads this
    {
      Pool(chunkSize, chunks, chunkNext, slots, freeList, allocatedCount)
    }

    ghost predicate Valid()
      reads this
    {
      Inv(View(), chunkList, free) && allocatedCount < MODULUS
    }

    constructor (chunkSize: nat, chunk: ChunkId)
      requires chunkSize >= 1
      ensures Valid() && View() == Init(chunkSize, chunk)
      ensures allocatedCount == 0 && chunkNext == map[chunk := None]
    {
      this.chunkSize := chunkSize;
      chunks, freeList, allocatedCount := None, None, 0;
      chunkNext, slots := map[], map[];
      new;
      hide Inv, Init, AddChunk, ChunkSlots, NewSlots;
      assert View() == Pool(chunkSize, None, map[], map[], None, 0);
      AllocateChunk(chunk);
      InitInv<T>(chunkSize, chunk);
      assert View() == Init(chunkSize, chunk);
      chunkList, free := [chunk], ChunkSlots(chunk, chunkSize);
    }

    /** Links the slots of new memory at `chunk` in front of the free list. */
    method AllocateChunk(chunk: ChunkId)
      requires chunkSize >= 1 && chunk !in chunkNext
      modifies this`chunks, this`chunkNext, this`slots, this`freeList
      ensures View() == AddChunk(old(View()), chunk)
    {
      chunkNext := chunkNext[chunk := chunks];
      chunks := Some(chunk);
      ghost var before := slots;
      assert slots == before + NewSlots<T>(chunk, 0, chunkSize, freeList);
      var i := 0;
      while i < chunkSize - 1
        modifies `slots
        invariant 0 <= i <= chunkSize - 1
        invariant slots == before + NewSlots<T>(chunk, i, chunkSize, freeList)
      {
        ExtendSlots(before, chunk, i, chunkSize, freeList);
        slots := slots[SlotAddr(chunk, i) := Link(Some(SlotAddr(chunk, i + 1)))];
        i := i + 1;
      }
      ExtendSlots(before, chunk, i, chunkSize, freeList);
      slots := slots[SlotAddr(chunk, chunkSize - 1) := Link(freeList)];
      freeList := Some(SlotAddr(chunk, 0));
    }

    /** The pointer returned was not live before; what was live stays live and unchanged. */
    method Alloc(value: T, chunk: ChunkId) returns (ptr: SlotAddr)
      requires Valid() && chunk !in chunkNext && allocatedCount + 1 < MODULUS
      modifies this
      ensures Valid() && (View(), ptr) == Allocate(old(View()), value, chunk)
      ensures OneMore(old(slots), slots, ptr, value) && allocatedCount == old(allocatedCount) + 1
      ensures chunkNext == if old(freeList) == None then old(chunkNext)[chunk := old(chunks)] else old(chunkNext)
    {
      hide Inv, OneMore, GrownList, NewSlots;
      ghost var before := View();
      AllocateInv(before, chunkList, free, value, chunk);
      AllocateFrame(before, chunkList, free, value, chunk);
      GrownHead(before, chunkList, free, chunk);
      chunkList, free := GrownList(before, chunkList, chunk), GrownFree(before, free, chunk)[1..];

      if freeList == None {
        AllocateChunk(chunk);
      }
      ptr := freeList.value;
      freeList := slots[ptr].next;
      allocatedCount := Add(allocatedCount, 1);
      slots := slots[ptr := Element(value)];
      assert View() == Allocate(before, value, chunk).0;
    }

    /** A live pointer, or none, comes back; the rest of what was live stays live and unchanged. */
    method Dealloc(ptr: Option<SlotAddr>)
      requires Valid() && (ptr.Some? ==> IsLive(View(), ptr.value))
      modifies this
      ensures Valid() && View() == Deallocate(old(View()), ptr)
      ensures ptr.Some? ==> ptr.value in old(slots) && old(slots)[ptr.value].Element?
      ensures ptr.Some? ==> OneMore(slots, old(slots), ptr.value, old(slots)[ptr.value].value)
      ensures ptr.Some? ==> allocatedCount == old(allocatedCount) - 1 && freeList == ptr
      ensures ptr == None ==> View() == old(View())
      ensures chunkNext == old(chunkNext)
    {
      if ptr == None {
        return;
      }
      hide Inv, OneMore;
      ghost var before := View();
      DeallocateInv(before, chunkList, free, ptr.value);
      DeallocateFrame(before, ptr.value);
      free := [ptr.value] + free;
      slots := slots[ptr.value := Link(freeList)];
      freeList := ptr;
      allocatedCount := Sub(allocatedCount, 1);
    }

    /** The destructor frees each chunk exactly once and leaves no memory behind. */
    method Destroy() returns (freed: seq<ChunkId>)
      requires Valid()
      modifies this
      ensures chunks == None && chunkNext == map[] && slots == map[]
      ensures Distinct(freed) && forall c :: c in freed <==> c in old(chunkNext)
    {
      hide Freeing, ChunkList, Inv;
      freed := [];
      ghost var list := chunkList;
      ghost var nexts := chunkNext;
      FreeingStart(View(), chunkList, free);
      while chunks.Some?
        invariant |freed| <= |list| && freed == list[..|freed|]
        invariant ChunkList(nexts, Head(list), list)
        invariant Freeing(chunks, chunkNext, slots, nexts, list[|freed|..])
        decreases |list| - |freed|
      {
        var c := chunks.value;
        FreeingStep(chunks, chunkNext, slots, nexts, list, |freed|);
        NextChunk(nexts, list, |freed|);
        var next := chunkNext[c];
        chunkNext := chunkNext - {c};
        slots := map a | a in slots && a.chunk != c :: slots[a];
        freed := freed + [c];
        chunks := next;
      }
      FreeingEnd(chunkNext, slots, nexts, list, |freed|);
      assert freed == list;
    }
  }

  /** Halfway through the destructor: the chunks in `rest` are still there, linked as before. */
  ghost predicate Freeing<T>(chunks: Option<ChunkId>, chunkNext: map<ChunkId, Option<ChunkId>>, slots: Slots<T>,
                             nexts: map<ChunkId, Option<ChunkId>>, rest: seq<ChunkId>) {
    && chunks == Head(rest)
    && (forall c :: c in chunkNext <==> c in rest)
    && (forall c :: c in chunkNext ==> c in nexts && chunkNext[c] == nexts[c])
    && (forall a :: a in slots ==> a.chunk in chunkNext)
  }

  lemma FreeingStart<T>(p: Pool<T>, list: seq<ChunkId>, free: seq<SlotAddr>)
    requires Inv(p, list, free)
    ensures ChunkList(p.chunkNext, Head(list), list)
    ensures Freeing(p.chunks, p.chunkNext, p.slots, p.chunkNext, list[0..])
    ensures Distinct(list) && forall c :: c in list <==> c in p.chunkNext
  {
    assert list[0..] == list;
  }

  lemma FreeingEnd<T>(chunkNext: map<ChunkId, Option<ChunkId>>, slots: Slots<T>,
                      nexts: map<ChunkId, Option<ChunkId>>, list: seq<ChunkId>, n: nat)
    requires n <= |list| && Freeing(None, chunkNext, slots, nexts, list[n..])
    ensures n == |list| && chunkNext == map[] && slots == map[]
  {
    assert list[n..] == [];
  }

  /** Walking one chunk along the list. */
  lemma NextChunk(nexts: map<ChunkId, Option<ChunkId>>, list: seq<ChunkId>, n: nat)
    requires ChunkList(nexts, Head(list), list) && n <= |list| && list[n..] != []
    ensures n < |list| && list[n] in nexts && nexts[list[n]] == Head(list[n + 1..])
    ensures forall c :: c in list[n + 1..] <==> c in list[n..] && c != list[n]
    ensures list[..n] + [list[n]] == list[..n + 1]
  {
    assert ChunkLinked(nexts, list, n);
    assert list[n..] == [list[n]] + list[n + 1..];
  }

  lemma FreeingStep<T>(chunks: Option<ChunkId>, chunkNext: map<ChunkId, Option<ChunkId>>, slots: Slots<T>,
                       nexts: map<ChunkId, Option<ChunkId>>, list: seq<ChunkId>, n: nat)
    requires ChunkList(nexts, Head(list), list) && n <= |list| && chunks.Some?
    requires Freeing(chunks, chunkNext, slots, nexts, list[n..])
    ensures n < |list| && chunks.value == list[n] && list[n] in chunkNext
    ensures Freeing(chunkNext[list[n]], chunkNext - {list[n]},
                    map a | a in slots && a.chunk != list[n] :: slots[a], nexts, list[n + 1..])
  {
    NextChunk(nexts, list, n);
  }

  lemma GrownHead<T>(p: Pool<T>, list: seq<ChunkId>, free: seq<SlotAddr>, c: ChunkId)
    requires Inv(p, list, free) && (p.freeList == None ==> c !in p.chunkNext)
    ensures p.chunkSize >= 1 && |GrownFree(p, free, c)| >= 1
    ensures var g := Grown(p, c);
      g.freeList.value in g.slots && g.slots[g.freeList.value].Link?
  {
    GrownInv(p, list, free, c);
    assert SlotLinked(Grown(p, c).slots, GrownFree(p, free, c), 0);
  }
}
