/**
 The free-list memory pool over explicit memory: chunks linked through their `next` fields, and
 slots that are a union of an element and a free-list link.
 */
module PoolModel {
  import opened Words
  import opened Lists

  type ChunkId = nat

  datatype SlotAddr = SlotAddr(chunk: ChunkId, index: nat)

  /** The union: what the slot was last written as. */
  datatype Slot<T> = Link(next: Option<SlotAddr>) | Element(value: T)

  datatype Pool<T> = Pool(
    chunkSize: nat,
    chunks: Option<ChunkId>,
    chunkNext: map<ChunkId, Option<ChunkId>>,
    slots: map<SlotAddr, Slot<T>>,
    freeList: Option<SlotAddr>,
    allocatedCount: nat)

  /** The link a slot of a new chunk gets: its neighbour, or the old free list for the last one. */
  function LinkAfter(c: ChunkId, i: nat, size: nat, tail: Option<SlotAddr>): Option<SlotAddr> {
    if i + 1 < size then Some(SlotAddr(c, i + 1)) else tail
  }

  /** The first `n` slots of a new chunk, linked. */
  function NewSlots<T>(c: ChunkId, n: nat, size: nat, tail: Option<SlotAddr>): map<SlotAddr, Slot<T>> {
    if n == 0 then map[]
    else NewSlots<T>(c, n - 1, size, tail)[SlotAddr(c, n - 1) := Link(LinkAfter(c, n - 1, size, tail))]
  }

  function AddChunk<T>(p: Pool<T>, c: ChunkId): Pool<T> {
    p.(chunkNext := p.chunkNext[c := p.chunks],
       chunks := Some(c),
       slots := p.slots + NewSlots<T>(c, p.chunkSize, p.chunkSize, p.freeList),
       freeList := Some(SlotAddr(c, 0)))
  }

  /** A pool starts with one chunk. */
  function Init<T>(chunkSize: nat, c: ChunkId): Pool<T> {
    AddChunk(Pool(chunkSize, None, map[], map[], None, 0), c)
  }

  /** Reading `slot->next`; a slot holding an element has no meaningful link. */
  function NextOf<T>(p: Pool<T>, a: SlotAddr): Option<SlotAddr> {
    if a in p.slots && p.slots[a].Link? then p.slots[a].next else None
  }

  /** The pool `allocate` takes the slot from: grown by chunk `c` when the free list is empty. */
  function Grown<T>(p: Pool<T>, c: ChunkId): (r: Pool<T>)
    ensures r.freeList.Some?
  {
    if p.freeList == None then AddChunk(p, c) else p
  }

  function Allocate<T>(p: Pool<T>, value: T, c: ChunkId): (Pool<T>, SlotAddr) {
    var g := Grown(p, c);
    var a := g.freeList.value;
    (g.(freeList := NextOf(g, a), allocatedCount := Add(g.allocatedCount, 1), slots := g.slots[a := Element(value)]), a)
  }

  /** `deallocate(nullptr)` does nothing. */
  function Deallocate<T>(p: Pool<T>, ptr: Option<SlotAddr>): Pool<T> {
    if ptr == None then p
    else p.(slots := p.slots[ptr.value := Link(p.freeList)], freeList := ptr, allocatedCount := Sub(p.allocatedCount, 1))
  }

  // ---------------------------------------------------------------- the invariant

  type Slots<T> = map<SlotAddr, Slot<T>>

  function Head<A>(list: seq<A>): Option<A> {
    if list == [] then None else Some(list[0])
  }

  /** What the `i`-th node of a linked list points to. */
  function After<A>(list: seq<A>, i: nat): Option<A> {
    if i + 1 < |list| then Some(list[i + 1]) else None
  }

  ghost predicate ChunkLinked(next: map<ChunkId, Option<ChunkId>>, list: seq<ChunkId>, i: nat)
    requires i < |list|
  {
    list[i] in next && next[list[i]] == After(list, i)
  }

  ghost predicate SlotLinked<T>(slots: Slots<T>, free: seq<SlotAddr>, i: nat)
    requires i < |free|
  {
    free[i] in slots && slots[free[i]] == Link(After(free, i))
  }

  /** `list` is the chunk list from `first`, and it is all the chunks there are. */
  ghost predicate ChunkList(next: map<ChunkId, Option<ChunkId>>, first: Option<ChunkId>, list: seq<ChunkId>) {
    && first == Head(list)
    && Distinct(list)
    && (forall c :: c in next <==> c in list)
    && (forall i {:trigger ChunkLinked(next, list, i)} :: 0 <= i < |list| ==> ChunkLinked(next, list, i))
  }

  /** `free` is the free list from `first`: finite, without repetition, linked through the slots. */
  ghost predicate FreeList<T>(slots: Slots<T>, first: Option<SlotAddr>, free: seq<SlotAddr>) {
    && first == Head(free)
    && Distinct(free)
    && (forall i :: 0 <= i < |free| ==> free[i] in slots)
    && (forall i {:trigger SlotLinked(slots, free, i)} :: 0 <= i < |free| ==> SlotLinked(slots, free, i))
  }

  /** The number of slots in so many chunks. */
  function SlotCount(chunks: nat, size: nat): nat {
    if chunks == 0 then 0 else size + SlotCount(chunks - 1, size)
  }

  /** The slots are those of the chunks. */
  ghost predicate Cover<T>(slots: Slots<T>, chunks: map<ChunkId, Option<ChunkId>>, size: nat) {
    forall a :: a in slots <==> a.chunk in chunks && a.index < size
  }

  /** Every slot is on the free list or holds an element. */
  ghost predicate Split<T>(slots: Slots<T>, free: seq<SlotAddr>) {
    forall a :: a in slots ==> (slots[a].Link? <==> a in free)
  }

  ghost function LiveSlots<T>(slots: Slots<T>): set<SlotAddr> {
    set a | a in slots && slots[a].Element?
  }

  ghost predicate Counts<T>(slots: Slots<T>, free: seq<SlotAddr>, live: nat) {
    live == |LiveSlots(slots)| && live + |free| == |slots|
  }

  ghost predicate Parts<T>(p: Pool<T>, list: seq<ChunkId>, free: seq<SlotAddr>) {
    && p.chunkSize >= 1
    && ChunkList(p.chunkNext, p.chunks, list)
    && FreeList(p.slots, p.freeList, free)
    && Cover(p.slots, p.chunkNext, p.chunkSize)
    && |p.slots| == SlotCount(|list|, p.chunkSize)
    && Split(p.slots, free)
    && Counts(p.slots, free, p.allocatedCount)
  }

  ghost predicate Inv<T>(p: Pool<T>, list: seq<ChunkId>, free: seq<SlotAddr>) {
    Parts(p, list, free) && |list| >= 1
  }

  /** The pointer is one the pool has handed out and not got back. */
  predicate IsLive<T>(p: Pool<T>, a: SlotAddr) {
    a in p.slots && p.slots[a].Element?
  }
}
