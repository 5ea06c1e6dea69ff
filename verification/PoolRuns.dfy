/** Whole runs of the pool: the partition, reuse in reverse order, and growth to the high-water mark. */
module PoolRuns {
  import opened Words
  import opened Lists
  import opened PoolModel
  import opened PoolProofs

  /** `chunk` is the address the system would give a new chunk. */
  datatype Op<T> = Get(value: T, chunk: ChunkId) | Put(ptr: Option<SlotAddr>)

  /** New memory is unused memory, and only live pointers come back. */
  predicate ValidOp<T>(p: Pool<T>, op: Op<T>) {
    match op
    case Get(_, c) => c !in p.chunkNext && p.allocatedCount + 1 < MODULUS
    case Put(ptr) => ptr == None || IsLive(p, ptr.value)
  }

  function Apply<T>(p: Pool<T>, op: Op<T>): Pool<T> {
    match op
    case Get(value, c) => Allocate(p, value, c).0
    case Put(ptr) => Deallocate(p, ptr)
  }

  function Run<T>(p: Pool<T>, ops: seq<Op<T>>): Pool<T> {
    if ops == [] then p else Apply(Run(p, ops[..|ops| - 1]), ops[|ops| - 1])
  }

  predicate ValidRun<T>(p: Pool<T>, ops: seq<Op<T>>) {
    ops == [] || (ValidRun(p, ops[..|ops| - 1]) && ValidOp(Run(p, ops[..|ops| - 1]), ops[|ops| - 1]))
  }

  /** The most elements live at once during a run. */
  function Peak<T>(p: Pool<T>, ops: seq<Op<T>>): nat {
    if ops == [] then p.allocatedCount
    else
      var before := Peak(p, ops[..|ops| - 1]);
      var now := Run(p, ops).allocatedCount;
      if before < now then now else before
  }

  // ---------------------------------------------------------------- partition and growth

  /** The chunks hold the peak, and one chunk fewer would not, unless there is only the first. */
  ghost predicate JustEnough(chunks: nat, size: nat, peak: nat) {
    peak <= SlotCount(chunks, size) && (chunks == 1 || (chunks > 1 && peak > SlotCount(chunks - 1, size)))
  }

  /** Everything known after a run. */
  ghost predicate Kept<T>(p: Pool<T>, list: seq<ChunkId>, free: seq<SlotAddr>, size: nat, peak: nat) {
    && Inv(p, list, free) && p.chunkSize == size
    && p.allocatedCount < MODULUS && p.allocatedCount <= peak && JustEnough(|list|, size, peak)
  }

  /** Without a free slot every slot is live. */
  lemma FullWithoutFree<T>(p: Pool<T>, list: seq<ChunkId>, free: seq<SlotAddr>)
    requires Inv(p, list, free)
    ensures p.freeList == None ==> p.allocatedCount == SlotCount(|list|, p.chunkSize)
    ensures p.freeList.Some? ==> p.allocatedCount < SlotCount(|list|, p.chunkSize)
  {
    assert |free| == SlotCount(|list|, p.chunkSize) - p.allocatedCount;
    assert p.freeList == None <==> |free| == 0;
  }

  lemma GrownCount<T>(p: Pool<T>, list: seq<ChunkId>, c: ChunkId, peak: nat)
    requires p.chunkSize >= 1 && p.allocatedCount <= peak && JustEnough(|list|, p.chunkSize, peak)
    requires p.freeList == None ==> p.allocatedCount == SlotCount(|list|, p.chunkSize)
    requires p.freeList.Some? ==> p.allocatedCount < SlotCount(|list|, p.chunkSize)
    ensures var peak' := if peak < p.allocatedCount + 1 then p.allocatedCount + 1 else peak;
      JustEnough(|GrownList(p, list, c)|, p.chunkSize, peak')
  {
  }

  lemma ApplyKept<T>(p: Pool<T>, list: seq<ChunkId>, free: seq<SlotAddr>, peak: nat, op: Op<T>)
    returns (list': seq<ChunkId>, free': seq<SlotAddr>)
    requires Kept(p, list, free, p.chunkSize, peak) && ValidOp(p, op)
    ensures var q := Apply(p, op);
      Kept(q, list', free', p.chunkSize, if peak < q.allocatedCount then q.allocatedCount else peak)
  {
    match op
    case Get(value, c) =>
      list', free' := GrownList(p, list, c), GrownFree(p, free, c)[1..];
      AllocateInv(p, list, free, value, c);
      FullWithoutFree(p, list, free);
      GrownCount(p, list, c, peak);
    case Put(ptr) =>
      list', free' := list, free;
      if ptr.Some? {
        free' := [ptr.value] + free;
        DeallocateInv(p, list, free, ptr.value);
      }
  }

  lemma {:induction false} RunKept<T>(chunkSize: nat, c: ChunkId, ops: seq<Op<T>>)
    returns (list: seq<ChunkId>, free: seq<SlotAddr>)
    requires chunkSize >= 1 && ValidRun(Init<T>(chunkSize, c), ops)
    ensures Kept(Run(Init(chunkSize, c), ops), list, free, chunkSize, Peak(Init(chunkSize, c), ops))
  {
    var start := Init<T>(chunkSize, c);
    if ops == [] {
      InitInv<T>(chunkSize, c);
      list, free := [c], ChunkSlots(c, chunkSize);
    } else {
      var most := ops[..|ops| - 1];
      list, free := RunKept(chunkSize, c, most);
      list, free := ApplyKept(Run(start, most), list, free, Peak(start, most), ops[|ops| - 1]);
    }
  }

  /**
   After any valid run there are a chunk list and a finite free list without repetition such
   that every slot of every chunk is either live or exactly once on the free list, and the live
   ones number `allocated()`.
   */
  lemma SlotsPartitioned<T>(chunkSize: nat, c: ChunkId, ops: seq<Op<T>>)
    requires chunkSize >= 1 && ValidRun(Init<T>(chunkSize, c), ops)
    ensures exists list, free :: Inv(Run(Init<T>(chunkSize, c), ops), list, free)
    ensures |LiveSlots(Run(Init<T>(chunkSize, c), ops).slots)| == Run(Init<T>(chunkSize, c), ops).allocatedCount
  {
    var list, free := RunKept<T>(chunkSize, c, ops);
    assert Inv(Run(Init<T>(chunkSize, c), ops), list, free);
  }

  function CeilDiv(x: nat, y: nat): nat
    requires y > 0
  {
    (x + y - 1) / y
  }

  lemma {:induction false} SlotCountIsProduct(chunks: nat, size: nat)
    ensures SlotCount(chunks, size) == chunks * size
  {
    if chunks > 0 {
      SlotCountIsProduct(chunks - 1, size);
      assert (chunks - 1) * size + size == chunks * size;
    }
  }

  lemma JustEnoughIsCeiling(chunks: nat, size: nat, peak: nat)
    requires size >= 1 && JustEnough(chunks, size, peak)
    ensures chunks == if CeilDiv(peak, size) > 1 then CeilDiv(peak, size) else 1
  {
    SlotCountIsProduct(chunks, size);
    if chunks == 1 {
      assert peak <= size;
      if peak == 0 {
        ModUnique(size - 1, size, 0, size - 1);
      } else {
        ModUnique(peak + size - 1, size, 1, peak - 1);
      }
    } else {
      SlotCountIsProduct(chunks - 1, size);
      assert chunks * size == (chunks - 1) * size + size;
      ModUnique(peak + size - 1, size, chunks, peak - (chunks - 1) * size - 1);
    }
  }

  lemma JustEnoughIsProduct(chunks: nat, size: nat, peak: nat)
    requires size >= 1 && JustEnough(chunks, size, peak)
    ensures chunks >= 1 && peak <= chunks * size && (chunks > 1 ==> (chunks - 1) * size < peak)
  {
    SlotCountIsProduct(chunks, size);
    SlotCountIsProduct(chunks - 1, size);
  }

  lemma KeptParts<T>(p: Pool<T>, list: seq<ChunkId>, free: seq<SlotAddr>, size: nat, peak: nat)
    requires Kept(p, list, free, size, peak)
    ensures JustEnough(|list|, size, peak) && Distinct(list) && forall a :: a in p.chunkNext.Keys <==> a in list
  {
  }

  /** The number of chunks is the high-water mark in chunks, and at least the first. */
  lemma ChunksFollowPeak<T>(chunkSize: nat, c: ChunkId, ops: seq<Op<T>>)
    requires chunkSize >= 1 && ValidRun(Init<T>(chunkSize, c), ops)
    ensures var needed := CeilDiv(Peak(Init(chunkSize, c), ops), chunkSize);
      |Run(Init(chunkSize, c), ops).chunkNext| == if needed > 1 then needed else 1
    ensures var chunks, peak := |Run(Init(chunkSize, c), ops).chunkNext|, Peak(Init(chunkSize, c), ops);
      chunks >= 1 && peak <= chunks * chunkSize && (chunks > 1 ==> (chunks - 1) * chunkSize < peak)
  {
    hide Init, Run, Inv, Peak, ValidRun, CeilDiv, JustEnough;
    var list, free := RunKept(chunkSize, c, ops);
    var p := Run(Init(chunkSize, c), ops);
    KeptParts(p, list, free, chunkSize, Peak(Init(chunkSize, c), ops));
    DistinctSize(list, p.chunkNext.Keys);
    JustEnoughIsCeiling(|list|, chunkSize, Peak(Init(chunkSize, c), ops));
    JustEnoughIsProduct(|list|, chunkSize, Peak(Init(chunkSize, c), ops));
  }

  // ---------------------------------------------------------------- last in, first out

  function PutAll<T>(p: Pool<T>, ptrs: seq<SlotAddr>): Pool<T> {
    if ptrs == [] then p
    else Deallocate(PutAll(p, ptrs[..|ptrs| - 1]), Some(ptrs[|ptrs| - 1]))
  }

  /** Allocations one after another, and the slots they return. */
  function GetAll<T>(p: Pool<T>, values: seq<T>, c: ChunkId): (Pool<T>, seq<SlotAddr>) {
    if values == [] then (p, [])
    else
      var (q, got) := GetAll(p, values[..|values| - 1], c);
      var (r, a) := Allocate(q, values[|values| - 1], c);
      (r, got + [a])
  }

  function Reverse<A>(s: seq<A>): (r: seq<A>)
    ensures |r| == |s|
    ensures forall i :: 0 <= i < |s| ==> r[i] == s[|s| - 1 - i]
  {
    if s == [] then [] else [s[|s| - 1]] + Reverse(s[..|s| - 1])
  }

  lemma {:induction false} PutAllLive<T>(p: Pool<T>, ptrs: seq<SlotAddr>)
    requires Distinct(ptrs) && forall a :: a in ptrs ==> IsLive(p, a)
    ensures forall a :: a in LiveSlots(PutAll(p, ptrs).slots) <==> a in LiveSlots(p.slots) && a !in ptrs
  {
    if ptrs != [] {
      var most := ptrs[..|ptrs| - 1];
      var a := ptrs[|ptrs| - 1];
      PutAllLive(p, most);
      assert IsLive(p, a) && a !in most;
      LiveIff(p, a);
      LiveIff(PutAll(p, most), a);
      DeallocateFrame(PutAll(p, most), a);
      assert forall b :: b in ptrs <==> b in most || b == a;
    }
  }

  lemma ReverseSnoc<A>(s: seq<A>, tail: seq<A>)
    requires s != []
    ensures Reverse(s) + tail == [s[|s| - 1]] + (Reverse(s[..|s| - 1]) + tail)
  {
  }

  lemma {:induction false} PutAllKeeps<T>(p: Pool<T>, list: seq<ChunkId>, free: seq<SlotAddr>, ptrs: seq<SlotAddr>)
    requires Inv(p, list, free) && p.allocatedCount < MODULUS
    requires Distinct(ptrs) && forall a :: a in ptrs ==> IsLive(p, a)
    ensures Inv(PutAll(p, ptrs), list, Reverse(ptrs) + free)
    ensures PutAll(p, ptrs).allocatedCount + |ptrs| == p.allocatedCount
  {
    if ptrs == [] {
      assert Reverse(ptrs) + free == free;
    } else {
      var most := ptrs[..|ptrs| - 1];
      var a := ptrs[|ptrs| - 1];
      PutAllKeeps(p, list, free, most);
      PutAllLive(p, most);
      LiveIff(p, a);
      LiveIff(PutAll(p, most), a);
      assert IsLive(p, a) && a !in most;
      DeallocateInv(PutAll(p, most), list, Reverse(most) + free, a);
      ReverseSnoc(ptrs, free);
    }
  }

  /** With a free list that is not empty, an allocation takes its head. */
  lemma AllocatePops<T>(p: Pool<T>, list: seq<ChunkId>, free: seq<SlotAddr>, value: T, c: ChunkId)
    requires Inv(p, list, free) && free != [] && p.allocatedCount + 1 < MODULUS
    ensures Inv(Allocate(p, value, c).0, list, free[1..])
    ensures Allocate(p, value, c).1 == free[0]
    ensures Allocate(p, value, c).0.allocatedCount == p.allocatedCount + 1
  {
    AllocateInv(p, list, free, value, c);
  }

  lemma {:induction false} GetAllPops<T>(p: Pool<T>, list: seq<ChunkId>, free: seq<SlotAddr>, values: seq<T>, c: ChunkId)
    requires Inv(p, list, free) && |values| <= |free| && p.allocatedCount + |values| < MODULUS
    ensures Inv(GetAll(p, values, c).0, list, free[|values|..])
    ensures GetAll(p, values, c).1 == free[..|values|]
    ensures GetAll(p, values, c).0.allocatedCount == p.allocatedCount + |values|
  {
    hide Inv, Allocate;
    if values == [] {
      assert free[0..] == free && free[..0] == [];
    } else {
      var n := |values| - 1;
      GetAllPops(p, list, free, values[..n], c);
      var rest := free[n..];
      AllocatePops(GetAll(p, values[..n], c).0, list, rest, values[n], c);
      assert free[..n + 1] == free[..n] + [rest[0]];
      assert rest[1..] == free[n + 1..];
    }
  }

  /** As many allocations as there were deallocations return the same slots in reverse order. */
  lemma LastInFirstOut<T>(p: Pool<T>, list: seq<ChunkId>, free: seq<SlotAddr>, ptrs: seq<SlotAddr>, values: seq<T>, c: ChunkId)
    requires Inv(p, list, free) && p.allocatedCount < MODULUS
    requires Distinct(ptrs) && forall a :: a in ptrs ==> IsLive(p, a)
    requires |values| == |ptrs|
    ensures GetAll(PutAll(p, ptrs), values, c).1 == Reverse(ptrs)
    ensures Inv(GetAll(PutAll(p, ptrs), values, c).0, list, free)
  {
    PutAllKeeps(p, list, free, ptrs);
    var all := Reverse(ptrs) + free;
    GetAllPops(PutAll(p, ptrs), list, all, values, c);
    assert all[..|values|] == Reverse(ptrs) && all[|values|..] == free;
  }
}
