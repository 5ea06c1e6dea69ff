/**
 The single-producer single-consumer ring as a transition system. Every atomic load, atomic
 store and data copy of `try_push` and `try_pop` is a step of its own, and a run interleaves
 the steps of the two threads freely. The same transitions are read in two arithmetics:
 unbounded counters with `index = counter % capacity`, and 64-bit words with
 `index = counter & (capacity - 1)`.
 */
module SpscModel {
  import opened Words

  datatype Arith = Exact | Wrapping {
    function Plus(x: nat, y: nat): nat {
      if Exact? then x + y else Add(x, y)
    }

    /** The slot a counter designates. */
    function Index(counter: nat, capacity: nat): (i: nat)
      requires capacity > 0
      ensures i < capacity
    {
      if Exact? then counter % capacity else And(counter, capacity - 1)
    }
  }

  datatype Slot<T> = Slot(sequence: nat, data: T)

  /** Where the producer is inside `try_push`, with its local variables. */
  datatype Producer<T> =
    | PIdle
    | PHasHead(item: T, head: nat)     // loaded head_, about to load the slot's sequence
    | PWriting(item: T, head: nat)     // accepted, about to copy the item into the slot
    | PPublishing(item: T, head: nat)  // about to store the slot's sequence
    | PAdvancing(head: nat)            // about to store head_

  /** Where the consumer is inside `try_pop`, with its local variables. */
  datatype Consumer<T> =
    | CIdle
    | CHasTail(tail: nat)               // loaded tail_, about to load the slot's sequence
    | CReading(tail: nat)               // about to copy the item out of the slot
    | CReleasing(tail: nat, result: T)  // about to store the slot's sequence
    | CAdvancing(tail: nat, result: T)  // about to store tail_ and return

  /** `published` and `popped` record the items made visible and the items returned. */
  datatype State<T> = State(
    capacity: nat,
    head: nat,
    tail: nat,
    slots: seq<Slot<T>>,
    producer: Producer<T>,
    consumer: Consumer<T>,
    published: seq<T>,
    popped: seq<T>)

  datatype Action<T> = CallPush(item: T) | ProducerStep | CallPop | ConsumerStep

  predicate WellFormed<T>(s: State<T>) {
    s.capacity > 0 && |s.slots| == s.capacity
  }

  function Init<T>(capacity: nat, blank: T): (s: State<T>)
    requires capacity > 0
    ensures WellFormed(s)
  {
    State(capacity, 0, 0, seq(capacity, (i: nat) => Slot(i, blank)), PIdle, CIdle, [], [])
  }

  function SetData<T>(a: Arith, s: State<T>, counter: nat, item: T): (r: State<T>)
    requires WellFormed(s)
    ensures WellFormed(r) && r.capacity == s.capacity
  {
    var i := a.Index(counter, s.capacity);
    s.(slots := s.slots[i := s.slots[i].(data := item)])
  }

  function SetSequence<T>(a: Arith, s: State<T>, counter: nat, sequence: nat): (r: State<T>)
    requires WellFormed(s)
    ensures WellFormed(r) && r.capacity == s.capacity
  {
    var i := a.Index(counter, s.capacity);
    s.(slots := s.slots[i := s.slots[i].(sequence := sequence)])
  }

  function SlotOf<T>(a: Arith, s: State<T>, counter: nat): Slot<T>
    requires WellFormed(s)
  {
    s.slots[a.Index(counter, s.capacity)]
  }

  function ProducerNext<T>(a: Arith, s: State<T>): (r: State<T>)
    requires WellFormed(s)
    ensures WellFormed(r) && r.capacity == s.capacity
  {
    match s.producer
    case PIdle => s
    case PHasHead(item, h) =>
      s.(producer := if SlotOf(a, s, h).sequence != h then PIdle else PWriting(item, h))
    case PWriting(item, h) =>
      SetData(a, s, h, item).(producer := PPublishing(item, h))
    case PPublishing(item, h) =>
      SetSequence(a, s, h, a.Plus(h, 1)).(producer := PAdvancing(h), published := s.published + [item])
    case PAdvancing(h) =>
      s.(head := a.Plus(h, 1), producer := PIdle)
  }

  function ConsumerNext<T>(a: Arith, s: State<T>): (r: State<T>)
    requires WellFormed(s)
    ensures WellFormed(r) && r.capacity == s.capacity
  {
    match s.consumer
    case CIdle => s
    case CHasTail(t) =>
      s.(consumer := if SlotOf(a, s, t).sequence != a.Plus(t, 1) then CIdle else CReading(t))
    case CReading(t) =>
      s.(consumer := CReleasing(t, SlotOf(a, s, t).data))
    case CReleasing(t, v) =>
      SetSequence(a, s, t, a.Plus(t, s.capacity)).(consumer := CAdvancing(t, v))
    case CAdvancing(t, v) =>
      s.(tail := a.Plus(t, 1), consumer := CIdle, popped := s.popped + [v])
  }

  /** A call starts with the load of its own counter; a thread has one call in flight at most. */
  function Step<T>(a: Arith, s: State<T>, x: Action<T>): (r: State<T>)
    requires WellFormed(s)
    ensures WellFormed(r) && r.capacity == s.capacity
  {
    match x
    case CallPush(item) => if s.producer.PIdle? then s.(producer := PHasHead(item, s.head)) else s
    case CallPop => if s.consumer.CIdle? then s.(consumer := CHasTail(s.tail)) else s
    case ProducerStep => ProducerNext(a, s)
    case ConsumerStep => ConsumerNext(a, s)
  }

  /** The state after an interleaving. */
  function Exec<T>(a: Arith, s: State<T>, run: seq<Action<T>>): (r: State<T>)
    requires WellFormed(s)
    ensures WellFormed(r) && r.capacity == s.capacity
  {
    if run == [] then s else Step(a, Exec(a, s, run[..|run| - 1]), run[|run| - 1])
  }

  /** Slots handed back to the producer: one more than `popped` between the two consumer stores. */
  function Released<T>(s: State<T>): nat {
    |s.popped| + if s.consumer.CAdvancing? then 1 else 0
  }

  // ---------------------------------------------------------------- what is promised

  predicate InOrder<T(==)>(s: State<T>) {
    s.popped <= s.published
  }

  /** The copy of an item into a slot and the copy out are not pending on one slot. */
  predicate Exclusive<T>(a: Arith, s: State<T>)
    requires WellFormed(s)
  {
    s.producer.PWriting? && s.consumer.CReading? ==>
      a.Index(s.producer.head, s.capacity) != a.Index(s.consumer.tail, s.capacity)
  }

  /** The next producer step is the sequence load that refuses the push. */
  predicate PushRefused<T>(a: Arith, s: State<T>)
    requires WellFormed(s)
  {
    s.producer.PHasHead? && ProducerNext(a, s).producer.PIdle?
  }

  /** The next consumer step is the sequence load that finds nothing. */
  predicate PopRefused<T>(a: Arith, s: State<T>)
    requires WellFormed(s)
  {
    s.consumer.CHasTail? && ConsumerNext(a, s).consumer.CIdle?
  }

  // ---------------------------------------------------------------- the invariant

  /** The slot of the `n`-th item: filled if the item is published, free otherwise. */
  ghost predicate SlotHolds<T>(s: State<T>, n: nat)
    requires WellFormed(s)
  {
    && SlotOf(Exact, s, n).sequence == (if n < |s.published| then n + 1 else n)
    && (n < |s.published| ==> SlotOf(Exact, s, n).data == s.published[n])
  }

  ghost predicate Inv<T>(s: State<T>) {
    && WellFormed(s)
    && s.capacity >= 2
    && Released(s) <= |s.published| <= Released(s) + s.capacity
    && s.popped <= s.published
    && s.tail == |s.popped|
    && s.head == (if s.producer.PAdvancing? then |s.published| - 1 else |s.published|)
    && (!s.producer.PIdle? ==> s.producer.head == s.head)
    && (!s.consumer.CIdle? ==> s.consumer.tail == s.tail)
    && (s.producer.PWriting? || s.producer.PPublishing? ==> |s.published| < Released(s) + s.capacity)
    && (s.producer.PPublishing? ==> SlotOf(Exact, s, s.head).data == s.producer.item)
    && (s.consumer.CReading? || s.consumer.CReleasing? ==> s.tail < |s.published|)
    && (s.consumer.CReleasing? || s.consumer.CAdvancing? ==>
          s.tail < |s.published| && s.consumer.result == s.published[s.tail])
    && (forall n: nat :: Released(s) <= n < Released(s) + s.capacity ==> SlotHolds(s, n))
  }

  lemma InitInv<T>(capacity: nat, blank: T)
    requires capacity >= 2
    ensures Inv(Init(capacity, blank))
  {
    var s := Init(capacity, blank);
    forall n: nat | n < capacity ensures SlotHolds(s, n) {
      ModUnique(n, capacity, 0, n);
    }
  }

  /** Counters less than a lap apart designate different slots. */
  lemma DistinctSlots(m: nat, n: nat, capacity: nat)
    requires capacity > 0 && m != n && m < n + capacity && n < m + capacity
    ensures Exact.Index(m, capacity) != Exact.Index(n, capacity)
  {
    if m % capacity == n % capacity {
      ModInjective(m, n, capacity);
    }
  }

  lemma ProducerInv<T>(s: State<T>)
    requires Inv(s)
    ensures Inv(ProducerNext(Exact, s))
  {
    var s' := ProducerNext(Exact, s);
    if s.producer.PHasHead? && s'.producer.PWriting? {
      if |s.published| == Released(s) + s.capacity {
        PreviousLap(s);
      }
    }
    forall n: nat | Released(s') <= n < Released(s') + s.capacity ensures SlotHolds(s', n) {
      assert SlotHolds(s, n);
      if (s.producer.PWriting? || s.producer.PPublishing?) && n != s.head {
        DistinctSlots(n, s.head, s.capacity);
      }
    }
  }

  /** In a full ring the next slot still holds the item of the previous lap. */
  lemma PreviousLap<T>(s: State<T>)
    requires Inv(s)
    requires |s.published| == Released(s) + s.capacity
    ensures SlotOf(Exact, s, |s.published|).sequence == |s.published| - s.capacity + 1
  {
    var n := Released(s);
    assert SlotHolds(s, n);
    SameSlotNextLap(n, s.capacity);
  }

  lemma SameSlotNextLap(n: nat, capacity: nat)
    requires capacity > 0
    ensures Exact.Index(n + capacity, capacity) == Exact.Index(n, capacity)
  {
    ModUnique(n + capacity, capacity, n / capacity + 1, n % capacity);
  }

  lemma ConsumerInv<T>(s: State<T>)
    requires Inv(s)
    ensures Inv(ConsumerNext(Exact, s))
  {
    var s' := ConsumerNext(Exact, s);
    if s.consumer.CHasTail? || s.consumer.CReading? {
      assert SlotHolds(s, s.tail);
    }
    forall n: nat | Released(s') <= n < Released(s') + s.capacity ensures SlotHolds(s', n) {
      if s.consumer.CReleasing? {
        if n == s.tail + s.capacity {
          SameSlotNextLap(s.tail, s.capacity);
        } else {
          assert SlotHolds(s, n);
          DistinctSlots(n, s.tail, s.capacity);
        }
      } else {
        assert SlotHolds(s, n);
      }
    }
    if s.consumer.CReleasing? && s.producer.PPublishing? {
      DistinctSlots(s.head, s.tail, s.capacity);
    }
  }

  lemma StepInv<T>(s: State<T>, x: Action<T>)
    requires Inv(s)
    ensures Inv(Step(Exact, s, x))
  {
    match x
    case ProducerStep => ProducerInv(s);
    case ConsumerStep => ConsumerInv(s);
    case CallPush(_) =>
      var s' := Step(Exact, s, x);
      assert forall n: nat :: SlotHolds(s, n) ==> SlotHolds(s', n);
    case CallPop =>
      var s' := Step(Exact, s, x);
      assert forall n: nat :: SlotHolds(s, n) ==> SlotHolds(s', n);
  }

  lemma {:induction false} ExecInv<T>(s: State<T>, run: seq<Action<T>>)
    requires Inv(s)
    ensures Inv(Exec(Exact, s, run))
  {
    if run != [] {
      ExecInv(s, run[..|run| - 1]);
      StepInv(Exec(Exact, s, run[..|run| - 1]), run[|run| - 1]);
    }
  }
}
