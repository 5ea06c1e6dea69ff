/**
 The ring on 64-bit words takes the same decisions and touches the same slots as the ring on
 unbounded counters: `Wrap` commutes with every step of every run.
 */
module SpscWraparound {
  import opened Words
  import opened SpscModel
  import opened SpscSafety

  /** The representable capacities: powers of two from 2 to 2^63. */
  ghost predicate Representable(capacity: nat) {
    exists k: nat :: 1 <= k <= 63 && capacity == Pow2(k)
  }

  function WrapSlot<T>(slot: Slot<T>): Slot<T> {
    slot.(sequence := slot.sequence % MODULUS)
  }

  function WrapProducer<T>(p: Producer<T>): Producer<T> {
    match p
    case PIdle => PIdle
    case PHasHead(item, h) => PHasHead(item, h % MODULUS)
    case PWriting(item, h) => PWriting(item, h % MODULUS)
    case PPublishing(item, h) => PPublishing(item, h % MODULUS)
    case PAdvancing(h) => PAdvancing(h % MODULUS)
  }

  function WrapConsumer<T>(c: Consumer<T>): Consumer<T> {
    match c
    case CIdle => CIdle
    case CHasTail(t) => CHasTail(t % MODULUS)
    case CReading(t) => CReading(t % MODULUS)
    case CReleasing(t, v) => CReleasing(t % MODULUS, v)
    case CAdvancing(t, v) => CAdvancing(t % MODULUS, v)
  }

  /** Every counter, sequence number and register reduced modulo 2^64; items and histories kept. */
  function Wrap<T>(s: State<T>): (w: State<T>)
    ensures WellFormed(s) ==> WellFormed(w)
  {
    State(s.capacity, s.head % MODULUS, s.tail % MODULUS,
          seq(|s.slots|, (i: nat) requires i < |s.slots| => WrapSlot(s.slots[i])),
          WrapProducer(s.producer), WrapConsumer(s.consumer), s.published, s.popped)
  }

  /** `counter & mask_` on the wrapped counter is the unbounded counter modulo the capacity. */
  lemma IndexAgrees(counter: nat, capacity: nat)
    requires Representable(capacity)
    ensures Wrapping.Index(counter % MODULUS, capacity) == Exact.Index(counter, capacity)
  {
    var k: nat :| 1 <= k <= 63 && capacity == Pow2(k);
    AndMask(counter % MODULUS, k);
    ModulusIsPower();
    PowSum(k, 64 - k);
    ModOfMod(counter, Pow2(k), Pow2(64 - k));
  }

  lemma CapacityFits(capacity: nat)
    requires Representable(capacity)
    ensures 2 <= capacity < MODULUS
  {
    var k: nat :| 1 <= k <= 63 && capacity == Pow2(k);
    ModulusIsPower();
    PowSum(k, 64 - k);
    PowSum(1, k - 1);
    PowSum(1, 63 - k);
    assert Pow2(1) == 2;
  }

  lemma SlotAgrees<T>(s: State<T>, counter: nat)
    requires WellFormed(s) && Representable(s.capacity)
    ensures SlotOf(Wrapping, Wrap(s), counter % MODULUS) == WrapSlot(SlotOf(Exact, s, counter))
  {
    IndexAgrees(counter, s.capacity);
  }

  lemma SetDataAgrees<T>(s: State<T>, counter: nat, item: T)
    requires WellFormed(s) && Representable(s.capacity)
    ensures Wrap(SetData(Exact, s, counter, item)) == SetData(Wrapping, Wrap(s), counter % MODULUS, item)
  {
    IndexAgrees(counter, s.capacity);
    assert Wrap(SetData(Exact, s, counter, item)).slots == SetData(Wrapping, Wrap(s), counter % MODULUS, item).slots;
  }

  lemma SetSequenceAgrees<T>(s: State<T>, counter: nat, sequence: nat)
    requires WellFormed(s) && Representable(s.capacity)
    ensures Wrap(SetSequence(Exact, s, counter, sequence)) ==
            SetSequence(Wrapping, Wrap(s), counter % MODULUS, sequence % MODULUS)
  {
    IndexAgrees(counter, s.capacity);
    assert Wrap(SetSequence(Exact, s, counter, sequence)).slots ==
           SetSequence(Wrapping, Wrap(s), counter % MODULUS, sequence % MODULUS).slots;
  }

  /** Comparing wrapped sequence numbers decides like comparing the unbounded ones. */
  lemma ComparisonAgrees(sequence: nat, expected: nat)
    requires sequence < expected + MODULUS && expected < sequence + MODULUS
    ensures sequence % MODULUS == expected % MODULUS <==> sequence == expected
  {
    if sequence % MODULUS == expected % MODULUS {
      ModInjective(sequence, expected, MODULUS);
    }
  }

  /** The sequence number a producer may find: its own turn, or the item of the previous lap. */
  lemma PushSequence<T>(s: State<T>)
    requires Inv(s)
    ensures s.producer.PHasHead? ==>
      SlotOf(Exact, s, s.head).sequence in {s.head, s.head - s.capacity + 1}
  {
    if s.producer.PHasHead? {
      if |s.published| == Released(s) + s.capacity {
        PreviousLap(s);
      } else {
        assert SlotHolds(s, s.head);
      }
    }
  }

  /** The sequence number a consumer may find: its own item, or the free slot of its turn. */
  lemma PopSequence<T>(s: State<T>)
    requires Inv(s)
    ensures s.consumer.CHasTail? ==> SlotOf(Exact, s, s.tail).sequence in {s.tail, s.tail + 1}
  {
    if s.consumer.CHasTail? {
      assert SlotHolds(s, s.tail);
    }
  }

  /** A thread inside a call holds the current value of its own counter. */
  lemma OwnCounters<T>(s: State<T>)
    requires Inv(s)
    ensures WellFormed(s)
    ensures !s.producer.PIdle? ==> s.producer.head == s.head
    ensures !s.consumer.CIdle? ==> s.consumer.tail == s.tail
  {
  }

  lemma ProducerAgrees<T>(s: State<T>)
    requires Inv(s) && Representable(s.capacity)
    ensures Wrap(ProducerNext(Exact, s)) == ProducerNext(Wrapping, Wrap(s))
  {
    hide Inv, Representable, Add, And, Exec;
    OwnCounters(s);
    if !s.producer.PIdle? {
      var h := s.head;
      SlotAgrees(s, h);
      AddWraps(h, 1);
      match s.producer
      case PHasHead(_, _) =>
        CapacityFits(s.capacity);
        PushSequence(s);
        ComparisonAgrees(SlotOf(Exact, s, h).sequence, h);
      case PWriting(item, _) =>
        SetDataAgrees(s, h, item);
      case PPublishing(_, _) =>
        SetSequenceAgrees(s, h, h + 1);
      case PAdvancing(_) =>
    }
  }

  lemma ConsumerAgrees<T>(s: State<T>)
    requires Inv(s) && Representable(s.capacity)
    ensures Wrap(ConsumerNext(Exact, s)) == ConsumerNext(Wrapping, Wrap(s))
  {
    hide Inv, Representable, Add, And, Exec;
    OwnCounters(s);
    if !s.consumer.CIdle? {
      var t := s.tail;
      SlotAgrees(s, t);
      AddWraps(t, 1);
      match s.consumer
      case CHasTail(_) =>
        PopSequence(s);
        ComparisonAgrees(SlotOf(Exact, s, t).sequence, t + 1);
      case CReading(_) =>
      case CReleasing(_, _) =>
        AddWraps(t, s.capacity);
        SetSequenceAgrees(s, t, t + s.capacity);
      case CAdvancing(_, _) =>
    }
  }

  lemma StepAgrees<T>(s: State<T>, x: Action<T>)
    requires Inv(s) && Representable(s.capacity)
    ensures Wrap(Step(Exact, s, x)) == Step(Wrapping, Wrap(s), x)
  {
    match x
    case ProducerStep => ProducerAgrees(s);
    case ConsumerStep => ConsumerAgrees(s);
    case CallPush(_) =>
    case CallPop =>
  }

  lemma {:induction false} ExecAgrees<T>(s: State<T>, run: seq<Action<T>>)
    requires Inv(s) && Representable(s.capacity)
    ensures Wrap(Exec(Exact, s, run)) == Exec(Wrapping, Wrap(s), run)
  {
    if run != [] {
      ExecAgrees(s, run[..|run| - 1]);
      ExecInv(s, run[..|run| - 1]);
      StepAgrees(Exec(Exact, s, run[..|run| - 1]), run[|run| - 1]);
    }
  }

  /** The word machine started by the constructor: slot `i` carries sequence `i`. */
  lemma InitAgrees<T>(capacity: nat, blank: T)
    requires Representable(capacity)
    ensures Wrap(Init(capacity, blank)) == Init(capacity, blank)
  {
    CapacityFits(capacity);
    assert Wrap(Init(capacity, blank)).slots == Init(capacity, blank).slots;
  }

  /**
   The two rings run in lockstep: equal histories, equal slots touched, equal decisions.
   */
  lemma WordRingRefinesUnbounded<T>(capacity: nat, blank: T, run: seq<Action<T>>)
    requires Representable(capacity)
    ensures var exact := Exec(Exact, Init(capacity, blank), run);
      var words := Exec(Wrapping, Init(capacity, blank), run);
      && words == Wrap(exact)
      && words.published == exact.published && words.popped == exact.popped
      && (PushRefused(Wrapping, words) <==> PushRefused(Exact, exact))
      && (PopRefused(Wrapping, words) <==> PopRefused(Exact, exact))
      && (!exact.producer.PIdle? ==>
            Wrapping.Index(words.producer.head, capacity) == Exact.Index(exact.producer.head, capacity))
      && (!exact.consumer.CIdle? ==>
            Wrapping.Index(words.consumer.tail, capacity) == Exact.Index(exact.consumer.tail, capacity))
  {
    CapacityFits(capacity);
    InitInv(capacity, blank);
    InitAgrees(capacity, blank);
    ExecAgrees(Init(capacity, blank), run);
    ExecInv(Init(capacity, blank), run);
    var exact := Exec(Exact, Init(capacity, blank), run);
    ProducerAgrees(exact);
    ConsumerAgrees(exact);
    IndexAgrees(exact.head, capacity);
    IndexAgrees(exact.tail, capacity);
  }

  /** The guarantees of the unbounded ring, for the ring on 64-bit words. */
  lemma WordRingSafe<T>(capacity: nat, blank: T, run: seq<Action<T>>)
    requires Representable(capacity)
    ensures var words := Exec(Wrapping, Init(capacity, blank), run);
      && InOrder(words)
      && Exclusive(Wrapping, words)
      && (PushRefused(Wrapping, words) <==>
            words.producer.PHasHead? && |words.published| == Released(words) + capacity)
      && (PopRefused(Wrapping, words) <==> words.consumer.CHasTail? && |words.published| == Released(words))
  {
    hide Representable, PushRefused, PopRefused, Init;
    CapacityFits(capacity);
    WordRingRefinesUnbounded(capacity, blank, run);
    FifoOrder(capacity, blank, run);
    SlotExclusion(capacity, blank, run);
    PushRefusedIffFull(capacity, blank, run);
    PopRefusedIffEmpty(capacity, blank, run);
  }

  /**
   Of the capacities the constructor admits and a queue can use, 2^0 to 2^63, exactly those from 2 on
   are safe in every interleaving.
   */
  lemma WordRingSafeIff<T(!new)>(k: nat, blank: T, other: T)
    requires k <= 63 && blank != other
    ensures (forall run: seq<Action<T>> :: Exclusive(Wrapping, Exec(Wrapping, Init(Pow2(k), blank), run))) <==> k >= 1
    ensures (forall run: seq<Action<T>> :: InOrder(Exec(Wrapping, Init(Pow2(k), blank), run))) <==> k >= 1
  {
    if k >= 1 {
      forall run: seq<Action<T>>
        ensures Exclusive(Wrapping, Exec(Wrapping, Init(Pow2(k), blank), run))
        ensures InOrder(Exec(Wrapping, Init(Pow2(k), blank), run))
      {
        WordRingSafe(Pow2(k), blank, run);
      }
    } else {
      CapacityOneOverwrites(Wrapping, blank, other, blank);
      assert Pow2(k) == 1;
      var race := PushCall(other) + OverwriteRace(blank);
      var whole := race + OverwriteFinish();
      assert !Exclusive(Wrapping, Exec(Wrapping, Init(Pow2(k), blank), race));
      assert !InOrder(Exec(Wrapping, Init(Pow2(k), blank), whole));
    }
  }

  /** Four pushes fill a ring of capacity 4, and the fifth is refused. */
  lemma FourthPushAccepted(blank: int)
    ensures var words := Exec(Wrapping, Init(4, blank), Pushes([1, 2, 3, 4]));
      words.published == [1, 2, 3, 4] && Size(words) == 4
    ensures Exec(Wrapping, Init(4, blank), Pushes([1, 2, 3, 4, 5])).published == [1, 2, 3, 4]
  {
    assert Pow2(2) == 4;
    HoldsCapacity(4, blank, [1, 2, 3, 4]);
    HoldsCapacity(4, blank, [1, 2, 3, 4, 5]);
    WordRingRefinesUnbounded(4, blank, Pushes([1, 2, 3, 4]));
    WordRingRefinesUnbounded(4, blank, Pushes([1, 2, 3, 4, 5]));
    SizeExactIff(4, blank, Pushes([1, 2, 3, 4]));
  }

  // ------------------------------------------------------------ size()

  /** `size()` with both counter loads in one state: the 64-bit subtraction. */
  function Size<T>(words: State<T>): nat {
    Sub(words.head, words.tail)
  }

  /** Items published but not yet counted by `head_`: the producer is between its two stores. */
  function Uncounted<T>(s: State<T>): nat {
    if s.producer.PAdvancing? then 1 else 0
  }

  lemma CountersOfWords<T>(capacity: nat, blank: T, run: seq<Action<T>>)
    requires Representable(capacity)
    ensures var words := Exec(Wrapping, Init(capacity, blank), run);
      && words.popped <= words.published
      && |words.published| <= Released(words) + capacity
      && Uncounted(words) <= |words.published|
      && words.head == (|words.published| - Uncounted(words)) % MODULUS
      && words.tail == |words.popped| % MODULUS
  {
    hide Representable;
    CapacityFits(capacity);
    WordRingRefinesUnbounded(capacity, blank, run);
    ReachableInv(capacity, blank, run);
  }

  /** A difference that just exceeds or just falls short of a small count, modulo 2^64. */
  lemma SmallDifference(d: int, capacity: nat)
    requires capacity <= MODULUS / 2 && 0 <= d + 1 && d <= capacity + 1
    ensures d % MODULUS == if d < 0 then MODULUS - 1 else d
  {
    if d < 0 {
      ModUnique(d, MODULUS, -1, MODULUS - 1);
    } else {
      ModUnique(d, MODULUS, 0, d);
    }
  }

  lemma CapacityHalf(capacity: nat)
    requires Representable(capacity)
    ensures 2 <= capacity <= MODULUS / 2
  {
    var k: nat :| 1 <= k <= 63 && capacity == Pow2(k);
    CapacityFits(capacity);
    ModulusIsPower();
    PowSum(k, 63 - k);
    PowSum(1, 63);
    assert Pow2(1) == 2;
    MulGrows(Pow2(63 - k), capacity);
  }

  /**
   When `size()` tells the truth: in every reachable state it is the number of items waiting exactly
   unless the producer is between its two stores, and it exceeds `capacity + 1`, having wrapped
   below zero, exactly when moreover all items are popped.
   */
  lemma SizeExactIff<T>(capacity: nat, blank: T, run: seq<Action<T>>)
    requires Representable(capacity)
    ensures var words := Exec(Wrapping, Init(capacity, blank), run);
      && words.popped <= words.published
      && (Size(words) == |words.published| - |words.popped| <==> !words.producer.PAdvancing?)
      && (Size(words) > capacity + 1 <==> words.producer.PAdvancing? && |words.popped| == |words.published|)
      && (Size(words) > capacity + 1 ==> Size(words) == MODULUS - 1)
      && (!words.producer.PAdvancing? && !words.consumer.CAdvancing? ==> Size(words) <= capacity)
  {
    hide Representable, Exec, Init;
    CapacityHalf(capacity);
    CountersOfWords(capacity, blank, run);
    var words := Exec(Wrapping, Init(capacity, blank), run);
    SubModulo(|words.published| - Uncounted(words), |words.popped|);
    SmallDifference(|words.published| - Uncounted(words) - |words.popped|, capacity);
  }

  /**
   The two loads at different moments: head after run `p`, tail after `p + q`. The number of items
   waiting at the second load comes out exactly when, modulo 2^64, nothing was published in between
   and nothing was uncounted at the first.
   */
  lemma SizeLoadedApart<T>(capacity: nat, blank: T, p: seq<Action<T>>, q: seq<Action<T>>)
    requires Representable(capacity)
    ensures var first := Exec(Wrapping, Init(capacity, blank), p);
      var second := Exec(Wrapping, Init(capacity, blank), p + q);
      && second.popped <= second.published
      && (Sub(first.head, second.tail) == |second.published| - |second.popped| <==>
          (|second.published| - |first.published| + Uncounted(first)) % MODULUS == 0)
  {
    hide Representable, Exec, Init;
    CapacityHalf(capacity);
    CountersOfWords(capacity, blank, p);
    CountersOfWords(capacity, blank, p + q);
    var first := Exec(Wrapping, Init(capacity, blank), p);
    var second := Exec(Wrapping, Init(capacity, blank), p + q);
    SubModulo(|first.published| - Uncounted(first), |second.popped|);
    SameRemainder(|first.published| - Uncounted(first) - |second.popped|, |second.published| - |second.popped|);
  }

  lemma SameRemainder(x: int, n: nat)
    requires n < MODULUS
    ensures x % MODULUS == n <==> (n - x) % MODULUS == 0
  {
    var m := MODULUS as int;
    if x % m == n {
      assert x == (x / m) * m + n;
      ModUnique(n - x, m, -(x / m), 0);
    }
    if (n - x) % m == 0 {
      assert n - x == ((n - x) / m) * m;
      ModUnique(x, m, -((n - x) / m), n);
    }
  }

  predicate ConsumerOnly<T>(q: seq<Action<T>>) {
    forall i :: 0 <= i < |q| ==> q[i].CallPop? || q[i].ConsumerStep?
  }

  predicate ProducerOnly<T>(q: seq<Action<T>>) {
    forall i :: 0 <= i < |q| ==> q[i].CallPush? || q[i].ProducerStep?
  }

  lemma {:induction false} ConsumerLeaves<T>(a: Arith, s: State<T>, q: seq<Action<T>>)
    requires WellFormed(s) && ConsumerOnly(q)
    ensures Exec(a, s, q).producer == s.producer && Exec(a, s, q).published == s.published
    ensures Exec(a, s, q).head == s.head
  {
    if q != [] {
      ConsumerLeaves(a, s, q[..|q| - 1]);
    }
  }

  lemma {:induction false} ProducerLeaves<T>(a: Arith, s: State<T>, q: seq<Action<T>>)
    requires WellFormed(s) && ProducerOnly(q)
    ensures Exec(a, s, q).consumer == s.consumer && Exec(a, s, q).popped == s.popped
    ensures Exec(a, s, q).tail == s.tail
  {
    if q != [] {
      ProducerLeaves(a, s, q[..|q| - 1]);
    }
  }

  /** Called by the producer between its pushes, `size()` is exact at its second load, whatever pops run. */
  lemma SizeReadByProducer<T>(capacity: nat, blank: T, p: seq<Action<T>>, q: seq<Action<T>>)
    requires Representable(capacity) && ConsumerOnly(q)
    requires Exec(Wrapping, Init(capacity, blank), p).producer.PIdle?
    ensures var first := Exec(Wrapping, Init(capacity, blank), p);
      var second := Exec(Wrapping, Init(capacity, blank), p + q);
      second.popped <= second.published && Sub(first.head, second.tail) == |second.published| - |second.popped|
  {
    hide Representable, Exec;
    SizeLoadedApart(capacity, blank, p, q);
    ExecConcat(Wrapping, Init(capacity, blank), p, q);
    ConsumerLeaves(Wrapping, Exec(Wrapping, Init(capacity, blank), p), q);
  }

  /**
   Called by the consumer between its pops, `size()` is the number of items waiting at its first load
   exactly unless that load falls between the producer's two stores.
   */
  lemma SizeReadByConsumer<T>(capacity: nat, blank: T, p: seq<Action<T>>, q: seq<Action<T>>)
    requires Representable(capacity) && ProducerOnly(q)
    requires Exec(Wrapping, Init(capacity, blank), p).consumer.CIdle?
    ensures var first := Exec(Wrapping, Init(capacity, blank), p);
      var second := Exec(Wrapping, Init(capacity, blank), p + q);
      && first.popped <= first.published
      && (Sub(first.head, second.tail) == |first.published| - |first.popped| <==> !first.producer.PAdvancing?)
  {
    hide Representable, Exec;
    SizeExactIff(capacity, blank, p);
    ExecConcat(Wrapping, Init(capacity, blank), p, q);
    ProducerLeaves(Wrapping, Exec(Wrapping, Init(capacity, blank), p), q);
  }

  /** Popped in full between the producer's two stores, an item makes `size()` read 2^64 - 1. */
  lemma SizeCanUnderflow<T>(capacity: nat, blank: T, item: T)
    requires Representable(capacity)
    ensures var words := Exec(Wrapping, Init(capacity, blank),
                              [CallPush(item), ProducerStep, ProducerStep, ProducerStep] + PopCall());
      words.popped == words.published == [item] && Size(words) == MODULUS - 1
  {
    hide Representable, Exec, Init;
    CapacityFits(capacity);
    var run := [CallPush(item), ProducerStep, ProducerStep, ProducerStep] + PopCall();
    PoppedBetweenStores(capacity, blank, item);
    WordRingRefinesUnbounded(capacity, blank, run);
    SizeExactIff(capacity, blank, run);
  }

  lemma PoppedBetweenStores<T>(capacity: nat, blank: T, item: T)
    requires capacity >= 2
    ensures var s := Exec(Exact, Init(capacity, blank),
                          [CallPush(item), ProducerStep, ProducerStep, ProducerStep] + PopCall());
      s.popped == s.published == [item] && s.producer.PAdvancing?
  {
    var s := Init(capacity, blank);
    var push := [CallPush(item), ProducerStep, ProducerStep, ProducerStep];
    ModUnique(0, capacity, 0, 0);
    FourSteps(Exact, s, push);
    var s1 := Exec(Exact, s, push);
    assert s1.slots[0] == Slot(1, item) && s1.head == s1.tail == 0 && s1.published == [item];
    PopAlone(Exact, s1);
    ExecConcat(Exact, s, push, PopCall());
  }
}
