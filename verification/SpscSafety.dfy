/** What every interleaving of the single-producer single-consumer ring guarantees. */
module SpscSafety {
  import opened SpscModel

  function Start<T>(capacity: nat, blank: T, run: seq<Action<T>>): (s: State<T>)
    requires capacity > 0
    ensures WellFormed(s) && s.capacity == capacity
  {
    Exec(Exact, Init(capacity, blank), run)
  }

  lemma ReachableInv<T>(capacity: nat, blank: T, run: seq<Action<T>>)
    requires capacity >= 2
    ensures Inv(Start(capacity, blank, run))
  {
    InitInv(capacity, blank);
    ExecInv(Init(capacity, blank), run);
  }

  /** Popped values are a prefix of the published ones: nothing lost, repeated or reordered. */
  lemma FifoOrder<T>(capacity: nat, blank: T, run: seq<Action<T>>)
    requires capacity >= 2
    ensures InOrder(Start(capacity, blank, run))
    ensures |Start(capacity, blank, run).published| <= Released(Start(capacity, blank, run)) + capacity
  {
    ReachableInv(capacity, blank, run);
  }

  /** A pending write and a pending read are never on the same slot. */
  lemma SlotExclusion<T>(capacity: nat, blank: T, run: seq<Action<T>>)
    requires capacity >= 2
    ensures Exclusive(Exact, Start(capacity, blank, run))
  {
    ReachableInv(capacity, blank, run);
    var s := Start(capacity, blank, run);
    if s.producer.PWriting? && s.consumer.CReading? {
      DistinctSlots(s.producer.head, s.consumer.tail, capacity);
    }
  }

  /** The sequence load refuses a push exactly when `capacity` items are unreleased. */
  lemma PushRefusedIffFull<T>(capacity: nat, blank: T, run: seq<Action<T>>)
    requires capacity >= 2
    ensures var s := Start(capacity, blank, run);
      PushRefused(Exact, s) <==>
      s.producer.PHasHead? && |s.published| == Released(s) + capacity
  {
    ReachableInv(capacity, blank, run);
    var s := Start(capacity, blank, run);
    if s.producer.PHasHead? {
      if |s.published| == Released(s) + capacity {
        PreviousLap(s);
      } else {
        assert SlotHolds(s, s.head);
      }
    }
  }

  /** The sequence load refuses a pop exactly when nothing is published. */
  lemma PopRefusedIffEmpty<T>(capacity: nat, blank: T, run: seq<Action<T>>)
    requires capacity >= 2
    ensures var s := Start(capacity, blank, run);
      PopRefused(Exact, s) <==> s.consumer.CHasTail? && |s.published| == Released(s)
  {
    ReachableInv(capacity, blank, run);
    var s := Start(capacity, blank, run);
    if s.consumer.CHasTail? {
      assert SlotHolds(s, s.tail);
    }
  }

  /** The counters stay within a lap of one another, one step of each thread aside. */
  lemma CountersClose<T>(capacity: nat, blank: T, run: seq<Action<T>>)
    requires capacity >= 2
    ensures var s := Start(capacity, blank, run);
      && -1 <= s.head - s.tail <= capacity + 1
      && (s.producer.PIdle? && s.consumer.CIdle? ==> s.head - s.tail == |s.published| - |s.popped|)
  {
    ReachableInv(capacity, blank, run);
  }

  /** One uninterrupted call of `try_push`, and of `try_pop`. */
  function PushCall<T>(item: T): seq<Action<T>> {
    [CallPush(item), ProducerStep, ProducerStep, ProducerStep, ProducerStep]
  }

  function PopCall<T>(): seq<Action<T>> {
    [CallPop, ConsumerStep, ConsumerStep, ConsumerStep, ConsumerStep]
  }

  lemma {:induction false} ExecConcat<T>(a: Arith, s: State<T>, p: seq<Action<T>>, q: seq<Action<T>>)
    requires WellFormed(s)
    ensures Exec(a, s, p + q) == Exec(a, Exec(a, s, p), q)
  {
    if q == [] {
      assert p + q == p;
    } else {
      var q' := q[..|q| - 1];
      assert (p + q)[..|p + q| - 1] == p + q';
      ExecConcat(a, s, p, q');
    }
  }

  lemma ExecOne<T>(a: Arith, s: State<T>, x: Action<T>)
    requires WellFormed(s)
    ensures Exec(a, s, [x]) == Step(a, s, x)
  {
    assert [x][..0] == [];
    assert Exec(a, s, [x][..0]) == s;
  }

  lemma ExecFirst<T>(a: Arith, s: State<T>, x: Action<T>, rest: seq<Action<T>>)
    requires WellFormed(s)
    ensures Exec(a, s, [x] + rest) == Exec(a, Step(a, s, x), rest)
  {
    ExecConcat(a, s, [x], rest);
    ExecOne(a, s, x);
  }

  /** An uninterrupted call, written out step by step. */
  lemma FiveSteps<T>(a: Arith, s: State<T>, x: Action<T>, y: Action<T>)
    requires WellFormed(s)
    ensures Exec(a, s, [x, y, y, y, y]) == Step(a, Step(a, Step(a, Step(a, Step(a, s, x), y), y), y), y)
  {
    assert [x, y, y, y, y] == [x] + ([y] + ([y] + ([y] + [y])));
    var s1 := Step(a, s, x);
    var s2 := Step(a, s1, y);
    var s3 := Step(a, s2, y);
    var s4 := Step(a, s3, y);
    ExecFirst(a, s, x, [y] + ([y] + ([y] + [y])));
    ExecFirst(a, s1, y, [y] + ([y] + [y]));
    ExecFirst(a, s2, y, [y] + [y]);
    ExecFirst(a, s3, y, [y]);
    ExecOne(a, s4, y);
  }

  /** The five steps of an uninterrupted `try_push`, taken together. */
  lemma PushAlone<T>(a: Arith, s: State<T>, item: T)
    requires WellFormed(s) && s.producer.PIdle?
    ensures var i := a.Index(s.head, s.capacity);
      Exec(a, s, PushCall(item)) ==
      if s.slots[i].sequence != s.head then s
      else s.(head := a.Plus(s.head, 1), slots := s.slots[i := Slot(a.Plus(s.head, 1), item)],
              published := s.published + [item])
  {
    FiveSteps(a, s, CallPush(item), ProducerStep);
  }

  /** The five steps of an uninterrupted `try_pop`, taken together. */
  lemma PopAlone<T>(a: Arith, s: State<T>)
    requires WellFormed(s) && s.consumer.CIdle?
    ensures var i := a.Index(s.tail, s.capacity);
      Exec(a, s, PopCall()) ==
      if s.slots[i].sequence != a.Plus(s.tail, 1) then s
      else s.(tail := a.Plus(s.tail, 1),
              slots := s.slots[i := s.slots[i].(sequence := a.Plus(s.tail, s.capacity))],
              popped := s.popped + [s.slots[i].data])
  {
    FiveSteps(a, s, CallPop, ConsumerStep);
  }

  // ------------------------------------------------------------ room for exactly `capacity` items

  /** One uninterrupted push after another. */
  function Pushes<T>(items: seq<T>): seq<Action<T>> {
    if items == [] then [] else Pushes(items[..|items| - 1]) + PushCall(items[|items| - 1])
  }

  /** Without pops the ring takes `capacity` items and refuses every further one. */
  lemma {:induction false} HoldsCapacity<T>(capacity: nat, blank: T, items: seq<T>)
    requires capacity >= 2
    ensures var s := Start(capacity, blank, Pushes(items));
      && s.producer.PIdle? && s.consumer.CIdle? && s.popped == []
      && s.published == if |items| <= capacity then items else items[..capacity]
  {
    if items == [] {
      assert Start(capacity, blank, []) == Init(capacity, blank);
    } else {
      var most, last := items[..|items| - 1], items[|items| - 1];
      HoldsCapacity(capacity, blank, most);
      var s := Start(capacity, blank, Pushes(most));
      var run := Pushes(most) + [CallPush(last)];
      assert run[..|run| - 1] == Pushes(most);
      PushRefusedIffFull(capacity, blank, run);
      ExecConcat(Exact, Init(capacity, blank), Pushes(most), PushCall(last));
      PushAlone(Exact, s, last);
      assert items == most + [last];
      assert |most| >= capacity ==> items[..capacity] == most[..capacity];
    }
  }

  // ------------------------------------------------------------ the capacity precondition

  function OverwriteRace<T>(second: T): seq<Action<T>> {
    [CallPop, ConsumerStep, CallPush(second), ProducerStep]
  }

  function OverwriteFinish<T>(): seq<Action<T>> {
    [ProducerStep, ConsumerStep, ConsumerStep, ConsumerStep]
  }

  lemma FillOne<T>(a: Arith, blank: T, first: T)
    ensures Exec(a, Init(1, blank), PushCall(first)) ==
            State(1, 1, 0, [Slot(1, first)], PIdle, CIdle, [first], [])
  {
    var s := Init(1, blank);
    FiveSteps(a, s, CallPush(first), ProducerStep);
    assert s.slots == [Slot(0, blank)];
    var s4 := Step(a, Step(a, Step(a, Step(a, s, CallPush(first)), ProducerStep), ProducerStep), ProducerStep);
    assert s4 == State(1, 0, 0, [Slot(1, first)], PAdvancing(0), CIdle, [first], []);
  }

  lemma RaceOne<T>(a: Arith, first: T, second: T)
    ensures Exec(a, State(1, 1, 0, [Slot(1, first)], PIdle, CIdle, [first], []), OverwriteRace(second)) ==
            State(1, 1, 0, [Slot(1, first)], PWriting(second, 1), CReading(0), [first], [])
  {
    FourSteps(a, State(1, 1, 0, [Slot(1, first)], PIdle, CIdle, [first], []), OverwriteRace(second));
  }

  lemma FinishOne<T>(a: Arith, first: T, second: T)
    ensures Exec(a, State(1, 1, 0, [Slot(1, first)], PWriting(second, 1), CReading(0), [first], []),
                 OverwriteFinish()) ==
            State(1, 1, 1, [Slot(1, second)], PPublishing(second, 1), CIdle, [first], [second])
  {
    var s := State(1, 1, 0, [Slot(1, first)], PWriting(second, 1), CReading(0), [first], []);
    FourSteps(a, s, OverwriteFinish());
    var s1 := Step(a, s, ProducerStep);
    assert s1.slots == [Slot(1, second)];
    var s2 := Step(a, s1, ConsumerStep);
    assert s2.consumer == CReleasing(0, second);
    var s3 := Step(a, s2, ConsumerStep);
    assert s3.slots == [Slot(1, second)];
  }

  /**
   At capacity 1 a filled slot looks free, in either arithmetic, so a second push overwrites what is
   being read.
   */
  lemma CapacityOneOverwrites<T>(a: Arith, blank: T, first: T, second: T)
    ensures !Exclusive(a, Exec(a, Init(1, blank), PushCall(first) + OverwriteRace(second)))
    ensures first != second ==>
      !InOrder(Exec(a, Init(1, blank), PushCall(first) + OverwriteRace(second) + OverwriteFinish()))
  {
    var s := Init(1, blank);
    FillOne(a, blank, first);
    RaceOne(a, first, second);
    FinishOne(a, first, second);
    ExecConcat(a, s, PushCall(first), OverwriteRace(second));
    ExecConcat(a, s, PushCall(first) + OverwriteRace(second), OverwriteFinish());
    assert first != second ==> [second][0] != [first][0];
  }

  lemma FourSteps<T>(a: Arith, s: State<T>, run: seq<Action<T>>)
    requires WellFormed(s) && |run| == 4
    ensures Exec(a, s, run) == Step(a, Step(a, Step(a, Step(a, s, run[0]), run[1]), run[2]), run[3])
  {
    assert run == [run[0]] + ([run[1]] + ([run[2]] + [run[3]]));
    var s1 := Step(a, s, run[0]);
    var s2 := Step(a, s1, run[1]);
    ExecFirst(a, s, run[0], [run[1]] + ([run[2]] + [run[3]]));
    ExecFirst(a, s1, run[1], [run[2]] + [run[3]]);
    ExecFirst(a, s2, run[2], [run[3]]);
    ExecOne(a, Step(a, s2, run[2]), run[3]);
  }

  /** The ring is safe in every interleaving exactly from capacity 2 on. */
  lemma SafeIffCapacityAtLeastTwo<T(!new)>(capacity: nat, blank: T, other: T)
    requires capacity > 0 && blank != other
    ensures (forall run: seq<Action<T>> :: Exclusive(Exact, Start(capacity, blank, run))) <==> capacity >= 2
    ensures (forall run: seq<Action<T>> :: InOrder(Start(capacity, blank, run))) <==> capacity >= 2
  {
    if capacity >= 2 {
      forall run: seq<Action<T>>
        ensures Exclusive(Exact, Start(capacity, blank, run)) && InOrder(Start(capacity, blank, run))
      {
        SlotExclusion(capacity, blank, run);
        FifoOrder(capacity, blank, run);
      }
    } else {
      CapacityOneOverwrites(Exact, blank, other, blank);
      assert !Exclusive(Exact, Start(capacity, blank, PushCall(other) + OverwriteRace(blank)));
      assert !InOrder(Start(capacity, blank, PushCall(other) + OverwriteRace(blank) + OverwriteFinish()));
    }
  }
}
