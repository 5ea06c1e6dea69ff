/**
 The ring as an object: the bodies of its methods, each run without interruption while the other thread
 rests anywhere inside its own call.
 */
module SpscQueue {
  import opened Words
  import opened SpscModel
  import opened SpscSafety
  import opened SpscWraparound

  class SPSCQueue<T> {
    var head: nat
    var tail: nat
    const capacity: nat
    const mask: nat
    const buffer: array<Slot<T>>

    // the item of a default-constructed node, where the two threads are, and what the queue has been through
    ghost const blank: T
    ghost var producer: Producer<T>
    ghost var consumer: Consumer<T>
    ghost var run: seq<Action<T>>
    ghost var published: seq<T>
    ghost var popped: seq<T>

    /** The word machine's state. */
    ghost function View(): State<T>
      reads this, buffer
    {
      State(capacity, head, tail, buffer[..], producer, consumer, published, popped)
    }

    ghost predicate Valid()
      reads this, buffer
    {
      && buffer.Length == capacity < MODULUS
      && mask == Sub(capacity, 1)
      && (capacity > 0 ==> View() == Exec(Wrapping, Init(capacity, blank), run))
    }

    /** The items waiting in the queue, oldest first. */
    ghost function Contents(): seq<T>
      reads this
      requires popped <= published
    {
      published[|popped|..]
    }

    constructor (capacity: nat, blank: T)
      requires capacity < MODULUS
      ensures Valid() && fresh(buffer) && this.capacity == capacity
      ensures published == popped == [] && producer == PIdle && consumer == CIdle
      ensures head == tail == 0 && forall i :: 0 <= i < capacity ==> buffer[i].sequence == i
    {
      this.capacity := capacity;
      mask := Sub(capacity, 1);
      head, tail := 0, 0;
      buffer := new Slot<T>[capacity](_ => Slot(0, blank));
      this.blank := blank;
      run, published, popped := [], [], [];
      producer, consumer := PIdle, CIdle;
      new;
      for i := 0 to capacity
        modifies buffer
        invariant forall j :: 0 <= j < i ==> buffer[j] == Slot(j, blank)
      {
        buffer[i] := Slot(i, blank);
      }
      assert capacity > 0 ==> buffer[..] == Init(capacity, blank).slots;
    }

    /**
     The check of the constructor: no queue for a capacity that is neither zero nor a power of
     two. (A queue of capacity zero is built, but has no slot to push into.)
     */
    static method Create(capacity: nat, blank: T) returns (queue: SPSCQueue?<T>)
      requires capacity < MODULUS
      ensures queue == null <==> capacity != 0 && !IsPow2(capacity)
      ensures queue != null ==> fresh(queue) && fresh(queue.buffer) && queue.Valid()
      ensures queue != null ==> queue.capacity == capacity && queue.published == queue.popped == []
    {
      hide And, Exec, Init, IsPow2;
      if capacity > 0 {
        ClearLowestBit(capacity);
      }
      if And(capacity, Sub(capacity, 1)) != 0 {
        return null;
      }
      queue := new SPSCQueue(capacity, blank);
    }

    /** `try_push`, wherever the consumer is: refused exactly when `capacity` items are unreleased. */
    method TryPush(item: T) returns (ok: bool)
      requires Valid() && capacity > 0 && producer.PIdle?
      modifies this, buffer
      ensures Valid()
      ensures View() == Exec(Wrapping, old(View()), PushCall(item))
      ensures popped == old(popped) && producer == PIdle && consumer == old(consumer)
      ensures Representable(capacity) ==> popped <= old(published)
      ensures Representable(capacity) ==> ok == (|old(published)| < Released(old(View())) + capacity)
      ensures published == if ok then old(published) + [item] else old(published)
    {
      hide Exec, Init, PushCall, Representable, And, Add;
      PushAlone(Wrapping, View(), item);
      ExecConcat(Wrapping, Init(capacity, blank), run, PushCall(item));
      if Representable(capacity) {
        PushWhenIdle(capacity, blank, run, item);
      }
      ghost var after := Exec(Wrapping, View(), PushCall(item));
      run := run + PushCall(item);

      var h := head;
      var i := And(h, mask);
      if buffer[i].sequence != h {
        return false;
      }
      buffer[i] := buffer[i].(data := item);
      buffer[i] := buffer[i].(sequence := Add(h, 1));
      assert buffer[..] == after.slots;
      published := published + [item];
      head := Add(h, 1);
      return true;
    }

    /** `try_pop`, wherever the producer is: nothing exactly when all that is published is popped. */
    method TryPop() returns (item: Option<T>)
      requires Valid() && capacity > 0 && consumer.CIdle?
      modifies this, buffer
      ensures Valid()
      ensures View() == Exec(Wrapping, old(View()), PopCall())
      ensures published == old(published) && consumer == CIdle && producer == old(producer)
      ensures popped == if item.Some? then old(popped) + [item.value] else old(popped)
      ensures Representable(capacity) ==> popped <= published
      ensures Representable(capacity) ==> (item == None <==> |old(popped)| == |published|)
    {
      hide Exec, Init, PopCall, Representable, And, Add;
      PopAlone(Wrapping, View());
      ExecConcat(Wrapping, Init(capacity, blank), run, PopCall());
      if Representable(capacity) {
        PopWhenIdle(capacity, blank, run);
      }
      ghost var after := Exec(Wrapping, View(), PopCall());
      run := run + PopCall();

      var t := tail;
      var i := And(t, mask);
      if buffer[i].sequence != Add(t, 1) {
        return None;
      }
      var result := buffer[i].data;
      buffer[i] := buffer[i].(sequence := Add(t, capacity));
      assert buffer[..] == after.slots;
      tail := Add(t, 1);
      popped := popped + [result];
      return Some(result);
    }

    /**
     `size()` is the number of items waiting, whatever the counters have wrapped to, exactly unless the
     producer is between its two stores; then it is one less, modulo 2^64.
     */
    method GetSize() returns (n: nat)
      requires Valid() && capacity > 0
      ensures n == Size(View())
      ensures Representable(capacity) ==> popped <= published
      ensures Representable(capacity) ==> (n == |Contents()| <==> !producer.PAdvancing?)
      ensures Representable(capacity) ==> n == (|Contents()| - Uncounted(View())) % MODULUS
    {
      if Representable(capacity) {
        SizeExactIff(capacity, blank, run);
        CountersOfWords(capacity, blank, run);
        SubModulo(|published| - Uncounted(View()), |popped|);
      }
      n := Sub(head, tail);
    }

    method IsEmpty() returns (empty: bool)
      requires Valid() && capacity > 0
      ensures Representable(capacity) ==> popped <= published && (empty <==> |Contents()| == Uncounted(View()))
    {
      if Representable(capacity) {
        CapacityHalf(capacity);
        CountersOfWords(capacity, blank, run);
        SmallDifference(|published| - Uncounted(View()) - |popped|, capacity);
      }
      var n := GetSize();
      empty := n == 0;
    }
  }

  /** A push not yet begun is refused exactly when `capacity` items are unreleased. */
  lemma PushWhenIdle<T>(capacity: nat, blank: T, run: seq<Action<T>>, item: T)
    requires Representable(capacity)
    requires Exec(Wrapping, Init(capacity, blank), run).producer.PIdle?
    ensures var s := Exec(Wrapping, Init(capacity, blank), run);
      && s.popped <= s.published
      && (s.slots[Wrapping.Index(s.head, capacity)].sequence != s.head <==>
          |s.published| == Released(s) + capacity)
      && |s.published| <= Released(s) + capacity
  {
    CapacityFits(capacity);
    var run' := run + [CallPush(item)];
    assert run'[..|run'| - 1] == run;
    WordRingRefinesUnbounded(capacity, blank, run);
    FifoOrder(capacity, blank, run);
    WordRingSafe(capacity, blank, run');
  }

  /** A pop not yet begun finds nothing exactly when all is popped, and else the oldest item. */
  lemma PopWhenIdle<T>(capacity: nat, blank: T, run: seq<Action<T>>)
    requires Representable(capacity)
    requires Exec(Wrapping, Init(capacity, blank), run).consumer.CIdle?
    ensures var s := Exec(Wrapping, Init(capacity, blank), run);
      && s.popped <= s.published
      && (s.slots[Wrapping.Index(s.tail, capacity)].sequence != Wrapping.Plus(s.tail, 1) <==>
          |s.popped| == |s.published|)
      && Exec(Wrapping, s, PopCall()).popped <= s.published
  {
    CapacityFits(capacity);
    var run' := run + [CallPop];
    assert run'[..|run'| - 1] == run;
    WordRingSafe(capacity, blank, run);
    WordRingSafe(capacity, blank, run');
    var whole := run + PopCall<T>();
    var start := Init(capacity, blank);
    ExecConcat(Wrapping, start, run, PopCall());
    PopAlone(Wrapping, Exec(Wrapping, start, run));
    WordRingSafe(capacity, blank, whole);
  }
}
