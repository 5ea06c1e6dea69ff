/** The linked queue as an object: the bodies of its methods, each run without interruption. */
module MpscQueue {
  import opened Words
  import opened MpscModel
  import opened MpscSafety

  lemma {:induction false} ExecConcat<T>(s: State<T>, p: seq<Action<T>>, q: seq<Action<T>>)
    requires Exec(s, p).Ok?
    ensures Exec(s, p + q) == Exec(Exec(s, p).state, q)
  {
    if q == [] {
      assert p + q == p;
    } else {
      assert (p + q)[..|p + q| - 1] == p + q[..|q| - 1];
      ExecConcat(s, p, q[..|q| - 1]);
    }
  }

  /** One step more at the end of a run. */
  lemma ExecSnoc<T>(s: State<T>, p: seq<Action<T>>, x: Action<T>)
    requires Exec(s, p).Ok?
    ensures Exec(s, p + [x]) == Step(Exec(s, p).state, x)
  {
    assert (p + [x])[..|p + [x]| - 1] == p;
  }

  function PushCall<T>(pid: Pid, item: T, addr: Addr): seq<Action<T>> {
    [New(pid, item, addr)] + [Exchange(pid)] + [Link(pid)]
  }

  function PopCall<T>(leftover: T): seq<Action<T>> {
    [LoadTail] + [LoadNext] + [MoveData(leftover)] + [StoreTail] + [Delete]
  }

  /** The three steps of an uninterrupted `push`, taken together. */
  lemma PushAlone<T>(s: State<T>, pid: Pid, item: T, addr: Addr)
    requires Inv(s) && pid !in s.producers && addr !in s.heap
    ensures var linked := s.heap[addr := Node(None, item)];
      Exec(s, PushCall(pid, item, addr)) ==
      Ok(s.(heap := linked[s.head := linked[s.head].(next := Some(addr))], head := addr,
            calls := s.calls + [Call(pid, item)], exchanged := s.exchanged + [Call(pid, item)],
            nodes := s.nodes + [addr]))
  {
    ExecSnoc(s, [], New(pid, item, addr));
    ExecSnoc(s, [New(pid, item, addr)], Exchange(pid));
    ExecSnoc(s, [New(pid, item, addr)] + [Exchange(pid)], Link(pid));
    assert s.producers[pid := Allocated(addr, item)][pid := Exchanged(s.head, addr, |s.exchanged|)] - {pid} == s.producers;
    assert s.head in s.heap;
  }

  /** The five steps of an uninterrupted `try_pop`, taken together. */
  lemma PopAlone<T>(s: State<T>, leftover: T)
    requires Inv(s) && s.consumer.CIdle?
    ensures s.tail in s.heap
    ensures s.heap[s.tail].next == None ==> Exec(s, PopCall(leftover)) == Ok(s)
    ensures s.heap[s.tail].next.Some? ==>
      var next := s.heap[s.tail].next.value;
      && next in s.heap && next != s.tail
      && |s.popped| < |s.exchanged| && s.heap[next].data == s.exchanged[|s.popped|].item
      && Exec(s, PopCall(leftover)) ==
         Ok(s.(heap := s.heap[next := s.heap[next].(data := leftover)] - {s.tail}, tail := next,
               popped := s.popped + [s.heap[next].data]))
  {
    ExecSnoc(s, [], LoadTail);
    ExecSnoc(s, [LoadTail], LoadNext);
    var p := [LoadTail] + [LoadNext];
    var s2 := Exec(s, p).state;
    if Taken(s) < |s.exchanged| {
      assert LinkOk(s, Taken(s));
      assert DataOk(s, Taken(s) + 1);
    }
    ExecSnoc(s, p, MoveData(leftover));
    ExecSnoc(s, p + [MoveData(leftover)], StoreTail);
    ExecSnoc(s, p + [MoveData(leftover)] + [StoreTail], Delete);
  }

  class MPSCQueue<T> {
    // allocated nodes by address, and the two atomic pointers
    var heap: map<Addr, Node<T>>
    var head: Addr
    var tail: Addr

    // pushes of other threads in flight, and what the queue has been through
    ghost const sentinel: Addr
    ghost const blank: T
    ghost var run: seq<Action<T>>
    ghost var producers: map<Pid, Producer<T>>
    ghost var calls: seq<Call<T>>
    ghost var exchanged: seq<Call<T>>
    ghost var nodes: seq<Addr>
    ghost var popped: seq<T>

    ghost function View(): State<T>
      reads this
    {
      State(heap, head, tail, producers, CIdle, calls, exchanged, nodes, popped)
    }

    ghost predicate Valid()
      reads this
    {
      View() == Reach(sentinel, blank, run)
    }

    constructor (sentinel: Addr, blank: T)
      ensures Valid()
      ensures producers == map[] && popped == [] && exchanged == []
      ensures heap == map[sentinel := Node(None, blank)] && head == tail == sentinel
    {
      heap := map[sentinel := Node(None, blank)];
      head, tail := sentinel, sentinel;
      this.sentinel, this.blank := sentinel, blank;
      run, producers, calls, exchanged, nodes, popped := [], map[], [], [], [sentinel], [];
    }

    /** `push` run through by one producer; the allocator picks any free address. */
    method Push(ghost pid: Pid, item: T, node: Addr)
      requires Valid() && pid !in producers && node !in heap
      modifies this
      ensures Valid()
      ensures Exec(old(View()), PushCall(pid, item, node)) == Ok(View())
      ensures exchanged == old(exchanged) + [Call(pid, item)] && popped == old(popped)
      ensures producers == old(producers)
    {
      hide Exec, PushCall, Init;
      PushAlone(View(), pid, item, node);
      ExecConcat(Init(sentinel, blank), run, PushCall(pid, item, node));
      run := run + PushCall(pid, item, node);

      heap := heap[node := Node(None, item)];
      var prev := head;
      head := node;
      heap := heap[prev := heap[prev].(next := Some(node))];

      calls := calls + [Call(pid, item)];
      exchanged := exchanged + [Call(pid, item)];
      nodes := nodes + [node];
    }

    /** `try_pop` run through: the oldest exchanged item, unless it is missing or not yet linked. */
    method TryPop(leftover: T) returns (item: Option<T>)
      requires Valid()
      modifies this
      ensures Valid()
      ensures Exec(old(View()), PopCall(leftover)) == Ok(View())
      ensures exchanged == old(exchanged) && producers == old(producers)
      ensures item.Some? ==>
        |old(popped)| < |exchanged| && item.value == exchanged[|old(popped)|].item && popped == old(popped) + [item.value]
      ensures item == None ==> View() == old(View())
      ensures producers == map[] ==> (item == None <==> |old(popped)| == |exchanged|)
    {
      hide Exec, PopCall;
      PopAlone(View(), leftover);
      ExecConcat(Init(sentinel, blank), run, PopCall(leftover));
      if |popped| < |exchanged| {
        assert LinkOk(View(), |popped|);
      }
      run := run + PopCall(leftover);

      var t := tail;
      var next := heap[t].next;
      if next == None {
        return None;
      }
      var result := heap[next.value].data;
      heap := heap[next.value := heap[next.value].(data := leftover)];
      tail := next.value;
      heap := heap - {t};

      popped := popped + [result];
      return Some(result);
    }

    /**
     The destructor, run once no push is in flight: it pops what is left in order and frees the
     last node, after which nothing is allocated.
     */
    method Destroy(leftover: T)
      requires Valid() && producers == map[]
      modifies this
      ensures heap == map[]
      ensures exchanged == old(exchanged) && old(popped) <= popped == Items(exchanged)
    {
      var item := TryPop(leftover);
      while item.Some?
        invariant Valid() && producers == map[] && exchanged == old(exchanged)
        invariant old(popped) <= popped
        invariant item == None ==> |popped| == |exchanged|
        invariant |popped| <= |exchanged|
        decreases |exchanged| - |popped|, if item.Some? then 1 else 0
      {
        item := TryPop(leftover);
      }
      LastNode(sentinel, blank, run);
      var front := head;
      heap := heap - {front};
    }
  }

  /** In an empty, quiet queue the head is the only node allocated. */
  lemma LastNode<T>(sentinel: Addr, blank: T, run: seq<Action<T>>)
    ensures var s := Reach(sentinel, blank, run);
      |s.popped| == |s.exchanged| && s.producers == map[] && s.consumer.CIdle? ==>
        s.heap.Keys == {s.head} && s.popped == Items(s.exchanged)
  {
    NoLeakWhenIdle(sentinel, blank, run);
    ExchangeOrder(sentinel, blank, run);
    var s := Reach(sentinel, blank, run);
    if |s.popped| == |s.exchanged| && s.producers == map[] && s.consumer.CIdle? {
      assert s.nodes[|s.popped|..] == [s.head];
    }
  }
}
