/**
 The multi-producer single-consumer linked queue as a transition system over an explicit heap.
 Any number of producers run `push`, one consumer runs `try_pop`; every atomic operation, data
 move, allocation and deallocation is one step. The allocator may return any address that is
 not allocated, including one freed earlier. A step that dereferences or frees an address that
 is not allocated is a fault.
 */
module MpscModel {
  import opened Words

  type Addr = nat
  type Pid = nat

  datatype Node<T> = Node(next: Option<Addr>, data: T)

  /** A `push` in flight: the node is still private, or it is the head but not yet linked. */
  datatype Producer<T> =
    | Allocated(node: Addr, item: T)
    | Exchanged(prev: Addr, node: Addr, ticket: nat)

  datatype Consumer<T> =
    | CIdle
    | CHasTail(tail: Addr)
    | CHasNext(tail: Addr, next: Addr)
    | CHasValue(tail: Addr, next: Addr, value: T)
    | CMoved(tail: Addr, value: T)

  datatype Call<T> = Call(pid: Pid, item: T)

  /**
   `producers` holds the pushes in flight. The last four fields are histories: the calls in the
   order they began, the calls in the order of their exchanges, the nodes in that order with the
   first sentinel in front, and the values returned. A ticket is a position in `exchanged`.
   */
  datatype State<T> = State(
    heap: map<Addr, Node<T>>,
    head: Addr,
    tail: Addr,
    producers: map<Pid, Producer<T>>,
    consumer: Consumer<T>,
    calls: seq<Call<T>>,
    exchanged: seq<Call<T>>,
    nodes: seq<Addr>,
    popped: seq<T>)

  /** `leftover` is whatever moving the item out leaves behind in the node. */
  datatype Action<T> =
    | New(pid: Pid, item: T, addr: Addr)
    | Exchange(pid: Pid)
    | Link(pid: Pid)
    | LoadTail
    | LoadNext
    | MoveData(leftover: T)
    | StoreTail
    | Delete

  datatype Outcome<T> = Ok(state: State<T>) | Fault

  function Init<T>(sentinel: Addr, blank: T): State<T> {
    State(map[sentinel := Node(None, blank)], sentinel, sentinel, map[], CIdle, [], [], [sentinel], [])
  }

  function ProducerStep<T>(s: State<T>, x: Action<T>): Outcome<T>
    requires x.New? || x.Exchange? || x.Link?
  {
    match x
    case New(pid, item, addr) =>
      if pid in s.producers || addr in s.heap then Ok(s)
      else Ok(s.(heap := s.heap[addr := Node(None, item)],
                 producers := s.producers[pid := Allocated(addr, item)],
                 calls := s.calls + [Call(pid, item)]))
    case Exchange(pid) =>
      if pid !in s.producers || !s.producers[pid].Allocated? then Ok(s)
      else
        var p := s.producers[pid];
        Ok(s.(head := p.node,
              producers := s.producers[pid := Exchanged(s.head, p.node, |s.exchanged|)],
              exchanged := s.exchanged + [Call(pid, p.item)],
              nodes := s.nodes + [p.node]))
    case Link(pid) =>
      if pid !in s.producers || !s.producers[pid].Exchanged? then Ok(s)
      else
        var p := s.producers[pid];
        if p.prev !in s.heap then Fault
        else Ok(s.(heap := s.heap[p.prev := s.heap[p.prev].(next := Some(p.node))],
                   producers := s.producers - {pid}))
  }

  function ConsumerStep<T>(s: State<T>, x: Action<T>): Outcome<T>
    requires !(x.New? || x.Exchange? || x.Link?)
  {
    match x
    case LoadTail =>
      if !s.consumer.CIdle? then Ok(s) else Ok(s.(consumer := CHasTail(s.tail)))
    case LoadNext =>
      if !s.consumer.CHasTail? then Ok(s)
      else if s.consumer.tail !in s.heap then Fault
      else
        var next := s.heap[s.consumer.tail].next;
        Ok(s.(consumer := if next == None then CIdle else CHasNext(s.consumer.tail, next.value)))
    case MoveData(leftover) =>
      if !s.consumer.CHasNext? then Ok(s)
      else if s.consumer.next !in s.heap then Fault
      else
        var n := s.consumer.next;
        Ok(s.(heap := s.heap[n := s.heap[n].(data := leftover)],
              consumer := CHasValue(s.consumer.tail, n, s.heap[n].data)))
    case StoreTail =>
      if !s.consumer.CHasValue? then Ok(s)
      else Ok(s.(tail := s.consumer.next, consumer := CMoved(s.consumer.tail, s.consumer.value)))
    case Delete =>
      if !s.consumer.CMoved? then Ok(s)
      else if s.consumer.tail !in s.heap then Fault
      else Ok(s.(heap := s.heap - {s.consumer.tail}, consumer := CIdle,
                 popped := s.popped + [s.consumer.value]))
  }

  function Step<T>(s: State<T>, x: Action<T>): Outcome<T> {
    if x.New? || x.Exchange? || x.Link? then ProducerStep(s, x) else ConsumerStep(s, x)
  }

  /** The outcome of an interleaving; a fault is final. */
  function Exec<T>(s: State<T>, run: seq<Action<T>>): Outcome<T> {
    if run == [] then Ok(s)
    else
      match Exec(s, run[..|run| - 1])
      case Fault => Fault
      case Ok(t) => Step(t, run[|run| - 1])
  }

  /** Items taken out of the queue, the one being handed over included. */
  function Taken<T>(s: State<T>): nat {
    |s.popped| + if s.consumer.CMoved? then 1 else 0
  }

  function Items<T>(calls: seq<Call<T>>): (r: seq<T>)
    ensures |r| == |calls|
    ensures forall i :: 0 <= i < |calls| ==> r[i] == calls[i].item
  {
    seq(|calls|, (i: nat) requires i < |calls| => calls[i].item)
  }

  /** The calls of one producer. */
  function By<T>(calls: seq<Call<T>>, pid: Pid): seq<Call<T>> {
    if calls == [] then []
    else
      By(calls[..|calls| - 1], pid) +
      if calls[|calls| - 1].pid == pid then [calls[|calls| - 1]] else []
  }

  // ---------------------------------------------------------------- the invariant
  // The queue is the list nodes[Taken..]: the sentinel first, the head last.

  ghost predicate Shape<T>(s: State<T>) {
    && |s.nodes| == |s.exchanged| + 1
    && Taken(s) <= |s.exchanged|
    && s.tail == s.nodes[Taken(s)]
    && s.head == s.nodes[|s.exchanged|]
    && (forall k :: Taken(s) <= k < |s.nodes| ==> s.nodes[k] in s.heap)
    && (forall j, k :: Taken(s) <= j < k < |s.nodes| ==> s.nodes[j] != s.nodes[k])
  }

  ghost predicate OutsideList<T>(s: State<T>, a: Addr) {
    forall k :: Taken(s) <= k < |s.nodes| ==> s.nodes[k] != a
  }

  /** The link after the `k`-th node is stored, or its producer is about to store it. */
  ghost predicate LinkOk<T>(s: State<T>, k: nat)
    requires Shape(s) && Taken(s) <= k < |s.exchanged|
  {
    var pid := s.exchanged[k].pid;
    || s.heap[s.nodes[k]].next == Some(s.nodes[k + 1])
    || (s.heap[s.nodes[k]].next == None && pid in s.producers &&
        s.producers[pid] == Exchanged(s.nodes[k], s.nodes[k + 1], k))
  }

  ghost predicate Doomed<T>(s: State<T>, a: Addr) {
    s.consumer.CMoved? && s.consumer.tail == a
  }

  ghost predicate ProducerOk<T>(s: State<T>, pid: Pid)
    requires Shape(s) && pid in s.producers
  {
    match s.producers[pid]
    case Allocated(node, item) =>
      node in s.heap && s.heap[node] == Node(None, item) && OutsideList(s, node) && !Doomed(s, node)
    case Exchanged(prev, node, k) =>
      && Taken(s) <= k < |s.exchanged| && s.exchanged[k].pid == pid
      && prev == s.nodes[k] && node == s.nodes[k + 1] && s.heap[prev].next == None
  }

  /** Two allocations in flight never share a node. */
  ghost predicate NoSharing<T>(s: State<T>, p: Pid, q: Pid)
    requires p in s.producers && q in s.producers
  {
    p != q && s.producers[p].Allocated? && s.producers[q].Allocated? ==>
      s.producers[p].node != s.producers[q].node
  }

  ghost predicate ConsumerOk<T>(s: State<T>)
    requires Shape(s)
  {
    match s.consumer
    case CIdle => true
    case CHasTail(t) => t == s.tail
    case CHasNext(t, n) =>
      && t == s.tail && |s.popped| < |s.exchanged|
      && n == s.nodes[|s.popped| + 1] && s.heap[t].next == Some(n)
    case CHasValue(t, n, v) =>
      && t == s.tail && |s.popped| < |s.exchanged|
      && n == s.nodes[|s.popped| + 1] && s.heap[t].next == Some(n)
      && v == s.exchanged[|s.popped|].item
    case CMoved(t, v) =>
      && t == s.nodes[|s.popped|] && t in s.heap && OutsideList(s, t)
      && v == s.exchanged[|s.popped|].item
  }

  /** The node of the `k`-th exchange holds its item until the item is moved out. */
  ghost predicate DataOk<T>(s: State<T>, k: nat)
    requires Shape(s) && Taken(s) < k <= |s.exchanged|
  {
    (s.consumer.CHasValue? && k == Taken(s) + 1) || s.heap[s.nodes[k]].data == s.exchanged[k - 1].item
  }

  ghost predicate PoppedOk<T>(s: State<T>)
    requires Taken(s) <= |s.exchanged|
  {
    forall i :: 0 <= i < |s.popped| ==> s.popped[i] == s.exchanged[i].item
  }

  ghost predicate Inv<T>(s: State<T>) {
    && Shape(s)
    && s.heap[s.head].next == None
    && (forall k :: Taken(s) <= k < |s.exchanged| ==> LinkOk(s, k))
    && (forall k :: Taken(s) < k <= |s.exchanged| ==> DataOk(s, k))
    && (forall pid {:trigger ProducerOk(s, pid)} :: pid in s.producers ==> ProducerOk(s, pid))
    && (forall p, q {:trigger NoSharing(s, p, q)} :: p in s.producers && q in s.producers ==> NoSharing(s, p, q))
    && ConsumerOk(s)
    && PoppedOk(s)
  }
}
