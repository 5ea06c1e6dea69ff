/** What every interleaving of the multi-producer queue guarantees. */
module MpscSafety {
  import opened Words
  import opened Lists
  import opened MpscModel
  import opened MpscProofs

  /** No step of any run reads, writes or frees memory that is not allocated. */
  lemma NeverFaults<T>(sentinel: Addr, blank: T, run: seq<Action<T>>)
    ensures Exec(Init(sentinel, blank), run).Ok?
    ensures Inv(Exec(Init(sentinel, blank), run).state)
  {
    InitInv(sentinel, blank);
    ExecInv(Init(sentinel, blank), run);
  }

  /** The state an interleaving reaches. */
  function Reach<T>(sentinel: Addr, blank: T, run: seq<Action<T>>): (s: State<T>)
    ensures Exec(Init(sentinel, blank), run) == Ok(s)
    ensures Inv(s)
  {
    NeverFaults(sentinel, blank, run);
    Exec(Init(sentinel, blank), run).state
  }

  /** A node some producer still holds is allocated, and stays so over any step of the others. */
  lemma HeldNodesStayAllocated<T>(sentinel: Addr, blank: T, run: seq<Action<T>>, pid: Pid, x: Action<T>)
    requires pid in Reach(sentinel, blank, run).producers
    ensures Step(Reach(sentinel, blank, run), x).Ok?
    ensures var s := Reach(sentinel, blank, run);
      match s.producers[pid]
      case Allocated(node, _) => node in s.heap && node in Step(s, x).state.heap
      case Exchanged(prev, _, _) => prev in s.heap && prev in Step(s, x).state.heap
  {
    var s := Reach(sentinel, blank, run);
    assert ProducerOk(s, pid);
    StepInv(s, x);
  }

  // ---------------------------------------------------------------- which memory is freed, and when

  /** The address a step frees. */
  function FreedBy<T>(s: State<T>, x: Action<T>): Option<Addr> {
    if x.Delete? && s.consumer.CMoved? then Some(s.consumer.tail) else None
  }

  /** All addresses a run frees, in order. */
  function Freed<T>(sentinel: Addr, blank: T, run: seq<Action<T>>): seq<Addr> {
    if run == [] then []
    else
      var most := run[..|run| - 1];
      match FreedBy(Reach(sentinel, blank, most), run[|run| - 1])
      case None => Freed(sentinel, blank, most)
      case Some(a) => Freed(sentinel, blank, most) + [a]
  }

  lemma StepFrees<T>(s: State<T>, x: Action<T>)
    requires Inv(s)
    ensures Step(s, x).Ok? && s.nodes <= Step(s, x).state.nodes && |s.popped| < |s.nodes|
    ensures var s' := Step(s, x).state;
      |s'.popped| == |s.popped| + if FreedBy(s, x).Some? then 1 else 0
    ensures FreedBy(s, x).Some? ==> FreedBy(s, x).value == s.nodes[|s.popped|]
  {
    StepInv(s, x);
  }

  /**
   The frees of any run are exactly the nodes in the order of their exchanges, the first sentinel in front, one
   for each value returned: every exchange number is freed at most once, and none out of turn.
   */
  lemma {:induction false} FreesInExchangeOrder<T>(sentinel: Addr, blank: T, run: seq<Action<T>>)
    ensures var s := Reach(sentinel, blank, run);
      |s.popped| <= |s.nodes| && Freed(sentinel, blank, run) == s.nodes[..|s.popped|]
  {
    hide Inv, Step;
    if run != [] {
      var most := run[..|run| - 1];
      FreesInExchangeOrder(sentinel, blank, most);
      StepFrees(Reach(sentinel, blank, most), run[|run| - 1]);
    }
  }

  /** A free spares every node still in the list and every node private to a producer. */
  lemma FreeSparesOthers<T>(sentinel: Addr, blank: T, run: seq<Action<T>>, x: Action<T>)
    requires FreedBy(Reach(sentinel, blank, run), x).Some?
    ensures var s := Reach(sentinel, blank, run);
      var a := FreedBy(s, x).value;
      && a in s.heap
      && (forall k :: |s.popped| < k < |s.nodes| ==> s.nodes[k] != a)
      && (forall pid :: pid in s.producers && s.producers[pid].Allocated? ==> s.producers[pid].node != a)
  {
    var s := Reach(sentinel, blank, run);
    forall pid | pid in s.producers && s.producers[pid].Allocated?
      ensures s.producers[pid].node != FreedBy(s, x).value
    {
      assert ProducerOk(s, pid);
    }
  }

  /** The step of the run that last allocated an address, counted from 1; 0 for the sentinel's own. */
  function Birth<T>(sentinel: Addr, blank: T, run: seq<Action<T>>, a: Addr): nat {
    if run == [] then 0
    else
      var most, x := run[..|run| - 1], run[|run| - 1];
      var s := Reach(sentinel, blank, most);
      if x.New? && x.addr == a && x.pid !in s.producers && a !in s.heap then |run|
      else Birth(sentinel, blank, most, a)
  }

  /** A node not yet freed is allocated. */
  lemma OutstandingInHeap<T>(s: State<T>, k: nat)
    requires Inv(s) && |s.popped| <= k < |s.nodes|
    ensures s.nodes[k] in s.heap
  {
  }

  lemma {:induction false} NodesGrow<T>(sentinel: Addr, blank: T, p: seq<Action<T>>, q: seq<Action<T>>)
    ensures var s, t := Reach(sentinel, blank, p), Reach(sentinel, blank, p + q);
      s.nodes <= t.nodes && |s.popped| <= |t.popped|
    decreases q
  {
    hide Inv, Step;
    if q == [] {
      assert p + q == p;
    } else {
      assert (p + q)[..|p + q| - 1] == p + q[..|q| - 1];
      NodesGrow(sentinel, blank, p, q[..|q| - 1]);
      StepFrees(Reach(sentinel, blank, p + q[..|q| - 1]), q[|q| - 1]);
    }
  }

  /**
   From the exchange that makes it number `k` until the free of number `k`, a node's address is neither freed
   nor handed out again: its memory stays that of the one allocation.
   */
  lemma {:induction false} SameAllocation<T>(sentinel: Addr, blank: T, p: seq<Action<T>>, q: seq<Action<T>>, k: nat)
    requires k < |Reach(sentinel, blank, p).nodes| && |Reach(sentinel, blank, p + q).popped| <= k
    ensures k < |Reach(sentinel, blank, p + q).nodes|
    ensures var a := Reach(sentinel, blank, p).nodes[k];
      && Reach(sentinel, blank, p + q).nodes[k] == a
      && a in Reach(sentinel, blank, p + q).heap
      && Birth(sentinel, blank, p + q, a) == Birth(sentinel, blank, p, a)
    decreases q
  {
    hide Inv;
    NodesGrow(sentinel, blank, p, q);
    OutstandingInHeap(Reach(sentinel, blank, p + q), k);
    if q == [] {
      assert p + q == p;
    } else {
      var r := q[..|q| - 1];
      assert (p + q)[..|p + q| - 1] == p + r;
      NodesGrow(sentinel, blank, p, r);
      StepFrees(Reach(sentinel, blank, p + r), q[|q| - 1]);
      OutstandingInHeap(Reach(sentinel, blank, p + r), k);
      SameAllocation(sentinel, blank, p, r, k);
    }
  }

  /** The address a step dereferences or frees, with the exchange number of the node it means. */
  function Touched<T>(s: State<T>, x: Action<T>): Option<(Addr, nat)> {
    match x
    case Link(pid) =>
      if pid in s.producers && s.producers[pid].Exchanged? then Some((s.producers[pid].prev, s.producers[pid].ticket))
      else None
    case LoadNext => if s.consumer.CHasTail? then Some((s.consumer.tail, |s.popped|)) else None
    case MoveData(_) => if s.consumer.CHasNext? then Some((s.consumer.next, |s.popped| + 1)) else None
    case Delete => if s.consumer.CMoved? then Some((s.consumer.tail, |s.popped|)) else None
    case _ => None
  }

  /** Every access is to the node with its own exchange number, not freed yet. */
  lemma TouchesOwnNode<T>(sentinel: Addr, blank: T, run: seq<Action<T>>, x: Action<T>)
    requires Touched(Reach(sentinel, blank, run), x).Some?
    ensures var s := Reach(sentinel, blank, run);
      var (a, k) := Touched(s, x).value;
      |s.popped| <= k < |s.nodes| && a == s.nodes[k] && a in s.heap
  {
    var s := Reach(sentinel, blank, run);
    if x.Link? {
      assert ProducerOk(s, x.pid);
    }
  }

  // ---------------------------------------------------------------- order

  /** Values come out in the order of the exchanges, none lost and none repeated. */
  lemma ExchangeOrder<T>(sentinel: Addr, blank: T, run: seq<Action<T>>)
    ensures Reach(sentinel, blank, run).popped <= Items(Reach(sentinel, blank, run).exchanged)
  {
  }

  /** A pop at its link load finds nothing exactly when all is popped or the next push is unlinked. */
  lemma NothingIffEmptyOrUnlinked<T>(sentinel: Addr, blank: T, run: seq<Action<T>>)
    ensures var s := Reach(sentinel, blank, run);
      s.consumer.CHasTail? ==>
        (Step(s, LoadNext).state.consumer.CIdle? <==>
          (|| |s.popped| == |s.exchanged|
           || var pid := s.exchanged[|s.popped|].pid;
              pid in s.producers && s.producers[pid].Exchanged? && s.producers[pid].ticket == |s.popped|))
  {
    var s := Reach(sentinel, blank, run);
    if s.consumer.CHasTail? && |s.popped| < |s.exchanged| {
      assert LinkOk(s, |s.popped|);
      var pid := s.exchanged[|s.popped|].pid;
      if pid in s.producers {
        assert ProducerOk(s, pid);
      }
    }
  }

  // ---------------------------------------------------------------- each producer's order

  /** A producer's calls and its exchanges agree, but for the call it has not yet exchanged. */
  ghost predicate OwnOrder<T>(s: State<T>, pid: Pid) {
    By(s.calls, pid) ==
    By(s.exchanged, pid) +
      if pid in s.producers && s.producers[pid].Allocated? then [Call(pid, s.producers[pid].item)] else []
  }

  lemma BySnoc<T>(calls: seq<Call<T>>, c: Call<T>, pid: Pid)
    ensures By(calls + [c], pid) == By(calls, pid) + if c.pid == pid then [c] else []
  {
    assert (calls + [c])[..|calls + [c]| - 1] == calls;
  }

  lemma StepOwnOrder<T>(s: State<T>, x: Action<T>, pid: Pid)
    requires OwnOrder(s, pid) && Step(s, x).Ok?
    ensures OwnOrder(Step(s, x).state, pid)
  {
    hide By;
    match x
    case New(p, item, _) =>
      BySnoc(s.calls, Call(p, item), pid);
    case Exchange(p) =>
      if p in s.producers && s.producers[p].Allocated? {
        BySnoc(s.exchanged, Call(p, s.producers[p].item), pid);
      }
    case _ =>
  }

  lemma {:induction false} ExecOwnOrder<T>(sentinel: Addr, blank: T, run: seq<Action<T>>, pid: Pid)
    ensures OwnOrder(Reach(sentinel, blank, run), pid)
  {
    if run != [] {
      ExecOwnOrder(sentinel, blank, run[..|run| - 1], pid);
      StepInv(Reach(sentinel, blank, run[..|run| - 1]), run[|run| - 1]);
      StepOwnOrder(Reach(sentinel, blank, run[..|run| - 1]), run[|run| - 1], pid);
    }
  }

  lemma {:induction false} ByPrefix<T>(calls: seq<Call<T>>, n: nat, pid: Pid)
    requires n <= |calls|
    ensures By(calls[..n], pid) <= By(calls, pid)
  {
    if n == |calls| {
      assert calls[..n] == calls;
    } else {
      var most := calls[..|calls| - 1];
      ByPrefix(most, n, pid);
      assert most[..n] == calls[..n];
    }
  }

  /** What has been popped of one producer is a prefix of what that producer has pushed. */
  lemma ProducerOrderKept<T>(sentinel: Addr, blank: T, run: seq<Action<T>>, pid: Pid)
    ensures var s := Reach(sentinel, blank, run);
      && |s.popped| <= |s.exchanged|
      && s.popped == Items(s.exchanged[..|s.popped|])
      && By(s.exchanged[..|s.popped|], pid) <= By(s.calls, pid)
  {
    var s := Reach(sentinel, blank, run);
    ExecOwnOrder(sentinel, blank, run, pid);
    ByPrefix(s.exchanged, |s.popped|, pid);
  }

  // ---------------------------------------------------------------- no leak

  ghost predicate InList<T>(s: State<T>, a: Addr) {
    exists k :: Taken(s) <= k < |s.nodes| && s.nodes[k] == a
  }

  ghost predicate Private<T>(s: State<T>, a: Addr) {
    exists pid :: pid in s.producers && s.producers[pid].Allocated? && s.producers[pid].node == a
  }

  /** Every allocated node is in the list, private to a push, or about to be freed. */
  ghost predicate Accounted<T>(s: State<T>) {
    forall a :: a in s.heap ==> InList(s, a) || Private(s, a) || Doomed(s, a)
  }

  lemma InListKept<T>(s: State<T>, s': State<T>, a: Addr)
    requires InList(s, a) && s.nodes <= s'.nodes && Taken(s') <= Taken(s)
    ensures InList(s', a)
  {
    var k :| Taken(s) <= k < |s.nodes| && s.nodes[k] == a;
    assert s'.nodes[k] == a;
  }

  lemma ListedStep<T>(s: State<T>, x: Action<T>, s': State<T>, a: Addr)
    requires Step(s, x) == Ok(s') && InList(s, a)
    requires Taken(s) < |s.nodes| && s.tail == s.nodes[Taken(s)]
    requires s.consumer.CHasValue? ==> s.consumer.tail == s.tail
    ensures InList(s', a) || Doomed(s', a)
  {
    if x.StoreTail? && s.consumer.CHasValue? {
      var k :| Taken(s) <= k < |s.nodes| && s.nodes[k] == a;
      if k > Taken(s) { assert s'.nodes[k] == a; }
    } else {
      InListKept(s, s', a);
    }
  }

  lemma PrivateStep<T>(s: State<T>, x: Action<T>, s': State<T>, a: Addr)
    requires Step(s, x) == Ok(s') && Private(s, a) && Taken(s) < |s.nodes|
    ensures Private(s', a) || InList(s', a)
  {
    var pid :| pid in s.producers && s.producers[pid].Allocated? && s.producers[pid].node == a;
    if x.Exchange? && x.pid == pid {
      assert s'.nodes[|s.nodes|] == a;
    } else {
      assert pid in s'.producers && s'.producers[pid] == s.producers[pid];
    }
  }

  lemma StepAccounted<T>(s: State<T>, x: Action<T>)
    requires Inv(s) && Accounted(s)
    ensures Step(s, x).Ok? && Accounted(Step(s, x).state)
  {
    StepInv(s, x);
    var s' := Step(s, x).state;
    forall a | a in s'.heap ensures InList(s', a) || Private(s', a) || Doomed(s', a) {
      if a !in s.heap {
        assert x.New? && s'.producers[x.pid] == Allocated(a, x.item);
      } else if InList(s, a) {
        ListedStep(s, x, s', a);
      } else if Private(s, a) {
        PrivateStep(s, x, s', a);
      }
    }
  }

  lemma {:induction false} ExecAccounted<T>(sentinel: Addr, blank: T, run: seq<Action<T>>)
    ensures Accounted(Reach(sentinel, blank, run))
  {
    if run == [] {
      var s := Init(sentinel, blank);
      assert s.nodes[0] == sentinel;
    } else {
      ExecAccounted(sentinel, blank, run[..|run| - 1]);
      StepAccounted(Reach(sentinel, blank, run[..|run| - 1]), run[|run| - 1]);
    }
  }

  /** With nobody inside the queue the heap holds one sentinel and the items waiting, nothing else. */
  lemma NoLeakWhenIdle<T>(sentinel: Addr, blank: T, run: seq<Action<T>>)
    ensures var s := Reach(sentinel, blank, run);
      s.producers == map[] && s.consumer.CIdle? ==>
        && (forall a :: a in s.heap <==> a in s.nodes[|s.popped|..])
        && |s.heap| == 1 + |s.exchanged| - |s.popped|
  {
    var s := Reach(sentinel, blank, run);
    ExecAccounted(sentinel, blank, run);
    if s.producers == map[] && s.consumer.CIdle? {
      var list := s.nodes[|s.popped|..];
      forall a ensures a in s.heap <==> a in list {
        if a in s.heap {
          var k :| Taken(s) <= k < |s.nodes| && s.nodes[k] == a;
          assert list[k - |s.popped|] == a;
        }
      }
      DistinctSize(list, s.heap.Keys);
    }
  }
}
