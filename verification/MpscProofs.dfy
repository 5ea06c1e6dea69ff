/** Every step of the linked queue is free of faults and keeps the invariant. */
module MpscProofs {
  import opened Words
  import opened MpscModel

  lemma InitInv<T>(sentinel: Addr, blank: T)
    ensures Inv(Init(sentinel, blank))
  {
  }

  lemma NewShape<T>(s: State<T>, x: Action<T>, s': State<T>)
    requires Inv(s) && x.New? && Step(s, x) == Ok(s')
    ensures Shape(s') && ConsumerOk(s') && s'.heap[s'.head].next == None
    ensures forall k :: Taken(s) <= k < |s'.exchanged| ==> LinkOk(s', k)
    ensures forall k :: Taken(s) < k <= |s'.exchanged| ==> DataOk(s', k)
  {
    forall k | Taken(s) <= k < |s'.exchanged| ensures LinkOk(s', k) {
      assert LinkOk(s, k);
    }
    forall k | Taken(s) < k <= |s'.exchanged| ensures DataOk(s', k) {
      assert DataOk(s, k);
    }
  }

  lemma NewInv<T>(s: State<T>, x: Action<T>, s': State<T>)
    requires Inv(s) && x.New? && Step(s, x) == Ok(s')
    ensures Inv(s')
  {
    NewShape(s, x, s');
    forall pid | pid in s'.producers ensures ProducerOk(s', pid) {
      if pid in s.producers { assert ProducerOk(s, pid); }
    }
    NewPairs(s, x, s');
  }

  lemma NewPairs<T>(s: State<T>, x: Action<T>, s': State<T>)
    requires Inv(s) && x.New? && Step(s, x) == Ok(s')
    ensures forall p, q {:trigger NoSharing(s', p, q)} :: p in s'.producers && q in s'.producers ==> NoSharing(s', p, q)
  {
    hide Shape, LinkOk, DataOk, ConsumerOk, PoppedOk;
    forall p, q | p in s'.producers && q in s'.producers ensures NoSharing(s', p, q) {
      if p in s.producers { assert ProducerOk(s, p); }
      if q in s.producers { assert ProducerOk(s, q); }
      if p in s.producers && q in s.producers { assert NoSharing(s, p, q); }
    }
  }

  /** No step but an allocation makes two pushes share a node. */
  lemma PairsKept<T>(s: State<T>, x: Action<T>, s': State<T>)
    requires Inv(s) && !x.New? && Step(s, x) == Ok(s')
    ensures forall p, q {:trigger NoSharing(s', p, q)} :: p in s'.producers && q in s'.producers ==> NoSharing(s', p, q)
  {
    hide Shape, LinkOk, DataOk, ProducerOk, ConsumerOk, PoppedOk;
    forall p, q | p in s'.producers && q in s'.producers ensures NoSharing(s', p, q) {
      assert NoSharing(s, p, q);
    }
  }

  lemma ExchangeShape<T>(s: State<T>, x: Action<T>, s': State<T>)
    requires Inv(s) && x.Exchange? && Step(s, x) == Ok(s')
    ensures Shape(s') && ConsumerOk(s') && s'.heap[s'.head].next == None
  {
    if x.pid in s.producers { assert ProducerOk(s, x.pid); }
  }

  lemma Apart<T>(s: State<T>, p: Pid, q: Pid)
    requires Inv(s) && p in s.producers && q in s.producers && p != q
    requires s.producers[p].Allocated? && s.producers[q].Allocated?
    ensures s.producers[p].node != s.producers[q].node
  {
    assert NoSharing(s, p, q);
  }

  lemma ExchangeInv<T>(s: State<T>, x: Action<T>, s': State<T>)
    requires Inv(s) && x.Exchange? && Step(s, x) == Ok(s')
    ensures Inv(s')
  {
    hide ConsumerOk, NoSharing;
    ExchangeShape(s, x, s');
    if x.pid in s.producers { assert ProducerOk(s, x.pid); }
    forall k | Taken(s') <= k < |s'.exchanged| ensures LinkOk(s', k) {
      if k < |s.exchanged| { assert LinkOk(s, k); }
    }
    forall k | Taken(s') < k <= |s'.exchanged| ensures DataOk(s', k) {
      if k <= |s.exchanged| { assert DataOk(s, k); }
    }
    forall pid | pid in s'.producers ensures ProducerOk(s', pid) {
      assert ProducerOk(s, pid);
      if x.pid in s.producers {
        if pid != x.pid && s.producers[pid].Allocated? && s.producers[x.pid].Allocated? { Apart(s, pid, x.pid); }
      }
    }
    PairsKept(s, x, s');
  }

  lemma LinkShape<T>(s: State<T>, x: Action<T>)
    requires Inv(s) && x.Link?
    ensures Step(s, x).Ok?
    ensures var s' := Step(s, x).state;
      Shape(s') && ConsumerOk(s') && PoppedOk(s') && s'.heap[s'.head].next == None
  {
    if x.pid in s.producers { assert ProducerOk(s, x.pid); }
  }

  lemma LinkList<T>(s: State<T>, x: Action<T>, s': State<T>)
    requires Inv(s) && x.Link? && Step(s, x) == Ok(s') && Shape(s')
    ensures forall k :: Taken(s') <= k < |s'.exchanged| ==> LinkOk(s', k)
    ensures forall k :: Taken(s') < k <= |s'.exchanged| ==> DataOk(s', k)
  {
    hide ConsumerOk, PoppedOk, NoSharing;
    if x.pid in s.producers { assert ProducerOk(s, x.pid); }
    forall k | Taken(s') <= k < |s'.exchanged| ensures LinkOk(s', k) {
      assert LinkOk(s, k);
    }
    forall k | Taken(s') < k <= |s'.exchanged| ensures DataOk(s', k) {
      assert DataOk(s, k);
    }
  }

  lemma LinkInv<T>(s: State<T>, x: Action<T>)
    requires Inv(s) && x.Link?
    ensures Step(s, x).Ok? && Inv(Step(s, x).state)
  {
    hide LinkOk, DataOk, ConsumerOk, PoppedOk, NoSharing;
    LinkShape(s, x);
    var s' := Step(s, x).state;
    LinkList(s, x, s');
    if x.pid in s.producers { assert ProducerOk(s, x.pid); }
    forall pid | pid in s'.producers ensures ProducerOk(s', pid) {
      assert ProducerOk(s, pid);
    }
    PairsKept(s, x, s');
  }

  /** No consumer step is a fault, and each keeps the list and the consumer's registers right. */
  lemma ConsumerShape<T>(s: State<T>, x: Action<T>)
    requires Inv(s) && !(x.New? || x.Exchange? || x.Link?)
    ensures Step(s, x).Ok?
    ensures Shape(Step(s, x).state) && ConsumerOk(Step(s, x).state)
    ensures Step(s, x).state.heap[s.head].next == None
  {
    hide ProducerOk, NoSharing;
    if x.LoadNext? && s.consumer.CHasTail? && Taken(s) < |s.exchanged| {
      assert LinkOk(s, Taken(s));
    }
    if x.MoveData? && s.consumer.CHasNext? {
      assert DataOk(s, Taken(s) + 1);
    }
  }

  lemma ConsumerList<T>(s: State<T>, x: Action<T>, s': State<T>)
    requires Inv(s) && !(x.New? || x.Exchange? || x.Link?) && Step(s, x) == Ok(s')
    requires Shape(s')
    ensures forall k :: Taken(s') <= k < |s'.exchanged| ==> LinkOk(s', k)
    ensures forall k :: Taken(s') < k <= |s'.exchanged| ==> DataOk(s', k)
  {
    forall k | Taken(s') <= k < |s'.exchanged| ensures LinkOk(s', k) {
      assert LinkOk(s, k);
    }
    forall k | Taken(s') < k <= |s'.exchanged| ensures DataOk(s', k) {
      assert DataOk(s, k);
    }
  }

  lemma ConsumerInv<T>(s: State<T>, x: Action<T>)
    requires Inv(s) && !(x.New? || x.Exchange? || x.Link?)
    ensures Step(s, x).Ok? && Inv(Step(s, x).state)
  {
    hide LinkOk, DataOk, NoSharing;
    ConsumerShape(s, x);
    var s' := Step(s, x).state;
    ConsumerList(s, x, s');
    forall pid | pid in s'.producers ensures ProducerOk(s', pid) {
      assert ProducerOk(s, pid);
    }
    PairsKept(s, x, s');
  }

  lemma StepInv<T>(s: State<T>, x: Action<T>)
    requires Inv(s)
    ensures Step(s, x).Ok? && Inv(Step(s, x).state)
  {
    match x
    case New(_, _, _) => NewInv(s, x, Step(s, x).state);
    case Exchange(_) => ExchangeInv(s, x, Step(s, x).state);
    case Link(_) => LinkInv(s, x);
    case _ => ConsumerInv(s, x);
  }

  lemma {:induction false} ExecInv<T>(s: State<T>, run: seq<Action<T>>)
    requires Inv(s)
    ensures Exec(s, run).Ok? && Inv(Exec(s, run).state)
  {
    if run != [] {
      ExecInv(s, run[..|run| - 1]);
      StepInv(Exec(s, run[..|run| - 1]).state, run[|run| - 1]);
    }
  }
}
