/**
 The level-by-level book and the simulation: commands derived from the order-by-order commands
 keep its prices, sizes, clock and message count equal.
 */
module BookMirror {
  import opened Words
  import opened BookModel
  import opened BookIndex
  import opened BookAgreement
  import opened BookHistory

  /** The state of `OrderBook`. */
  datatype LevelBook = LevelBook(symbol: string, bids: Levels, asks: Levels, lastUpdateTime: nat, messageCount: nat) {
    function LevelsOn(side: Side): Levels {
      if side == Bid then bids else asks
    }

    function With(side: Side, levels: Levels, timestamp: nat): LevelBook {
      var b := if side == Bid then this.(bids := levels) else this.(asks := levels);
      b.(lastUpdateTime := timestamp, messageCount := Add(messageCount, 1))
    }
  }

  function EmptyLevels(symbol: string): LevelBook {
    LevelBook(symbol, map[], map[], 0, 0)
  }

  datatype LevelCommand =
    | AddSize(side: Side, price: int, size: nat, timestamp: nat)
    | ModifySize(side: Side, price: int, size: nat, timestamp: nat)
    | RemoveLevel(side: Side, price: int, timestamp: nat)
    | ExecuteSize(side: Side, price: int, size: nat, timestamp: nat)

  /** The effect on one side's map. */
  function Edit(levels: Levels, c: LevelCommand): Levels {
    match c
    case AddSize(_, p, size, _) =>
      var level := if p in levels then levels[p] else PriceLevel(0, 0, 0);
      levels[p := PriceLevel(p, Add(level.size, size), Add(level.orderCount, 1))]
    case ModifySize(_, p, size, _) =>
      if size == 0 then levels - {p}
      else levels[p := if p in levels then levels[p].(size := size) else PriceLevel(p, size, 1)]
    case RemoveLevel(_, p, _) => levels - {p}
    case ExecuteSize(_, p, size, _) =>
      if p !in levels then levels
      else if levels[p].size > size then levels[p := levels[p].(size := levels[p].size - size)]
      else levels - {p}
  }

  /** What an edit leaves at one price: all others are as they were, and its own is what the command asks for. */
  lemma EditMeaning(levels: Levels, c: LevelCommand, p: int)
    ensures p != c.price ==>
      (p in Edit(levels, c) <==> p in levels) && (p in levels ==> Edit(levels, c)[p] == levels[p])
    ensures c.AddSize? ==> c.price in Edit(levels, c)
    ensures c.AddSize? ==>
      (Edit(levels, c)[c.price] ==
       PriceLevel(c.price, ((if c.price in levels then levels[c.price].size else 0) + c.size) % MODULUS,
                  ((if c.price in levels then levels[c.price].orderCount else 0) + 1) % MODULUS))
    ensures c.ModifySize? ==> (c.price in Edit(levels, c) <==> c.size > 0)
    ensures c.ModifySize? && c.size > 0 ==>
      (Edit(levels, c)[c.price] ==
       if c.price in levels then levels[c.price].(size := c.size) else PriceLevel(c.price, c.size, 1))
    ensures c.RemoveLevel? ==> c.price !in Edit(levels, c)
    ensures c.ExecuteSize? ==> (c.price in Edit(levels, c) <==> c.price in levels && levels[c.price].size > c.size)
    ensures c.ExecuteSize? && c.price in levels && levels[c.price].size > c.size ==>
      Edit(levels, c)[c.price] == levels[c.price].(size := levels[c.price].size - c.size)
  {
  }

  function ApplyLevel(b: LevelBook, c: LevelCommand): LevelBook {
    b.With(c.side, Edit(b.LevelsOn(c.side), c), c.timestamp)
  }

  function RunLevels(b: LevelBook, commands: seq<LevelCommand>): LevelBook {
    if commands == [] then b
    else ApplyLevel(RunLevels(b, commands[..|commands| - 1]), commands[|commands| - 1])
  }

  // ---------------------------------------------------------------- derived commands

  function LevelSize(b: Book, side: Side, price: int): nat {
    if price in b.LevelsOn(side) then b.LevelsOn(side)[price].size else 0
  }

  /** The size of a level once one of its orders goes from one quantity to another. */
  function Resized(size: nat, was: nat, becomes: nat): nat {
    if size < was then becomes else size - was + becomes
  }

  /** What the level-based book is told about an order-based command: nothing if it has no effect. */
  function Derived(b: Book, c: Command): seq<LevelCommand> {
    match c
    case AddOrder(id, side, price, quantity, timestamp) =>
      if id in b.orders then [] else [AddSize(SideOf(side), price, quantity, timestamp)]
    case ReplaceOrder(id, newId, quantity, price, timestamp) =>
      if id !in b.orders then []
      else
        var o := b.orders[id];
        [ExecuteSize(o.BookSide(), o.price, o.quantity, timestamp)] +
        if newId in b.orders - {id} then [] else [AddSize(o.BookSide(), price, quantity, timestamp)]
    case ModifyOrder(id, quantity, timestamp) =>
      if id !in b.orders then []
      else
        var o := b.orders[id];
        [ModifySize(o.BookSide(), o.price, Resized(LevelSize(b, o.BookSide(), o.price), o.quantity, quantity), timestamp)]
    case DeleteOrder(id, timestamp) =>
      if id !in b.orders then []
      else [ExecuteSize(b.orders[id].BookSide(), b.orders[id].price, b.orders[id].quantity, timestamp)]
    case _ =>
      if c.id !in b.orders then []
      else
        var o := b.orders[c.id];
        [ExecuteSize(o.BookSide(), o.price, Min(c.quantity, o.quantity), c.timestamp)]
  }

  /** The derived commands of a whole run. */
  function DerivedRun(b: Book, commands: seq<Command>): seq<LevelCommand> {
    if commands == [] then []
    else
      var most := commands[..|commands| - 1];
      DerivedRun(b, most) + Derived(Run(b, most), commands[|commands| - 1])
  }

  // ---------------------------------------------------------------- the simulation

  /** Same prices, and the same size at each. */
  ghost predicate SameSizes(x: Levels, y: Levels) {
    && (forall p :: p in x <==> p in y)
    && (forall p :: p in x ==> x[p].size == y[p].size)
  }

  ghost predicate Mirrors(l: LevelBook, b: Book) {
    && SameSizes(l.bids, b.bids)
    && SameSizes(l.asks, b.asks)
    && l.lastUpdateTime == b.lastUpdateTime
    && l.messageCount == b.messageCount
    && l.symbol == b.symbol
  }

  // One side's map: an order joins, leaves, or comes back smaller or larger.

  lemma DepositMirrored(x: Levels, y: Levels, total: nat, o: Order, timestamp: nat)
    requires SameSizes(x, y)
    ensures SameSizes(Edit(x, AddSize(o.BookSide(), o.price, o.quantity, timestamp)), Deposit(y, total, o).0)
  {
  }

  /** The level of an order that can leave it: found, covered, and empty with its last order. */
  ghost predicate Removable(levels: Levels, o: Order) {
    && o.price in levels
    && o.quantity <= levels[o.price].size < MODULUS
    && 0 < levels[o.price].orderCount < MODULUS
    && (levels[o.price].size == o.quantity <==> levels[o.price].orderCount == 1)
  }

  lemma WithdrawMirrored(x: Levels, y: Levels, total: nat, o: Order, timestamp: nat)
    requires SameSizes(x, y) && Removable(y, o)
    ensures SameSizes(Edit(x, ExecuteSize(o.BookSide(), o.price, o.quantity, timestamp)), Withdraw(y, total, o).0)
    ensures SameSizes(Edit(x, ModifySize(o.BookSide(), o.price, Resized(y[o.price].size, o.quantity, 0), timestamp)),
                      Withdraw(y, total, o).0)
  {
  }

  lemma SwapMirrored(x: Levels, y: Levels, total: nat, o: Order, left: Order, timestamp: nat)
    requires SameSizes(x, y) && Removable(y, o)
    requires left.price == o.price && left.BookSide() == o.BookSide() && left.quantity > 0
    requires y[o.price].size - o.quantity + left.quantity < MODULUS
    ensures var (levels, rest) := Withdraw(y, total, o);
      var after := Deposit(levels, rest, left).0;
      && SameSizes(Edit(x, ModifySize(o.BookSide(), o.price, Resized(y[o.price].size, o.quantity, left.quantity),
                                      timestamp)), after)
      && (left.quantity <= o.quantity ==>
            SameSizes(Edit(x, ExecuteSize(o.BookSide(), o.price, o.quantity - left.quantity, timestamp)), after))
  {
  }

  /** A command on one side, mirrored on that side, is mirrored on the book. */
  lemma SideMirrored(l: LevelBook, b: Book, c: LevelCommand, after: Book)
    requires Mirrors(l, b)
    requires SameSizes(Edit(l.LevelsOn(c.side), c), after.LevelsOn(c.side))
    requires c.side == Ask ==> after.bids == b.bids
    requires c.side == Bid ==> after.asks == b.asks
    requires after.lastUpdateTime == c.timestamp && after.messageCount == Add(b.messageCount, 1)
    requires after.symbol == b.symbol
    ensures Mirrors(ApplyLevel(l, c), after)
  {
  }

  lemma CanLeave(b: Book, id: Id)
    requires Sound(b) && id in b.orders
    ensures Removable(b.LevelsOn(b.orders[id].BookSide()), b.orders[id])
    ensures b.LevelsOn(b.orders[id].BookSide())[b.orders[id].price].size - b.orders[id].quantity <=
            SideSum(b.orders - {id}, b.orders[id].BookSide())
  {
    var side := b.orders[id].BookSide();
    WithdrawGuards(b, id);
    ZeroTogether(b, id);
    assert SideAgrees(b, side);
    LevelPresent(b.orders, side, b.orders[id].price);
    LevelFits(b.orders, side, b.orders[id].price);
    LevelFits(b.orders - {id}, side, b.orders[id].price);
  }

  lemma JoinMirrored(l: LevelBook, b: Book, o: Order, timestamp: nat)
    requires Mirrors(l, b)
    ensures Mirrors(ApplyLevel(l, AddSize(o.BookSide(), o.price, o.quantity, timestamp)), Attach(b, o).Stamp(timestamp))
  {
    var side := o.BookSide();
    DepositMirrored(l.LevelsOn(side), b.LevelsOn(side), b.TotalOn(side), o, timestamp);
    SideMirrored(l, b, AddSize(side, o.price, o.quantity, timestamp), Attach(b, o).Stamp(timestamp));
  }

  lemma LeaveMirrored(l: LevelBook, b: Book, id: Id, timestamp: nat)
    requires Mirrors(l, b) && Sound(b) && id in b.orders
    ensures var o := b.orders[id];
      var size := LevelSize(b, o.BookSide(), o.price);
      && Mirrors(ApplyLevel(l, ExecuteSize(o.BookSide(), o.price, o.quantity, timestamp)), Detach(b, id).Stamp(timestamp))
      && Mirrors(ApplyLevel(l, ModifySize(o.BookSide(), o.price, Resized(size, o.quantity, 0), timestamp)),
                 Detach(b, id).Stamp(timestamp))
  {
    var o := b.orders[id];
    var side := o.BookSide();
    var size := LevelSize(b, side, o.price);
    CanLeave(b, id);
    WithdrawMirrored(l.LevelsOn(side), b.LevelsOn(side), b.TotalOn(side), o, timestamp);
    SideMirrored(l, b, ExecuteSize(side, o.price, o.quantity, timestamp), Detach(b, id).Stamp(timestamp));
    SideMirrored(l, b, ModifySize(side, o.price, Resized(size, o.quantity, 0), timestamp),
                 Detach(b, id).Stamp(timestamp));
  }

  lemma SwapSides(b: Book, id: Id, left: Order)
    requires id in b.orders && left.BookSide() == b.orders[id].BookSide()
    ensures var side := left.BookSide();
      var after := Attach(Detach(b, id), left);
      var (levels, rest) := Withdraw(b.LevelsOn(side), b.TotalOn(side), b.orders[id]);
      && after.LevelsOn(side) == Deposit(levels, rest, left).0
      && (side == Ask ==> after.bids == b.bids)
      && (side == Bid ==> after.asks == b.asks)
      && after.symbol == b.symbol && after.messageCount == b.messageCount
  {
  }

  /** The level of the order under command, before and after part of the order comes back. */
  lemma ReturnSizes(l: LevelBook, b: Book, id: Id, left: Order, timestamp: nat)
    requires Mirrors(l, b) && Sound(b) && id in b.orders
    requires left.price == b.orders[id].price && left.BookSide() == b.orders[id].BookSide() && left.quantity > 0
    requires SumFits(b.orders - {id}, left.BookSide(), left.quantity)
    ensures var o := b.orders[id];
      var side := o.BookSide();
      var size := LevelSize(b, side, o.price);
      var after := Attach(Detach(b, id), left).LevelsOn(side);
      && SameSizes(Edit(l.LevelsOn(side), ModifySize(side, o.price, Resized(size, o.quantity, left.quantity), timestamp)),
                   after)
      && (left.quantity <= o.quantity ==>
            SameSizes(Edit(l.LevelsOn(side), ExecuteSize(side, o.price, o.quantity - left.quantity, timestamp)), after))
  {
    hide Edit, Withdraw, Deposit, Attach, Detach, Sound, SameSizes, Resized;
    var o := b.orders[id];
    var side := o.BookSide();
    CanLeave(b, id);
    SwapSides(b, id, left);
    SwapMirrored(l.LevelsOn(side), b.LevelsOn(side), b.TotalOn(side), o, left, timestamp);
  }

  /** A command under which part of the order comes back, given what it does to the level's size. */
  lemma ReturnMirrored(l: LevelBook, b: Book, id: Id, left: Order, c: LevelCommand)
    requires Mirrors(l, b) && id in b.orders
    requires left.BookSide() == b.orders[id].BookSide() == c.side
    requires SameSizes(Edit(l.LevelsOn(c.side), c), Attach(Detach(b, id), left).LevelsOn(c.side))
    ensures Mirrors(ApplyLevel(l, c), Attach(Detach(b, id), left).Stamp(c.timestamp))
  {
    SwapSides(b, id, left);
    SideMirrored(l, b, c, Attach(Detach(b, id), left).Stamp(c.timestamp));
  }

  lemma RunOne(l: LevelBook, c: LevelCommand)
    ensures RunLevels(l, [c]) == ApplyLevel(l, c)
  {
    assert [c][..0] == [];
    assert RunLevels(l, [c][..0]) == l;
  }

  lemma {:induction false} RunConcat(l: LevelBook, p: seq<LevelCommand>, q: seq<LevelCommand>)
    ensures RunLevels(l, p + q) == RunLevels(RunLevels(l, p), q)
  {
    if q == [] {
      assert p + q == p;
    } else {
      assert (p + q)[..|p + q| - 1] == p + q[..|q| - 1];
      RunConcat(l, p, q[..|q| - 1]);
    }
  }

  /** What a command that leaves nothing of its order tells the level-based book. */
  lemma DerivedNothing(b: Book, c: Command)
    requires !c.AddOrder? && !c.ReplaceOrder? && c.id in b.orders && Remainder(b, c) == None
    ensures var o := b.orders[c.id];
      Derived(b, c) ==
      if c.ModifyOrder? then
        [ModifySize(o.BookSide(), o.price, Resized(LevelSize(b, o.BookSide(), o.price), o.quantity, 0), c.timestamp)]
      else [ExecuteSize(o.BookSide(), o.price, o.quantity, c.timestamp)]
    ensures Apply(b, c) == Detach(b, c.id).Stamp(c.timestamp)
  {
  }

  /** What a command that leaves part of its order tells the level-based book. */
  lemma DerivedSomething(b: Book, c: Command, left: Order)
    requires !c.AddOrder? && !c.ReplaceOrder? && c.id in b.orders && Remainder(b, c) == Some(left)
    ensures var o := b.orders[c.id];
      && (c.ModifyOrder? || left.quantity <= o.quantity)
      && Derived(b, c) ==
         if c.ModifyOrder? then
           [ModifySize(o.BookSide(), o.price, Resized(LevelSize(b, o.BookSide(), o.price), o.quantity, left.quantity),
                       c.timestamp)]
         else [ExecuteSize(o.BookSide(), o.price, o.quantity - left.quantity, c.timestamp)]
    ensures Apply(b, c) == Attach(Detach(b, c.id), left).Stamp(c.timestamp)
    ensures left.price == b.orders[c.id].price && left.BookSide() == b.orders[c.id].BookSide() && left.quantity > 0
  {
  }

  lemma RemainderMirrored(l: LevelBook, b: Book, c: Command)
    requires Mirrors(l, b) && Sound(b) && Fits(b, c)
    requires !c.AddOrder? && !c.ReplaceOrder? && c.id in b.orders
    ensures Mirrors(RunLevels(l, Derived(b, c)), Apply(b, c))
  {
    hide Mirrors, Sound, Apply, Attach, Detach, Derived, RunLevels, ApplyLevel, Edit, SameSizes, Resized, LevelSize;
    match Remainder(b, c)
    case None =>
      DerivedNothing(b, c);
      LeaveMirrored(l, b, c.id, c.timestamp);
      RunOne(l, Derived(b, c)[0]);
    case Some(left) =>
      DerivedSomething(b, c, left);
      ReturnSizes(l, b, c.id, left, c.timestamp);
      ReturnMirrored(l, b, c.id, left, Derived(b, c)[0]);
      RunOne(l, Derived(b, c)[0]);
  }

  lemma ReplaceMirrored(l: LevelBook, b: Book, c: Command)
    requires Mirrors(l, b) && Sound(b) && c.ReplaceOrder? && c.id in b.orders
    ensures Mirrors(RunLevels(l, Derived(b, c)), Apply(b, c))
  {
    hide Mirrors, Sound, RunLevels, ApplyLevel, Edit, SameSizes, Withdraw;
    var o := b.orders[c.id];
    var rest := Detach(b, c.id).Stamp(c.timestamp);
    var leave := ExecuteSize(o.BookSide(), o.price, o.quantity, c.timestamp);
    LeaveMirrored(l, b, c.id, c.timestamp);
    RunOne(l, leave);
    DetachSides(b, c.id, Bid);
    if c.newId in b.orders - {c.id} {
      assert Derived(b, c) == [leave];
    } else {
      var joined := Order(c.newId, b.symbol, o.side, c.price, c.quantity, c.timestamp);
      var join := AddSize(joined.BookSide(), c.price, c.quantity, c.timestamp);
      RunConcat(l, [leave], [join]);
      RunOne(ApplyLevel(l, leave), join);
      JoinMirrored(ApplyLevel(l, leave), rest, joined, c.timestamp);
    }
  }

  /** One order-based command and the level-based commands derived from it. */
  lemma CommandMirrored(l: LevelBook, b: Book, c: Command)
    requires Mirrors(l, b) && Sound(b) && Admissible(b, c)
    ensures Mirrors(RunLevels(l, Derived(b, c)), Apply(b, c))
  {
    if c.AddOrder? {
      if c.id !in b.orders {
        var o := Order(c.id, b.symbol, c.side, c.price, c.quantity, c.timestamp);
        JoinMirrored(l, b, o, c.timestamp);
        RunOne(l, Derived(b, c)[0]);
      }
    } else if c.id in b.orders {
      if c.ReplaceOrder? {
        ReplaceMirrored(l, b, c);
      } else {
        RemainderMirrored(l, b, c);
      }
    }
  }

  /** Every admissible run of the order-based book is simulated by the level-based one. */
  lemma {:induction false} RunMirrored(symbol: string, commands: seq<Command>)
    requires AdmissibleRun(Empty(symbol), commands)
    ensures Mirrors(RunLevels(EmptyLevels(symbol), DerivedRun(Empty(symbol), commands)), Run(Empty(symbol), commands))
  {
    if commands != [] {
      var most := commands[..|commands| - 1];
      var last := commands[|commands| - 1];
      RunMirrored(symbol, most);
      IndexAgreement(symbol, most);
      var b := Run(Empty(symbol), most);
      CommandMirrored(RunLevels(EmptyLevels(symbol), DerivedRun(Empty(symbol), most)), b, last);
      RunConcat(EmptyLevels(symbol), DerivedRun(Empty(symbol), most), Derived(b, last));
    }
  }

  // ---------------------------------------------------------------- removing a whole level

  /** A delete for each of the orders listed. */
  function Deletes(ids: seq<Id>, timestamp: nat): (commands: seq<Command>)
    ensures |commands| == |ids|
  {
    seq(|ids|, (i: nat) requires i < |ids| => DeleteOrder(ids[i], timestamp))
  }

  ghost predicate Without(less: Orders, all: Orders, ids: seq<Id>) {
    && (forall id :: id in less <==> id in all && id !in ids)
    && (forall id :: id in less ==> less[id] == all[id])
  }

  lemma {:induction false} DeletedPrefix(b: Book, ids: seq<Id>, timestamp: nat, n: nat)
    requires Sound(b) && |b.orders| + 1 < MODULUS && n <= |ids|
    ensures var b' := Run(b, Deletes(ids, timestamp)[..n]);
      Sound(b') && |b'.orders| <= |b.orders| && Without(b'.orders, b.orders, ids[..n])
  {
    hide Sound, Apply, Run, Without;
    var commands := Deletes(ids, timestamp);
    if n == 0 {
      assert commands[..0] == [];
      RunOfNone(b);
      WithoutNone(b.orders);
    } else {
      DeletedPrefix(b, ids, timestamp, n - 1);
      RunPrefix(b, commands, n);
      var most := Run(b, commands[..n - 1]);
      DeleteOne(most, ids[n - 1], timestamp);
      WithoutOne(most.orders, b.orders, ids[..n - 1], ids[n - 1]);
      assert ids[..n] == ids[..n - 1] + [ids[n - 1]];
    }
  }

  lemma WithoutNone(orders: Orders)
    ensures Without(orders, orders, [])
  {
  }

  lemma WithoutOne(less: Orders, all: Orders, ids: seq<Id>, id: Id)
    requires Without(less, all, ids)
    ensures Without(less - {id}, all, ids + [id])
  {
  }

  lemma DeleteOne(b: Book, id: Id, timestamp: nat)
    requires Sound(b) && |b.orders| + 1 < MODULUS
    ensures var b' := Apply(b, DeleteOrder(id, timestamp));
      Sound(b') && |b'.orders| <= |b.orders| && b'.orders == b.orders - {id}
  {
    hide Sound, Withdraw;
    ApplySound(b, DeleteOrder(id, timestamp));
    SubsetSize((b.orders - {id}).Keys, b.orders.Keys);
    if id !in b.orders {
      SameOrders(b.orders - {id}, b.orders);
    }
  }

  /** Without the orders of one level, that level is gone and every other is as it was. */
  lemma LevelGone(less: Orders, all: Orders, ids: seq<Id>, side: Side, price: int, other: Side, p: int)
    requires Without(less, all, ids) && Enumerates(ids, At(all, side, price))
    ensures p in LevelsOf(less, other) <==> p in LevelsOf(all, other) && !(other == side && p == price)
    ensures p in LevelsOf(less, other) ==> LevelsOf(less, other)[p] == LevelsOf(all, other)[p]
  {
    LevelPresent(less, other, p);
    LevelPresent(all, other, p);
    forall id ensures id in At(less, other, p) <==> id in At(all, other, p) && !(other == side && p == price) {}
    if !(other == side && p == price) {
      assert At(less, other, p) == At(all, other, p);
      SumFrame(less, all, At(less, other, p));
    } else {
      assert At(less, other, p) == {};
    }
  }

  /**
   Removing a level from the level-based book is deleting every order that rests there, in any sequence, from the
   order-based one: prices and sizes stay the same on both sides.
   */
  lemma RemoveMirrored(l: LevelBook, b: Book, side: Side, price: int, ids: seq<Id>, timestamp: nat)
    requires Mirrors(l, b) && Sound(b) && |b.orders| + 1 < MODULUS
    requires Enumerates(ids, At(b.orders, side, price))
    ensures var l' := ApplyLevel(l, RemoveLevel(side, price, timestamp));
      var b' := Run(b, Deletes(ids, timestamp));
      && Sound(b')
      && SameSizes(l'.bids, b'.bids) && SameSizes(l'.asks, b'.asks)
  {
    hide Run, Sound, Edit, LevelsOf, Enumerates, Without;
    DeletedPrefix(b, ids, timestamp, |ids|);
    assert Deletes(ids, timestamp)[..|ids|] == Deletes(ids, timestamp) && ids[..|ids|] == ids;
    var b' := Run(b, Deletes(ids, timestamp));
    RemovedSide(l.bids, b, b', side, price, ids, Bid, timestamp);
    RemovedSide(l.asks, b, b', side, price, ids, Ask, timestamp);
  }

  /** One side's sizes after the removal and after the deletes. */
  lemma RemovedSide(x: Levels, b: Book, b': Book, side: Side, price: int, ids: seq<Id>, other: Side, timestamp: nat)
    requires SameSizes(x, b.LevelsOn(other)) && Sound(b) && Sound(b')
    requires Without(b'.orders, b.orders, ids) && Enumerates(ids, At(b.orders, side, price))
    ensures SameSizes(if other == side then Edit(x, RemoveLevel(side, price, timestamp)) else x, b'.LevelsOn(other))
  {
    hide LevelsOf, Enumerates, Without, WellFormed, Positive;
    assert SideAgrees(b, other) && SideAgrees(b', other);
    var less, all := LevelsOf(b'.orders, other), LevelsOf(b.orders, other);
    forall p
      ensures p in less <==> p in all && !(other == side && p == price)
      ensures p in less ==> less[p] == all[p]
    {
      LevelGone(b'.orders, b.orders, ids, side, price, other, p);
    }
  }
}
