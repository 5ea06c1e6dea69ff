/** Whole runs of the order-by-order book: the index agrees throughout and forgets its history. */
module BookHistory {
  import opened Words
  import opened BookModel
  import opened BookIndex
  import opened BookAgreement

  // ---------------------------------------------------------------- one command

  /** The sum of a side once order `id` is gone and `quantity` has come. */
  ghost predicate SumFits(orders: Orders, side: Side, quantity: nat) {
    SideSum(orders, side) + quantity < MODULUS
  }

  /** The command never lets a side's sum leave 64 bits. */
  ghost predicate Fits(b: Book, c: Command) {
    match c
    case AddOrder(id, side, _, quantity, _) => id in b.orders || SumFits(b.orders, SideOf(side), quantity)
    case ReplaceOrder(id, newId, quantity, _, _) =>
      id in b.orders && newId !in b.orders - {id} ==>
        SumFits(b.orders - {id}, b.orders[id].BookSide(), quantity)
    case _ =>
      c.id in b.orders && Remainder(b, c).Some? ==>
        SumFits(b.orders - {c.id}, b.orders[c.id].BookSide(), Remainder(b, c).value.quantity)
  }

  /** The command takes no order out from among zero-quantity orders. */
  ghost predicate Reveals(b: Book, c: Command) {
    c.AddOrder? || (c.id in b.orders ==> !HidesOthers(b.orders, c.id))
  }

  lemma StampKeeps(b: Book, timestamp: nat)
    ensures Agrees(b.Stamp(timestamp)) <==> Agrees(b)
    ensures WellFormed(b.Stamp(timestamp)) <==> WellFormed(b)
  {
    var b' := b.Stamp(timestamp);
    assert b'.LevelsOn(Bid) == b.LevelsOn(Bid) && b'.LevelsOn(Ask) == b.LevelsOn(Ask);
    assert b'.TotalOn(Bid) == b.TotalOn(Bid) && b'.TotalOn(Ask) == b.TotalOn(Ask);
    assert b'.orders == b.orders;
  }

  /** An order put on the book of a command. */
  lemma JoinKeeps(b: Book, o: Order, timestamp: nat)
    requires Agrees(b) && WellFormed(b) && |b.orders| + 1 < MODULUS
    requires o.orderId !in b.orders && o.symbol == b.symbol
    ensures var b' := Attach(b, o).Stamp(timestamp);
      WellFormed(b') && (Agrees(b') <==> SumFits(b.orders, o.BookSide(), o.quantity))
  {
    AttachKeeps(b, o);
    AttachForm(b, o);
    StampKeeps(Attach(b, o), timestamp);
  }

  /** One order taken off the book and another put in its place. */
  lemma SwapKeeps(b: Book, id: Id, o: Order, timestamp: nat)
    requires Agrees(b) && WellFormed(b) && id in b.orders
    requires o.orderId !in b.orders - {id} && o.symbol == b.symbol
    ensures var b' := Attach(Detach(b, id), o).Stamp(timestamp);
      && WellFormed(b')
      && (Agrees(b') <==> !HidesOthers(b.orders, id) && SumFits(b.orders - {id}, o.BookSide(), o.quantity))
  {
    var rest := Detach(b, id);
    DetachKeeps(b, id);
    DetachSides(b, id, Bid);
    Reinsert(b.orders, id);
    AttachForm(rest, o);
    StampKeeps(Attach(rest, o), timestamp);
    if HidesOthers(b.orders, id) {
      LostLevelStaysLost(b, id, o);
    } else {
      AttachKeeps(rest, o);
    }
  }

  lemma RemovalKeeps(b: Book, id: Id, timestamp: nat)
    requires Agrees(b) && WellFormed(b) && id in b.orders
    ensures WellFormed(Detach(b, id).Stamp(timestamp))
    ensures Agrees(Detach(b, id).Stamp(timestamp)) <==> !HidesOthers(b.orders, id)
  {
    DetachKeeps(b, id);
    StampKeeps(Detach(b, id), timestamp);
  }

  lemma RemainderShape(b: Book, c: Command)
    requires WellFormed(b) && !c.AddOrder? && !c.ReplaceOrder? && c.id in b.orders && Remainder(b, c).Some?
    ensures var o := Remainder(b, c).value;
      o.orderId == c.id && o.symbol == b.symbol && o.BookSide() == b.orders[c.id].BookSide()
  {
  }

  lemma RemainderKeeps(b: Book, c: Command)
    requires Agrees(b) && WellFormed(b)
    requires !c.AddOrder? && !c.ReplaceOrder? && c.id in b.orders
    ensures WellFormed(Apply(b, c))
    ensures Agrees(Apply(b, c)) <==> Fits(b, c) && Reveals(b, c)
  {
    match Remainder(b, c)
    case None =>
      RemovalKeeps(b, c.id, c.timestamp);
    case Some(o) =>
      RemainderShape(b, c);
      SwapKeeps(b, c.id, o, c.timestamp);
  }

  /** A replace with two stamps is the swap with the second. */
  lemma ReplaceShape(b: Book, c: Command)
    requires c.ReplaceOrder? && c.id in b.orders
    ensures var o := Order(c.newId, b.symbol, b.orders[c.id].side, c.price, c.quantity, c.timestamp);
      Apply(b, c) == if c.newId in b.orders - {c.id} then Detach(b, c.id).Stamp(c.timestamp)
                     else Attach(Detach(b, c.id), o).Stamp(c.timestamp).(messageCount := Add(Add(b.messageCount, 1), 1))
  {
    DetachSides(b, c.id, Bid);
  }

  lemma ReplaceKeeps(b: Book, c: Command)
    requires Agrees(b) && WellFormed(b)
    requires c.ReplaceOrder? && c.id in b.orders
    ensures WellFormed(Apply(b, c))
    ensures Agrees(Apply(b, c)) <==> Fits(b, c) && Reveals(b, c)
  {
    ReplaceShape(b, c);
    var o := Order(c.newId, b.symbol, b.orders[c.id].side, c.price, c.quantity, c.timestamp);
    if c.newId in b.orders - {c.id} {
      RemovalKeeps(b, c.id, c.timestamp);
    } else {
      SwapKeeps(b, c.id, o, c.timestamp);
      var swapped := Attach(Detach(b, c.id), o).Stamp(c.timestamp);
      CountKeeps(swapped, Add(Add(b.messageCount, 1), 1));
    }
  }

  lemma CountKeeps(b: Book, count: nat)
    ensures Agrees(b.(messageCount := count)) <==> Agrees(b)
    ensures WellFormed(b.(messageCount := count)) <==> WellFormed(b)
  {
    var b' := b.(messageCount := count);
    assert b'.LevelsOn(Bid) == b.LevelsOn(Bid) && b'.LevelsOn(Ask) == b.LevelsOn(Ask);
    assert b'.TotalOn(Bid) == b.TotalOn(Bid) && b'.TotalOn(Ask) == b.TotalOn(Ask);
    assert b'.orders == b.orders;
  }

  /**
   One command keeps the index in agreement with the orders exactly when the sums fit and no
   order leaves from among zero-quantity ones.
   */
  lemma CommandKeepsAgreement(b: Book, c: Command)
    requires Agrees(b) && WellFormed(b) && |b.orders| + 1 < MODULUS
    ensures WellFormed(Apply(b, c))
    ensures Agrees(Apply(b, c)) <==> Fits(b, c) && Reveals(b, c)
  {
    if c.AddOrder? {
      if c.id !in b.orders {
        JoinKeeps(b, Order(c.id, b.symbol, c.side, c.price, c.quantity, c.timestamp), c.timestamp);
      }
    } else if c.id in b.orders {
      if c.ReplaceOrder? {
        ReplaceKeeps(b, c);
      } else {
        RemainderKeeps(b, c);
      }
    }
  }

  // ---------------------------------------------------------------- runs

  /** What a caller owes: positive quantities for new orders, and sums within 64 bits. */
  ghost predicate Admissible(b: Book, c: Command) {
    && (c.AddOrder? || c.ReplaceOrder? ==> c.quantity > 0)
    && Fits(b, c)
    && |b.orders| + 1 < MODULUS
  }

  ghost predicate AdmissibleRun(b: Book, commands: seq<Command>) {
    commands == [] ||
    (AdmissibleRun(b, commands[..|commands| - 1]) &&
     Admissible(Run(b, commands[..|commands| - 1]), commands[|commands| - 1]))
  }

  ghost predicate Sound(b: Book) {
    Agrees(b) && WellFormed(b) && Positive(b.orders)
  }

  lemma EmptySound(symbol: string)
    ensures Sound(Empty(symbol))
  {
    assert OnSide(map[], Bid) == {} && OnSide(map[], Ask) == {};
    assert Prices(map[], Bid) == {} && Prices(map[], Ask) == {};
    assert LevelsOf(map[], Bid) == map[] && LevelsOf(map[], Ask) == map[];
  }

  lemma ApplySound(b: Book, c: Command)
    requires Sound(b) && Admissible(b, c)
    ensures Sound(Apply(b, c))
  {
    if !c.AddOrder? && c.id in b.orders {
      ZeroTogether(b, c.id);
    }
    CommandKeepsAgreement(b, c);
    StaysPositive(b, c);
  }

  lemma StaysPositive(b: Book, c: Command)
    requires Positive(b.orders) && (c.AddOrder? || c.ReplaceOrder? ==> c.quantity > 0)
    ensures Positive(Apply(b, c).orders)
  {
  }

  /** After any admissible run the index agrees with the live orders. */
  lemma {:induction false} IndexAgreement(symbol: string, commands: seq<Command>)
    requires AdmissibleRun(Empty(symbol), commands)
    ensures Sound(Run(Empty(symbol), commands))
  {
    if commands == [] {
      EmptySound(symbol);
    } else {
      IndexAgreement(symbol, commands[..|commands| - 1]);
      ApplySound(Run(Empty(symbol), commands[..|commands| - 1]), commands[|commands| - 1]);
    }
  }

  /**
   The index of an admissible run, side by side and character by character: a level at a price says how many live
   orders rest there and how much they add up to, and the totals add up the sides.
   */
  lemma IndexByCharacter(symbol: string, commands: seq<Command>, price: int, bids: set<Id>, asks: set<Id>,
                         bidsHere: set<Id>, asksHere: set<Id>)
    requires AdmissibleRun(Empty(symbol), commands)
    requires var orders := Run(Empty(symbol), commands).orders;
      && (forall id :: id in bids <==> id in orders && (orders[id].side == 'B' || orders[id].side == 'b'))
      && (forall id :: id in asks <==> id in orders && orders[id].side != 'B' && orders[id].side != 'b')
      && (forall id :: id in bidsHere <==> id in bids && orders[id].price == price)
      && (forall id :: id in asksHere <==> id in asks && orders[id].price == price)
    ensures var b := Run(Empty(symbol), commands);
      && bids <= b.orders.Keys && asks <= b.orders.Keys && bidsHere <= bids && asksHere <= asks
      && b.totalBid == Sum(b.orders, bids) && b.totalAsk == Sum(b.orders, asks)
      && (price in b.bids <==> bidsHere != {}) && (price in b.asks <==> asksHere != {})
      && (price in b.bids ==> b.bids[price] == PriceLevel(price, Sum(b.orders, bidsHere), |bidsHere|))
      && (price in b.asks ==> b.asks[price] == PriceLevel(price, Sum(b.orders, asksHere), |asksHere|))
  {
    hide AdmissibleRun, Run, Sum, LevelsOf, OnSide, At;
    IndexAgreement(symbol, commands);
    var b := Run(Empty(symbol), commands);
    SidesByCharacter(b.orders, price, bids, asks, bidsHere, asksHere);
    assert SideAgrees(b, Bid) && SideAgrees(b, Ask);
    LevelPresent(b.orders, Bid, price);
    LevelPresent(b.orders, Ask, price);
  }

  lemma SidesByCharacter(orders: Orders, price: int, bids: set<Id>, asks: set<Id>, bidsHere: set<Id>, asksHere: set<Id>)
    requires forall id :: id in bids <==> id in orders && (orders[id].side == 'B' || orders[id].side == 'b')
    requires forall id :: id in asks <==> id in orders && orders[id].side != 'B' && orders[id].side != 'b'
    requires forall id :: id in bidsHere <==> id in bids && orders[id].price == price
    requires forall id :: id in asksHere <==> id in asks && orders[id].price == price
    ensures bids == OnSide(orders, Bid) && asks == OnSide(orders, Ask)
    ensures bidsHere == At(orders, Bid, price) <= bids && asksHere == At(orders, Ask, price) <= asks
  {
    SameIds(bids, OnSide(orders, Bid));
    SameIds(asks, OnSide(orders, Ask));
    SameIds(bidsHere, At(orders, Bid, price));
    SameIds(asksHere, At(orders, Ask, price));
  }

  lemma SameIds(s: set<Id>, t: set<Id>)
    requires forall id :: id in s <==> id in t
    ensures s == t
  {
    forall id | id in s ensures id in t {}
    forall id | id in t ensures id in s {}
  }

  /** The state after the first `n` commands. */
  function After(symbol: string, commands: seq<Command>, n: nat): Book
    requires n <= |commands|
  {
    Run(Empty(symbol), commands[..n])
  }

  /** The next command lets no sum leave 64 bits and takes no order out from among zero-quantity ones. */
  ghost predicate Harmless(symbol: string, commands: seq<Command>, n: nat)
    requires n < |commands|
  {
    Fits(After(symbol, commands, n), commands[n]) && Reveals(After(symbol, commands, n), commands[n])
  }

  ghost predicate AgreesUpTo(symbol: string, commands: seq<Command>, n: nat)
    requires n <= |commands|
  {
    forall m :: 0 <= m <= n ==> Agrees(After(symbol, commands, m))
  }

  lemma {:induction false} RunAgreesUpTo(symbol: string, commands: seq<Command>, n: nat)
    requires n <= |commands|
    requires forall m :: 0 <= m < n ==> |After(symbol, commands, m).orders| + 1 < MODULUS
    ensures AgreesUpTo(symbol, commands, n) <==> forall m :: 0 <= m < n ==> Harmless(symbol, commands, m)
    ensures AgreesUpTo(symbol, commands, n) ==> WellFormed(After(symbol, commands, n))
    decreases n
  {
    hide Agrees, WellFormed, Fits, Reveals, Run, Apply;
    if n == 0 {
      assert commands[..0] == [];
      RunOfNone(Empty(symbol));
      EmptyAgrees(symbol);
    } else {
      RunAgreesUpTo(symbol, commands, n - 1);
      RunPrefix(Empty(symbol), commands, n);
      if AgreesUpTo(symbol, commands, n - 1) {
        CommandKeepsAgreement(After(symbol, commands, n - 1), commands[n - 1]);
        assert Harmless(symbol, commands, n - 1) <==> Agrees(After(symbol, commands, n));
        assert AgreesUpTo(symbol, commands, n) <==> Agrees(After(symbol, commands, n));
      } else {
        var m :| 0 <= m < n - 1 && !Harmless(symbol, commands, m);
        assert !AgreesUpTo(symbol, commands, n);
      }
    }
  }

  lemma RunOfNone(b: Book)
    ensures Run(b, []) == b
  {
  }

  lemma EmptyAgrees(symbol: string)
    ensures Agrees(Empty(symbol)) && WellFormed(Empty(symbol))
  {
    EmptySound(symbol);
  }

  /**
   Over a whole run, from a new book, the index agrees with the live orders all along exactly when every
   command lets the sums fit and takes no order out from among zero-quantity ones.
   */
  lemma RunAgreesIff(symbol: string, commands: seq<Command>)
    requires forall n :: 0 <= n < |commands| ==> |After(symbol, commands, n).orders| + 1 < MODULUS
    ensures (forall n :: 0 <= n <= |commands| ==> Agrees(After(symbol, commands, n))) <==>
            (forall n :: 0 <= n < |commands| ==> Harmless(symbol, commands, n))
  {
    hide Agrees, WellFormed, Run, Harmless;
    RunAgreesUpTo(symbol, commands, |commands|);
  }

  /**
   Whenever an order leaves its level after an admissible run, the level is found, both guards
   hold, and the size reaches zero exactly when the count does.
   */
  lemma RemovalNeverMisses(symbol: string, commands: seq<Command>, id: Id)
    requires AdmissibleRun(Empty(symbol), commands)
    requires id in Run(Empty(symbol), commands).orders
    ensures var b := Run(Empty(symbol), commands);
      var o := b.orders[id];
      var levels := b.LevelsOn(o.BookSide());
      && o.price in levels
      && levels[o.price].size >= o.quantity
      && levels[o.price].orderCount > 0
      && b.TotalOn(o.BookSide()) >= o.quantity
      && (levels[o.price].size - o.quantity == 0 <==> levels[o.price].orderCount - 1 == 0)
  {
    IndexAgreement(symbol, commands);
    WithdrawGuards(Run(Empty(symbol), commands), id);
    ZeroTogether(Run(Empty(symbol), commands), id);
  }

  /** The bids, orders and bid total of a book without asks. */
  function BidsOnly(symbol: string, bids: Levels, orders: Orders, time: nat, count: nat, total: nat): Book {
    Book(symbol, bids, map[], orders, time, count, total, 0)
  }

  const ZERO_RUN: seq<Command> := [AddOrder(1, 'B', 100, 5, 0), AddOrder(2, 'B', 100, 0, 1), DeleteOrder(1, 2)]

  lemma ZeroRunStates(symbol: string)
    ensures var o, p := Order(1, symbol, 'B', 100, 5, 0), Order(2, symbol, 'B', 100, 0, 1);
      var first := BidsOnly(symbol, map[100 := PriceLevel(100, 5, 1)], map[1 := o], 0, 1, 5);
      var second := BidsOnly(symbol, map[100 := PriceLevel(100, 5, 2)], map[1 := o, 2 := p], 1, 2, 5);
      && Apply(Empty(symbol), ZERO_RUN[0]) == first
      && Apply(first, ZERO_RUN[1]) == second
      && Apply(second, ZERO_RUN[2]) == BidsOnly(symbol, map[], map[2 := p], 2, 3, 0)
  {
    var o, p := Order(1, symbol, 'B', 100, 5, 0), Order(2, symbol, 'B', 100, 0, 1);
    assert map[1 := o, 2 := p] - {1} == map[2 := p];
    assert map[100 := PriceLevel(100, 5, 2)] - {100} == map[];
  }

  lemma ZeroRunEnds(symbol: string)
    ensures Run(Empty(symbol), ZERO_RUN) ==
            Apply(Apply(Apply(Empty(symbol), ZERO_RUN[0]), ZERO_RUN[1]), ZERO_RUN[2])
  {
    hide Apply;
    RunPrefix(Empty(symbol), ZERO_RUN, 1);
    RunPrefix(Empty(symbol), ZERO_RUN, 2);
    RunPrefix(Empty(symbol), ZERO_RUN, 3);
    assert ZERO_RUN[..3] == ZERO_RUN && ZERO_RUN[..0] == [];
  }

  /** Why quantities must be positive: a zero-quantity order is left live without a level. */
  lemma ZeroQuantityLosesLevel(symbol: string)
    ensures var b := Run(Empty(symbol), ZERO_RUN);
      2 in b.orders && b.orders[2].BookSide() == Bid && b.bids == map[] && !Agrees(b)
  {
    hide Run, Apply;
    ZeroRunStates(symbol);
    ZeroRunEnds(symbol);
    var orders := Run(Empty(symbol), ZERO_RUN).orders;
    assert 2 in At(orders, Bid, 100);
    LevelPresent(orders, Bid, 100);
  }

  const OVERFLOW_RUN: seq<Command> :=
    [AddOrder(1, 'B', 100, 0x8000_0000_0000_0000, 0), AddOrder(2, 'B', 100, 0x8000_0000_0000_0000, 1)]

  /** Why sums must fit: two orders of 2^63 on one side leave a level, and a total, of size zero. */
  lemma SumOverflows(symbol: string)
    ensures var b := Apply(Apply(Empty(symbol), OVERFLOW_RUN[0]), OVERFLOW_RUN[1]);
      b.bids == map[100 := PriceLevel(100, 0, 2)] && b.totalBid == 0 && !Agrees(b)
  {
    var o := Order(1, symbol, 'B', 100, 0x8000_0000_0000_0000, 0);
    var first := BidsOnly(symbol, map[100 := PriceLevel(100, o.quantity, 1)], map[1 := o], 0, 1, o.quantity);
    EmptyAgrees(symbol);
    assert Apply(Empty(symbol), OVERFLOW_RUN[0]) == first;
    assert SideSum(map[], Bid) == 0;
    SideSumInsert(map[], o, Bid);
    assert map[][1 := o] == map[1 := o];
    CommandKeepsAgreement(Empty(symbol), OVERFLOW_RUN[0]);
    CommandKeepsAgreement(first, OVERFLOW_RUN[1]);
  }

  // ---------------------------------------------------------------- history independence

  function AddOf(o: Order): Command {
    AddOrder(o.orderId, o.side, o.price, o.quantity, o.timestamp)
  }

  /** The adds that rebuild a set of orders in a chosen sequence. */
  function Adds(orders: Orders, ids: seq<Id>): (commands: seq<Command>)
    requires forall id :: id in ids ==> id in orders
    ensures |commands| == |ids|
  {
    seq(|ids|, (i: nat) requires i < |ids| => AddOf(orders[ids[i]]))
  }

  ghost predicate Enumerates(ids: seq<Id>, keys: set<Id>) {
    && (forall id :: id in ids <==> id in keys)
    && (forall i, j :: 0 <= i < j < |ids| ==> ids[i] != ids[j])
  }

  lemma SmallerSum(some: Orders, all: Orders, side: Side)
    requires some.Keys <= all.Keys && forall id :: id in some ==> some[id] == all[id]
    ensures SideSum(some, side) <= SideSum(all, side)
  {
    SumFrame(some, all, OnSide(some, side));
    SumMonotone(all, OnSide(some, side), OnSide(all, side));
  }

  /** The orders of `all` with the ids listed. */
  ghost predicate Restricts(some: Orders, all: Orders, ids: seq<Id>) {
    && (forall id :: id in some <==> id in ids)
    && (forall id :: id in some ==> id in all && some[id] == all[id])
  }

  ghost predicate Holds(rebuilt: Book, b: Book, ids: seq<Id>) {
    Agrees(rebuilt) && WellFormed(rebuilt) && rebuilt.symbol == b.symbol && Restricts(rebuilt.orders, b.orders, ids)
  }

  lemma RestrictsOne(some: Orders, all: Orders, ids: seq<Id>, id: Id)
    requires Restricts(some, all, ids) && id in all && id !in ids
    ensures Restricts(some[id := all[id]], all, ids + [id])
    ensures some[id := all[id]].Keys <= all.Keys
    ensures |some| + 1 <= |all|
  {
    var more := some[id := all[id]];
    assert more.Keys == some.Keys + {id};
    SubsetSize(more.Keys, all.Keys);
    assert |more.Keys| == |some.Keys| + 1;
  }

  /** One more add of the rebuild. */
  lemma RebuildOne(rebuilt: Book, b: Book, ids: seq<Id>, id: Id)
    requires Sound(b) && Holds(rebuilt, b, ids) && id in b.orders && id !in ids
    ensures Holds(Apply(rebuilt, AddOf(b.orders[id])), b, ids + [id])
  {
    var o := b.orders[id];
    RestrictsOne(rebuilt.orders, b.orders, ids, id);
    RebuildFits(rebuilt.orders, b.orders, ids, id);
    assert SideAgrees(b, o.BookSide());
    JoinKeeps(rebuilt, o, o.timestamp);
    AttachSides(rebuilt, o, Bid);
  }

  lemma RebuildFits(some: Orders, all: Orders, ids: seq<Id>, id: Id)
    requires Restricts(some, all, ids) && id in all && id !in ids && all[id].orderId == id
    ensures SideSum(some, all[id].BookSide()) + all[id].quantity <= SideSum(all, all[id].BookSide())
  {
    var o := all[id];
    RestrictsOne(some, all, ids, id);
    SmallerSum(some[id := o], all, o.BookSide());
    SideSumInsert(some, o, o.BookSide());
  }

  lemma RunPrefix(b: Book, commands: seq<Command>, n: nat)
    requires 0 < n <= |commands|
    ensures Run(b, commands[..n]) == Apply(Run(b, commands[..n - 1]), commands[n - 1])
  {
    assert commands[..n][..n - 1] == commands[..n - 1];
  }

  lemma NextId(ids: seq<Id>, keys: set<Id>, n: nat)
    requires Enumerates(ids, keys) && 0 < n <= |ids|
    ensures ids[n - 1] in keys && ids[n - 1] !in ids[..n - 1]
    ensures ids[..n] == ids[..n - 1] + [ids[n - 1]]
  {
  }

  /** Part of the way through the rebuild, the new book holds exactly the orders added so far. */
  lemma {:induction false} RebuildPrefix(b: Book, ids: seq<Id>, n: nat)
    requires Sound(b) && n <= |ids|
    requires Enumerates(ids, b.orders.Keys)
    ensures Holds(Run(Empty(b.symbol), Adds(b.orders, ids)[..n]), b, ids[..n])
  {
    var commands := Adds(b.orders, ids);
    if n == 0 {
      EmptySound(b.symbol);
    } else {
      RebuildPrefix(b, ids, n - 1);
      RunPrefix(Empty(b.symbol), commands, n);
      NextId(ids, b.orders.Keys, n);
      RebuildOne(Run(Empty(b.symbol), commands[..n - 1]), b, ids[..n - 1], ids[n - 1]);
    }
  }

  /**
   The levels and totals any admissible run reaches are those of a fresh book filled with the
   surviving orders, in whatever sequence they are added.
   */
  lemma HistoryIndependence(symbol: string, commands: seq<Command>, ids: seq<Id>)
    requires AdmissibleRun(Empty(symbol), commands)
    requires Enumerates(ids, Run(Empty(symbol), commands).orders.Keys)
    ensures var b := Run(Empty(symbol), commands);
      var rebuilt := Run(Empty(symbol), Adds(b.orders, ids));
      && rebuilt.orders == b.orders
      && rebuilt.bids == b.bids && rebuilt.asks == b.asks
      && rebuilt.totalBid == b.totalBid && rebuilt.totalAsk == b.totalAsk
  {
    IndexAgreement(symbol, commands);
    var b := Run(Empty(symbol), commands);
    RebuildPrefix(b, ids, |ids|);
    assert Adds(b.orders, ids)[..|ids|] == Adds(b.orders, ids);
    assert ids[..|ids|] == ids;
    var rebuilt := Run(Empty(symbol), Adds(b.orders, ids));
    SameOrders(rebuilt.orders, b.orders);
    assert SideAgrees(b, Bid) && SideAgrees(b, Ask) && SideAgrees(rebuilt, Bid) && SideAgrees(rebuilt, Ask);
  }

  lemma SameOrders(x: Orders, y: Orders)
    requires forall id :: id in x <==> id in y
    requires forall id :: id in x ==> x[id] == y[id]
    ensures x == y
  {
    forall id ensures id in x <==> id in y {}
    forall id | id in x ensures id in y && x[id] == y[id] {}
  }
}
