/** Which commands keep the index in agreement with the orders, one command and whole runs. */
module BookAgreement {
  import opened Words
  import opened BookModel
  import opened BookIndex

  // ---------------------------------------------------------------- one order in, one order out

  /**
   What taking an order off a side does in any state, in agreement or not: a missing level changes nothing; the size
   goes down only if it covers the order, and the total with it; the count goes down only from above zero; the level
   goes when either is zero.
   */
  lemma WithdrawMeaning(levels: Levels, total: nat, o: Order, p: int)
    ensures var (after, left) := Withdraw(levels, total, o);
      && (p != o.price || o.price !in levels ==> (p in after <==> p in levels) && (p in levels ==> after[p] == levels[p]))
      && left == (if o.price in levels && levels[o.price].size >= o.quantity then (total - o.quantity) % MODULUS else total)
    ensures o.price in levels ==>
      var size := if levels[o.price].size >= o.quantity then levels[o.price].size - o.quantity else levels[o.price].size;
      var count := if levels[o.price].orderCount == 0 then 0 else levels[o.price].orderCount - 1;
      var after := Withdraw(levels, total, o).0;
      && (o.price in after <==> size != 0 && count != 0)
      && (o.price in after ==> after[o.price] == PriceLevel(levels[o.price].price, size, count))
  {
  }

  /** What putting an order on a side does in any state: size, count and total go up, modulo 2^64. */
  lemma DepositMeaning(levels: Levels, total: nat, o: Order, p: int)
    ensures var (after, sum) := Deposit(levels, total, o);
      && (p != o.price ==> (p in after <==> p in levels) && (p in levels ==> after[p] == levels[p]))
      && sum == (total + o.quantity) % MODULUS
      && o.price in after
      && after[o.price].price == o.price
      && after[o.price].size == ((if o.price in levels then levels[o.price].size else 0) + o.quantity) % MODULUS
      && after[o.price].orderCount == ((if o.price in levels then levels[o.price].orderCount else 0) + 1) % MODULUS
  {
  }

  /** Other orders rest at the price of order `id`, and their quantities are all zero. */
  ghost predicate HidesOthers(orders: Orders, id: Id)
    requires id in orders
  {
    var level := LevelAt(orders - {id}, orders[id].BookSide(), orders[id].price);
    level.orderCount > 0 && level.size == 0
  }

  lemma Reinsert(orders: Orders, id: Id)
    requires id in orders && orders[id].orderId == id
    ensures (orders - {id})[id := orders[id]] == orders
    ensures |orders - {id}| < |orders|
  {
    assert (orders - {id}).Keys == orders.Keys - {id};
  }

  /** The reference levels and sums before and after order `id` leaves. */
  lemma ReferenceWithout(orders: Orders, id: Id, side: Side)
    requires id in orders && orders[id].orderId == id
    ensures var o := orders[id];
      var level := LevelAt(orders - {id}, side, o.price);
      if side == o.BookSide() then
        && LevelsOf(orders, side) ==
           LevelsOf(orders - {id}, side)[o.price := PriceLevel(o.price, level.size + o.quantity, level.orderCount + 1)]
        && SideSum(orders, side) == SideSum(orders - {id}, side) + o.quantity
      else
        LevelsOf(orders, side) == LevelsOf(orders - {id}, side) && SideSum(orders, side) == SideSum(orders - {id}, side)
  {
    var o := orders[id];
    Reinsert(orders, id);
    LevelsInsert(orders - {id}, o, side);
    SideSumInsert(orders - {id}, o, side);
    if side == o.BookSide() {
      AtInsert(orders - {id}, o, side, o.price);
    }
  }

  /** Inside `remove_from_price_level`: the level is found and both guards hold. */
  lemma WithdrawGuards(b: Book, id: Id)
    requires Agrees(b) && WellFormed(b) && id in b.orders
    ensures var o := b.orders[id];
      var levels := b.LevelsOn(o.BookSide());
      var rest := LevelAt(b.orders - {id}, o.BookSide(), o.price);
      && o.price in levels
      && levels[o.price] == PriceLevel(o.price, rest.size + o.quantity, rest.orderCount + 1)
      && b.TotalOn(o.BookSide()) == SideSum(b.orders - {id}, o.BookSide()) + o.quantity
  {
    ReferenceWithout(b.orders, id, b.orders[id].BookSide());
  }

  /** With positive quantities the size reaches zero exactly when the count does. */
  lemma ZeroTogether(b: Book, id: Id)
    requires Agrees(b) && WellFormed(b) && id in b.orders && Positive(b.orders)
    ensures b.orders[id].price in b.LevelsOn(b.orders[id].BookSide())
    ensures var level := b.LevelsOn(b.orders[id].BookSide())[b.orders[id].price];
      level.size == b.orders[id].quantity <==> level.orderCount == 1
    ensures !HidesOthers(b.orders, id)
  {
    WithdrawGuards(b, id);
    var rest := b.orders - {id};
    PositiveSum(rest, At(rest, b.orders[id].BookSide(), b.orders[id].price));
  }

  lemma SubtractTotal(x: nat, y: nat)
    requires x + y < MODULUS
    ensures Sub(x + y, y) == x
  {
  }

  /** Taking one order off a level: the right level remains unless only zero quantities do. */
  lemma WithdrawAlgebra(rest: Levels, total: nat, o: Order, level: PriceLevel)
    requires level.price == o.price
    requires o.price in rest <==> level.orderCount > 0
    requires o.price in rest ==> rest[o.price] == level
    requires total + o.quantity < MODULUS
    ensures var (levels, left) :=
        Withdraw(rest[o.price := PriceLevel(o.price, level.size + o.quantity, level.orderCount + 1)],
                 total + o.quantity, o);
      left == total && (levels == rest <==> !(level.orderCount > 0 && level.size == 0))
  {
    SubtractTotal(total, o.quantity);
    var full := rest[o.price := PriceLevel(o.price, level.size + o.quantity, level.orderCount + 1)];
    var levels := Withdraw(full, total + o.quantity, o).0;
    if level.size == 0 || level.orderCount == 0 {
      assert levels == full - {o.price};
      if level.orderCount == 0 {
        SameLevels(levels, rest);
      }
    } else {
      assert levels == full[o.price := level];
      SameLevels(levels, rest);
    }
  }

  /** Putting one order on a level: right as long as the side's total fits in 64 bits. */
  lemma DepositAlgebra(levels: Levels, total: nat, o: Order, level: PriceLevel)
    requires o.price in levels <==> level.orderCount > 0
    requires o.price in levels ==> levels[o.price] == level
    requires level.orderCount == 0 ==> level.size == 0
    requires level.size <= total < MODULUS && level.orderCount + 1 < MODULUS
    ensures var more := levels[o.price := PriceLevel(o.price, level.size + o.quantity, level.orderCount + 1)];
      && (total + o.quantity < MODULUS ==> Deposit(levels, total, o) == (more, total + o.quantity))
      && (Deposit(levels, total, o).1 == total + o.quantity ==> total + o.quantity < MODULUS)
  {
  }

  lemma DetachSides(b: Book, id: Id, side: Side)
    requires id in b.orders
    ensures Detach(b, id).orders == b.orders - {id} && Detach(b, id).symbol == b.symbol
    ensures (Detach(b, id).LevelsOn(side), Detach(b, id).TotalOn(side)) ==
            if side == b.orders[id].BookSide() then Withdraw(b.LevelsOn(side), b.TotalOn(side), b.orders[id])
            else (b.LevelsOn(side), b.TotalOn(side))
  {
  }

  /** Withdrawing from the reference levels gives those of one order less, unless zeros are hidden. */
  lemma WithdrawReference(orders: Orders, id: Id)
    requires id in orders && orders[id].orderId == id
    requires SideSum(orders, orders[id].BookSide()) < MODULUS
    ensures var side := orders[id].BookSide();
      var (levels, total) := Withdraw(LevelsOf(orders, side), SideSum(orders, side), orders[id]);
      var rest := orders - {id};
      && total == SideSum(rest, side) < MODULUS
      && (levels == LevelsOf(rest, side) <==> !HidesOthers(orders, id))
  {
    var o := orders[id];
    var side := o.BookSide();
    var rest := orders - {id};
    ReferenceWithout(orders, id, side);
    LevelPresent(rest, side, o.price);
    WithdrawAlgebra(LevelsOf(rest, side), SideSum(rest, side), o, LevelAt(rest, side, o.price));
  }

  /** What the departure of order `id` does to the agreement of one side. */
  lemma WithdrawKeeps(b: Book, id: Id, side: Side)
    requires SideAgrees(b, side) && WellFormed(b) && id in b.orders
    ensures SideAgrees(Detach(b, id), side) <==> !(side == b.orders[id].BookSide() && HidesOthers(b.orders, id))
  {
    DetachSides(b, id, side);
    if side == b.orders[id].BookSide() {
      WithdrawReference(b.orders, id);
    } else {
      ReferenceWithout(b.orders, id, side);
    }
  }

  /** Removing an order keeps the agreement unless it hides others. */
  lemma DetachKeeps(b: Book, id: Id)
    requires Agrees(b) && WellFormed(b) && id in b.orders
    ensures WellFormed(Detach(b, id))
    ensures Agrees(Detach(b, id)) <==> !HidesOthers(b.orders, id)
  {
    Reinsert(b.orders, id);
    DetachSides(b, id, Bid);
    WithdrawKeeps(b, id, Bid);
    WithdrawKeeps(b, id, Ask);
  }

  lemma LevelFits(orders: Orders, side: Side, price: int)
    ensures LevelAt(orders, side, price).size <= SideSum(orders, side)
    ensures LevelAt(orders, side, price).orderCount <= |orders|
  {
    SumMonotone(orders, At(orders, side, price), OnSide(orders, side));
    SubsetSize(At(orders, side, price), orders.Keys);
    assert |orders.Keys| == |orders|;
  }

  lemma {:induction false} SubsetSize(s: set<Id>, t: set<Id>)
    requires s <= t
    ensures |s| <= |t|
  {
    if x :| x in s {
      SubsetSize(s - {x}, t - {x});
    }
  }

  lemma AttachSides(b: Book, o: Order, side: Side)
    ensures Attach(b, o).orders == b.orders[o.orderId := o] && Attach(b, o).symbol == b.symbol
    ensures (Attach(b, o).LevelsOn(side), Attach(b, o).TotalOn(side)) ==
            if side == o.BookSide() then Deposit(b.LevelsOn(side), b.TotalOn(side), o)
            else (b.LevelsOn(side), b.TotalOn(side))
  {
  }

  /** The reference levels and sums once order `o` has joined. */
  lemma ReferenceWith(orders: Orders, o: Order, side: Side)
    requires o.orderId !in orders
    ensures var all := orders[o.orderId := o];
      var level := LevelAt(orders, side, o.price);
      if side == o.BookSide() then
        && LevelsOf(all, side) ==
           LevelsOf(orders, side)[o.price := PriceLevel(o.price, level.size + o.quantity, level.orderCount + 1)]
        && SideSum(all, side) == SideSum(orders, side) + o.quantity
      else
        LevelsOf(all, side) == LevelsOf(orders, side) && SideSum(all, side) == SideSum(orders, side)
  {
    LevelsInsert(orders, o, side);
    SideSumInsert(orders, o, side);
    if side == o.BookSide() {
      AtInsert(orders, o, side, o.price);
    }
  }

  /** Depositing on the reference levels gives the reference levels of one order more, if it fits. */
  lemma DepositReference(orders: Orders, o: Order)
    requires o.orderId !in orders && |orders| + 1 < MODULUS
    requires SideSum(orders, o.BookSide()) < MODULUS
    ensures var side := o.BookSide();
      var (levels, total) := Deposit(LevelsOf(orders, side), SideSum(orders, side), o);
      var all := orders[o.orderId := o];
      (levels == LevelsOf(all, side) && total == SideSum(all, side) < MODULUS) <==>
      SideSum(orders, side) + o.quantity < MODULUS
  {
    var side := o.BookSide();
    ReferenceWith(orders, o, side);
    LevelFits(orders, side, o.price);
    LevelPresent(orders, side, o.price);
    DepositAlgebra(LevelsOf(orders, side), SideSum(orders, side), o, LevelAt(orders, side, o.price));
  }

  /** What the arrival of an order does to the agreement of one side. */
  lemma DepositKeeps(b: Book, o: Order, side: Side)
    requires SideAgrees(b, side) && |b.orders| + 1 < MODULUS && o.orderId !in b.orders
    ensures SideAgrees(Attach(b, o), side) <==>
            (side == o.BookSide() ==> SideSum(b.orders, side) + o.quantity < MODULUS)
  {
    AttachSides(b, o, side);
    if side == o.BookSide() {
      DepositReference(b.orders, o);
    } else {
      ReferenceWith(b.orders, o, side);
    }
  }

  lemma AttachForm(b: Book, o: Order)
    requires WellFormed(b) && |b.orders| + 1 < MODULUS && o.orderId !in b.orders && o.symbol == b.symbol
    ensures WellFormed(Attach(b, o))
  {
    AttachSides(b, o, Bid);
    assert b.orders[o.orderId := o].Keys == b.orders.Keys + {o.orderId};
  }

  /** Adding an order keeps the agreement exactly when its side's sum still fits in 64 bits. */
  lemma AttachKeeps(b: Book, o: Order)
    requires Agrees(b) && |b.orders| + 1 < MODULUS && o.orderId !in b.orders
    ensures Agrees(Attach(b, o)) <==> SideSum(b.orders, o.BookSide()) + o.quantity < MODULUS
  {
    DepositKeeps(b, o, Bid);
    DepositKeeps(b, o, Ask);
  }

  /** A level lost to a zero sum is not repaired by the order that comes next. */
  lemma LostLevelStaysLost(b: Book, id: Id, o: Order)
    requires Agrees(b) && WellFormed(b) && id in b.orders && HidesOthers(b.orders, id)
    requires o.orderId !in b.orders - {id}
    ensures !Agrees(Attach(Detach(b, id), o))
  {
    var gone := b.orders[id];
    var side := gone.BookSide();
    var rest := b.orders - {id};
    var after := Attach(Detach(b, id), o);
    WithdrawGuards(b, id);
    AtInsert(rest, o, side, gone.price);
    assert after.orders == rest[o.orderId := o];
    var levels := after.LevelsOn(side);
    var reference := LevelsOf(after.orders, side);
    assert gone.price in reference;
    assert RestsAt(o, side, gone.price) ==> reference[gone.price].orderCount > 1;
    assert gone.price in levels ==> RestsAt(o, side, gone.price) && levels[gone.price].orderCount == 1;
  }
}
