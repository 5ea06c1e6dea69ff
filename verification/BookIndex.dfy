/**
 Agreement of the incrementally maintained index with the live orders: each level is the sum and
 the number of the orders resting at its price, each total the sum of its side.
 */
module BookIndex {
  import opened Words
  import opened BookModel

  // ---------------------------------------------------------------- the reference definition

  ghost function Sum(orders: Orders, ids: set<Id>): nat
    requires ids <= orders.Keys
  {
    if ids == {} then 0
    else
      var id :| id in ids;
      orders[id].quantity + Sum(orders, ids - {id})
  }

  /** The bids are the orders marked 'B' or 'b', the asks all others. */
  ghost function OnSide(orders: Orders, side: Side): (ids: set<Id>)
    ensures ids <= orders.Keys
  {
    set id | id in orders && ((orders[id].side == 'B' || orders[id].side == 'b') <==> side == Bid)
  }

  ghost function At(orders: Orders, side: Side, price: int): (ids: set<Id>)
    ensures ids <= orders.Keys
  {
    set id | id in OnSide(orders, side) && orders[id].price == price
  }

  ghost function Prices(orders: Orders, side: Side): set<int> {
    set id | id in OnSide(orders, side) :: orders[id].price
  }

  ghost function LevelAt(orders: Orders, side: Side, price: int): PriceLevel {
    PriceLevel(price, Sum(orders, At(orders, side, price)), |At(orders, side, price)|)
  }

  /** The levels the live orders call for. */
  ghost function LevelsOf(orders: Orders, side: Side): Levels {
    map p | p in Prices(orders, side) :: LevelAt(orders, side, p)
  }

  /** A level is present exactly when an order rests at its price. */
  lemma LevelPresent(orders: Orders, side: Side, price: int)
    ensures price in LevelsOf(orders, side) <==> LevelAt(orders, side, price).orderCount > 0
    ensures price in LevelsOf(orders, side) <==> At(orders, side, price) != {}
    ensures price in LevelsOf(orders, side) ==> LevelsOf(orders, side)[price] == LevelAt(orders, side, price)
    ensures At(orders, side, price) == {} ==> LevelAt(orders, side, price) == PriceLevel(price, 0, 0)
  {
    if id :| id in At(orders, side, price) {
      assert id in OnSide(orders, side);
    }
    if price in Prices(orders, side) {
      var id :| id in OnSide(orders, side) && orders[id].price == price;
      assert id in At(orders, side, price);
    }
  }

  ghost function SideSum(orders: Orders, side: Side): nat {
    Sum(orders, OnSide(orders, side))
  }

  ghost predicate SideAgrees(b: Book, side: Side) {
    && b.LevelsOn(side) == LevelsOf(b.orders, side)
    && b.TotalOn(side) == SideSum(b.orders, side) < MODULUS
  }

  ghost predicate Agrees(b: Book) {
    SideAgrees(b, Bid) && SideAgrees(b, Ask)
  }

  ghost predicate WellFormed(b: Book) {
    && (forall id :: id in b.orders ==> b.orders[id].orderId == id && b.orders[id].symbol == b.symbol)
    && |b.orders| < MODULUS
  }

  ghost predicate Positive(orders: Orders) {
    forall id :: id in orders ==> orders[id].quantity > 0
  }

  // ---------------------------------------------------------------- sums over orders

  lemma {:induction false} SumRemove(orders: Orders, ids: set<Id>, id: Id)
    requires ids <= orders.Keys && id in ids
    ensures Sum(orders, ids) == orders[id].quantity + Sum(orders, ids - {id})
    decreases ids
  {
    var first :| first in ids && Sum(orders, ids) == orders[first].quantity + Sum(orders, ids - {first});
    if first != id {
      SumRemove(orders, ids - {first}, id);
      SumRemove(orders, ids - {id}, first);
      assert ids - {first} - {id} == ids - {id} - {first};
    }
  }

  lemma {:induction false} SumFrame(orders: Orders, orders': Orders, ids: set<Id>)
    requires ids <= orders.Keys && ids <= orders'.Keys
    requires forall id :: id in ids ==> orders[id].quantity == orders'[id].quantity
    ensures Sum(orders, ids) == Sum(orders', ids)
    decreases ids
  {
    if ids != {} {
      var id :| id in ids && Sum(orders, ids) == orders[id].quantity + Sum(orders, ids - {id});
      SumRemove(orders', ids, id);
      SumFrame(orders, orders', ids - {id});
    }
  }

  lemma {:induction false} SumMonotone(orders: Orders, ids: set<Id>, more: set<Id>)
    requires ids <= more <= orders.Keys
    ensures Sum(orders, ids) <= Sum(orders, more)
    decreases ids
  {
    if id :| id in ids {
      SumRemove(orders, ids, id);
      SumRemove(orders, more, id);
      SumMonotone(orders, ids - {id}, more - {id});
    }
  }

  /** Positive orders sum to zero only when there are none. */
  lemma PositiveSum(orders: Orders, ids: set<Id>)
    requires Positive(orders) && ids <= orders.Keys
    ensures Sum(orders, ids) == 0 <==> ids == {}
  {
    if id :| id in ids {
      SumRemove(orders, ids, id);
    }
  }

  /** What one more order changes in the sums. */
  lemma SumInsert(rest: Orders, o: Order, ids: set<Id>)
    requires o.orderId !in rest && ids <= rest.Keys
    ensures Sum(rest[o.orderId := o], ids) == Sum(rest, ids)
    ensures Sum(rest[o.orderId := o], ids + {o.orderId}) == Sum(rest, ids) + o.quantity
  {
    var all := rest[o.orderId := o];
    SumFrame(rest, all, ids);
    SumRemove(all, ids + {o.orderId}, o.orderId);
    assert ids + {o.orderId} - {o.orderId} == ids;
  }

  ghost predicate RestsAt(o: Order, side: Side, price: int) {
    side == o.BookSide() && price == o.price
  }

  lemma AtInsertSet(rest: Orders, o: Order, side: Side, price: int)
    requires o.orderId !in rest
    ensures At(rest[o.orderId := o], side, price) ==
            if RestsAt(o, side, price) then At(rest, side, price) + {o.orderId} else At(rest, side, price)
  {
  }

  lemma OnSideInsert(rest: Orders, o: Order, side: Side)
    requires o.orderId !in rest
    ensures OnSide(rest[o.orderId := o], side) ==
            if side == o.BookSide() then OnSide(rest, side) + {o.orderId} else OnSide(rest, side)
  {
  }

  /** What one more order changes at one price. */
  lemma AtInsert(rest: Orders, o: Order, side: Side, price: int)
    requires o.orderId !in rest
    ensures LevelAt(rest[o.orderId := o], side, price) ==
      var level := LevelAt(rest, side, price);
      if RestsAt(o, side, price) then PriceLevel(price, level.size + o.quantity, level.orderCount + 1) else level
    ensures At(rest[o.orderId := o], side, price) == {} <==>
            At(rest, side, price) == {} && !RestsAt(o, side, price)
  {
    AtInsertSet(rest, o, side, price);
    SumInsert(rest, o, At(rest, side, price));
  }

  /** What one more order changes in a side's sum. */
  lemma SideSumInsert(rest: Orders, o: Order, side: Side)
    requires o.orderId !in rest
    ensures SideSum(rest[o.orderId := o], side) ==
            SideSum(rest, side) + if side == o.BookSide() then o.quantity else 0
  {
    OnSideInsert(rest, o, side);
    SumInsert(rest, o, OnSide(rest, side));
  }

  /** What one more order changes in the reference levels. */
  lemma LevelsInsert(rest: Orders, o: Order, side: Side)
    requires o.orderId !in rest
    ensures LevelsOf(rest[o.orderId := o], side) ==
            if side == o.BookSide() then LevelsOf(rest, side)[o.price := LevelAt(rest[o.orderId := o], side, o.price)]
            else LevelsOf(rest, side)
  {
    var all := rest[o.orderId := o];
    var was := LevelsOf(rest, side);
    var now := LevelsOf(all, side);
    forall p
      ensures p in now <==> p in was || RestsAt(o, side, p)
      ensures p in now && !RestsAt(o, side, p) ==> now[p] == was[p]
    {
      AtInsert(rest, o, side, p);
      LevelPresent(rest, side, p);
      LevelPresent(all, side, p);
    }
    if side == o.BookSide() {
      SameLevels(now, was[o.price := LevelAt(all, side, o.price)]);
    } else {
      SameLevels(now, was);
    }
  }

  lemma SameLevels(x: Levels, y: Levels)
    requires forall p :: p in x <==> p in y
    requires forall p :: p in x ==> x[p] == y[p]
    ensures x == y
  {
    forall p ensures p in x <==> p in y {}
    forall p | p in x ensures p in y && x[p] == y[p] {}
  }
}
