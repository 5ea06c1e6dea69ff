/**
 The order-by-order book as a state with one transition per command: the exact effect of every
 mutator on the order index, the two price-level maps and the running totals, with 64-bit
 arithmetic.
 */
module BookModel {
  import opened Words

  type Id = nat

  datatype Side = Bid | Ask

  /** Any character other than 'B' and 'b' is an ask. */
  function SideOf(c: char): Side {
    if c == 'B' || c == 'b' then Bid else Ask
  }

  datatype PriceLevel = PriceLevel(price: int, size: nat, orderCount: nat)

  type Levels = map<int, PriceLevel>

  datatype Order = Order(orderId: Id, symbol: string, side: char, price: int, quantity: nat, timestamp: nat) {
    function BookSide(): Side { SideOf(side) }
  }

  type Orders = map<Id, Order>

  datatype Book = Book(
    symbol: string,
    bids: Levels,
    asks: Levels,
    orders: Orders,
    lastUpdateTime: nat,
    messageCount: nat,
    totalBid: nat,
    totalAsk: nat)
  {
    function LevelsOn(side: Side): Levels {
      if side == Bid then bids else asks
    }

    function TotalOn(side: Side): nat {
      if side == Bid then totalBid else totalAsk
    }

    function WithSide(side: Side, levels: Levels, total: nat): Book {
      if side == Bid then this.(bids := levels, totalBid := total)
      else this.(asks := levels, totalAsk := total)
    }

    function Stamp(timestamp: nat): Book {
      this.(lastUpdateTime := timestamp, messageCount := Add(messageCount, 1))
    }
  }

  function Empty(symbol: string): Book {
    Book(symbol, map[], map[], map[], 0, 0, 0, 0)
  }

  /** `remove_from_price_level` on one side: both guards, and the erasure test on either counter. */
  function Withdraw(levels: Levels, total: nat, order: Order): (Levels, nat) {
    if order.price !in levels then (levels, total)
    else
      var level := levels[order.price];
      var covered := level.size >= order.quantity;
      var size := if covered then level.size - order.quantity else level.size;
      var count := if level.orderCount > 0 then level.orderCount - 1 else level.orderCount;
      (if size == 0 || count == 0 then levels - {order.price}
       else levels[order.price := level.(size := size, orderCount := count)],
       if covered then Sub(total, order.quantity) else total)
  }

  /** `add_to_price_level` on one side: a missing level starts at zero. */
  function Deposit(levels: Levels, total: nat, order: Order): (Levels, nat) {
    var level := if order.price in levels then levels[order.price] else PriceLevel(0, 0, 0);
    (levels[order.price := PriceLevel(order.price, Add(level.size, order.quantity), Add(level.orderCount, 1))],
     Add(total, order.quantity))
  }

  /** An order leaves the index and its level. */
  function Detach(b: Book, id: Id): Book
    requires id in b.orders
  {
    var o := b.orders[id];
    var (levels, total) := Withdraw(b.LevelsOn(o.BookSide()), b.TotalOn(o.BookSide()), o);
    b.WithSide(o.BookSide(), levels, total).(orders := b.orders - {id})
  }

  /** An order enters the index and its level. */
  function Attach(b: Book, o: Order): Book {
    var (levels, total) := Deposit(b.LevelsOn(o.BookSide()), b.TotalOn(o.BookSide()), o);
    b.WithSide(o.BookSide(), levels, total).(orders := b.orders[o.orderId := o])
  }

  datatype Command =
    | AddOrder(id: Id, side: char, price: int, quantity: nat, timestamp: nat)
    | ModifyOrder(id: Id, quantity: nat, timestamp: nat)
    | CancelOrder(id: Id, quantity: nat, timestamp: nat)
    | DeleteOrder(id: Id, timestamp: nat)
    | ExecuteOrder(id: Id, quantity: nat, timestamp: nat)
    | ReplaceOrder(id: Id, newId: Id, quantity: nat, price: int, timestamp: nat)

  function Accepts(b: Book, c: Command): bool {
    match c
    case AddOrder(id, _, _, _, _) => id !in b.orders
    case ReplaceOrder(id, newId, _, _, _) => id in b.orders && (newId !in b.orders || newId == id)
    case _ => c.id in b.orders
  }

  /** The order a command leaves in place of order `c.id`, if any. */
  function Remainder(b: Book, c: Command): Option<Order>
    requires c.id in b.orders && !c.AddOrder? && !c.ReplaceOrder?
  {
    var o := b.orders[c.id];
    match c
    case ModifyOrder(_, q, t) => if q > 0 then Some(o.(quantity := q, timestamp := t)) else None
    case CancelOrder(_, q, t) => if o.quantity > q then Some(o.(quantity := o.quantity - q, timestamp := t)) else None
    case ExecuteOrder(_, q, t) => if o.quantity > q then Some(o.(quantity := o.quantity - q, timestamp := t)) else None
    case DeleteOrder(_, _) => None
  }

  function AddTo(b: Book, id: Id, side: char, price: int, quantity: nat, timestamp: nat): Book {
    if id in b.orders then b
    else Attach(b, Order(id, b.symbol, side, price, quantity, timestamp)).Stamp(timestamp)
  }

  /**
   The state after a command. A replace whose new id is taken still deletes the old order and
   counts one message.
   */
  function Apply(b: Book, c: Command): (r: Book)
    ensures r.symbol == b.symbol
  {
    match c
    case AddOrder(id, side, price, quantity, timestamp) => AddTo(b, id, side, price, quantity, timestamp)
    case ReplaceOrder(id, newId, quantity, price, timestamp) =>
      if id !in b.orders then b
      else AddTo(Detach(b, id).Stamp(timestamp), newId, b.orders[id].side, price, quantity, timestamp)
    case _ =>
      if c.id !in b.orders then b
      else
        var rest := Detach(b, c.id);
        match Remainder(b, c)
        case None => rest.Stamp(c.timestamp)
        case Some(o) => Attach(rest, o).Stamp(c.timestamp)
  }

  /** The state after a sequence of commands. */
  function Run(b: Book, commands: seq<Command>): (r: Book)
    ensures r.symbol == b.symbol
  {
    if commands == [] then b
    else Apply(Run(b, commands[..|commands| - 1]), commands[|commands| - 1])
  }
}
