/** The order-by-order book as an object. */
module EnhancedOrderBook {
  import opened Words
  import opened BookModel
  import opened BookIndex
  import opened BookHistory
  import opened BookQueries
  import opened BookSnapshots

  class EnhancedOrderBook {
    const symbol: string
    var bids: Levels
    var asks: Levels
    var orders: Orders
    var lastUpdateTime: nat
    var messageCount: nat
    var totalBidQuantity: nat
    var totalAskQuantity: nat

    ghost function View(): Book
      reads this
    {
      Book(symbol, bids, asks, orders, lastUpdateTime, messageCount, totalBidQuantity, totalAskQuantity)
    }

    ghost predicate Valid()
      reads this
    {
      forall id :: id in orders ==> orders[id].orderId == id
    }

    constructor (symbol: string)
      ensures Valid() && View() == Empty(symbol) && Sound(View())
      ensures this.symbol == symbol && bids == asks == map[] && orders == map[]
      ensures lastUpdateTime == messageCount == totalBidQuantity == totalAskQuantity == 0
    {
      this.symbol := symbol;
      bids, asks, orders := map[], map[], map[];
      lastUpdateTime, messageCount, totalBidQuantity, totalAskQuantity := 0, 0, 0, 0;
      new;
      EmptySound(symbol);
    }

    method RemoveFromPriceLevel(order: Order)
      modifies this`bids, this`asks, this`totalBidQuantity, this`totalAskQuantity
      ensures order.side == 'B' || order.side == 'b' ==>
        (bids, totalBidQuantity) == Withdraw(old(bids), old(totalBidQuantity), order) &&
        asks == old(asks) && totalAskQuantity == old(totalAskQuantity)
      ensures order.side != 'B' && order.side != 'b' ==>
        (asks, totalAskQuantity) == Withdraw(old(asks), old(totalAskQuantity), order) &&
        bids == old(bids) && totalBidQuantity == old(totalBidQuantity)
    {
      if order.side == 'B' || order.side == 'b' {
        if order.price in bids {
          var level := bids[order.price];
          if level.size >= order.quantity {
            level := level.(size := level.size - order.quantity);
            totalBidQuantity := Sub(totalBidQuantity, order.quantity);
          }
          if level.orderCount > 0 {
            level := level.(orderCount := level.orderCount - 1);
          }
          if level.size == 0 || level.orderCount == 0 {
            bids := bids - {order.price};
          } else {
            bids := bids[order.price := level];
          }
        }
      } else {
        if order.price in asks {
          var level := asks[order.price];
          if level.size >= order.quantity {
            level := level.(size := level.size - order.quantity);
            totalAskQuantity := Sub(totalAskQuantity, order.quantity);
          }
          if level.orderCount > 0 {
            level := level.(orderCount := level.orderCount - 1);
          }
          if level.size == 0 || level.orderCount == 0 {
            asks := asks - {order.price};
          } else {
            asks := asks[order.price := level];
          }
        }
      }
    }

    method AddToPriceLevel(order: Order)
      modifies this`bids, this`asks, this`totalBidQuantity, this`totalAskQuantity
      ensures order.side == 'B' || order.side == 'b' ==>
        (bids, totalBidQuantity) == Deposit(old(bids), old(totalBidQuantity), order) &&
        asks == old(asks) && totalAskQuantity == old(totalAskQuantity)
      ensures order.side != 'B' && order.side != 'b' ==>
        (asks, totalAskQuantity) == Deposit(old(asks), old(totalAskQuantity), order) &&
        bids == old(bids) && totalBidQuantity == old(totalBidQuantity)
    {
      if order.side == 'B' || order.side == 'b' {
        var level := if order.price in bids then bids[order.price] else PriceLevel(0, 0, 0);
        level := level.(price := order.price);
        level := level.(size := Add(level.size, order.quantity));
        level := level.(orderCount := Add(level.orderCount, 1));
        bids := bids[order.price := level];
        totalBidQuantity := Add(totalBidQuantity, order.quantity);
      } else {
        var level := if order.price in asks then asks[order.price] else PriceLevel(0, 0, 0);
        level := level.(price := order.price);
        level := level.(size := Add(level.size, order.quantity));
        level := level.(orderCount := Add(level.orderCount, 1));
        asks := asks[order.price := level];
        totalAskQuantity := Add(totalAskQuantity, order.quantity);
      }
    }

    method AddOrder(id: Id, side: char, price: int, quantity: nat, timestamp: nat) returns (ok: bool)
      requires Valid()
      modifies this
      ensures Valid()
      ensures var c := Command.AddOrder(id, side, price, quantity, timestamp);
        && View() == Apply(old(View()), c) && ok == Accepts(old(View()), c)
        && (old(Sound(View())) && Admissible(old(View()), c) ==> Sound(View()))
      ensures ok <==> id !in old(orders)
      ensures orders == if ok then old(orders)[id := Order(id, symbol, side, price, quantity, timestamp)] else old(orders)
      ensures side == 'B' || side == 'b' ==> asks == old(asks) && totalAskQuantity == old(totalAskQuantity)
      ensures side != 'B' && side != 'b' ==> bids == old(bids) && totalBidQuantity == old(totalBidQuantity)
      ensures lastUpdateTime == (if ok then timestamp else old(lastUpdateTime))
      ensures messageCount == (if ok then (old(messageCount) + 1) % MODULUS else old(messageCount))
    {
      hide Sound, Admissible, Withdraw, Deposit;
      ghost var c := Command.AddOrder(id, side, price, quantity, timestamp);
      ghost var before := View();
      if id in orders {
        assert View() == Apply(before, c);
        SoundIfAdmissible(before, c);
        return false;
      }
      var order := Order(id, symbol, side, price, quantity, timestamp);
      orders := orders[id := order];
      AddToPriceLevel(order);
      lastUpdateTime := timestamp;
      messageCount := Add(messageCount, 1);
      assert View() == Apply(before, c);
      SoundIfAdmissible(before, c);
      return true;
    }

    method ModifyOrder(id: Id, newQuantity: nat, timestamp: nat) returns (ok: bool)
      requires Valid()
      modifies this
      ensures Valid()
      ensures var c := Command.ModifyOrder(id, newQuantity, timestamp);
        && View() == Apply(old(View()), c) && ok == Accepts(old(View()), c)
        && (old(Sound(View())) && Admissible(old(View()), c) ==> Sound(View()))
      ensures ok <==> id in old(orders)
      ensures orders ==
        if !ok then old(orders)
        else if newQuantity == 0 then old(orders) - {id}
        else old(orders)[id := old(orders)[id].(quantity := newQuantity, timestamp := timestamp)]
      ensures ok && (old(orders)[id].side == 'B' || old(orders)[id].side == 'b') ==>
        asks == old(asks) && totalAskQuantity == old(totalAskQuantity)
      ensures ok && old(orders)[id].side != 'B' && old(orders)[id].side != 'b' ==>
        bids == old(bids) && totalBidQuantity == old(totalBidQuantity)
      ensures lastUpdateTime == (if ok then timestamp else old(lastUpdateTime))
      ensures messageCount == (if ok then (old(messageCount) + 1) % MODULUS else old(messageCount))
    {
      hide Sound, Admissible, Withdraw, Deposit;
      ghost var c := Command.ModifyOrder(id, newQuantity, timestamp);
      ghost var before := View();
      if id !in orders {
        assert View() == Apply(before, c);
        SoundIfAdmissible(before, c);
        return false;
      }
      var order := orders[id];
      RemoveFromPriceLevel(order);
      order := order.(quantity := newQuantity, timestamp := timestamp);
      PutBack(orders, id, order);
      orders := orders[id := order];
      if newQuantity > 0 {
        AddToPriceLevel(order);
      } else {
        orders := orders - {id};
      }
      lastUpdateTime := timestamp;
      messageCount := Add(messageCount, 1);
      assert View() == Apply(before, c);
      SoundIfAdmissible(before, c);
      return true;
    }

    method CancelOrder(id: Id, cancelledQuantity: nat, timestamp: nat) returns (ok: bool)
      requires Valid()
      modifies this
      ensures Valid()
      ensures var c := Command.CancelOrder(id, cancelledQuantity, timestamp);
        && View() == Apply(old(View()), c) && ok == Accepts(old(View()), c)
        && (old(Sound(View())) && Admissible(old(View()), c) ==> Sound(View()))
      ensures ok <==> id in old(orders)
      ensures orders ==
        if !ok then old(orders)
        else if cancelledQuantity >= old(orders)[id].quantity then old(orders) - {id}
        else old(orders)[id := old(orders)[id].(quantity := old(orders)[id].quantity - cancelledQuantity, timestamp := timestamp)]
      ensures ok && (old(orders)[id].side == 'B' || old(orders)[id].side == 'b') ==>
        asks == old(asks) && totalAskQuantity == old(totalAskQuantity)
      ensures ok && old(orders)[id].side != 'B' && old(orders)[id].side != 'b' ==>
        bids == old(bids) && totalBidQuantity == old(totalBidQuantity)
      ensures lastUpdateTime == (if ok then timestamp else old(lastUpdateTime))
      ensures messageCount == (if ok then (old(messageCount) + 1) % MODULUS else old(messageCount))
    {
      hide Sound, Admissible, Withdraw, Deposit;
      ghost var c := Command.CancelOrder(id, cancelledQuantity, timestamp);
      ghost var before := View();
      if id !in orders {
        assert View() == Apply(before, c);
        SoundIfAdmissible(before, c);
        return false;
      }
      var order := orders[id];
      RemoveFromPriceLevel(order);
      if order.quantity > cancelledQuantity {
        order := order.(quantity := order.quantity - cancelledQuantity, timestamp := timestamp);
        PutBack(orders, id, order);
        orders := orders[id := order];
        AddToPriceLevel(order);
      } else {
        orders := orders - {id};
      }
      lastUpdateTime := timestamp;
      messageCount := Add(messageCount, 1);
      assert View() == Apply(before, c);
      SoundIfAdmissible(before, c);
      return true;
    }

    method DeleteOrder(id: Id, timestamp: nat) returns (ok: bool)
      requires Valid()
      modifies this
      ensures Valid()
      ensures var c := Command.DeleteOrder(id, timestamp);
        && View() == Apply(old(View()), c) && ok == Accepts(old(View()), c)
        && (old(Sound(View())) && Admissible(old(View()), c) ==> Sound(View()))
      ensures ok <==> id in old(orders)
      ensures orders == if ok then old(orders) - {id} else old(orders)
      ensures ok && (old(orders)[id].side == 'B' || old(orders)[id].side == 'b') ==>
        asks == old(asks) && totalAskQuantity == old(totalAskQuantity)
      ensures ok && old(orders)[id].side != 'B' && old(orders)[id].side != 'b' ==>
        bids == old(bids) && totalBidQuantity == old(totalBidQuantity)
      ensures lastUpdateTime == (if ok then timestamp else old(lastUpdateTime))
      ensures messageCount == (if ok then (old(messageCount) + 1) % MODULUS else old(messageCount))
    {
      hide Sound, Admissible, Withdraw, Deposit;
      ghost var c := Command.DeleteOrder(id, timestamp);
      ghost var before := View();
      if id !in orders {
        assert View() == Apply(before, c);
        SoundIfAdmissible(before, c);
        return false;
      }
      RemoveFromPriceLevel(orders[id]);
      orders := orders - {id};
      lastUpdateTime := timestamp;
      messageCount := Add(messageCount, 1);
      assert View() == Apply(before, c);
      SoundIfAdmissible(before, c);
      return true;
    }

    method ExecuteOrder(id: Id, executedQuantity: nat, timestamp: nat) returns (ok: bool)
      requires Valid()
      modifies this
      ensures Valid()
      ensures var c := Command.ExecuteOrder(id, executedQuantity, timestamp);
        && View() == Apply(old(View()), c) && ok == Accepts(old(View()), c)
        && (old(Sound(View())) && Admissible(old(View()), c) ==> Sound(View()))
      ensures ok <==> id in old(orders)
      ensures orders ==
        if !ok then old(orders)
        else if executedQuantity >= old(orders)[id].quantity then old(orders) - {id}
        else old(orders)[id := old(orders)[id].(quantity := old(orders)[id].quantity - executedQuantity, timestamp := timestamp)]
      ensures ok && (old(orders)[id].side == 'B' || old(orders)[id].side == 'b') ==>
        asks == old(asks) && totalAskQuantity == old(totalAskQuantity)
      ensures ok && old(orders)[id].side != 'B' && old(orders)[id].side != 'b' ==>
        bids == old(bids) && totalBidQuantity == old(totalBidQuantity)
      ensures lastUpdateTime == (if ok then timestamp else old(lastUpdateTime))
      ensures messageCount == (if ok then (old(messageCount) + 1) % MODULUS else old(messageCount))
    {
      hide Sound, Admissible, Withdraw, Deposit;
      ghost var c := Command.ExecuteOrder(id, executedQuantity, timestamp);
      ghost var before := View();
      if id !in orders {
        assert View() == Apply(before, c);
        SoundIfAdmissible(before, c);
        return false;
      }
      var order := orders[id];
      RemoveFromPriceLevel(order);
      if order.quantity > executedQuantity {
        order := order.(quantity := order.quantity - executedQuantity, timestamp := timestamp);
        PutBack(orders, id, order);
        orders := orders[id := order];
        AddToPriceLevel(order);
      } else {
        orders := orders - {id};
      }
      lastUpdateTime := timestamp;
      messageCount := Add(messageCount, 1);
      assert View() == Apply(before, c);
      SoundIfAdmissible(before, c);
      return true;
    }

    method ReplaceOrder(oldId: Id, newId: Id, newQuantity: nat, newPrice: int, timestamp: nat) returns (ok: bool)
      requires Valid()
      modifies this
      ensures Valid()
      ensures var c := Command.ReplaceOrder(oldId, newId, newQuantity, newPrice, timestamp);
        && View() == Apply(old(View()), c) && ok == Accepts(old(View()), c)
        && (old(Sound(View())) && Admissible(old(View()), c) ==> Sound(View()))
      ensures ok <==> oldId in old(orders) && (newId !in old(orders) || newId == oldId)
      ensures ok ==>
        orders == (old(orders) - {oldId})[newId := Order(newId, symbol, old(orders)[oldId].side, newPrice, newQuantity, timestamp)]
      ensures !ok && oldId in old(orders) ==>
        orders == old(orders) - {oldId} && newId in orders && orders[newId] == old(orders)[newId]
      ensures !ok && oldId !in old(orders) ==> View() == old(View())
      ensures oldId in old(orders) && (old(orders)[oldId].side == 'B' || old(orders)[oldId].side == 'b') ==>
        asks == old(asks) && totalAskQuantity == old(totalAskQuantity)
      ensures oldId in old(orders) && old(orders)[oldId].side != 'B' && old(orders)[oldId].side != 'b' ==>
        bids == old(bids) && totalBidQuantity == old(totalBidQuantity)
      ensures oldId in old(orders) ==>
        lastUpdateTime == timestamp && messageCount == (old(messageCount) + (if ok then 2 else 1)) % MODULUS
    {
      hide Apply, Accepts, Sound, Admissible;
      ghost var c := Command.ReplaceOrder(oldId, newId, newQuantity, newPrice, timestamp);
      ghost var before := View();
      ReplaceIsDeleteThenAdd(before, c);
      if oldId !in orders {
        SoundIfAdmissible(before, c);
        return false;
      }
      var side := orders[oldId].side;
      var deleted := DeleteOrder(oldId, timestamp);
      ok := AddOrder(newId, side, newPrice, newQuantity, timestamp);
      SoundIfAdmissible(before, c);
    }

    method Clear()
      modifies this
      ensures Valid() && View() == Empty(symbol)
      ensures bids == asks == map[] && orders == map[]
      ensures lastUpdateTime == messageCount == totalBidQuantity == totalAskQuantity == 0
    {
      bids, asks, orders := map[], map[], map[];
      lastUpdateTime := 0;
      messageCount := 0;
      totalBidQuantity := 0;
      totalAskQuantity := 0;
    }

    method BestBid() returns (best: Option<int>)
      ensures best == BestPrice(bids, Bid)
      ensures Sound(View()) ==> forall p :: best == Some(p) <==>
        BidAt(orders, p) && forall q :: BidAt(orders, q) ==> q <= p
    {
      if Sound(View()) {
        BestBidByCharacter(View());
      }
      if bids == map[] {
        return None;
      }
      return Some(First(bids.Keys, Bid));
    }

    method BestAsk() returns (best: Option<int>)
      ensures best == BestPrice(asks, Ask)
      ensures Sound(View()) ==> forall p :: best == Some(p) <==>
        AskAt(orders, p) && forall q :: AskAt(orders, q) ==> p <= q
    {
      if Sound(View()) {
        BestAskByCharacter(View());
      }
      if asks == map[] {
        return None;
      }
      return Some(First(asks.Keys, Ask));
    }

    method BestBidSize() returns (size: Option<nat>)
      ensures size == BestSize(bids, Bid)
    {
      if bids == map[] {
        return None;
      }
      return Some(bids[First(bids.Keys, Bid)].size);
    }

    method BestAskSize() returns (size: Option<nat>)
      ensures size == BestSize(asks, Ask)
    {
      if asks == map[] {
        return None;
      }
      return Some(asks[First(asks.Keys, Ask)].size);
    }

    /** The loop over the bids from the highest price down, left once enough levels are copied. */
    method GetBidDepth(levels: nat) returns (result: seq<PriceLevel>)
      ensures result == Depth(bids, Bid, levels)
      ensures Sound(View()) ==> |result| == if levels < |bids| then levels else |bids|
      ensures Sound(View()) ==> forall i, j :: 0 <= i < j < |result| ==> result[i].price > result[j].price
    {
      hide InOrder, Sound;
      if Sound(View()) {
        BidDepthDescends(View(), levels);
      }
      result := [];
      var prices := InOrder(bids.Keys, Bid);
      var count := 0;
      while count < |prices|
        invariant |result| == count <= Min(levels, |prices|)
        invariant forall i :: 0 <= i < count ==> result[i] == bids[prices[i]]
      {
        if count >= levels {
          break;
        }
        assert prices[count] in bids.Keys;
        result := result + [bids[prices[count]]];
        count := count + 1;
      }
    }

    /** The same loop over the asks from the lowest price up. */
    method GetAskDepth(levels: nat) returns (result: seq<PriceLevel>)
      ensures result == Depth(asks, Ask, levels)
      ensures Sound(View()) ==> |result| == if levels < |asks| then levels else |asks|
      ensures Sound(View()) ==> forall i, j :: 0 <= i < j < |result| ==> result[i].price < result[j].price
    {
      hide InOrder, Sound;
      if Sound(View()) {
        AskDepthAscends(View(), levels);
      }
      result := [];
      var prices := InOrder(asks.Keys, Ask);
      var count := 0;
      while count < |prices|
        invariant |result| == count <= Min(levels, |prices|)
        invariant forall i :: 0 <= i < count ==> result[i] == asks[prices[i]]
      {
        if count >= levels {
          break;
        }
        assert prices[count] in asks.Keys;
        result := result + [asks[prices[count]]];
        count := count + 1;
      }
    }

    method IsCrossed() returns (crossed: bool)
      ensures crossed == HasCrossing(View())
      ensures Sound(View()) ==> (crossed <==> exists p, q :: BidAt(orders, p) && AskAt(orders, q) && p >= q)
    {
      if Sound(View()) {
        CrossedByCharacter(View());
      }
      var bid := BestBid();
      var ask := BestAsk();
      if bid == None || ask == None {
        return false;
      }
      return bid.value >= ask.value;
    }

    method GetSpread() returns (spread: real)
      ensures spread == Spread(bids, asks)
      ensures bids == map[] || asks == map[] ==> spread == 0.0
      ensures forall p, q :: Highest(bids, p) && Lowest(asks, q) ==> spread * 10000.0 == (q - p) as real
    {
      hide BestPrice, Highest, Lowest;
      SpreadOfLevels(bids, asks);
      var bid := BestBid();
      var ask := BestAsk();
      if bid == None || ask == None {
        return 0.0;
      }
      return (ask.value - bid.value) as real / 10000.0;
    }

    method GetImbalance() returns (imbalance: real)
      ensures imbalance == Imbalance(totalBidQuantity, totalAskQuantity)
      ensures Sound(View()) ==> imbalance == Imbalance(SideSum(orders, Bid), SideSum(orders, Ask))
      ensures var total := (totalBidQuantity + totalAskQuantity) % MODULUS;
        && (total == 0 ==> imbalance == 0.0)
        && (total != 0 ==> imbalance * total as real == totalBidQuantity as real - totalAskQuantity as real)
    {
      ImbalanceMeaning(totalBidQuantity, totalAskQuantity);
      if Sound(View()) {
        assert SideAgrees(View(), Bid) && SideAgrees(View(), Ask);
      }
      var total := Add(totalBidQuantity, totalAskQuantity) as real;
      if total == 0.0 {
        return 0.0;
      }
      return (totalBidQuantity as real - totalAskQuantity as real) / total;
    }

    method TakeSnapshot() returns (snapshot: Snapshot)
      ensures snapshot == SnapshotOf(symbol, lastUpdateTime, bids, asks, Imbalance(totalBidQuantity, totalAskQuantity))
      ensures Tells(snapshot, symbol, lastUpdateTime, bids, asks)
      ensures snapshot.imbalance == Imbalance(totalBidQuantity, totalAskQuantity)
    {
      SnapshotTells(symbol, lastUpdateTime, bids, asks, Imbalance(totalBidQuantity, totalAskQuantity));
      var bid := BestBid();
      var ask := BestAsk();
      var bidSize := BestBidSize();
      var askSize := BestAskSize();
      var spread := GetSpread();
      var imbalance := GetImbalance();
      snapshot := Snapshot(symbol, lastUpdateTime, OrElse(bid, 0), OrElse(bidSize, 0), OrElse(ask, 0), OrElse(askSize, 0),
                           spread, imbalance, |bids|, |asks|);
    }
  }

  lemma ReplaceIsDeleteThenAdd(b: Book, c: Command)
    requires c.ReplaceOrder?
    ensures Accepts(b, c) <==> c.id in b.orders && (c.newId !in b.orders || c.newId == c.id)
    ensures Apply(b, c) ==
      if c.id !in b.orders then b
      else Apply(Apply(b, Command.DeleteOrder(c.id, c.timestamp)),
                 Command.AddOrder(c.newId, b.orders[c.id].side, c.price, c.quantity, c.timestamp))
  {
    hide Withdraw, Deposit;
  }

  lemma SoundIfAdmissible(b: Book, c: Command)
    ensures Sound(b) && Admissible(b, c) ==> Sound(Apply(b, c))
  {
    if Sound(b) && Admissible(b, c) {
      ApplySound(b, c);
    }
  }

  /** Updating an order in place is taking it out and putting the new version in. */
  lemma PutBack(orders: Orders, id: Id, order: Order)
    requires id in orders
    ensures (orders - {id})[id := order] == orders[id := order]
    ensures orders[id := order] - {id} == orders - {id}
  {
    SameOrders((orders - {id})[id := order], orders[id := order]);
    SameOrders(orders[id := order] - {id}, orders - {id});
  }
}
