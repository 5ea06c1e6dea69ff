/** The level-by-level book as an object. */
module OrderBook {
  import opened Words
  import opened BookModel
  import opened BookIndex
  import opened BookQueries
  import opened BookMirror
  import opened BookSnapshots

  class OrderBook {
    const symbol: string
    var bids: Levels
    var asks: Levels
    var lastUpdateTime: nat
    var messageCount: nat

    ghost function View(): LevelBook
      reads this
    {
      LevelBook(symbol, bids, asks, lastUpdateTime, messageCount)
    }

    constructor (symbol: string)
      ensures View() == EmptyLevels(symbol)
      ensures this.symbol == symbol && bids == asks == map[] && lastUpdateTime == messageCount == 0
    {
      this.symbol := symbol;
      bids, asks, lastUpdateTime, messageCount := map[], map[], 0, 0;
    }

    method AddBid(price: int, size: nat, timestamp: nat)
      modifies this
      ensures View() == ApplyLevel(old(View()), AddSize(Bid, price, size, timestamp))
      ensures price in bids && bids[price].price == price
      ensures bids[price].size == ((if price in old(bids) then old(bids)[price].size else 0) + size) % MODULUS
      ensures bids[price].orderCount == ((if price in old(bids) then old(bids)[price].orderCount else 0) + 1) % MODULUS
      ensures asks == old(asks)
      ensures forall p :: p != price ==> (p in bids <==> p in old(bids)) && (p in bids ==> bids[p] == old(bids)[p])
      ensures lastUpdateTime == timestamp && messageCount == (old(messageCount) + 1) % MODULUS
    {
      var level := if price in bids then bids[price] else PriceLevel(0, 0, 0);
      level := level.(price := price);
      level := level.(size := Add(level.size, size));
      level := level.(orderCount := Add(level.orderCount, 1));
      bids := bids[price := level];
      lastUpdateTime := timestamp;
      messageCount := Add(messageCount, 1);
    }

    method AddAsk(price: int, size: nat, timestamp: nat)
      modifies this
      ensures View() == ApplyLevel(old(View()), AddSize(Ask, price, size, timestamp))
      ensures price in asks && asks[price].price == price
      ensures asks[price].size == ((if price in old(asks) then old(asks)[price].size else 0) + size) % MODULUS
      ensures asks[price].orderCount == ((if price in old(asks) then old(asks)[price].orderCount else 0) + 1) % MODULUS
      ensures bids == old(bids)
      ensures forall p :: p != price ==> (p in asks <==> p in old(asks)) && (p in asks ==> asks[p] == old(asks)[p])
      ensures lastUpdateTime == timestamp && messageCount == (old(messageCount) + 1) % MODULUS
    {
      var level := if price in asks then asks[price] else PriceLevel(0, 0, 0);
      level := level.(price := price);
      level := level.(size := Add(level.size, size));
      level := level.(orderCount := Add(level.orderCount, 1));
      asks := asks[price := level];
      lastUpdateTime := timestamp;
      messageCount := Add(messageCount, 1);
    }

    method ModifyBid(price: int, size: nat, timestamp: nat)
      modifies this
      ensures View() == ApplyLevel(old(View()), ModifySize(Bid, price, size, timestamp))
      ensures price in bids <==> size > 0
      ensures size > 0 ==>
        bids[price] == if price in old(bids) then old(bids)[price].(size := size) else PriceLevel(price, size, 1)
      ensures asks == old(asks)
      ensures forall p :: p != price ==> (p in bids <==> p in old(bids)) && (p in bids ==> bids[p] == old(bids)[p])
      ensures lastUpdateTime == timestamp && messageCount == (old(messageCount) + 1) % MODULUS
    {
      Unchanged(bids, price, size);
      if price in bids {
        bids := bids[price := bids[price].(size := size)];
        if size == 0 {
          bids := bids - {price};
        }
      } else if size > 0 {
        bids := bids[price := PriceLevel(price, size, 1)];
      }
      lastUpdateTime := timestamp;
      messageCount := Add(messageCount, 1);
    }

    method ModifyAsk(price: int, size: nat, timestamp: nat)
      modifies this
      ensures View() == ApplyLevel(old(View()), ModifySize(Ask, price, size, timestamp))
      ensures price in asks <==> size > 0
      ensures size > 0 ==>
        asks[price] == if price in old(asks) then old(asks)[price].(size := size) else PriceLevel(price, size, 1)
      ensures bids == old(bids)
      ensures forall p :: p != price ==> (p in asks <==> p in old(asks)) && (p in asks ==> asks[p] == old(asks)[p])
      ensures lastUpdateTime == timestamp && messageCount == (old(messageCount) + 1) % MODULUS
    {
      Unchanged(asks, price, size);
      if price in asks {
        asks := asks[price := asks[price].(size := size)];
        if size == 0 {
          asks := asks - {price};
        }
      } else if size > 0 {
        asks := asks[price := PriceLevel(price, size, 1)];
      }
      lastUpdateTime := timestamp;
      messageCount := Add(messageCount, 1);
    }

    method RemoveBid(price: int, timestamp: nat)
      modifies this
      ensures View() == ApplyLevel(old(View()), RemoveLevel(Bid, price, timestamp))
      ensures price !in bids
      ensures asks == old(asks)
      ensures forall p :: p != price ==> (p in bids <==> p in old(bids)) && (p in bids ==> bids[p] == old(bids)[p])
      ensures lastUpdateTime == timestamp && messageCount == (old(messageCount) + 1) % MODULUS
    {
      bids := bids - {price};
      lastUpdateTime := timestamp;
      messageCount := Add(messageCount, 1);
    }

    method RemoveAsk(price: int, timestamp: nat)
      modifies this
      ensures View() == ApplyLevel(old(View()), RemoveLevel(Ask, price, timestamp))
      ensures price !in asks
      ensures bids == old(bids)
      ensures forall p :: p != price ==> (p in asks <==> p in old(asks)) && (p in asks ==> asks[p] == old(asks)[p])
      ensures lastUpdateTime == timestamp && messageCount == (old(messageCount) + 1) % MODULUS
    {
      asks := asks - {price};
      lastUpdateTime := timestamp;
      messageCount := Add(messageCount, 1);
    }

    method ExecuteBid(price: int, size: nat, timestamp: nat)
      modifies this
      ensures View() == ApplyLevel(old(View()), ExecuteSize(Bid, price, size, timestamp))
      ensures price in bids <==> price in old(bids) && old(bids)[price].size > size
      ensures price in bids ==> bids[price] == old(bids)[price].(size := old(bids)[price].size - size)
      ensures asks == old(asks)
      ensures forall p :: p != price ==> (p in bids <==> p in old(bids)) && (p in bids ==> bids[p] == old(bids)[p])
      ensures lastUpdateTime == timestamp && messageCount == (old(messageCount) + 1) % MODULUS
    {
      if price in bids {
        if bids[price].size > size {
          bids := bids[price := bids[price].(size := bids[price].size - size)];
        } else {
          bids := bids - {price};
        }
      }
      lastUpdateTime := timestamp;
      messageCount := Add(messageCount, 1);
    }

    method ExecuteAsk(price: int, size: nat, timestamp: nat)
      modifies this
      ensures View() == ApplyLevel(old(View()), ExecuteSize(Ask, price, size, timestamp))
      ensures price in asks <==> price in old(asks) && old(asks)[price].size > size
      ensures price in asks ==> asks[price] == old(asks)[price].(size := old(asks)[price].size - size)
      ensures bids == old(bids)
      ensures forall p :: p != price ==> (p in asks <==> p in old(asks)) && (p in asks ==> asks[p] == old(asks)[p])
      ensures lastUpdateTime == timestamp && messageCount == (old(messageCount) + 1) % MODULUS
    {
      if price in asks {
        if asks[price].size > size {
          asks := asks[price := asks[price].(size := asks[price].size - size)];
        } else {
          asks := asks - {price};
        }
      }
      lastUpdateTime := timestamp;
      messageCount := Add(messageCount, 1);
    }

    method Clear()
      modifies this
      ensures View() == EmptyLevels(symbol)
      ensures bids == asks == map[] && lastUpdateTime == messageCount == 0
    {
      bids, asks := map[], map[];
      lastUpdateTime := 0;
      messageCount := 0;
    }

    method BestBid() returns (best: Option<int>)
      ensures best == BestPrice(bids, Bid)
      ensures forall p :: best == Some(p) <==> Highest(bids, p)
    {
      forall p: int ensures BestPrice(bids, Bid) == Some(p) <==> Highest(bids, p) {
        BestOfLevels(bids, p);
      }
      if bids == map[] {
        return None;
      }
      return Some(First(bids.Keys, Bid));
    }

    method BestAsk() returns (best: Option<int>)
      ensures best == BestPrice(asks, Ask)
      ensures forall p :: best == Some(p) <==> Lowest(asks, p)
    {
      forall p: int ensures BestPrice(asks, Ask) == Some(p) <==> Lowest(asks, p) {
        BestOfLevels(asks, p);
      }
      if asks == map[] {
        return None;
      }
      return Some(First(asks.Keys, Ask));
    }

    method BestBidSize() returns (size: Option<nat>)
      ensures size == BestSize(bids, Bid)
      ensures bids == map[] <==> size == None
      ensures forall p :: Highest(bids, p) ==> size == Some(bids[p].size)
    {
      BestOfLevels(bids, 0);
      forall p | Highest(bids, p) ensures BestSize(bids, Bid) == Some(bids[p].size) {
        BestOfLevels(bids, p);
      }
      if bids == map[] {
        return None;
      }
      return Some(bids[First(bids.Keys, Bid)].size);
    }

    method BestAskSize() returns (size: Option<nat>)
      ensures size == BestSize(asks, Ask)
      ensures asks == map[] <==> size == None
      ensures forall p :: Lowest(asks, p) ==> size == Some(asks[p].size)
    {
      BestOfLevels(asks, 0);
      forall p | Lowest(asks, p) ensures BestSize(asks, Ask) == Some(asks[p].size) {
        BestOfLevels(asks, p);
      }
      if asks == map[] {
        return None;
      }
      return Some(asks[First(asks.Keys, Ask)].size);
    }

    method GetSpread() returns (spread: real)
      ensures spread == Spread(bids, asks)
      ensures bids == map[] || asks == map[] ==> spread == 0.0
      ensures forall p, q :: Highest(bids, p) && Lowest(asks, q) ==> spread * 10000.0 == (q - p) as real
    {
      hide BestPrice, Highest, Lowest;
      SpreadOfLevels(bids, asks);
      var bid := BestBid();
      var ask := BestAsk();
      if bid == None || ask == None {
        return 0.0;
      }
      return (ask.value - bid.value) as real / 10000.0;
    }

    method GetImbalance() returns (imbalance: real)
      ensures imbalance == BestImbalance(bids, asks)
      ensures bids == map[] || asks == map[] ==> imbalance == 0.0
      ensures forall p, q :: Highest(bids, p) && Lowest(asks, q) ==> imbalance == Imbalance(bids[p].size, asks[q].size)
    {
      hide BestSize;
      ImbalanceOfLevels(bids, asks);
      var bidSize := BestBidSize();
      var askSize := BestAskSize();
      if bidSize == None || askSize == None {
        return 0.0;
      }
      var total := Add(bidSize.value, askSize.value) as real;
      if total == 0.0 {
        return 0.0;
      }
      return (bidSize.value as real - askSize.value as real) / total;
    }

    method TakeSnapshot() returns (snapshot: Snapshot)
      ensures snapshot == SnapshotOf(symbol, lastUpdateTime, bids, asks, BestImbalance(bids, asks))
      ensures Tells(snapshot, symbol, lastUpdateTime, bids, asks)
      ensures snapshot.imbalance == BestImbalance(bids, asks)
    {
      SnapshotTells(symbol, lastUpdateTime, bids, asks, BestImbalance(bids, asks));
      var bid := BestBid();
      var ask := BestAsk();
      var bidSize := BestBidSize();
      var askSize := BestAskSize();
      var spread := GetSpread();
      var imbalance := GetImbalance();
      snapshot := Snapshot(symbol, lastUpdateTime, OrElse(bid, 0), OrElse(bidSize, 0), OrElse(ask, 0), OrElse(askSize, 0),
                           spread, imbalance, |bids|, |asks|);
    }
  }

  lemma Unchanged(levels: Levels, price: int, size: nat)
    ensures price !in levels ==> levels - {price} == levels
    ensures price in levels ==> levels[price := levels[price].(size := size)] - {price} == levels - {price}
  {
    if price !in levels {
      SameLevels(levels - {price}, levels);
    } else {
      SameLevels(levels[price := levels[price].(size := size)] - {price}, levels - {price});
    }
  }
}
