/** What the two books report: spread, imbalance and snapshot, in exact arithmetic. */
module BookSnapshots {
  import opened Words
  import opened BookModel
  import opened BookHistory
  import opened BookQueries
  import opened BookMirror

  function Spread(bids: Levels, asks: Levels): real {
    var bid := BestPrice(bids, Bid);
    var ask := BestPrice(asks, Ask);
    if bid == None || ask == None then 0.0 else (ask.value - bid.value) as real / 10000.0
  }

  /** The difference of two quantities over their sum, which is taken modulo 2^64. */
  function Imbalance(x: nat, y: nat): real {
    if Add(x, y) == 0 then 0.0 else (x as real - y as real) / Add(x, y) as real
  }

  /** The level-based book compares the two best levels only. */
  function BestImbalance(bids: Levels, asks: Levels): real {
    var bid := BestSize(bids, Bid);
    var ask := BestSize(asks, Ask);
    if bid == None || ask == None then 0.0 else Imbalance(bid.value, ask.value)
  }

  datatype Snapshot = Snapshot(
    symbol: string, timestamp: nat, bestBid: int, bestBidSize: nat, bestAsk: int, bestAskSize: nat,
    spread: real, imbalance: real, bidLevels: nat, askLevels: nat)

  function OrElse<T>(x: Option<T>, default: T): T {
    if x.Some? then x.value else default
  }

  function SnapshotOf(symbol: string, timestamp: nat, bids: Levels, asks: Levels, imbalance: real): Snapshot {
    Snapshot(symbol, timestamp,
             OrElse(BestPrice(bids, Bid), 0), OrElse(BestSize(bids, Bid), 0),
             OrElse(BestPrice(asks, Ask), 0), OrElse(BestSize(asks, Ask), 0),
             Spread(bids, asks), imbalance, |bids|, |asks|)
  }

  // ---------------------------------------------------------------- their meaning

  /** Best ask less best bid in units of 10000, and zero when a side is empty. */
  lemma SpreadMeaning(bids: Levels, asks: Levels, bid: int, ask: int)
    ensures bids == map[] || asks == map[] ==> Spread(bids, asks) == 0.0
    ensures Highest(bids, bid) && Lowest(asks, ask) ==> Spread(bids, asks) * 10000.0 == (ask - bid) as real
  {
    hide BestPrice, Highest, Lowest;
    BestOfLevels(bids, bid);
    BestOfLevels(asks, ask);
  }

  /** Times the wrapped sum, an imbalance is the first quantity less the second. */
  lemma ImbalanceMeaning(x: nat, y: nat)
    ensures (x + y) % MODULUS == 0 ==> Imbalance(x, y) == 0.0
    ensures (x + y) % MODULUS != 0 ==> Imbalance(x, y) * ((x + y) % MODULUS) as real == x as real - y as real
  {
    if (x + y) % MODULUS != 0 {
      var q := Quotient(x as real - y as real, ((x + y) % MODULUS) as real);
    }
  }

  /** The imbalance of the sizes of the highest bid and the lowest ask. */
  lemma BestImbalanceMeaning(bids: Levels, asks: Levels, bid: int, ask: int)
    ensures bids == map[] || asks == map[] ==> BestImbalance(bids, asks) == 0.0
    ensures Highest(bids, bid) && Lowest(asks, ask) ==>
      BestImbalance(bids, asks) == Imbalance(bids[bid].size, asks[ask].size)
  {
    hide BestSize, BestPrice, Imbalance;
    BestOfLevels(bids, bid);
    BestOfLevels(asks, ask);
  }

  lemma SpreadOfLevels(bids: Levels, asks: Levels)
    ensures bids == map[] || asks == map[] ==> Spread(bids, asks) == 0.0
    ensures forall p, q :: Highest(bids, p) && Lowest(asks, q) ==> Spread(bids, asks) * 10000.0 == (q - p) as real
  {
    hide Spread, Highest, Lowest;
    SpreadMeaning(bids, asks, 0, 0);
    forall p, q | Highest(bids, p) && Lowest(asks, q) ensures Spread(bids, asks) * 10000.0 == (q - p) as real {
      SpreadMeaning(bids, asks, p, q);
    }
  }

  lemma ImbalanceOfLevels(bids: Levels, asks: Levels)
    ensures bids == map[] || asks == map[] ==> BestImbalance(bids, asks) == 0.0
    ensures forall p, q :: Highest(bids, p) && Lowest(asks, q) ==>
      BestImbalance(bids, asks) == Imbalance(bids[p].size, asks[q].size)
  {
    hide Imbalance, BestImbalance;
    BestImbalanceMeaning(bids, asks, 0, 0);
    forall p, q | Highest(bids, p) && Lowest(asks, q)
      ensures BestImbalance(bids, asks) == Imbalance(bids[p].size, asks[q].size)
    {
      BestImbalanceMeaning(bids, asks, p, q);
    }
  }

  /** What each field of a snapshot says, in terms of the book's own fields. */
  ghost predicate Tells(s: Snapshot, symbol: string, timestamp: nat, bids: Levels, asks: Levels) {
    && s.symbol == symbol && s.timestamp == timestamp
    && s.bidLevels == |bids| && s.askLevels == |asks|
    && (bids == map[] ==> s.bestBid == 0 && s.bestBidSize == 0)
    && (asks == map[] ==> s.bestAsk == 0 && s.bestAskSize == 0)
    && (forall p :: Highest(bids, p) ==> s.bestBid == p && s.bestBidSize == bids[p].size)
    && (forall p :: Lowest(asks, p) ==> s.bestAsk == p && s.bestAskSize == asks[p].size)
    && (bids == map[] || asks == map[] ==> s.spread == 0.0)
    && (bids != map[] && asks != map[] ==> s.spread * 10000.0 == (s.bestAsk - s.bestBid) as real)
  }

  lemma SnapshotTells(symbol: string, timestamp: nat, bids: Levels, asks: Levels, imbalance: real)
    ensures Tells(SnapshotOf(symbol, timestamp, bids, asks, imbalance), symbol, timestamp, bids, asks)
  {
    hide BestPrice, BestSize, Spread;
    var s := SnapshotOf(symbol, timestamp, bids, asks, imbalance);
    forall p: int
      ensures Highest(bids, p) ==> s.bestBid == p && s.bestBidSize == bids[p].size
      ensures Lowest(asks, p) ==> s.bestAsk == p && s.bestAskSize == asks[p].size
    {
      BestOfLevels(bids, p);
      BestOfLevels(asks, p);
    }
    BestOfLevels(bids, s.bestBid);
    BestOfLevels(asks, s.bestAsk);
    SpreadMeaning(bids, asks, s.bestBid, s.bestAsk);
  }

  // ---------------------------------------------------------------- the two books compared

  lemma SameBest(x: Levels, y: Levels, side: Side)
    requires SameSizes(x, y)
    ensures x.Keys == y.Keys && |x| == |y|
    ensures BestPrice(x, side) == BestPrice(y, side) && BestSize(x, side) == BestSize(y, side)
  {
    SameMembers(x.Keys, y.Keys);
    if x != map[] {
      assert InOrder(x.Keys, side)[0] in x.Keys;
    }
  }

  lemma SameMembers(s: set<int>, t: set<int>)
    requires forall p :: p in s <==> p in t
    ensures s == t
  {
    forall p | p in s ensures p in t {}
    forall p | p in t ensures p in s {}
  }

  /**
   After any admissible run the two books publish the same snapshot and message count, but for the imbalance:
   one takes the side totals and the other the best sizes.
   */
  lemma SnapshotsEqual(symbol: string, commands: seq<Command>)
    requires AdmissibleRun(Empty(symbol), commands)
    ensures var b := Run(Empty(symbol), commands);
      var l := RunLevels(EmptyLevels(symbol), DerivedRun(Empty(symbol), commands));
      && SnapshotOf(l.symbol, l.lastUpdateTime, l.bids, l.asks, BestImbalance(l.bids, l.asks)) ==
         SnapshotOf(b.symbol, b.lastUpdateTime, b.bids, b.asks, BestImbalance(b.bids, b.asks))
      && l.messageCount == b.messageCount
  {
    hide Run, RunLevels, DerivedRun, AdmissibleRun, BestPrice, BestSize;
    RunMirrored(symbol, commands);
    var b := Run(Empty(symbol), commands);
    var l := RunLevels(EmptyLevels(symbol), DerivedRun(Empty(symbol), commands));
    SameBest(l.bids, b.bids, Bid);
    SameBest(l.asks, b.asks, Ask);
  }

  // ---------------------------------------------------------------- the range of an imbalance

  lemma ProductSign(a: real, t: real)
    requires t > 0.0
    ensures a >= 0.0 <==> a * t >= 0.0
  {
  }

  lemma OrderOfQuotient(q: real, t: real, x: real)
    requires t > 0.0 && q * t == x
    ensures q <= 1.0 <==> x <= t
    ensures -1.0 <= q <==> -t <= x
  {
    ProductSign(1.0 - q, t);
    assert (1.0 - q) * t == t - q * t;
    ProductSign(q + 1.0, t);
    assert (q + 1.0) * t == q * t + t;
  }

  lemma Quotient(x: real, t: real) returns (q: real)
    requires t != 0.0
    ensures q == x / t && q * t == x
  {
    q := x / t;
  }

  lemma QuotientInRange(d: int, total: int)
    requires total > 0
    ensures -1.0 <= d as real / total as real <= 1.0 <==> -total <= d <= total
  {
    var q := Quotient(d as real, total as real);
    OrderOfQuotient(q, total as real, d as real);
  }

  lemma SumWraps(x: nat, y: nat)
    requires x < MODULUS && y < MODULUS
    ensures Add(x, y) == if x + y < MODULUS then x + y else x + y - MODULUS
  {
    if x + y < MODULUS {
      ModUnique(x + y, MODULUS, 0, x + y);
    } else {
      ModUnique(x + y, MODULUS, 1, x + y - MODULUS);
    }
  }

  /** An imbalance lies between -1 and 1 exactly unless the sum wraps with one side below 2^63. */
  lemma ImbalanceInRangeIff(x: nat, y: nat)
    requires x < MODULUS && y < MODULUS
    ensures -1.0 <= Imbalance(x, y) <= 1.0 <==>
            x + y <= MODULUS || (x >= MODULUS / 2 && y >= MODULUS / 2)
  {
    SumWraps(x, y);
    if Add(x, y) > 0 {
      assert (x - y) as real == x as real - y as real;
      QuotientInRange(x - y, Add(x, y));
    }
  }
}
