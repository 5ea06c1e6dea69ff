/** The queries over the sorted price maps, and what they mean in terms of the live orders. */
module BookQueries {
  import opened Words
  import opened BookModel
  import opened BookIndex
  import opened BookHistory

  // ---------------------------------------------------------------- the sorted view

  /** The comparator of a side's map: bids from high to low, asks from low to high. */
  predicate Before(side: Side, p: int, q: int) {
    if side == Bid then p > q else p < q
  }

  predicate IsFirst(keys: set<int>, side: Side, key: int) {
    key in keys && forall k :: k in keys ==> k == key || Before(side, key, k)
  }

  ghost function Pick<T>(s: set<T>): (x: T)
    requires s != {}
    ensures x in s
  {
    var x :| x in s;
    x
  }

  lemma {:induction false} HasFirst(keys: set<int>, side: Side)
    requires keys != {}
    ensures exists key :: IsFirst(keys, side, key)
  {
    var k := Pick(keys);
    var rest := keys - {k};
    if rest == {} {
      forall j | j in keys ensures j == k {
        assert j != k ==> j in rest;
      }
      assert IsFirst(keys, side, k);
    } else {
      HasFirst(rest, side);
      var f :| IsFirst(rest, side, f);
      if Before(side, k, f) {
        forall j | j in keys ensures j == k || Before(side, k, j) {
          assert j != k ==> j in rest;
        }
        assert IsFirst(keys, side, k);
      } else {
        assert IsFirst(keys, side, f);
      }
    }
  }

  /** `begin()`: the key no other comes before. */
  function First(keys: set<int>, side: Side): (key: int)
    requires keys != {}
    ensures IsFirst(keys, side, key)
  {
    HasFirst(keys, side);
    var key :| key in keys && IsFirst(keys, side, key);
    key
  }

  predicate Ordered(prices: seq<int>, side: Side) {
    forall i, j :: 0 <= i < j < |prices| ==> Before(side, prices[i], prices[j])
  }

  /** The keys as an iteration over the map meets them. */
  function InOrder(keys: set<int>, side: Side): (prices: seq<int>)
    ensures |prices| == |keys|
    ensures forall k :: k in prices <==> k in keys
    ensures Ordered(prices, side)
  {
    if keys == {} then []
    else
      var key := First(keys, side);
      [key] + InOrder(keys - {key}, side)
  }

  function BestPrice(levels: Levels, side: Side): Option<int> {
    if levels == map[] then None else Some(InOrder(levels.Keys, side)[0])
  }

  function BestSize(levels: Levels, side: Side): Option<nat> {
    if levels == map[] then None else Some(levels[InOrder(levels.Keys, side)[0]].size)
  }

  /** The first `n` levels of a side. */
  function Depth(levels: Levels, side: Side, n: nat): (result: seq<PriceLevel>) {
    var prices := InOrder(levels.Keys, side);
    seq(Min(n, |prices|), (i: nat) requires i < Min(n, |prices|) => levels[prices[i]])
  }

  predicate HasCrossing(b: Book) {
    var bid := BestPrice(b.bids, Bid);
    var ask := BestPrice(b.asks, Ask);
    bid.Some? && ask.Some? && bid.value >= ask.value
  }

  // ---------------------------------------------------------------- their meaning

  /** Order `id` is live on `side` at `price`. */
  ghost predicate Live(b: Book, id: Id, side: Side, price: int) {
    id in At(b.orders, side, price)
  }

  ghost predicate LivePrice(b: Book, side: Side, price: int) {
    exists id :: Live(b, id, side, price)
  }

  /** A live order marked 'B' or 'b' has this price. */
  ghost predicate BidAt(orders: Orders, price: int) {
    exists id :: id in orders && (orders[id].side == 'B' || orders[id].side == 'b') && orders[id].price == price
  }

  /** A live order marked neither 'B' nor 'b' has this price. */
  ghost predicate AskAt(orders: Orders, price: int) {
    exists id :: id in orders && orders[id].side != 'B' && orders[id].side != 'b' && orders[id].price == price
  }

  lemma LiveByCharacter(b: Book, price: int)
    ensures LivePrice(b, Bid, price) <==> BidAt(b.orders, price)
    ensures LivePrice(b, Ask, price) <==> AskAt(b.orders, price)
  {
    if LivePrice(b, Bid, price) { var id :| Live(b, id, Bid, price); }
    if LivePrice(b, Ask, price) { var id :| Live(b, id, Ask, price); }
    if BidAt(b.orders, price) {
      var id :| id in b.orders && (b.orders[id].side == 'B' || b.orders[id].side == 'b') && b.orders[id].price == price;
      assert Live(b, id, Bid, price);
    }
    if AskAt(b.orders, price) {
      var id :| id in b.orders && b.orders[id].side != 'B' && b.orders[id].side != 'b' && b.orders[id].price == price;
      assert Live(b, id, Ask, price);
    }
  }

  lemma LevelIffLive(b: Book, side: Side, price: int)
    requires Sound(b)
    ensures price in b.LevelsOn(side) <==> LivePrice(b, side, price)
    ensures price in b.LevelsOn(side) ==> b.LevelsOn(side)[price] == LevelAt(b.orders, side, price)
  {
    assert SideAgrees(b, side);
    LevelPresent(b.orders, side, price);
    if id :| id in At(b.orders, side, price) {
      assert Live(b, id, side, price);
    }
  }

  lemma NonEmpty(levels: Levels, price: int)
    requires price in levels
    ensures levels != map[]
  {
  }

  /** The best price of a side is the live price no other live price comes before. */
  lemma BestIsExtreme(b: Book, side: Side, price: int)
    requires Sound(b)
    ensures BestPrice(b.LevelsOn(side), side) == Some(price) <==>
      && LivePrice(b, side, price)
      && forall p :: LivePrice(b, side, p) ==> p == price || Before(side, price, p)
    ensures BestPrice(b.LevelsOn(side), side) == Some(price) ==>
      BestSize(b.LevelsOn(side), side) == Some(LevelAt(b.orders, side, price).size)
  {
    var levels := b.LevelsOn(side);
    var prices := InOrder(levels.Keys, side);
    LevelIffLive(b, side, price);
    if levels != map[] {
      var best := prices[0];
      assert best in levels.Keys;
      LevelIffLive(b, side, best);
      forall p | LivePrice(b, side, p) ensures p == best || Before(side, best, p) {
        LevelIffLive(b, side, p);
        assert p in prices;
      }
    } else if LivePrice(b, side, price) {
      NonEmpty(levels, price);
    }
  }

  /** A side without a best price is a side without live orders. */
  lemma NoBestIffNoOrders(b: Book, side: Side)
    requires Sound(b)
    ensures BestPrice(b.LevelsOn(side), side) == None <==> OnSide(b.orders, side) == {}
  {
    var levels := b.LevelsOn(side);
    if id :| id in OnSide(b.orders, side) {
      var price := b.orders[id].price;
      assert Live(b, id, side, price);
      LevelIffLive(b, side, price);
      NonEmpty(levels, price);
    }
    if levels != map[] {
      var price := InOrder(levels.Keys, side)[0];
      assert price in levels.Keys;
      LevelIffLive(b, side, price);
      var id :| Live(b, id, side, price);
      assert id in OnSide(b.orders, side);
    }
  }

  /**
   The depth query lists the best live prices in strict order, as many as asked for or as there
   are, each with the exact sum and number of its orders; every live price left out comes after.
   */
  lemma DepthIsBestLevels(b: Book, side: Side, n: nat)
    requires Sound(b)
    ensures var depth := Depth(b.LevelsOn(side), side, n);
      && |depth| == Min(n, |b.LevelsOn(side)|)
      && (forall i :: 0 <= i < |depth| ==> LivePrice(b, side, depth[i].price))
      && (forall i :: 0 <= i < |depth| ==> depth[i] == LevelAt(b.orders, side, depth[i].price))
      && (forall i, j :: 0 <= i < j < |depth| ==> Before(side, depth[i].price, depth[j].price))
      && (forall p :: LivePrice(b, side, p) && (forall i :: 0 <= i < |depth| ==> depth[i].price != p) ==>
            |depth| == n && forall i :: 0 <= i < |depth| ==> Before(side, depth[i].price, p))
  {
    hide InOrder, Sound, LivePrice;
    var levels := b.LevelsOn(side);
    var prices := InOrder(levels.Keys, side);
    var depth := Depth(levels, side, n);
    assert |prices| == |levels|;
    forall i | 0 <= i < |depth|
      ensures depth[i] == LevelAt(b.orders, side, prices[i]) && LivePrice(b, side, prices[i])
    {
      assert prices[i] in levels.Keys;
      LevelIffLive(b, side, prices[i]);
    }
    forall p | LivePrice(b, side, p) && (forall i :: 0 <= i < |depth| ==> depth[i].price != p)
      ensures |depth| == n && forall i :: 0 <= i < |depth| ==> Before(side, depth[i].price, p)
    {
      LevelIffLive(b, side, p);
      assert p in prices;
      var k :| 0 <= k < |prices| && prices[k] == p;
      assert k >= |depth|;
    }
  }

  /** Some live price exists exactly when there is a best one, and it is live. */
  lemma BestExists(b: Book, side: Side)
    requires Sound(b)
    ensures BestPrice(b.LevelsOn(side), side).Some? <==> exists p :: LivePrice(b, side, p)
    ensures BestPrice(b.LevelsOn(side), side).Some? ==>
      LivePrice(b, side, BestPrice(b.LevelsOn(side), side).value)
  {
    var best := BestPrice(b.LevelsOn(side), side);
    if best.Some? {
      BestIsExtreme(b, side, best.value);
    }
    if p :| LivePrice(b, side, p) {
      LevelIffLive(b, side, p);
      NonEmpty(b.LevelsOn(side), p);
    }
  }

  /** The book is crossed exactly when some live bid is priced at or above some live ask. */
  lemma CrossedIffOrdersCross(b: Book)
    requires Sound(b)
    ensures HasCrossing(b) <==>
      exists p, q :: LivePrice(b, Bid, p) && LivePrice(b, Ask, q) && p >= q
  {
    hide Sound, BestPrice;
    BestExists(b, Bid);
    BestExists(b, Ask);
    var bid := BestPrice(b.bids, Bid);
    var ask := BestPrice(b.asks, Ask);
    if bid.Some? && ask.Some? {
      BestIsExtreme(b, Bid, bid.value);
      BestIsExtreme(b, Ask, ask.value);
    }
  }

  /** Bid depth goes down in price, and leaves out only lower levels. */
  lemma BidDepthDescends(b: Book, n: nat)
    requires Sound(b)
    ensures var depth := Depth(b.bids, Bid, n);
      && |depth| == (if n < |b.bids| then n else |b.bids|)
      && (forall i :: 0 <= i < |depth| ==> depth[i].price in b.bids && depth[i] == b.bids[depth[i].price])
      && (forall i, j :: 0 <= i < j < |depth| ==> depth[i].price > depth[j].price)
      && (forall p, i :: p in b.bids && 0 <= i < |depth| && (forall j :: 0 <= j < |depth| ==> depth[j].price != p) ==>
            depth[i].price > p)
  {
    hide Sound, Depth, LivePrice;
    DepthIsBestLevels(b, Bid, n);
    var depth := Depth(b.bids, Bid, n);
    forall i | 0 <= i < |depth| ensures depth[i].price in b.bids && depth[i] == b.bids[depth[i].price] {
      LevelIffLive(b, Bid, depth[i].price);
    }
    forall p | p in b.bids ensures LivePrice(b, Bid, p) {
      LevelIffLive(b, Bid, p);
    }
  }

  /** Ask depth goes up in price, and leaves out only higher levels. */
  lemma AskDepthAscends(b: Book, n: nat)
    requires Sound(b)
    ensures var depth := Depth(b.asks, Ask, n);
      && |depth| == (if n < |b.asks| then n else |b.asks|)
      && (forall i :: 0 <= i < |depth| ==> depth[i].price in b.asks && depth[i] == b.asks[depth[i].price])
      && (forall i, j :: 0 <= i < j < |depth| ==> depth[i].price < depth[j].price)
      && (forall p, i :: p in b.asks && 0 <= i < |depth| && (forall j :: 0 <= j < |depth| ==> depth[j].price != p) ==>
            depth[i].price < p)
  {
    hide Sound, Depth, LivePrice;
    DepthIsBestLevels(b, Ask, n);
    var depth := Depth(b.asks, Ask, n);
    forall i | 0 <= i < |depth| ensures depth[i].price in b.asks && depth[i] == b.asks[depth[i].price] {
      LevelIffLive(b, Ask, depth[i].price);
    }
    forall p | p in b.asks ensures LivePrice(b, Ask, p) {
      LevelIffLive(b, Ask, p);
    }
  }

  // ---------------------------------------------------------------- of the levels alone

  ghost predicate Highest(levels: Levels, price: int) {
    price in levels && forall p :: p in levels ==> p <= price
  }

  ghost predicate Lowest(levels: Levels, price: int) {
    price in levels && forall p :: p in levels ==> price <= p
  }

  /** The first bid level is the highest and the first ask level the lowest, with its size. */
  lemma BestOfLevels(levels: Levels, price: int)
    ensures BestPrice(levels, Bid) == Some(price) <==> Highest(levels, price)
    ensures BestPrice(levels, Ask) == Some(price) <==> Lowest(levels, price)
    ensures Highest(levels, price) ==> BestSize(levels, Bid) == Some(levels[price].size)
    ensures Lowest(levels, price) ==> BestSize(levels, Ask) == Some(levels[price].size)
    ensures BestPrice(levels, Bid) == None <==> levels == map[]
    ensures BestPrice(levels, Ask) == None <==> levels == map[]
    ensures BestSize(levels, Bid) == None <==> levels == map[]
    ensures BestSize(levels, Ask) == None <==> levels == map[]
  {
    hide InOrder;
    if price in levels {
      NonEmpty(levels, price);
    }
    if levels != map[] {
      FirstIsExtreme(levels, price, Bid);
      FirstIsExtreme(levels, price, Ask);
    }
  }

  lemma FirstIsExtreme(levels: Levels, price: int, side: Side)
    requires levels != map[]
    ensures var prices := InOrder(levels.Keys, side);
      |prices| > 0 && prices[0] in levels &&
      (prices[0] == price <==> if side == Bid then Highest(levels, price) else Lowest(levels, price))
  {
    hide InOrder;
    var prices := InOrder(levels.Keys, side);
    assert prices[0] in levels.Keys;
    if price in levels {
      var k :| 0 <= k < |prices| && prices[k] == price;
    }
    forall p | p in levels ensures p == prices[0] || Before(side, prices[0], p) {
      var k :| 0 <= k < |prices| && prices[k] == p;
    }
  }

  // ---------------------------------------------------------------- by character

  lemma BestBidByCharacter(b: Book)
    requires Sound(b)
    ensures forall p :: BestPrice(b.bids, Bid) == Some(p) <==>
      BidAt(b.orders, p) && forall q :: BidAt(b.orders, q) ==> q <= p
  {
    hide Sound, BestPrice, LivePrice, BidAt;
    forall p: int
      ensures BestPrice(b.bids, Bid) == Some(p) <==> BidAt(b.orders, p) && forall q :: BidAt(b.orders, q) ==> q <= p
    {
      BestIsExtreme(b, Bid, p);
      forall q: int ensures LivePrice(b, Bid, q) <==> BidAt(b.orders, q) {
        LiveByCharacter(b, q);
      }
    }
  }

  lemma BestAskByCharacter(b: Book)
    requires Sound(b)
    ensures forall p :: BestPrice(b.asks, Ask) == Some(p) <==>
      AskAt(b.orders, p) && forall q :: AskAt(b.orders, q) ==> p <= q
  {
    hide Sound, BestPrice, LivePrice, AskAt;
    forall p: int
      ensures BestPrice(b.asks, Ask) == Some(p) <==> AskAt(b.orders, p) && forall q :: AskAt(b.orders, q) ==> p <= q
    {
      BestIsExtreme(b, Ask, p);
      forall q: int ensures LivePrice(b, Ask, q) <==> AskAt(b.orders, q) {
        LiveByCharacter(b, q);
      }
    }
  }

  lemma CrossedByCharacter(b: Book)
    requires Sound(b)
    ensures HasCrossing(b) <==> exists p, q :: BidAt(b.orders, p) && AskAt(b.orders, q) && p >= q
  {
    hide Sound, HasCrossing, LivePrice, BidAt, AskAt;
    CrossedIffOrdersCross(b);
    forall p: int
      ensures LivePrice(b, Bid, p) <==> BidAt(b.orders, p)
      ensures LivePrice(b, Ask, p) <==> AskAt(b.orders, p)
    {
      LiveByCharacter(b, p);
    }
  }
}
