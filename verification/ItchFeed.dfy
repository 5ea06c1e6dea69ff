/** The loop that parses a buffer and adds every Add Order message to a book. */
module ItchFeed {
  import opened Words
  import opened ItchWire
  import opened ItchMessages
  import opened ItchParser
  import opened BookModel
  import BookHistory
  import EnhancedOrderBook

  /** The command an Add Order message stands for. */
  function AddCommand(m: Message): Command
    requires m.AddOrder?
  {
    Command.AddOrder(m.orderReference as nat, (m.buySell as int) as char, m.price as nat, m.shares as nat,
                     m.h.timestamp as nat)
  }

  /** The adds among the results, in order. */
  function Adds(results: seq<Option<Message>>): seq<Command> {
    if results == [] then []
    else if results[0].Some? && results[0].value.AddOrder? then [AddCommand(results[0].value)] + Adds(results[1..])
    else Adds(results[1..])
  }

  ghost function AddsIn(buf: seq<Byte>, off: nat): seq<Command>
    requires off <= |buf| && WellFramed(buf, off)
  {
    Adds(Results(buf, off, CallsToEnd(buf, off)))
  }

  lemma {:induction false} RunFirst(b: Book, c: Command, rest: seq<Command>)
    ensures Run(b, [c] + rest) == Run(Apply(b, c), rest)
    decreases rest
  {
    var all := [c] + rest;
    if rest == [] {
      assert all[..|all| - 1] == [];
      assert Run(b, []) == b;
    } else {
      var n := |rest| - 1;
      RunFirst(b, c, rest[..n]);
      assert all[..|all| - 1] == [c] + rest[..n];
    }
  }

  method Feed(parser: Parser, book: EnhancedOrderBook.EnhancedOrderBook)
    requires parser.offset == 0 && WellFramed(parser.buffer, 0) && book.Valid()
    modifies parser`offset, book
    ensures parser.offset == |parser.buffer| && book.Valid()
    ensures book.View() == Run(old(book.View()), AddsIn(parser.buffer, 0))
  {
    hide AddCommand, Item, Next, Complete, WellFramed, AddsIn, Run, Apply, Accepts;
    ghost var buf := parser.buffer;
    var more := parser.HasMore();
    while more
      invariant parser.offset <= |buf| && WellFramed(buf, parser.offset) && book.Valid()
      invariant more == (parser.offset < |buf|)
      invariant Run(book.View(), AddsIn(buf, parser.offset)) == Run(old(book.View()), AddsIn(buf, 0))
      decreases |buf| - parser.offset
    {
      ghost var off, before := parser.offset, book.View();
      StepOfWellFramed(buf, off);
      var msg := parser.ParseNext();
      if msg.Some? && msg.value.AddOrder? {
        var add := msg.value;
        var side := (add.buySell as int) as char;
        var added := book.AddOrder(add.orderReference as nat, side, add.price as nat, add.shares as nat,
                                   add.h.timestamp as nat);
        AddCommandOf(add);
        RunFirst(before, AddCommand(add), AddsIn(buf, parser.offset));
      } else {
        assert [] + AddsIn(buf, parser.offset) == AddsIn(buf, parser.offset);
      }
      more := parser.HasMore();
    }
    NoAddsAtEnd(buf);
    BookHistory.RunOfNone(book.View());
  }

  lemma NoAddsAtEnd(buf: seq<Byte>)
    ensures WellFramed(buf, |buf|) && AddsIn(buf, |buf|) == []
  {
  }

  lemma AddCommandOf(m: Message)
    requires m.AddOrder?
    ensures AddCommand(m) == Command.AddOrder(m.orderReference as nat, (m.buySell as int) as char, m.price as nat,
                                              m.shares as nat, m.h.timestamp as nat)
  {
  }

  /** One call moves on, and takes its own add off the front of the adds to come. */
  lemma StepOfWellFramed(buf: seq<Byte>, off: nat)
    requires off < |buf| && WellFramed(buf, off)
    ensures off < Next(buf, off) <= |buf| && WellFramed(buf, Next(buf, off))
    ensures var item := Item(buf, off);
      AddsIn(buf, off) ==
      (if item.Some? && item.value.AddOrder? then [AddCommand(item.value)] else []) + AddsIn(buf, Next(buf, off))
  {
    hide AddCommand, Item;
    var n := CallsToEnd(buf, Next(buf, off));
    assert Results(buf, off, n + 1) == [Item(buf, off)] + Results(buf, Next(buf, off), n);
    assert Results(buf, off, n + 1)[1..] == Results(buf, Next(buf, off), n);
  }

  /** The book fed a stream of frames runs exactly the adds among the frames, in order. */
  lemma AddsOfStream(frames: seq<Frame>)
    requires FramesOk(frames)
    ensures WellFramed(Stream(frames), 0)
    ensures AddsIn(Stream(frames), 0) == Adds(FrameResults(frames))
  {
    StreamRoundTrip(frames);
    StreamWellFramed([], frames);
    assert [] + Stream(frames) == Stream(frames);
  }

  /** A stream of Add Order messages only: the same book as applying the adds directly. */
  lemma {:induction false} AddsOfMessages(frames: seq<Frame>)
    requires forall i :: 0 <= i < |frames| ==> frames[i].Known? && frames[i].message.AddOrder?
    ensures |Adds(FrameResults(frames))| == |frames|
    ensures forall i :: 0 <= i < |frames| ==> Adds(FrameResults(frames))[i] == AddCommand(frames[i].message)
  {
    hide AddCommand;
    if frames != [] {
      AddsOfMessages(frames[1..]);
      assert FrameResults(frames)[1..] == FrameResults(frames[1..]);
    }
  }

  /** The adds that the messages stand for, one a frame. */
  function MessageAdds(frames: seq<Frame>): seq<Command>
    requires forall i :: 0 <= i < |frames| ==> frames[i].Known? && frames[i].message.AddOrder?
  {
    seq(|frames|, (i: nat) requires i < |frames| => AddCommand(frames[i].message))
  }

  /** Feeding a stream of Add Order messages gives the same book as applying the adds directly. */
  lemma SameBookAsAdds(b: Book, frames: seq<Frame>)
    requires FramesOk(frames)
    requires forall i :: 0 <= i < |frames| ==> frames[i].Known? && frames[i].message.AddOrder?
    ensures WellFramed(Stream(frames), 0)
    ensures Run(b, AddsIn(Stream(frames), 0)) == Run(b, MessageAdds(frames))
  {
    hide AddCommand, FrameOk, WellFramed, AddsIn, Run;
    AddsOfStream(frames);
    AddsOfMessages(frames);
    assert AddsIn(Stream(frames), 0) == MessageAdds(frames);
  }

  // ---------------------------------------------------------------- what the book then holds

  function Reference(m: Message): nat
    requires m.AddOrder?
  {
    m.orderReference as nat
  }

  /** The order of a message is live with every field of the message, its price and quantity as plain numbers. */
  predicate Entered(orders: Orders, symbol: string, m: Message)
    requires m.AddOrder?
  {
    var id := m.orderReference as nat;
    && id in orders
    && orders[id] == Order(id, symbol, (m.buySell as int) as char, m.price as nat, m.shares as nat, m.h.timestamp as nat)
  }

  lemma OrdersAfterAdd(b: Book, id: Id, side: char, price: int, quantity: nat, timestamp: nat)
    ensures var b' := Apply(b, Command.AddOrder(id, side, price, quantity, timestamp));
      && b'.symbol == b.symbol
      && b'.orders == if id in b.orders then b.orders else b.orders[id := Order(id, b.symbol, side, price, quantity, timestamp)]
  {
    hide Deposit;
  }

  lemma EnterOne(b: Book, m: Message)
    requires m.AddOrder?
    ensures var b' := Apply(b, AddCommand(m));
      && b'.symbol == b.symbol && b'.orders.Keys == b.orders.Keys + {Reference(m)}
      && (forall id :: id in b.orders ==> b'.orders[id] == b.orders[id])
      && (Reference(m) !in b.orders ==> Entered(b'.orders, b.symbol, m))
  {
    hide Apply;
    OrdersAfterAdd(b, m.orderReference as nat, (m.buySell as int) as char, m.price as nat, m.shares as nat, m.h.timestamp as nat);
  }

  lemma EnteredStays(before: Orders, after: Orders, symbol: string, m: Message)
    requires m.AddOrder? && Entered(before, symbol, m)
    requires forall id :: id in before ==> id in after && after[id] == before[id]
    ensures Entered(after, symbol, m)
  {
  }

  predicate IsAdd(f: Frame) {
    f.Known? && f.message.AddOrder?
  }

  /** Frame `i` is an Add Order message and the first to bring its reference. */
  ghost predicate Enters(b: Book, frames: seq<Frame>, i: nat)
    requires i < |frames|
  {
    && IsAdd(frames[i])
    && Reference(frames[i].message) !in b.orders
    && forall j :: 0 <= j < i && IsAdd(frames[j]) ==> Reference(frames[j].message) != Reference(frames[i].message)
  }

  lemma {:induction false} AddsSnoc(frames: seq<Frame>, f: Frame)
    ensures Adds(FrameResults(frames + [f])) ==
      Adds(FrameResults(frames)) + (if IsAdd(f) then [AddCommand(f.message)] else [])
  {
    hide AddCommand;
    if frames == [] {
      assert frames + [f] == [f] && FrameResults([f]) == [FrameResult(f)];
    } else {
      AddsSnoc(frames[1..], f);
      assert (frames + [f])[1..] == frames[1..] + [f];
      assert FrameResults(frames)[1..] == FrameResults(frames[1..]);
      assert FrameResults(frames + [f])[1..] == FrameResults(frames[1..] + [f]);
    }
  }

  lemma NoAdds()
    ensures Adds(FrameResults([])) == []
  {
  }

  lemma RunSnoc(b: Book, commands: seq<Command>, c: Command)
    ensures Run(b, commands + [c]) == Apply(Run(b, commands), c)
  {
    assert (commands + [c])[..|commands|] == commands;
  }

  /** Exactly the orders of `b` and one a reference of the first `n` frames are live in `now`. */
  ghost predicate References(b: Book, frames: seq<Frame>, n: nat, now: Book)
    requires n <= |frames|
  {
    && now.symbol == b.symbol
    && (forall id :: id in now.orders <==>
          id in b.orders || exists i :: 0 <= i < n && IsAdd(frames[i]) && Reference(frames[i].message) == id)
    && (forall id :: id in b.orders ==> now.orders[id] == b.orders[id])
  }

  /** Of the first `n` frames, the message that brings a reference gives its order. */
  ghost predicate FirstsEntered(b: Book, frames: seq<Frame>, n: nat, now: Book)
    requires n <= |frames|
  {
    forall i :: 0 <= i < n && Enters(b, frames, i) ==> Entered(now.orders, b.symbol, frames[i].message)
  }

  lemma NextReference(b: Book, frames: seq<Frame>, n: nat, now: Book, after: Book)
    requires n < |frames| && IsAdd(frames[n]) && References(b, frames, n, now)
    requires after.symbol == now.symbol && after.orders.Keys == now.orders.Keys + {Reference(frames[n].message)}
    requires forall id :: id in now.orders ==> after.orders[id] == now.orders[id]
    ensures References(b, frames, n + 1, after)
  {
    hide Reference;
    forall id: Id
      ensures id in after.orders <==> id in now.orders || id == Reference(frames[n].message)
    {
      assert id in after.orders <==> id in after.orders.Keys;
    }
  }

  lemma EntersIsAdd(b: Book, frames: seq<Frame>, i: nat)
    requires i < |frames| && Enters(b, frames, i)
    ensures IsAdd(frames[i])
  {
  }

  lemma EntersIsNew(b: Book, frames: seq<Frame>, n: nat, now: Book)
    requires n < |frames| && Enters(b, frames, n) && References(b, frames, n, now)
    ensures Reference(frames[n].message) !in now.orders
  {
    hide Reference;
  }

  lemma NextEntered(b: Book, frames: seq<Frame>, n: nat, now: Book, after: Book)
    requires n < |frames| && IsAdd(frames[n]) && References(b, frames, n, now) && FirstsEntered(b, frames, n, now)
    requires forall id :: id in now.orders ==> id in after.orders && after.orders[id] == now.orders[id]
    requires Reference(frames[n].message) !in now.orders ==> Entered(after.orders, b.symbol, frames[n].message)
    ensures FirstsEntered(b, frames, n + 1, after)
  {
    hide Reference, Entered, Enters;
    forall i | 0 <= i < n + 1 && Enters(b, frames, i)
      ensures IsAdd(frames[i]) && Entered(after.orders, b.symbol, frames[i].message)
    {
      EntersIsAdd(b, frames, i);
      if i < n {
        EnteredStays(now.orders, after.orders, b.symbol, frames[i].message);
      } else {
        EntersIsNew(b, frames, n, now);
      }
    }
  }

  lemma {:induction false} EnteredPrefix(b: Book, frames: seq<Frame>, n: nat)
    requires n <= |frames|
    ensures var now := Run(b, Adds(FrameResults(frames[..n])));
      References(b, frames, n, now) && FirstsEntered(b, frames, n, now)
  {
    hide AddCommand, Reference, Entered, Run, Apply, Adds, FrameResults, Enters;
    if n == 0 {
      assert frames[..0] == [];
      NoAdds();
      BookHistory.RunOfNone(b);
    } else {
      hide References, FirstsEntered;
      EnteredPrefix(b, frames, n - 1);
      var f, commands := frames[n - 1], Adds(FrameResults(frames[..n - 1]));
      var now := Run(b, commands);
      assert frames[..n] == frames[..n - 1] + [f];
      AddsSnoc(frames[..n - 1], f);
      if IsAdd(f) {
        RunSnoc(b, commands, AddCommand(f.message));
        EnterNext(b, frames, n - 1, now);
      } else {
        assert commands + [] == commands;
        SkipNext(b, frames, n - 1, now);
      }
    }
  }

  lemma EnterNext(b: Book, frames: seq<Frame>, n: nat, now: Book)
    requires n < |frames| && IsAdd(frames[n]) && References(b, frames, n, now) && FirstsEntered(b, frames, n, now)
    ensures var after := Apply(now, AddCommand(frames[n].message));
      References(b, frames, n + 1, after) && FirstsEntered(b, frames, n + 1, after)
  {
    var m := frames[n].message;
    hide AddCommand, Reference, Entered, Apply, Enters, FirstsEntered;
    EnterOne(now, m);
    var after := Apply(now, AddCommand(m));
    forall id | id in now.orders ensures id in after.orders {
      assert id in after.orders.Keys;
    }
    assert now.symbol == b.symbol;
    NextReference(b, frames, n, now, after);
    NextEntered(b, frames, n, now, after);
  }

  lemma SkipNext(b: Book, frames: seq<Frame>, n: nat, now: Book)
    requires n < |frames| && !IsAdd(frames[n]) && References(b, frames, n, now) && FirstsEntered(b, frames, n, now)
    ensures References(b, frames, n + 1, now) && FirstsEntered(b, frames, n + 1, now)
  {
    hide Reference, Entered, IsAdd;
  }

  /**
   Whatever frames a stream is made of, the book then holds exactly the orders that were there and one a
   reference of the Add Order messages, with the fields of the first message that brings it.
   */
  lemma FeedFillsBook(b: Book, frames: seq<Frame>)
    requires FramesOk(frames)
    ensures WellFramed(Stream(frames), 0)
    ensures var now := Run(b, AddsIn(Stream(frames), 0));
      References(b, frames, |frames|, now) && FirstsEntered(b, frames, |frames|, now)
  {
    hide Run, AddsIn, Adds, WellFramed, References, FirstsEntered, FrameOk;
    AddsOfStream(frames);
    EnteredPrefix(b, frames, |frames|);
    assert frames[..|frames|] == frames;
  }
}
