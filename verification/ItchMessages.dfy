/** The ten message structs, their packed layouts, and the decoder and encoder of a struct. */
module ItchMessages {
  import opened Words
  import opened ItchWire

  type Chars2 = s: seq<Byte> | |s| == 2 witness [0, 0]
  type Chars4 = s: seq<Byte> | |s| == 4 witness [0, 0, 0, 0]
  type Chars8 = s: seq<Byte> | |s| == 8 witness [0, 0, 0, 0, 0, 0, 0, 0]

  /** The first fields of every message. Its type byte is implied by the kind of message. */
  datatype Header = Header(length: bv16, stockLocate: bv16, trackingNumber: bv16, timestamp: bv64)

  datatype Message =
    | SystemEvent(h: Header, eventCode: Byte)
    | StockDirectory(h: Header, stock: Chars8, marketCategory: Byte, financialStatus: Byte, roundLotSize: bv32,
                     roundLotsOnly: Byte, issueClassification: Byte, issueSubType: Chars2, authenticity: Byte,
                     shortSaleThreshold: Byte, ipoFlag: Byte, luldReferencePriceTier: Byte, etpFlag: Byte,
                     etpLeverageFactor: bv32, inverseIndicator: Byte)
    | AddOrder(h: Header, orderReference: bv64, buySell: Byte, shares: bv32, stock: Chars8, price: bv32)
    | AddOrderMPID(h: Header, orderReference: bv64, buySell: Byte, shares: bv32, stock: Chars8, price: bv32,
                   attribution: Chars4)
    | OrderExecuted(h: Header, orderReference: bv64, executedShares: bv32, matchNumber: bv64)
    | OrderExecutedWithPrice(h: Header, orderReference: bv64, executedShares: bv32, matchNumber: bv64,
                             printable: Byte, executionPrice: bv32)
    | OrderCancel(h: Header, orderReference: bv64, cancelledShares: bv32)
    | OrderDelete(h: Header, orderReference: bv64)
    | OrderReplace(h: Header, originalOrderReference: bv64, newOrderReference: bv64, shares: bv32, price: bv32)
    | Trade(h: Header, orderReference: bv64, buySell: Byte, shares: bv32, stock: Chars8, price: bv32, matchNumber: bv64)

  datatype Kind = S | R | A | F | E | C | X | D | U | P

  /** The switch on the type byte. */
  function KindOf(code: Byte): Option<Kind> {
    if code == 0x53 then Some(S)
    else if code == 0x52 then Some(R)
    else if code == 0x41 then Some(A)
    else if code == 0x46 then Some(F)
    else if code == 0x45 then Some(E)
    else if code == 0x43 then Some(C)
    else if code == 0x58 then Some(X)
    else if code == 0x44 then Some(D)
    else if code == 0x55 then Some(U)
    else if code == 0x50 then Some(P)
    else None
  }

  function CodeOf(k: Kind): (code: Byte)
    ensures KindOf(code) == Some(k)
  {
    match k
    case S => 0x53
    case R => 0x52
    case A => 0x41
    case F => 0x46
    case E => 0x45
    case C => 0x43
    case X => 0x58
    case D => 0x44
    case U => 0x55
    case P => 0x50
  }

  function KindOfMessage(m: Message): Kind {
    match m
    case SystemEvent(_, _) => S
    case StockDirectory(_, _, _, _, _, _, _, _, _, _, _, _, _, _, _) => R
    case AddOrder(_, _, _, _, _, _) => A
    case AddOrderMPID(_, _, _, _, _, _, _) => F
    case OrderExecuted(_, _, _, _) => E
    case OrderExecutedWithPrice(_, _, _, _, _, _) => C
    case OrderCancel(_, _, _) => X
    case OrderDelete(_, _) => D
    case OrderReplace(_, _, _, _, _) => U
    case Trade(_, _, _, _, _, _, _) => P
  }

  // ---------------------------------------------------------------- layouts

  const HEADER: seq<Field> := [F16, F8, F16, F16, F64]

  /** The fields after the header, in the order of the struct. */
  function Tail(k: Kind): seq<Field> {
    match k
    case S => [F8]
    case R => [FChars(8), F8, F8, F32, F8, F8, FChars(2), F8, F8, F8, F8, F8, F32, F8]
    case A => [F64, F8, F32, FChars(8), F32]
    case F => [F64, F8, F32, FChars(8), F32, FChars(4)]
    case E => [F64, F32, F64]
    case C => [F64, F32, F64, F8, F32]
    case X => [F64, F32]
    case D => [F64]
    case U => [F64, F64, F32, F32]
    case P => [F64, F8, F32, FChars(8), F32, F64]
  }

  function Layout(k: Kind): seq<Field> {
    HEADER + Tail(k)
  }

  /** `sizeof` of the packed struct. */
  function SizeOf(k: Kind): nat {
    match k
    case S => 16
    case R => 43
    case A => 40
    case F => 44
    case E => 35
    case C => 40
    case X => 27
    case D => 23
    case U => 39
    case P => 48
  }

  lemma {:induction false} SizeSum(layout: seq<Field>, more: seq<Field>)
    ensures Size(layout + more) == Size(layout) + Size(more)
  {
    if more == [] {
      assert layout + more == layout;
    } else {
      var n := |more| - 1;
      SizeSum(layout, more[..n]);
      SizeSnoc(more);
      SizeSnoc(layout + more);
      assert (layout + more)[..|layout + more| - 1] == layout + more[..n];
    }
  }

  lemma SizeSnoc(layout: seq<Field>)
    requires layout != []
    ensures Size(layout) == Size(layout[..|layout| - 1]) + Width(layout[|layout| - 1])
  {
    OffsetUpTo(layout, |layout| - 1, |layout| - 1);
  }

  lemma {:induction false} OffsetUpTo(layout: seq<Field>, n: nat, i: nat)
    requires i <= n <= |layout|
    ensures Offset(layout[..n], i) == Offset(layout, i)
  {
    if i > 0 { OffsetUpTo(layout, n, i - 1); }
  }

  lemma SizeCons(f: Field, layout: seq<Field>)
    ensures Size([f] + layout) == Width(f) + Size(layout)
  {
    SizeSum([f], layout);
    assert Offset([f], 1) == Offset([f], 0) + Width([f][0]);
  }

  lemma SizeOfFour(a: Field, b: Field, c: Field, d: Field)
    ensures Size([a]) == Width(a)
    ensures Size([a, b]) == Width(a) + Width(b)
    ensures Size([a, b, c]) == Width(a) + Width(b) + Width(c)
    ensures Size([a, b, c, d]) == Width(a) + Width(b) + Width(c) + Width(d)
  {
    assert [a] == [a] + [] && [a, b] == [a] + [b] && [a, b, c] == [a] + [b, c] && [a, b, c, d] == [a] + [b, c, d];
    assert [b] == [b] + [] && [b, c] == [b] + [c] && [b, c, d] == [b] + [c, d];
    SizeCons(a, []); SizeCons(a, [b]); SizeCons(a, [b, c]); SizeCons(a, [b, c, d]);
    SizeCons(b, []); SizeCons(b, [c]); SizeCons(b, [c, d]);
    SizeCons(c, []); SizeCons(c, [d]); SizeCons(d, []);
    assert [c] == [c] + [] && [c, d] == [c] + [d] && [d] == [d] + [];
  }

  lemma HeaderSize()
    ensures Size(HEADER) == 15
  {
    SizeOfFour(F16, F8, F16, F16);
    SizeOfFour(F64, F64, F64, F64);
    SizeSum([F16, F8, F16, F16], [F64]);
    assert HEADER == [F16, F8, F16, F16] + [F64];
  }

  lemma DirectoryTailSize()
    ensures Size(Tail(R)) == 28
  {
    SizeOfFour(FChars(8), F8, F8, F32);
    SizeOfFour(F8, F8, FChars(2), F8);
    SizeOfFour(F8, F8, F8, F8);
    SizeOfFour(F32, F8, F8, F8);
    SizeSum([FChars(8), F8, F8, F32], [F8, F8, FChars(2), F8]);
    SizeSum([F8, F8, F8, F8], [F32, F8]);
    SizeSum([FChars(8), F8, F8, F32] + [F8, F8, FChars(2), F8], [F8, F8, F8, F8] + [F32, F8]);
    assert Tail(R) == [FChars(8), F8, F8, F32] + [F8, F8, FChars(2), F8] + ([F8, F8, F8, F8] + [F32, F8]);
  }

  lemma OrderTailSizes()
    ensures Size([F64, F8, F32, FChars(8), F32]) == 25
    ensures Size([F64, F8, F32, FChars(8), F32, FChars(4)]) == 29
    ensures Size([F64, F8, F32, FChars(8), F32, F64]) == 33
    ensures Size([F64, F32, F64, F8, F32]) == 25
  {
    SizeOfFour(F64, F8, F32, FChars(8));
    SizeOfFour(F32, FChars(4), F8, F8);
    SizeOfFour(F32, F64, F8, F8);
    SizeOfFour(F64, F32, F64, F8);
    SizeSum([F64, F8, F32, FChars(8)], [F32]);
    SizeSum([F64, F8, F32, FChars(8)], [F32, FChars(4)]);
    SizeSum([F64, F8, F32, FChars(8)], [F32, F64]);
    SizeSum([F64, F32, F64, F8], [F32]);
    assert [F64, F8, F32, FChars(8), F32] == [F64, F8, F32, FChars(8)] + [F32];
    assert [F64, F8, F32, FChars(8), F32, FChars(4)] == [F64, F8, F32, FChars(8)] + [F32, FChars(4)];
    assert [F64, F8, F32, FChars(8), F32, F64] == [F64, F8, F32, FChars(8)] + [F32, F64];
    assert [F64, F32, F64, F8, F32] == [F64, F32, F64, F8] + [F32];
  }

  /** The packed layouts add up to the sizes the parser compares the length with. */
  lemma SizesAddUp(k: Kind)
    ensures Size(Layout(k)) == SizeOf(k)
  {
    HeaderSize();
    SizeSum(HEADER, Tail(k));
    match k
    case R => DirectoryTailSize();
    case A => OrderTailSizes();
    case F => OrderTailSizes();
    case C => OrderTailSizes();
    case P => OrderTailSizes();
    case S => SizeOfFour(F8, F8, F8, F8);
    case E => SizeOfFour(F64, F32, F64, F8);
    case X => SizeOfFour(F64, F32, F64, F8);
    case D => SizeOfFour(F64, F32, F64, F8);
    case U => SizeOfFour(F64, F64, F32, F32);
  }

  // ---------------------------------------------------------------- structs as field values

  function HeaderFields(h: Header, k: Kind): seq<Value> {
    [U16(h.length), U8(CodeOf(k)), U16(h.stockLocate), U16(h.trackingNumber), U64(h.timestamp)]
  }

  function TailFields(m: Message): seq<Value> {
    match m
    case SystemEvent(_, code) => [U8(code)]
    case StockDirectory(_, stock, category, status, lot, lotsOnly, issue, subType, auth, short, ipo, luld, etp,
                        leverage, inverse) =>
      [Chars(stock), U8(category), U8(status), U32(lot), U8(lotsOnly), U8(issue), Chars(subType), U8(auth), U8(short),
       U8(ipo), U8(luld), U8(etp), U32(leverage), U8(inverse)]
    case AddOrder(_, reference, side, shares, stock, price) =>
      [U64(reference), U8(side), U32(shares), Chars(stock), U32(price)]
    case AddOrderMPID(_, reference, side, shares, stock, price, attribution) =>
      [U64(reference), U8(side), U32(shares), Chars(stock), U32(price), Chars(attribution)]
    case OrderExecuted(_, reference, shares, number) => [U64(reference), U32(shares), U64(number)]
    case OrderExecutedWithPrice(_, reference, shares, number, printable, price) =>
      [U64(reference), U32(shares), U64(number), U8(printable), U32(price)]
    case OrderCancel(_, reference, shares) => [U64(reference), U32(shares)]
    case OrderDelete(_, reference) => [U64(reference)]
    case OrderReplace(_, original, replacement, shares, price) =>
      [U64(original), U64(replacement), U32(shares), U32(price)]
    case Trade(_, reference, side, shares, stock, price, number) =>
      [U64(reference), U8(side), U32(shares), Chars(stock), U32(price), U64(number)]
  }

  function Fields(m: Message): seq<Value> {
    HeaderFields(m.h, KindOfMessage(m)) + TailFields(m)
  }

  ghost predicate Fit(values: seq<Value>, layout: seq<Field>) {
    |values| == |layout| && forall i :: 0 <= i < |values| ==> FieldOf(values[i]) == layout[i]
  }

  lemma FieldsFit(m: Message)
    ensures Fit(Fields(m), Layout(KindOfMessage(m)))
    ensures LayoutOf(Fields(m)) == Layout(KindOfMessage(m))
  {
    TailFits(m);
    var k := KindOfMessage(m);
    assert Fit(HeaderFields(m.h, k), HEADER);
    assert Fit(Fields(m), Layout(k));
  }

  lemma TailFits(m: Message)
    ensures Fit(TailFields(m), Tail(KindOfMessage(m)))
  {
    hide Fit, Tail;
    if m.StockDirectory? {
      DirectoryFits(m);
    } else if m.AddOrder? || m.AddOrderMPID? || m.Trade? {
      OrderFits(m);
    } else {
      ShortFits(m);
    }
  }

  lemma OrderFits(m: Message)
    requires m.AddOrder? || m.AddOrderMPID? || m.Trade?
    ensures Fit(TailFields(m), Tail(KindOfMessage(m)))
  {
  }

  lemma ShortFits(m: Message)
    requires !(m.StockDirectory? || m.AddOrder? || m.AddOrderMPID? || m.Trade?)
    ensures Fit(TailFields(m), Tail(KindOfMessage(m)))
  {
  }

  lemma DirectoryFits(m: Message)
    requires m.StockDirectory?
    ensures Fit(TailFields(m), Tail(R))
  {
    var v, f := TailFields(m), Tail(R);
    assert FieldOf(v[0]) == f[0] && FieldOf(v[1]) == f[1] && FieldOf(v[2]) == f[2] && FieldOf(v[3]) == f[3];
    assert FieldOf(v[4]) == f[4] && FieldOf(v[5]) == f[5] && FieldOf(v[6]) == f[6] && FieldOf(v[7]) == f[7];
    assert FieldOf(v[8]) == f[8] && FieldOf(v[9]) == f[9] && FieldOf(v[10]) == f[10] && FieldOf(v[11]) == f[11];
    assert FieldOf(v[12]) == f[12] && FieldOf(v[13]) == f[13];
  }

  function DirectoryFrom(h: Header, t: seq<Value>): Message
    requires Fit(t, Tail(R))
  {
    StockDirectory(h, t[0].chars, t[1].u8, t[2].u8, t[3].u32, t[4].u8, t[5].u8, t[6].chars, t[7].u8, t[8].u8,
                   t[9].u8, t[10].u8, t[11].u8, t[12].u32, t[13].u8)
  }

  /** The struct of kind `k` with these field values. */
  function FromTail(k: Kind, h: Header, t: seq<Value>): Message
    requires Fit(t, Tail(k))
  {
    match k
    case S => SystemEvent(h, t[0].u8)
    case R => DirectoryFrom(h, t)
    case A => AddOrder(h, t[0].u64, t[1].u8, t[2].u32, t[3].chars, t[4].u32)
    case F => AddOrderMPID(h, t[0].u64, t[1].u8, t[2].u32, t[3].chars, t[4].u32, t[5].chars)
    case E => OrderExecuted(h, t[0].u64, t[1].u32, t[2].u64)
    case C => OrderExecutedWithPrice(h, t[0].u64, t[1].u32, t[2].u64, t[3].u8, t[4].u32)
    case X => OrderCancel(h, t[0].u64, t[1].u32)
    case D => OrderDelete(h, t[0].u64)
    case U => OrderReplace(h, t[0].u64, t[1].u64, t[2].u32, t[3].u32)
    case P => Trade(h, t[0].u64, t[1].u8, t[2].u32, t[3].chars, t[4].u32, t[5].u64)
  }

  lemma FromTailOfTail(m: Message)
    ensures Fit(TailFields(m), Tail(KindOfMessage(m)))
    ensures FromTail(KindOfMessage(m), m.h, TailFields(m)) == m
  {
    hide Fit, Tail, FromTail, TailFields, KindOfMessage;
    TailFits(m);
    if m.StockDirectory? {
      DirectoryBack(m);
    } else if m.AddOrder? || m.AddOrderMPID? || m.Trade? {
      OrderBack(m);
    } else {
      ShortBack(m);
    }
  }

  lemma DirectoryBack(m: Message)
    requires m.StockDirectory? && Fit(TailFields(m), Tail(KindOfMessage(m)))
    ensures FromTail(KindOfMessage(m), m.h, TailFields(m)) == m
  {
    hide Tail, Fit;
  }

  lemma OrderBack(m: Message)
    requires m.AddOrder? || m.AddOrderMPID? || m.Trade?
    requires Fit(TailFields(m), Tail(KindOfMessage(m)))
    ensures FromTail(KindOfMessage(m), m.h, TailFields(m)) == m
  {
    hide Tail, Fit;
  }

  lemma ShortBack(m: Message)
    requires !(m.StockDirectory? || m.AddOrder? || m.AddOrderMPID? || m.Trade?)
    requires Fit(TailFields(m), Tail(KindOfMessage(m)))
    ensures FromTail(KindOfMessage(m), m.h, TailFields(m)) == m
  {
    hide Tail, Fit;
  }

  function HeaderFrom(values: seq<Value>): Header
    requires |values| >= 5 && Fit(values[..5], HEADER)
  {
    assert forall i :: 0 <= i < 5 ==> FieldOf(values[..5][i]) == HEADER[i];
    Header(values[0].u16, values[2].u16, values[3].u16, values[4].u64)
  }

  lemma FitParts(k: Kind, values: seq<Value>)
    requires Fit(values, Layout(k))
    ensures |values| >= 5 && Fit(values[..5], HEADER) && Fit(values[5..], Tail(k))
  {
    assert forall i :: 0 <= i < 5 ==> Layout(k)[i] == HEADER[i];
    assert forall i :: 5 <= i < |values| ==> Layout(k)[i] == Tail(k)[i - 5];
  }

  /** The struct from all its field values; the type byte is dropped. */
  function FromFields(k: Kind, values: seq<Value>): Message
    requires Fit(values, Layout(k))
  {
    FitParts(k, values);
    FromTail(k, HeaderFrom(values), values[5..])
  }

  lemma FromFieldsOfFields(m: Message)
    ensures Fit(Fields(m), Layout(KindOfMessage(m)))
    ensures FromFields(KindOfMessage(m), Fields(m)) == m
  {
    FieldsFit(m);
    FromTailOfTail(m);
    assert Fields(m)[5..] == TailFields(m);
  }

  // ---------------------------------------------------------------- decoding and encoding

  /** The struct as `memcpy` leaves it, numbers in the byte order of the wire. */
  function Copy(k: Kind, bytes: seq<Byte>): Message
    requires Size(Layout(k)) <= |bytes|
  {
    FromFields(k, LoadFields(Layout(k), bytes))
  }

  /** The struct with every number swapped. */
  function Decode(k: Kind, bytes: seq<Byte>): Message
    requires Size(Layout(k)) <= |bytes|
  {
    FromFields(k, SwapFields(LoadFields(Layout(k), bytes)))
  }

  /** The bytes of a message: every number swapped, then the struct as it is in memory. */
  function Encode(m: Message): seq<Byte> {
    StoreFields(SwapFields(Fields(m)))
  }

  lemma EncodedSize(m: Message)
    ensures |Encode(m)| == SizeOf(KindOfMessage(m))
  {
    FieldsFit(m);
    StoredSize(SwapFields(Fields(m)));
    assert LayoutOf(SwapFields(Fields(m))) == LayoutOf(Fields(m));
    SizesAddUp(KindOfMessage(m));
  }

  /** Decoding undoes encoding, whatever bytes follow. */
  lemma MessageRoundTrip(m: Message, rest: seq<Byte>)
    ensures Size(Layout(KindOfMessage(m))) <= |Encode(m) + rest|
    ensures Decode(KindOfMessage(m), Encode(m) + rest) == m
  {
    FieldsFit(m);
    FieldsRoundTrip(Fields(m), rest);
    FromFieldsOfFields(m);
  }

  // ---------------------------------------------------------------- the decoders, field by field

  function SwapHeader(h: Header): Header {
    Header(Swap16(h.length), Swap16(h.stockLocate), Swap16(h.trackingNumber), Swap64(h.timestamp))
  }

  /** The fields each decoder overwrites with their swapped values. */
  function SwapMessage(m: Message): Message {
    match m
    case SystemEvent(h, code) => SystemEvent(SwapHeader(h), code)
    case StockDirectory(h, stock, category, status, lot, lotsOnly, issue, subType, auth, short, ipo, luld, etp,
                        leverage, inverse) =>
      StockDirectory(SwapHeader(h), stock, category, status, Swap32(lot), lotsOnly, issue, subType, auth, short, ipo,
                     luld, etp, Swap32(leverage), inverse)
    case AddOrder(h, reference, side, shares, stock, price) =>
      AddOrder(SwapHeader(h), Swap64(reference), side, Swap32(shares), stock, Swap32(price))
    case AddOrderMPID(h, reference, side, shares, stock, price, attribution) =>
      AddOrderMPID(SwapHeader(h), Swap64(reference), side, Swap32(shares), stock, Swap32(price), attribution)
    case OrderExecuted(h, reference, shares, number) =>
      OrderExecuted(SwapHeader(h), Swap64(reference), Swap32(shares), Swap64(number))
    case OrderExecutedWithPrice(h, reference, shares, number, printable, price) =>
      OrderExecutedWithPrice(SwapHeader(h), Swap64(reference), Swap32(shares), Swap64(number), printable, Swap32(price))
    case OrderCancel(h, reference, shares) => OrderCancel(SwapHeader(h), Swap64(reference), Swap32(shares))
    case OrderDelete(h, reference) => OrderDelete(SwapHeader(h), Swap64(reference))
    case OrderReplace(h, original, replacement, shares, price) =>
      OrderReplace(SwapHeader(h), Swap64(original), Swap64(replacement), Swap32(shares), Swap32(price))
    case Trade(h, reference, side, shares, stock, price, number) =>
      Trade(SwapHeader(h), Swap64(reference), side, Swap32(shares), stock, Swap32(price), Swap64(number))
  }

  lemma SwapKeepsFit(t: seq<Value>, layout: seq<Field>)
    requires Fit(t, layout)
    ensures Fit(SwapFields(t), layout)
  {
    forall i | 0 <= i < |t| ensures FieldOf(SwapFields(t)[i]) == layout[i] {
      assert FieldOf(t[i]) == layout[i] && SwapFields(t)[i] == SwapValue(t[i]);
    }
  }

  /** A field of swapped values. */
  lemma SwappedField(t: seq<Value>, layout: seq<Field>, i: nat)
    requires Fit(t, layout) && i < |t|
    ensures i < |layout| && FieldOf(t[i]) == layout[i] && SwapFields(t)[i] == SwapValue(t[i])
  {
  }

  lemma SwapSystem(h: Header, t: seq<Value>)
    requires Fit(t, Tail(S)) && Fit(SwapFields(t), Tail(S))
    ensures FromTail(S, SwapHeader(h), SwapFields(t)) == SwapMessage(FromTail(S, h, t))
  {
    hide Swap16, Swap32, Swap64, SwapHeader, SwapFields, Fit;
    SameLength(t, Tail(S));
    SwappedField(t, Tail(S), 0);
  }

  lemma AddedTail()
    ensures var t := Tail(A); |t| == 5 && t[0] == F64 && t[1] == F8 && t[2] == F32 && t[3] == FChars(8) && t[4] == F32
  {
  }

  lemma SwapAdded(h: Header, t: seq<Value>)
    requires Fit(t, Tail(A)) && Fit(SwapFields(t), Tail(A))
    ensures FromTail(A, SwapHeader(h), SwapFields(t)) == SwapMessage(FromTail(A, h, t))
  {
    hide Swap16, Swap32, Swap64, SwapHeader, SwapFields, Fit, Tail;
    AddedTail();
    SameLength(t, Tail(A));
    SwappedField(t, Tail(A), 0);
    SwappedField(t, Tail(A), 1);
    SwappedField(t, Tail(A), 2);
    SwappedField(t, Tail(A), 3);
    SwappedField(t, Tail(A), 4);
  }

  lemma AddedMPIDTail()
    ensures var t := Tail(F);
      |t| == 6 && t[0] == F64 && t[1] == F8 && t[2] == F32 && t[3] == FChars(8) && t[4] == F32 && t[5] == FChars(4)
  {
  }

  lemma SwapAddedMPID(h: Header, t: seq<Value>)
    requires Fit(t, Tail(F)) && Fit(SwapFields(t), Tail(F))
    ensures FromTail(F, SwapHeader(h), SwapFields(t)) == SwapMessage(FromTail(F, h, t))
  {
    hide Swap16, Swap32, Swap64, SwapHeader, SwapFields, Fit, Tail;
    AddedMPIDTail();
    SameLength(t, Tail(F));
    SwappedField(t, Tail(F), 0);
    SwappedField(t, Tail(F), 1);
    SwappedField(t, Tail(F), 2);
    SwappedField(t, Tail(F), 3);
    SwappedField(t, Tail(F), 4);
    SwappedField(t, Tail(F), 5);
  }

  lemma TradedTail()
    ensures var t := Tail(P);
      |t| == 6 && t[0] == F64 && t[1] == F8 && t[2] == F32 && t[3] == FChars(8) && t[4] == F32 && t[5] == F64
  {
  }

  lemma SwapTraded(h: Header, t: seq<Value>)
    requires Fit(t, Tail(P)) && Fit(SwapFields(t), Tail(P))
    ensures FromTail(P, SwapHeader(h), SwapFields(t)) == SwapMessage(FromTail(P, h, t))
  {
    hide Swap16, Swap32, Swap64, SwapHeader, SwapFields, Fit, Tail;
    TradedTail();
    SameLength(t, Tail(P));
    SwappedField(t, Tail(P), 0);
    SwappedField(t, Tail(P), 1);
    SwappedField(t, Tail(P), 2);
    SwappedField(t, Tail(P), 3);
    SwappedField(t, Tail(P), 4);
    SwappedField(t, Tail(P), 5);
  }

  lemma SwapExecuted(h: Header, t: seq<Value>)
    requires Fit(t, Tail(E)) && Fit(SwapFields(t), Tail(E))
    ensures FromTail(E, SwapHeader(h), SwapFields(t)) == SwapMessage(FromTail(E, h, t))
  {
    hide Swap16, Swap32, Swap64, SwapHeader, SwapFields, Fit;
    SameLength(t, Tail(E));
    SwappedField(t, Tail(E), 0);
    SwappedField(t, Tail(E), 1);
    SwappedField(t, Tail(E), 2);
  }

  lemma SwapExecutedWithPrice(h: Header, t: seq<Value>)
    requires Fit(t, Tail(C)) && Fit(SwapFields(t), Tail(C))
    ensures FromTail(C, SwapHeader(h), SwapFields(t)) == SwapMessage(FromTail(C, h, t))
  {
    hide Swap16, Swap32, Swap64, SwapHeader, SwapFields, Fit;
    SameLength(t, Tail(C));
    SwappedField(t, Tail(C), 0);
    SwappedField(t, Tail(C), 1);
    SwappedField(t, Tail(C), 2);
    SwappedField(t, Tail(C), 3);
    SwappedField(t, Tail(C), 4);
  }

  lemma SwapCancelled(h: Header, t: seq<Value>)
    requires Fit(t, Tail(X)) && Fit(SwapFields(t), Tail(X))
    ensures FromTail(X, SwapHeader(h), SwapFields(t)) == SwapMessage(FromTail(X, h, t))
  {
    hide Swap16, Swap32, Swap64, SwapHeader, SwapFields, Fit;
    SameLength(t, Tail(X));
    SwappedField(t, Tail(X), 0);
    SwappedField(t, Tail(X), 1);
  }

  lemma SwapDeleted(h: Header, t: seq<Value>)
    requires Fit(t, Tail(D)) && Fit(SwapFields(t), Tail(D))
    ensures FromTail(D, SwapHeader(h), SwapFields(t)) == SwapMessage(FromTail(D, h, t))
  {
    hide Swap16, Swap32, Swap64, SwapHeader, SwapFields, Fit;
    SameLength(t, Tail(D));
    SwappedField(t, Tail(D), 0);
  }

  lemma SwapReplaced(h: Header, t: seq<Value>)
    requires Fit(t, Tail(U)) && Fit(SwapFields(t), Tail(U))
    ensures FromTail(U, SwapHeader(h), SwapFields(t)) == SwapMessage(FromTail(U, h, t))
  {
    hide Swap16, Swap32, Swap64, SwapHeader, SwapFields, Fit;
    SameLength(t, Tail(U));
    SwappedField(t, Tail(U), 0);
    SwappedField(t, Tail(U), 1);
    SwappedField(t, Tail(U), 2);
    SwappedField(t, Tail(U), 3);
  }

  lemma SameLength(t: seq<Value>, layout: seq<Field>)
    requires Fit(t, layout)
    ensures |t| == |layout|
  {
  }

  lemma SwapTailIsGeneric(k: Kind, h: Header, t: seq<Value>)
    requires Fit(t, Tail(k)) && Fit(SwapFields(t), Tail(k))
    ensures FromTail(k, SwapHeader(h), SwapFields(t)) == SwapMessage(FromTail(k, h, t))
  {
    hide SwapHeader, SwapMessage, Fit, Tail;
    match k
    case S => SwapSystem(h, t);
    case R => SwapDirectoryIsGeneric(h, t);
    case A => SwapAdded(h, t);
    case F => SwapAddedMPID(h, t);
    case P => SwapTraded(h, t);
    case E => SwapExecuted(h, t);
    case C => SwapExecutedWithPrice(h, t);
    case X => SwapCancelled(h, t);
    case D => SwapDeleted(h, t);
    case U => SwapReplaced(h, t);
  }

  lemma SwapDirectoryIsGeneric(h: Header, t: seq<Value>)
    requires Fit(t, Tail(R)) && Fit(SwapFields(t), Tail(R))
    ensures DirectoryFrom(SwapHeader(h), SwapFields(t)) == SwapMessage(DirectoryFrom(h, t))
  {
    hide Swap16, Swap32, Swap64;
  }

  lemma SwapHeaderIsGeneric(values: seq<Value>)
    requires |values| >= 5 && Fit(values[..5], HEADER) && Fit(SwapFields(values)[..5], HEADER)
    ensures HeaderFrom(SwapFields(values)) == SwapHeader(HeaderFrom(values))
  {
    assert forall i :: 0 <= i < 5 ==> FieldOf(values[..5][i]) == HEADER[i];
  }

  lemma SwapFieldsIsGeneric(k: Kind, values: seq<Value>)
    requires Fit(values, Layout(k))
    ensures Fit(SwapFields(values), Layout(k))
    ensures FromFields(k, SwapFields(values)) == SwapMessage(FromFields(k, values))
  {
    SwapKeepsFit(values, Layout(k));
    FitParts(k, values);
    FitParts(k, SwapFields(values));
    SwapHeaderIsGeneric(values);
    assert SwapFields(values)[5..] == SwapFields(values[5..]);
    SwapTailIsGeneric(k, HeaderFrom(values), values[5..]);
  }

  /** Copying the struct and swapping the listed fields is decoding: no number is forgotten. */
  lemma CopyThenSwapIsDecode(k: Kind, bytes: seq<Byte>)
    requires Size(Layout(k)) <= |bytes|
    ensures SwapMessage(Copy(k, bytes)) == Decode(k, bytes)
  {
    SwapFieldsIsGeneric(k, LoadFields(Layout(k), bytes));
  }
}
