/** Where each field of a message sits in the bytes, and that numbers are read most significant byte first. */
module ItchOffsets {
  import opened Words
  import opened ItchWire
  import opened ItchMessages

  function Big16(b: seq<Byte>): bv16
    requires |b| == 2
  {
    ((b[0] as bv16) << 8) | (b[1] as bv16)
  }

  function Big32(b: seq<Byte>): bv32
    requires |b| == 4
  {
    ((b[0] as bv32) << 24) | ((b[1] as bv32) << 16) | ((b[2] as bv32) << 8) | (b[3] as bv32)
  }

  function Big64(b: seq<Byte>): bv64
    requires |b| == 8
  {
    ((b[0] as bv64) << 56) | ((b[1] as bv64) << 48) | ((b[2] as bv64) << 40) | ((b[3] as bv64) << 32) |
    ((b[4] as bv64) << 24) | ((b[5] as bv64) << 16) | ((b[6] as bv64) << 8) | (b[7] as bv64)
  }

  /** The field of type `f` at an offset, read from the wire. */
  function ReadAt(b: seq<Byte>, off: nat, f: Field): (v: Value)
    requires off + Width(f) <= |b|
    ensures FieldOf(v) == f
  {
    match f
    case F8 => U8(b[off])
    case F16 => U16(Big16(b[off..off + 2]))
    case F32 => U32(Big32(b[off..off + 4]))
    case F64 => U64(Big64(b[off..off + 8]))
    case FChars(n) => Chars(b[off..off + n])
  }

  lemma ReadIsSwapped(b: seq<Byte>, off: nat, f: Field)
    requires off + Width(f) <= |b|
    ensures ReadAt(b, off, f) == SwapValue(LoadField(f, b[off..off + Width(f)]))
  {
    hide Big16, Big32, Big64, Swap16, Swap32, Swap64, Load16, Load32, Load64;
    var s := b[off..off + Width(f)];
    match f
    case F8 =>
    case F16 => Is16(s);
    case F32 => Is32(s);
    case F64 => Is64(s);
    case FChars(_) =>
  }

  lemma Is16(b: seq<Byte>)
    requires |b| == 2
    ensures Big16(b) == Swap16(Load16(b))
  {
    BigEndian16(b);
  }

  lemma Is32(b: seq<Byte>)
    requires |b| == 4
    ensures Big32(b) == Swap32(Load32(b))
  {
    BigEndian32(b);
  }

  lemma Is64(b: seq<Byte>)
    requires |b| == 8
    ensures Big64(b) == Swap64(Load64(b))
  {
    BigEndian64(b);
  }

  /** Field `i` of a struct, decoded, is what stands at its offset. */
  lemma FieldRead(layout: seq<Field>, b: seq<Byte>, i: nat, off: nat)
    requires i < |layout| && Size(layout) <= |b| && Offset(layout, i) == off
    ensures off + Width(layout[i]) == Offset(layout, i + 1) <= |b|
    ensures SwapFields(LoadFields(layout, b))[i] == ReadAt(b, off, layout[i])
  {
    hide SwapValue, LoadField, ReadAt;
    OffsetMonotone(layout, i + 1, |layout|);
    LoadedAt(layout, b, |layout|, i);
    ReadIsSwapped(b, off, layout[i]);
  }

  /** The header of every message: length at 0, type at 2, locate at 3, tracking number at 5, timestamp at 7. */
  function HeaderAt(b: seq<Byte>): Header
    requires |b| >= 15
  {
    Header(Big16(b[0..2]), Big16(b[3..5]), Big16(b[5..7]), Big64(b[7..15]))
  }

  /** The message of kind `k` with every field read at its place in the bytes. */
  function MessageAt(k: Kind, b: seq<Byte>): Message
    requires |b| >= SizeOf(k)
  {
    var h := HeaderAt(b);
    match k
    case S => SystemEvent(h, b[15])
    case A => AddOrder(h, Big64(b[15..23]), b[23], Big32(b[24..28]), b[28..36], Big32(b[36..40]))
    case F => AddOrderMPID(h, Big64(b[15..23]), b[23], Big32(b[24..28]), b[28..36], Big32(b[36..40]), b[40..44])
    case E => OrderExecuted(h, Big64(b[15..23]), Big32(b[23..27]), Big64(b[27..35]))
    case C => OrderExecutedWithPrice(h, Big64(b[15..23]), Big32(b[23..27]), Big64(b[27..35]), b[35], Big32(b[36..40]))
    case X => OrderCancel(h, Big64(b[15..23]), Big32(b[23..27]))
    case D => OrderDelete(h, Big64(b[15..23]))
    case U => OrderReplace(h, Big64(b[15..23]), Big64(b[23..31]), Big32(b[31..35]), Big32(b[35..39]))
    case P => Trade(h, Big64(b[15..23]), b[23], Big32(b[24..28]), b[28..36], Big32(b[36..40]), Big64(b[40..48]))
    case R => StockDirectory(h, b[15..23], b[23], b[24], Big32(b[25..29]), b[29], b[30], b[31..33], b[33],
                             b[34], b[35], b[36], b[37], Big32(b[38..42]), b[42])
  }

  lemma HeaderOffsets(k: Kind, b: seq<Byte>)
    requires |b| >= SizeOf(k)
    ensures Size(Layout(k)) <= |b| && Offset(Layout(k), 5) == 15
    ensures Decode(k, b).h == HeaderAt(b)
  {
    hide Big16, Big64, Tail, FromTail, SwapFields, LoadFields, SwapValue;
    SizesAddUp(k);
    var layout := Layout(k);
    var values := SwapFields(LoadFields(layout, b));
    assert layout[0] == F16 && layout[1] == F8 && layout[2] == F16 && layout[3] == F16 && layout[4] == F64;
    FieldRead(layout, b, 0, 0);
    FieldRead(layout, b, 1, 2);
    FieldRead(layout, b, 2, 3);
    FieldRead(layout, b, 3, 5);
    FieldRead(layout, b, 4, 7);
    TailOf(k, b);
  }

  /** A decoded message is its header and its tail. */
  lemma TailOf(k: Kind, b: seq<Byte>)
    requires Size(Layout(k)) <= |b|
    ensures var values := SwapFields(LoadFields(Layout(k), b));
      && Fit(values, Layout(k)) && |values| >= 5 && Fit(values[5..], Tail(k))
      && Fit(values[..5], HEADER) && |values[5..]| == |Tail(k)|
      && Decode(k, b) == FromTail(k, HeaderFrom(values), values[5..])
      && Decode(k, b).h == HeaderFrom(values)
  {
    hide SwapFields, LoadFields, HeaderFrom, Fit;
    var values := SwapFields(LoadFields(Layout(k), b));
    DecodedFit(k, b);
    FitParts(k, values);
    FitLength(values[5..], Tail(k));
  }

  lemma FitLength(values: seq<Value>, layout: seq<Field>)
    requires Fit(values, layout)
    ensures |values| == |layout|
  {
  }

  lemma DecodedFit(k: Kind, b: seq<Byte>)
    requires Size(Layout(k)) <= |b|
    ensures Fit(SwapFields(LoadFields(Layout(k), b)), Layout(k))
  {
    hide LoadFields, Layout;
    SwapKeepsFit(LoadFields(Layout(k), b), Layout(k));
  }

  lemma TailField(k: Kind, j: nat)
    requires j < |Tail(k)|
    ensures |Layout(k)| == 5 + |Tail(k)| && Layout(k)[5 + j] == Tail(k)[j]
  {
    hide Tail;
  }

  /** Field `j` of the tail. */
  lemma TailRead(k: Kind, b: seq<Byte>, j: nat, off: nat)
    requires j < |Tail(k)| && Size(Layout(k)) <= |b| && Offset(Layout(k), 5 + j) == off
    ensures off + Width(Tail(k)[j]) == Offset(Layout(k), 6 + j) <= |b|
    ensures SwapFields(LoadFields(Layout(k), b))[5..][j] == ReadAt(b, off, Tail(k)[j])
  {
    hide *;
    TailField(k, j);
    FieldRead(Layout(k), b, 5 + j, off);
  }

  lemma SystemEventOffsets(b: seq<Byte>)
    requires |b| >= SizeOf(S) && Size(Layout(S)) <= |b|
    ensures Decode(S, b) == MessageAt(S, b)
  {
    hide Big16, Big32, Big64, Decode, SwapFields, LoadFields, HeaderFrom, HeaderAt, Fit, Layout, Offset, Size;
    HeaderOffsets(S, b);
    TailOf(S, b);
    TailRead(S, b, 0, 15);
  }

  lemma AddOrderOffsets(b: seq<Byte>)
    requires |b| >= SizeOf(A) && Size(Layout(A)) <= |b|
    ensures Decode(A, b) == MessageAt(A, b)
  {
    hide Big16, Big32, Big64, Decode, SwapFields, LoadFields, HeaderFrom, HeaderAt, Fit, Layout, Offset, Size;
    HeaderOffsets(A, b);
    TailOf(A, b);
    TailRead(A, b, 0, 15);
    TailRead(A, b, 1, 23);
    TailRead(A, b, 2, 24);
    TailRead(A, b, 3, 28);
    TailRead(A, b, 4, 36);
  }

  lemma AddOrderMPIDOffsets(b: seq<Byte>)
    requires |b| >= SizeOf(F) && Size(Layout(F)) <= |b|
    ensures Decode(F, b) == MessageAt(F, b)
  {
    hide Big16, Big32, Big64, Decode, SwapFields, LoadFields, HeaderFrom, HeaderAt, Fit, Layout, Offset, Size;
    HeaderOffsets(F, b);
    TailOf(F, b);
    TailRead(F, b, 0, 15);
    TailRead(F, b, 1, 23);
    TailRead(F, b, 2, 24);
    TailRead(F, b, 3, 28);
    TailRead(F, b, 4, 36);
    TailRead(F, b, 5, 40);
  }

  lemma OrderExecutedOffsets(b: seq<Byte>)
    requires |b| >= SizeOf(E) && Size(Layout(E)) <= |b|
    ensures Decode(E, b) == MessageAt(E, b)
  {
    hide Big16, Big32, Big64, Decode, SwapFields, LoadFields, HeaderFrom, HeaderAt, Fit, Layout, Offset, Size;
    HeaderOffsets(E, b);
    TailOf(E, b);
    TailRead(E, b, 0, 15);
    TailRead(E, b, 1, 23);
    TailRead(E, b, 2, 27);
  }

  lemma OrderExecutedWithPriceOffsets(b: seq<Byte>)
    requires |b| >= SizeOf(C) && Size(Layout(C)) <= |b|
    ensures Decode(C, b) == MessageAt(C, b)
  {
    hide Big16, Big32, Big64, Decode, SwapFields, LoadFields, HeaderFrom, HeaderAt, Fit, Layout, Offset, Size;
    HeaderOffsets(C, b);
    TailOf(C, b);
    TailRead(C, b, 0, 15);
    TailRead(C, b, 1, 23);
    TailRead(C, b, 2, 27);
    TailRead(C, b, 3, 35);
    TailRead(C, b, 4, 36);
  }

  lemma OrderCancelOffsets(b: seq<Byte>)
    requires |b| >= SizeOf(X) && Size(Layout(X)) <= |b|
    ensures Decode(X, b) == MessageAt(X, b)
  {
    hide Big16, Big32, Big64, Decode, SwapFields, LoadFields, HeaderFrom, HeaderAt, Fit, Layout, Offset, Size;
    HeaderOffsets(X, b);
    TailOf(X, b);
    TailRead(X, b, 0, 15);
    TailRead(X, b, 1, 23);
  }

  lemma OrderDeleteOffsets(b: seq<Byte>)
    requires |b| >= SizeOf(D) && Size(Layout(D)) <= |b|
    ensures Decode(D, b) == MessageAt(D, b)
  {
    hide Big16, Big32, Big64, Decode, SwapFields, LoadFields, HeaderFrom, HeaderAt, Fit, Layout, Offset, Size;
    HeaderOffsets(D, b);
    TailOf(D, b);
    TailRead(D, b, 0, 15);
  }

  lemma OrderReplaceOffsets(b: seq<Byte>)
    requires |b| >= SizeOf(U) && Size(Layout(U)) <= |b|
    ensures Decode(U, b) == MessageAt(U, b)
  {
    hide Big16, Big32, Big64, Decode, SwapFields, LoadFields, HeaderFrom, HeaderAt, Fit, Layout, Offset, Size;
    HeaderOffsets(U, b);
    TailOf(U, b);
    TailRead(U, b, 0, 15);
    TailRead(U, b, 1, 23);
    TailRead(U, b, 2, 31);
    TailRead(U, b, 3, 35);
  }

  lemma TradeOffsets(b: seq<Byte>)
    requires |b| >= SizeOf(P) && Size(Layout(P)) <= |b|
    ensures Decode(P, b) == MessageAt(P, b)
  {
    hide Big16, Big32, Big64, Decode, SwapFields, LoadFields, HeaderFrom, HeaderAt, Fit, Layout, Offset, Size;
    HeaderOffsets(P, b);
    TailOf(P, b);
    TailRead(P, b, 0, 15);
    TailRead(P, b, 1, 23);
    TailRead(P, b, 2, 24);
    TailRead(P, b, 3, 28);
    TailRead(P, b, 4, 36);
    TailRead(P, b, 5, 40);
  }

  lemma DirectoryTail()
    ensures var t := Tail(R);
      && |t| == 14 && t[0] == FChars(8) && t[1] == t[2] == F8 && t[3] == F32 && t[4] == t[5] == F8 && t[6] == FChars(2)
      && t[7] == t[8] == t[9] == t[10] == t[11] == F8 && t[12] == F32 && t[13] == F8
  {
  }

  lemma DirectoryFront(b: seq<Byte>)
    requires |b| >= SizeOf(R) && Size(Layout(R)) <= |b|
    ensures Offset(Layout(R), 12) == 33
    ensures var t := SwapFields(LoadFields(Layout(R), b))[5..];
      && |t| == 14 && t[0] == Chars(b[15..23]) && t[1] == U8(b[23]) && t[2] == U8(b[24]) && t[3] == U32(Big32(b[25..29]))
      && t[4] == U8(b[29]) && t[5] == U8(b[30]) && t[6] == Chars(b[31..33])
  {
    hide Big16, Big32, Big64, Decode, SwapFields, LoadFields, Fit, Layout, Offset, Size, Tail;
    hide HeaderAt, HeaderFrom, FromTail;
    HeaderOffsets(R, b);
    TailOf(R, b);
    DirectoryTail();
    TailRead(R, b, 0, 15);
    TailRead(R, b, 1, 23);
    TailRead(R, b, 2, 24);
    TailRead(R, b, 3, 25);
    TailRead(R, b, 4, 29);
    TailRead(R, b, 5, 30);
    TailRead(R, b, 6, 31);
  }

  lemma DirectoryBack(b: seq<Byte>)
    requires |b| >= SizeOf(R) && Size(Layout(R)) <= |b| && Offset(Layout(R), 12) == 33
    ensures var t := SwapFields(LoadFields(Layout(R), b))[5..];
      && |t| == 14 && t[7] == U8(b[33]) && t[8] == U8(b[34]) && t[9] == U8(b[35]) && t[10] == U8(b[36])
      && t[11] == U8(b[37]) && t[12] == U32(Big32(b[38..42])) && t[13] == U8(b[42])
  {
    hide Big16, Big32, Big64, Decode, SwapFields, LoadFields, Fit, Layout, Offset, Size, Tail;
    hide HeaderAt, HeaderFrom, FromTail;
    TailOf(R, b);
    DirectoryTail();
    TailRead(R, b, 7, 33);
    TailRead(R, b, 8, 34);
    TailRead(R, b, 9, 35);
    TailRead(R, b, 10, 36);
    TailRead(R, b, 11, 37);
    TailRead(R, b, 12, 38);
    TailRead(R, b, 13, 42);
  }

  lemma StockDirectoryOffsets(b: seq<Byte>)
    requires |b| >= SizeOf(R) && Size(Layout(R)) <= |b|
    ensures Decode(R, b) == MessageAt(R, b)
  {
    hide Big16, Big32, Big64, Decode, SwapFields, LoadFields, HeaderFrom, HeaderAt, Fit, Layout, Offset, Size;
    HeaderOffsets(R, b);
    TailOf(R, b);
    DirectoryFront(b);
    DirectoryBack(b);
  }

  /** Decoding reads each field at its place, numbers most significant byte first. */
  lemma DecodeReadsOffsets(k: Kind, b: seq<Byte>)
    requires |b| >= SizeOf(k)
    ensures Size(Layout(k)) <= |b| && Decode(k, b) == MessageAt(k, b)
  {
    hide Decode, MessageAt, Layout, Size;
    SizesAddUp(k);
    match k
    case S => SystemEventOffsets(b);
    case A => AddOrderOffsets(b);
    case F => AddOrderMPIDOffsets(b);
    case E => OrderExecutedOffsets(b);
    case C => OrderExecutedWithPriceOffsets(b);
    case X => OrderCancelOffsets(b);
    case D => OrderDeleteOffsets(b);
    case U => OrderReplaceOffsets(b);
    case P => TradeOffsets(b);
    case R => StockDirectoryOffsets(b);
  }

  // ---------------------------------------------------------------- frames by their type character

  /** The message in the first `n` bytes of `b`, if their third is a known type and they cover its struct. */
  function Reading(b: seq<Byte>, n: nat): Option<Message>
    requires 3 <= |b| && n <= |b|
  {
    if b[2] == 0x53 && n >= 16 then Some(MessageAt(S, b)) // 'S'
    else if b[2] == 0x52 && n >= 43 then Some(MessageAt(R, b)) // 'R'
    else if b[2] == 0x41 && n >= 40 then Some(MessageAt(A, b)) // 'A'
    else if b[2] == 0x46 && n >= 44 then Some(MessageAt(F, b)) // 'F'
    else if b[2] == 0x45 && n >= 35 then Some(MessageAt(E, b)) // 'E'
    else if b[2] == 0x43 && n >= 40 then Some(MessageAt(C, b)) // 'C'
    else if b[2] == 0x58 && n >= 27 then Some(MessageAt(X, b)) // 'X'
    else if b[2] == 0x44 && n >= 23 then Some(MessageAt(D, b)) // 'D'
    else if b[2] == 0x55 && n >= 39 then Some(MessageAt(U, b)) // 'U'
    else if b[2] == 0x50 && n >= 48 then Some(MessageAt(P, b)) // 'P'
    else None
  }

  /** No other character carries a message, and a short frame carries none. */
  lemma NoReadingIff(b: seq<Byte>, n: nat)
    requires 3 <= |b| && n <= |b|
    ensures Reading(b, n) == None <==>
      && (b[2] == 0x53 ==> n < 16)
      && (b[2] == 0x52 ==> n < 43)
      && (b[2] == 0x41 ==> n < 40)
      && (b[2] == 0x46 ==> n < 44)
      && (b[2] == 0x45 ==> n < 35)
      && (b[2] == 0x43 ==> n < 40)
      && (b[2] == 0x58 ==> n < 27)
      && (b[2] == 0x44 ==> n < 23)
      && (b[2] == 0x55 ==> n < 39)
      && (b[2] == 0x50 ==> n < 48)
  {
  }

  /** 'S' */
  lemma SystemEventReading(b: seq<Byte>, n: nat)
    requires 3 <= |b| && n <= |b|
    ensures Reading(b, n).Some? && Reading(b, n).value.SystemEvent? <==> b[2] == 0x53 && n >= 16
    ensures b[2] == 0x53 && n >= 16 ==>
      Reading(b, n) == Some(SystemEvent(HeaderAt(b), b[15]))
  {
  }

  /** 'R' */
  lemma StockDirectoryReading(b: seq<Byte>, n: nat)
    requires 3 <= |b| && n <= |b|
    ensures Reading(b, n).Some? && Reading(b, n).value.StockDirectory? <==> b[2] == 0x52 && n >= 43
    ensures b[2] == 0x52 && n >= 43 ==>
      Reading(b, n) ==
      Some(StockDirectory(HeaderAt(b),
        b[15..23], b[23], b[24], Big32(b[25..29]), b[29], b[30], b[31..33], b[33], b[34], b[35], b[36], b[37],
        Big32(b[38..42]), b[42]))
  {
  }

  /** 'A' */
  lemma AddOrderReading(b: seq<Byte>, n: nat)
    requires 3 <= |b| && n <= |b|
    ensures Reading(b, n).Some? && Reading(b, n).value.AddOrder? <==> b[2] == 0x41 && n >= 40
    ensures b[2] == 0x41 && n >= 40 ==>
      Reading(b, n) ==
      Some(AddOrder(HeaderAt(b),
        Big64(b[15..23]), b[23], Big32(b[24..28]), b[28..36], Big32(b[36..40])))
  {
  }

  /** 'F' */
  lemma AddOrderMPIDReading(b: seq<Byte>, n: nat)
    requires 3 <= |b| && n <= |b|
    ensures Reading(b, n).Some? && Reading(b, n).value.AddOrderMPID? <==> b[2] == 0x46 && n >= 44
    ensures b[2] == 0x46 && n >= 44 ==>
      Reading(b, n) ==
      Some(AddOrderMPID(HeaderAt(b),
        Big64(b[15..23]), b[23], Big32(b[24..28]), b[28..36], Big32(b[36..40]), b[40..44]))
  {
  }

  /** 'E' */
  lemma OrderExecutedReading(b: seq<Byte>, n: nat)
    requires 3 <= |b| && n <= |b|
    ensures Reading(b, n).Some? && Reading(b, n).value.OrderExecuted? <==> b[2] == 0x45 && n >= 35
    ensures b[2] == 0x45 && n >= 35 ==>
      Reading(b, n) == Some(OrderExecuted(HeaderAt(b), Big64(b[15..23]), Big32(b[23..27]), Big64(b[27..35])))
  {
  }

  /** 'C' */
  lemma OrderExecutedWithPriceReading(b: seq<Byte>, n: nat)
    requires 3 <= |b| && n <= |b|
    ensures Reading(b, n).Some? && Reading(b, n).value.OrderExecutedWithPrice? <==> b[2] == 0x43 && n >= 40
    ensures b[2] == 0x43 && n >= 40 ==>
      Reading(b, n) ==
      Some(OrderExecutedWithPrice(HeaderAt(b),
        Big64(b[15..23]), Big32(b[23..27]), Big64(b[27..35]), b[35], Big32(b[36..40])))
  {
  }

  /** 'X' */
  lemma OrderCancelReading(b: seq<Byte>, n: nat)
    requires 3 <= |b| && n <= |b|
    ensures Reading(b, n).Some? && Reading(b, n).value.OrderCancel? <==> b[2] == 0x58 && n >= 27
    ensures b[2] == 0x58 && n >= 27 ==>
      Reading(b, n) == Some(OrderCancel(HeaderAt(b), Big64(b[15..23]), Big32(b[23..27])))
  {
  }

  /** 'D' */
  lemma OrderDeleteReading(b: seq<Byte>, n: nat)
    requires 3 <= |b| && n <= |b|
    ensures Reading(b, n).Some? && Reading(b, n).value.OrderDelete? <==> b[2] == 0x44 && n >= 23
    ensures b[2] == 0x44 && n >= 23 ==>
      Reading(b, n) == Some(OrderDelete(HeaderAt(b), Big64(b[15..23])))
  {
  }

  /** 'U' */
  lemma OrderReplaceReading(b: seq<Byte>, n: nat)
    requires 3 <= |b| && n <= |b|
    ensures Reading(b, n).Some? && Reading(b, n).value.OrderReplace? <==> b[2] == 0x55 && n >= 39
    ensures b[2] == 0x55 && n >= 39 ==>
      Reading(b, n) ==
      Some(OrderReplace(HeaderAt(b),
        Big64(b[15..23]), Big64(b[23..31]), Big32(b[31..35]), Big32(b[35..39])))
  {
  }

  /** 'P' */
  lemma TradeReading(b: seq<Byte>, n: nat)
    requires 3 <= |b| && n <= |b|
    ensures Reading(b, n).Some? && Reading(b, n).value.Trade? <==> b[2] == 0x50 && n >= 48
    ensures b[2] == 0x50 && n >= 48 ==>
      Reading(b, n) ==
      Some(Trade(HeaderAt(b),
        Big64(b[15..23]), b[23], Big32(b[24..28]), b[28..36], Big32(b[36..40]), Big64(b[40..48])))
  {
  }

  /** Only the bytes of the struct matter. */
  lemma MessageAtPrefix(k: Kind, b: seq<Byte>, c: seq<Byte>)
    requires |c| >= |b| >= SizeOf(k) && b == c[..|b|]
    ensures MessageAt(k, b) == MessageAt(k, c)
  {
    hide Big16, Big32, Big64;
    forall i, j | 0 <= i <= j <= |b| ensures b[i..j] == c[i..j] {}
  }
}
