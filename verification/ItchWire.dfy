/**
 Bytes on the wire and fields in memory on a little-endian host: copying a field into a packed
 struct, the byte swaps, and the sequence of fields a struct is.
 */
module ItchWire {
  type Byte = bv8

  // ---------------------------------------------------------------- byte swaps

  function Swap16(v: bv16): bv16 {
    (v << 8) | (v >> 8)
  }

  function Swap32(v: bv32): bv32 {
    ((v & 0xFF000000) >> 24) |
    ((v & 0x00FF0000) >> 8) |
    ((v & 0x0000FF00) << 8) |
    ((v & 0x000000FF) << 24)
  }

  function Swap64(v: bv64): bv64 {
    ((v & 0xFF00000000000000) >> 56) |
    ((v & 0x00FF000000000000) >> 40) |
    ((v & 0x0000FF0000000000) >> 24) |
    ((v & 0x000000FF00000000) >> 8) |
    ((v & 0x00000000FF000000) << 8) |
    ((v & 0x0000000000FF0000) << 24) |
    ((v & 0x000000000000FF00) << 40) |
    ((v & 0x00000000000000FF) << 56)
  }

  // ---------------------------------------------------------------- memory of a little-endian host

  function Load16(b: seq<Byte>): bv16
    requires |b| == 2
  {
    (b[0] as bv16) | ((b[1] as bv16) << 8)
  }

  function Load32(b: seq<Byte>): bv32
    requires |b| == 4
  {
    (b[0] as bv32) | ((b[1] as bv32) << 8) | ((b[2] as bv32) << 16) | ((b[3] as bv32) << 24)
  }

  function Load64(b: seq<Byte>): bv64
    requires |b| == 8
  {
    (b[0] as bv64) | ((b[1] as bv64) << 8) | ((b[2] as bv64) << 16) | ((b[3] as bv64) << 24) |
    ((b[4] as bv64) << 32) | ((b[5] as bv64) << 40) | ((b[6] as bv64) << 48) | ((b[7] as bv64) << 56)
  }

  function Store16(v: bv16): seq<Byte> {
    [(v & 0xFF) as Byte, ((v >> 8) & 0xFF) as Byte]
  }

  function Store32(v: bv32): seq<Byte> {
    [(v & 0xFF) as Byte, ((v >> 8) & 0xFF) as Byte, ((v >> 16) & 0xFF) as Byte, ((v >> 24) & 0xFF) as Byte]
  }

  function Store64(v: bv64): seq<Byte> {
    [(v & 0xFF) as Byte, ((v >> 8) & 0xFF) as Byte, ((v >> 16) & 0xFF) as Byte, ((v >> 24) & 0xFF) as Byte,
     ((v >> 32) & 0xFF) as Byte, ((v >> 40) & 0xFF) as Byte, ((v >> 48) & 0xFF) as Byte, ((v >> 56) & 0xFF) as Byte]
  }

  // Loading and swapping reads the most significant byte first, and undoes swapping and storing.

  lemma BigEndian16(b: seq<Byte>)
    requires |b| == 2
    ensures Swap16(Load16(b)) == ((b[0] as bv16) << 8) | (b[1] as bv16)
  {
  }

  lemma BigEndian32(b: seq<Byte>)
    requires |b| == 4
    ensures Swap32(Load32(b)) ==
            ((b[0] as bv32) << 24) | ((b[1] as bv32) << 16) | ((b[2] as bv32) << 8) | (b[3] as bv32)
  {
  }

  lemma BigEndian64(b: seq<Byte>)
    requires |b| == 8
    ensures Swap64(Load64(b)) ==
            ((b[0] as bv64) << 56) | ((b[1] as bv64) << 48) | ((b[2] as bv64) << 40) | ((b[3] as bv64) << 32) |
            ((b[4] as bv64) << 24) | ((b[5] as bv64) << 16) | ((b[6] as bv64) << 8) | (b[7] as bv64)
  {
  }

  lemma RoundTrip16(v: bv16)
    ensures Swap16(Load16(Store16(Swap16(v)))) == v
  {
  }

  lemma RoundTrip32(v: bv32)
    ensures Swap32(Load32(Store32(Swap32(v)))) == v
  {
  }

  lemma StoreLoad64(v: bv64)
    ensures Load64(Store64(v)) == v
  {
  }

  lemma SwapTwice64(v: bv64)
    ensures Swap64(Swap64(v)) == v
  {
  }

  // ---------------------------------------------------------------- fields

  datatype Field = F8 | F16 | F32 | F64 | FChars(count: nat)

  datatype Value = U8(u8: Byte) | U16(u16: bv16) | U32(u32: bv32) | U64(u64: bv64) | Chars(chars: seq<Byte>)

  function Width(f: Field): nat {
    match f
    case F8 => 1
    case F16 => 2
    case F32 => 4
    case F64 => 8
    case FChars(n) => n
  }

  function FieldOf(v: Value): Field {
    match v
    case U8(_) => F8
    case U16(_) => F16
    case U32(_) => F32
    case U64(_) => F64
    case Chars(s) => FChars(|s|)
  }

  /** The field as `memcpy` leaves it in the struct. */
  function LoadField(f: Field, b: seq<Byte>): (v: Value)
    requires |b| == Width(f)
    ensures FieldOf(v) == f
  {
    match f
    case F8 => U8(b[0])
    case F16 => U16(Load16(b))
    case F32 => U32(Load32(b))
    case F64 => U64(Load64(b))
    case FChars(_) => Chars(b)
  }

  function StoreField(v: Value): (b: seq<Byte>)
    ensures |b| == Width(FieldOf(v))
  {
    match v
    case U8(x) => [x]
    case U16(x) => Store16(x)
    case U32(x) => Store32(x)
    case U64(x) => Store64(x)
    case Chars(s) => s
  }

  /** A number with its bytes swapped; characters stay. */
  function SwapValue(v: Value): (w: Value)
    ensures FieldOf(w) == FieldOf(v)
  {
    match v
    case U16(x) => U16(Swap16(x))
    case U32(x) => U32(Swap32(x))
    case U64(x) => U64(Swap64(x))
    case _ => v
  }

  /** A value written swapped reads back when swapped again. */
  lemma FieldRoundTrip(v: Value)
    ensures SwapValue(LoadField(FieldOf(v), StoreField(SwapValue(v)))) == v
  {
    match v
    case U8(_) =>
    case U16(x) => RoundTrip16(x);
    case U32(x) => RoundTrip32(x);
    case U64(x) =>
      StoreLoad64(Swap64(x));
      SwapTwice64(x);
    case Chars(_) =>
  }

  // ---------------------------------------------------------------- structs

  /** The offset of field `i` in a packed struct; of the end, for `i == |layout|`. */
  function Offset(layout: seq<Field>, i: nat): nat
    requires i <= |layout|
  {
    if i == 0 then 0 else Offset(layout, i - 1) + Width(layout[i - 1])
  }

  function Size(layout: seq<Field>): nat {
    Offset(layout, |layout|)
  }

  lemma {:induction false} OffsetMonotone(layout: seq<Field>, i: nat, j: nat)
    requires i <= j <= |layout|
    ensures Offset(layout, i) <= Offset(layout, j)
  {
    if i < j { OffsetMonotone(layout, i, j - 1); }
  }

  function LayoutOf(values: seq<Value>): (layout: seq<Field>)
    ensures |layout| == |values|
  {
    seq(|values|, (i: nat) requires i < |values| => FieldOf(values[i]))
  }

  /** The bytes of field `i`. */
  function Slice(layout: seq<Field>, b: seq<Byte>, i: nat): (s: seq<Byte>)
    requires i < |layout| && Size(layout) <= |b|
    ensures |s| == Width(layout[i])
  {
    OffsetMonotone(layout, i + 1, |layout|);
    b[Offset(layout, i)..Offset(layout, i) + Width(layout[i])]
  }

  /** `memcpy` of the first `n` fields of a struct. */
  function LoadUpTo(layout: seq<Field>, b: seq<Byte>, n: nat): (values: seq<Value>)
    requires n <= |layout| && Size(layout) <= |b|
    ensures |values| == n
    ensures forall i :: 0 <= i < n ==> FieldOf(values[i]) == layout[i]
  {
    if n == 0 then [] else LoadUpTo(layout, b, n - 1) + [LoadField(layout[n - 1], Slice(layout, b, n - 1))]
  }

  /** `memcpy` of a whole struct. */
  function LoadFields(layout: seq<Field>, b: seq<Byte>): (values: seq<Value>)
    requires Size(layout) <= |b|
    ensures |values| == |layout|
    ensures forall i :: 0 <= i < |layout| ==> FieldOf(values[i]) == layout[i]
  {
    LoadUpTo(layout, b, |layout|)
  }

  lemma {:induction false} LoadedAt(layout: seq<Field>, b: seq<Byte>, n: nat, i: nat)
    requires i < n <= |layout| && Size(layout) <= |b|
    ensures LoadUpTo(layout, b, n)[i] == LoadField(layout[i], Slice(layout, b, i))
  {
    if i < n - 1 { LoadedAt(layout, b, n - 1, i); }
  }

  function SwapFields(values: seq<Value>): (swapped: seq<Value>)
    ensures |swapped| == |values|
    ensures forall i :: 0 <= i < |values| ==> swapped[i] == SwapValue(values[i])
  {
    seq(|values|, (i: nat) requires i < |values| => SwapValue(values[i]))
  }

  function StoreFields(values: seq<Value>): seq<Byte> {
    if values == [] then [] else StoreFields(values[..|values| - 1]) + StoreField(values[|values| - 1])
  }

  lemma {:induction false} OffsetOfPrefix(values: seq<Value>, n: nat, i: nat)
    requires i <= n <= |values|
    ensures Offset(LayoutOf(values[..n]), i) == Offset(LayoutOf(values), i)
  {
    if i > 0 { OffsetOfPrefix(values, n, i - 1); }
  }

  lemma {:induction false} StoredSize(values: seq<Value>)
    ensures |StoreFields(values)| == Size(LayoutOf(values))
  {
    if values != [] {
      var n := |values| - 1;
      StoredSize(values[..n]);
      OffsetOfPrefix(values, n, n);
      assert LayoutOf(values)[n] == FieldOf(values[n]);
    }
  }

  /** A stored struct is what comes before field `i`, the field, and what comes after. */
  lemma {:induction false} StoredSplit(values: seq<Value>, i: nat) returns (after: seq<Byte>)
    requires i < |values|
    ensures StoreFields(values) == StoreFields(values[..i]) + (StoreField(values[i]) + after)
  {
    var n := |values| - 1;
    if i == n {
      after := [];
      assert StoreField(values[i]) + [] == StoreField(values[i]);
    } else {
      var most := values[..n];
      var rest := StoredSplit(most, i);
      assert most[..i] == values[..i];
      after := rest + StoreField(values[n]);
      Regroup(StoreFields(values[..i]), StoreField(values[i]), rest, StoreField(values[n]));
    }
  }

  lemma Regroup(p: seq<Byte>, q: seq<Byte>, r: seq<Byte>, t: seq<Byte>)
    ensures (p + (q + r)) + t == p + (q + (r + t))
  {
  }

  /** Each field of a stored struct sits at its own offset. */
  lemma StoredSlice(values: seq<Value>, rest: seq<Byte>, i: nat)
    requires i < |values|
    ensures Size(LayoutOf(values)) <= |StoreFields(values) + rest|
    ensures Slice(LayoutOf(values), StoreFields(values) + rest, i) == StoreField(values[i])
  {
    StoredSize(values);
    StoredSize(values[..i]);
    OffsetOfPrefix(values, i, i);
    var after := StoredSplit(values, i);
    Regroup(StoreFields(values[..i]), StoreField(values[i]), after, rest);
    SliceMiddle(StoreFields(values[..i]), StoreField(values[i]), after + rest);
  }

  lemma SliceMiddle(before: seq<Byte>, middle: seq<Byte>, after: seq<Byte>)
    ensures (before + (middle + after))[|before|..|before| + |middle|] == middle
  {
  }

  /** Fields swapped and stored come back when loaded and swapped, whatever follows them. */
  lemma FieldsRoundTrip(values: seq<Value>, rest: seq<Byte>)
    ensures var bytes := StoreFields(SwapFields(values)) + rest;
      && Size(LayoutOf(values)) <= |bytes|
      && SwapFields(LoadFields(LayoutOf(values), bytes)) == values
  {
    var swapped := SwapFields(values);
    assert LayoutOf(swapped) == LayoutOf(values);
    StoredSize(swapped);
    var bytes := StoreFields(swapped) + rest;
    var back := SwapFields(LoadFields(LayoutOf(values), bytes));
    forall i | 0 <= i < |values| ensures back[i] == values[i] {
      LoadedAt(LayoutOf(values), bytes, |values|, i);
      StoredSlice(swapped, rest, i);
      FieldRoundTrip(values[i]);
    }
  }
}
