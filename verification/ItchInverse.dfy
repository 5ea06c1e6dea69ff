/** Encoding undoes decoding, so the buffers that are streams of frames are exactly the aligned ones. */
module ItchInverse {
  import opened Words
  import opened ItchWire
  import opened ItchMessages
  import opened ItchParser

  // ---------------------------------------------------------------- fields and structs

  lemma StoreLoad16(b: seq<Byte>)
    requires |b| == 2
    ensures Store16(Load16(b)) == b
  {
  }

  lemma StoreLoad32(b: seq<Byte>)
    requires |b| == 4
    ensures Store32(Load32(b)) == b
  {
  }

  lemma StoreLoad64Bytes(b: seq<Byte>)
    requires |b| == 8
    ensures Store64(Load64(b)) == b
  {
  }

  lemma StoreOfLoad(f: Field, b: seq<Byte>)
    requires |b| == Width(f)
    ensures StoreField(LoadField(f, b)) == b
  {
    hide Store16, Store32, Store64, Load16, Load32, Load64;
    match f
    case F8 =>
    case F16 => StoreLoad16(b);
    case F32 => StoreLoad32(b);
    case F64 => StoreLoad64Bytes(b);
    case FChars(_) =>
  }

  lemma SwapTwice(v: Value)
    ensures SwapValue(SwapValue(v)) == v
  {
    match v
    case U64(x) => SwapTwice64(x);
    case _ =>
  }

  lemma SwapFieldsTwice(values: seq<Value>)
    ensures SwapFields(SwapFields(values)) == values
  {
    hide SwapValue;
    forall i | 0 <= i < |values| ensures SwapFields(SwapFields(values))[i] == values[i] {
      SwapTwice(values[i]);
    }
  }

  lemma {:induction false} StoreOfLoadUpTo(layout: seq<Field>, b: seq<Byte>, n: nat)
    requires n <= |layout| && Size(layout) <= |b|
    ensures Offset(layout, n) <= |b|
    ensures StoreFields(LoadUpTo(layout, b, n)) == b[..Offset(layout, n)]
  {
    hide LoadField, StoreField, StoreFields, Slice, FieldOf, Width;
    OffsetMonotone(layout, n, |layout|);
    if n > 0 {
      StoreOfLoadUpTo(layout, b, n - 1);
      StoreOfLoad(layout[n - 1], Slice(layout, b, n - 1));
      StoreSnoc(LoadUpTo(layout, b, n - 1), LoadField(layout[n - 1], Slice(layout, b, n - 1)));
      SliceIs(layout, b, n - 1);
      Join(b, Offset(layout, n - 1), Width(layout[n - 1]));
    } else {
      StoreNone();
    }
  }

  lemma SliceIs(layout: seq<Field>, b: seq<Byte>, i: nat)
    requires i < |layout| && Size(layout) <= |b|
    ensures Offset(layout, i) + Width(layout[i]) <= |b|
    ensures Slice(layout, b, i) == b[Offset(layout, i)..Offset(layout, i) + Width(layout[i])]
  {
    OffsetMonotone(layout, i + 1, |layout|);
  }

  lemma StoreNone()
    ensures StoreFields([]) == []
  {
  }

  lemma StoreSnoc(values: seq<Value>, v: Value)
    ensures StoreFields(values + [v]) == StoreFields(values) + StoreField(v)
  {
    assert (values + [v])[..|values|] == values;
  }

  lemma Join(b: seq<Byte>, i: nat, n: nat)
    requires i + n <= |b|
    ensures b[..i] + b[i..i + n] == b[..i + n]
  {
  }

  lemma FieldsOfAdded(k: Kind, h: Header, t: seq<Value>)
    requires Fit(t, Tail(k)) && (k == A || k == F)
    ensures TailFields(FromTail(k, h, t)) == t
  {
    assert forall i :: 0 <= i < |t| ==> FieldOf(t[i]) == Tail(k)[i];
  }

  lemma FieldsOfTraded(k: Kind, h: Header, t: seq<Value>)
    requires Fit(t, Tail(k)) && (k == P || k == C)
    ensures TailFields(FromTail(k, h, t)) == t
  {
    assert forall i :: 0 <= i < |t| ==> FieldOf(t[i]) == Tail(k)[i];
  }

  lemma FieldsOfShort(k: Kind, h: Header, t: seq<Value>)
    requires Fit(t, Tail(k)) && (k == S || k == E || k == X || k == D || k == U)
    ensures TailFields(FromTail(k, h, t)) == t
  {
    assert forall i :: 0 <= i < |t| ==> FieldOf(t[i]) == Tail(k)[i];
  }

  lemma KindOfTail(k: Kind, h: Header, t: seq<Value>)
    requires Fit(t, Tail(k))
    ensures KindOfMessage(FromTail(k, h, t)) == k && FromTail(k, h, t).h == h
  {
  }

  lemma FieldsOfTail(k: Kind, h: Header, t: seq<Value>)
    requires Fit(t, Tail(k))
    ensures TailFields(FromTail(k, h, t)) == t
    ensures KindOfMessage(FromTail(k, h, t)) == k && FromTail(k, h, t).h == h
  {
    hide TailFields;
    KindOfTail(k, h, t);
    match k
    case R => FieldsOfDirectory(h, t);
    case A => FieldsOfAdded(k, h, t);
    case F => FieldsOfAdded(k, h, t);
    case P => FieldsOfTraded(k, h, t);
    case C => FieldsOfTraded(k, h, t);
    case _ => FieldsOfShort(k, h, t);
  }

  lemma FieldsOfDirectory(h: Header, t: seq<Value>)
    requires Fit(t, Tail(R))
    ensures TailFields(DirectoryFrom(h, t)) == t
  {
    assert forall i :: 0 <= i < 14 ==> FieldOf(t[i]) == Tail(R)[i];
  }

  lemma FieldsOfFromFields(k: Kind, values: seq<Value>)
    requires Fit(values, Layout(k)) && values[1] == U8(CodeOf(k))
    ensures Fields(FromFields(k, values)) == values
    ensures KindOfMessage(FromFields(k, values)) == k && U16(FromFields(k, values).h.length) == values[0]
  {
    hide FromTail, TailFields, KindOfMessage;
    FitParts(k, values);
    FieldsOfTail(k, HeaderFrom(values), values[5..]);
    assert HeaderFields(HeaderFrom(values), k) == values[..5] by {
      assert forall i :: 0 <= i < 5 ==> FieldOf(values[..5][i]) == HEADER[i];
    }
  }

  lemma FieldsOfDecode(k: Kind, bytes: seq<Byte>)
    requires Size(Layout(k)) <= |bytes| && |bytes| >= 3 && bytes[2] == CodeOf(k)
    ensures Fields(Decode(k, bytes)) == SwapFields(LoadFields(Layout(k), bytes))
    ensures KindOfMessage(Decode(k, bytes)) == k
    ensures Decode(k, bytes).h.length == Swap16(Load16(bytes[0..2]))
  {
    hide FromFields, Fields, KindOfMessage, CodeOf, LoadFields, SwapFields, SwapValue, Swap16, Load16, Layout, Fit, Size;
    HeadLoaded(k, bytes);
    LoadedFit(k, bytes);
    FieldsOfFromFields(k, SwapFields(LoadFields(Layout(k), bytes)));
  }

  lemma LoadedFit(k: Kind, bytes: seq<Byte>)
    requires Size(Layout(k)) <= |bytes|
    ensures Fit(SwapFields(LoadFields(Layout(k), bytes)), Layout(k))
  {
    hide LoadFields, Layout;
    SwapKeepsFit(LoadFields(Layout(k), bytes), Layout(k));
  }

  /** A struct decoded from bytes of its own type encodes to those bytes. */
  lemma EncodeOfDecode(k: Kind, bytes: seq<Byte>)
    requires |bytes| == SizeOf(k) && bytes[2] == CodeOf(k)
    ensures Size(Layout(k)) == SizeOf(k)
    ensures Encode(Decode(k, bytes)) == bytes
    ensures KindOfMessage(Decode(k, bytes)) == k
    ensures Decode(k, bytes).h.length == Swap16(Load16(bytes[0..2]))
  {
    hide Decode, Fields, KindOfMessage, Layout, CodeOf, SwapValue, Swap16, Load16, SwapFields, StoreFields, LoadUpTo;
    SizesAddUp(k);
    FieldsOfDecode(k, bytes);
    SwapFieldsTwice(LoadFields(Layout(k), bytes));
    StoreOfLoadUpTo(Layout(k), bytes, |Layout(k)|);
    assert bytes[..|bytes|] == bytes;
  }

  lemma HeadLoaded(k: Kind, bytes: seq<Byte>)
    requires Size(Layout(k)) <= |bytes| && |bytes| >= 3
    ensures var swapped := SwapFields(LoadFields(Layout(k), bytes));
      && |swapped| >= 5 && swapped[1] == U8(bytes[2]) && swapped[0] == U16(Swap16(Load16(bytes[0..2])))
  {
    hide Swap16, Load16;
    var layout := Layout(k);
    assert layout[0] == F16 && layout[1] == F8;
    LoadedAt(layout, bytes, |layout|, 0);
    LoadedAt(layout, bytes, |layout|, 1);
    assert Offset(layout, 0) == 0 && Offset(layout, 1) == 2;
  }

  // ---------------------------------------------------------------- frames

  /** The frame that these bytes are. */
  function FrameOf(bytes: seq<Byte>): Frame
    requires Complete(bytes, 0) && Length(bytes, 0) == |bytes|
  {
    if KindOf(bytes[2]).Some? && |bytes| >= SizeOf(KindOf(bytes[2]).value) then
      var k := KindOf(bytes[2]).value;
      SizesAddUp(k);
      Known(Decode(k, bytes[..SizeOf(k)]), bytes[SizeOf(k)..])
    else
      Skipped(Swap16(Load16(bytes[0..2])), bytes[2], bytes[3..])
  }

  lemma CodeOfKind(code: Byte)
    requires KindOf(code).Some?
    ensures CodeOf(KindOf(code).value) == code
  {
  }

  lemma LengthIs(bytes: seq<Byte>, length: bv16)
    requires |bytes| >= 2 && length == Swap16(Load16(bytes[0..2]))
    ensures length as nat == Length(bytes, 0)
  {
    hide Swap16, Load16;
  }

  lemma FrameOfKnown(bytes: seq<Byte>, k: Kind)
    requires Complete(bytes, 0) && Length(bytes, 0) == |bytes| >= SizeOf(k) && KindOf(bytes[2]) == Some(k)
    ensures FrameOk(FrameOf(bytes)) && FrameBytes(FrameOf(bytes)) == bytes
  {
    hide Decode, Encode, KindOf, CodeOf, KindOfMessage, Length, Swap16, Load16;
    var struct := bytes[..SizeOf(k)];
    CodeOfKind(bytes[2]);
    EncodeOfDecode(k, struct);
    assert struct[0..2] == bytes[0..2];
    LengthIs(bytes, Decode(k, struct).h.length);
    assert struct + bytes[SizeOf(k)..] == bytes;
  }

  lemma FrameOfSkipped(bytes: seq<Byte>)
    requires Complete(bytes, 0) && Length(bytes, 0) == |bytes|
    requires KindOf(bytes[2]).Some? ==> |bytes| < SizeOf(KindOf(bytes[2]).value)
    ensures FrameOk(FrameOf(bytes)) && FrameBytes(FrameOf(bytes)) == bytes
  {
    hide KindOf, SizeOf;
    StoreSwapped(bytes[0..2]);
    assert bytes[0..2] + [bytes[2]] + bytes[3..] == bytes;
  }

  lemma StoreSwapped(b: seq<Byte>)
    requires |b| == 2
    ensures Store16(Swap16(Swap16(Load16(b)))) == b
  {
  }

  lemma BytesOfFrameOf(bytes: seq<Byte>)
    requires Complete(bytes, 0) && Length(bytes, 0) == |bytes|
    ensures FrameOk(FrameOf(bytes)) && FrameBytes(FrameOf(bytes)) == bytes
  {
    hide KindOf, SizeOf, FrameOf, FrameOk, FrameBytes, Length;
    if KindOf(bytes[2]).Some? && |bytes| >= SizeOf(KindOf(bytes[2]).value) {
      FrameOfKnown(bytes, KindOf(bytes[2]).value);
    } else {
      FrameOfSkipped(bytes);
    }
  }

  lemma FrameOfKnownBytes(m: Message, padding: seq<Byte>)
    requires FrameOk(Known(m, padding))
    ensures Complete(Encode(m) + padding, 0) && Length(Encode(m) + padding, 0) == |Encode(m) + padding|
    ensures FrameOf(Encode(m) + padding) == Known(m, padding)
  {
    hide Decode, Encode, KindOf, KindOfMessage, CodeOf;
    var bytes, k := Encode(m) + padding, KindOfMessage(m);
    KnownFrame(m, padding);
    EncodedHead(m, padding);
    EncodedSize(m);
    assert KindOf(CodeOf(k)) == Some(k);
    MessageRoundTrip(m, []);
    assert bytes[..SizeOf(k)] == Encode(m) + [] && bytes[SizeOf(k)..] == padding;
  }

  lemma FrameOfSkippedBytes(length: bv16, code: Byte, body: seq<Byte>)
    requires FrameOk(Skipped(length, code, body))
    ensures var bytes := Store16(Swap16(length)) + [code] + body;
      && Complete(bytes, 0) && Length(bytes, 0) == |bytes|
      && FrameOf(bytes) == Skipped(length, code, body)
  {
    hide Decode, KindOf, SizeOf, Load16, Swap16;
    var head := Store16(Swap16(length));
    SkippedFrame(length, code, body);
    SkippedHead(head, code, body);
    assert (head + [code] + body)[3..] == body;
    RoundTrip16(length);
  }

  lemma FrameOfFrameBytes(f: Frame)
    requires FrameOk(f)
    ensures Complete(FrameBytes(f), 0) && Length(FrameBytes(f), 0) == |FrameBytes(f)|
    ensures FrameOf(FrameBytes(f)) == f
  {
    hide FrameOk, FrameOf, Complete, Length, Encode, Store16, Swap16;
    match f
    case Known(m, padding) => FrameOfKnownBytes(m, padding);
    case Skipped(length, code, body) => FrameOfSkippedBytes(length, code, body);
  }

  // ---------------------------------------------------------------- streams

  /** Complete frames of three bytes or more fill the buffer from `off` to its end. */
  ghost predicate Aligned(buf: seq<Byte>, off: nat)
    requires off <= |buf|
    decreases |buf| - off
  {
    off == |buf| || (Complete(buf, off) && Length(buf, off) >= 3 && Aligned(buf, off + Length(buf, off)))
  }

  lemma FrameAlone(buf: seq<Byte>, off: nat) returns (bytes: seq<Byte>)
    requires Complete(buf, off) && Length(buf, off) >= 3
    ensures bytes == buf[off..off + Length(buf, off)]
    ensures Complete(bytes, 0) && Length(bytes, 0) == |bytes|
  {
    bytes := buf[off..off + Length(buf, off)];
    assert bytes[0..2] == buf[off..off + 2];
  }

  lemma {:induction false} AlignedIsStream(buf: seq<Byte>, off: nat) returns (frames: seq<Frame>)
    requires off <= |buf| && Aligned(buf, off)
    ensures FramesOk(frames) && Stream(frames) == buf[off..]
    decreases |buf| - off
  {
    hide FrameOk, FrameOf, FrameBytes, Length;
    if off == |buf| {
      frames := [];
    } else {
      var bytes := FrameAlone(buf, off);
      BytesOfFrameOf(bytes);
      var next := off + Length(buf, off);
      var rest := AlignedIsStream(buf, next);
      frames := [FrameOf(bytes)] + rest;
      assert frames[1..] == rest;
      assert bytes + buf[next..] == buf[off..];
    }
  }

  lemma {:induction false} StreamIsAligned(before: seq<Byte>, frames: seq<Frame>)
    requires FramesOk(frames)
    ensures Aligned(before + Stream(frames), |before|)
    decreases frames
  {
    hide FrameBytes, FrameOk, FrameResult, Extract;
    if frames != [] {
      var first, rest := FrameBytes(frames[0]), Stream(frames[1..]);
      assert before + first + rest == before + (first + rest);
      FrameParsedIn(before, frames[0], rest);
      FrameNotEmpty(frames[0]);
      StreamIsAligned(before + first, frames[1..]);
    }
  }

  /** The buffers that are streams of frames. */
  lemma AlignedIffStream(buf: seq<Byte>)
    ensures Aligned(buf, 0) <==> exists frames :: FramesOk(frames) && Stream(frames) == buf
  {
    if Aligned(buf, 0) {
      var frames := AlignedIsStream(buf, 0);
      assert Stream(frames) == buf[0..] == buf;
    }
    if frames :| FramesOk(frames) && Stream(frames) == buf {
      StreamIsAligned([], frames);
      assert [] + Stream(frames) == buf;
    }
  }

  lemma FirstFrameBytes(f: Frame, rest: seq<Byte>)
    requires FrameOk(f)
    ensures var buf := FrameBytes(f) + rest;
      Complete(buf, 0) && FrameBytes(f) == buf[..Length(buf, 0)] && rest == buf[Length(buf, 0)..]
  {
    hide FrameBytes, FrameOk, Extract;
    FrameParsedIn([], f, rest);
    FrameNotEmpty(f);
    assert [] + FrameBytes(f) + rest == FrameBytes(f) + rest;
  }

  /** No two sequences of frames share a stream. */
  lemma {:induction false} StreamInjective(p: seq<Frame>, q: seq<Frame>)
    requires FramesOk(p) && FramesOk(q) && Stream(p) == Stream(q)
    ensures p == q
    decreases p
  {
    hide FrameBytes, FrameOk, FrameOf, Length, Complete;
    if p != [] { FrameNotEmpty(p[0]); }
    if q != [] { FrameNotEmpty(q[0]); }
    if p != [] && q != [] {
      FirstFrameBytes(p[0], Stream(p[1..]));
      FirstFrameBytes(q[0], Stream(q[1..]));
      FrameOfFrameBytes(p[0]);
      FrameOfFrameBytes(q[0]);
      StreamInjective(p[1..], q[1..]);
      assert p == [p[0]] + p[1..] && q == [q[0]] + q[1..];
    }
  }
}
