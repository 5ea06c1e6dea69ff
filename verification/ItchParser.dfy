/** The length-prefixed framing of the stream: one call of the parser, and runs of calls. */
module ItchParser {
  import opened Words
  import opened ItchWire
  import opened ItchMessages
  import opened ItchOffsets

  /** The length field of the frame at `off`. */
  function Length(buf: seq<Byte>, off: nat): nat
    requires off + 2 <= |buf|
  {
    Swap16(Load16(buf[off..off + 2])) as nat
  }

  /** The frame at `off` lies wholly inside the buffer. */
  predicate Complete(buf: seq<Byte>, off: nat) {
    off + 3 <= |buf| && off + Length(buf, off) <= |buf|
  }

  /** The message of the frame at `off`, if its type is known and its length covers the struct. */
  function Extract(buf: seq<Byte>, off: nat): Option<Message>
    requires Complete(buf, off)
  {
    match KindOf(buf[off + 2])
    case None => None
    case Some(k) =>
      if Length(buf, off) < SizeOf(k) then None
      else
        SizesAddUp(k);
        Some(Decode(k, buf[off..off + SizeOf(k)]))
  }

  /** What one call returns. */
  function Item(buf: seq<Byte>, off: nat): Option<Message> {
    if Complete(buf, off) then Extract(buf, off) else None
  }

  /** The offset one call leaves. */
  function Next(buf: seq<Byte>, off: nat): nat {
    if Complete(buf, off) then off + Length(buf, off) else off
  }

  /** What `n` calls in a row return. */
  function Results(buf: seq<Byte>, off: nat, n: nat): (results: seq<Option<Message>>)
    ensures |results| == n
    decreases n
  {
    if n == 0 then [] else [Item(buf, off)] + Results(buf, Next(buf, off), n - 1)
  }

  /** The offset after `n` calls. */
  function Position(buf: seq<Byte>, off: nat, n: nat): nat
    decreases n
  {
    if n == 0 then off else Position(buf, Next(buf, off), n - 1)
  }

  // ---------------------------------------------------------------- a call, from the bytes alone

  /** The two bytes of the length, most significant first. */
  function LengthAt(buf: seq<Byte>, off: nat): nat
    requires off + 2 <= |buf|
  {
    Big16(buf[off..off + 2]) as nat
  }

  lemma LengthIsBigEndian(buf: seq<Byte>, off: nat)
    requires off + 2 <= |buf|
    ensures Length(buf, off) == LengthAt(buf, off)
  {
    hide Big16, Swap16, Load16;
    Is16(buf[off..off + 2]);
  }

  lemma ExtractIsReading(buf: seq<Byte>, off: nat)
    requires Complete(buf, off)
    ensures Extract(buf, off) == Reading(buf[off..], Length(buf, off))
  {
    hide Decode, MessageAt, Length, Layout, Size;
    var b, n := buf[off..], Length(buf, off);
    assert b[2] == buf[off + 2];
    match KindOf(buf[off + 2])
    case None =>
    case Some(k) =>
      if n >= SizeOf(k) {
        SizesAddUp(k);
        var struct := buf[off..off + SizeOf(k)];
        assert struct == b[..|struct|];
        DecodeReadsOffsets(k, struct);
        MessageAtPrefix(k, struct, b);
      }
  }

  /** One call, from the bytes: nothing on an incomplete frame; else past the frame, with what its third byte says. */
  ghost predicate Parsed(buf: seq<Byte>, off: nat, result: Option<Message>, next: nat) {
    if off + 3 > |buf| || off + LengthAt(buf, off) > |buf| then result == None && next == off
    else next == off + LengthAt(buf, off) && result == Reading(buf[off..], LengthAt(buf, off))
  }

  lemma ParsedFromBytes(buf: seq<Byte>, off: nat)
    ensures Parsed(buf, off, Item(buf, off), Next(buf, off))
  {
    hide Length, LengthAt, Extract, Reading;
    if off + 3 <= |buf| {
      LengthIsBigEndian(buf, off);
      if Complete(buf, off) {
        ExtractIsReading(buf, off);
      }
    }
  }

  class Parser {
    const buffer: seq<Byte>
    var offset: nat

    constructor (buffer: seq<Byte>)
      ensures this.buffer == buffer && offset == 0
    {
      this.buffer := buffer;
      offset := 0;
    }

    method ParseNext() returns (result: Option<Message>)
      modifies this`offset
      ensures result == Item(buffer, old(offset)) && offset == Next(buffer, old(offset))
      ensures Parsed(buffer, old(offset), result, offset)
    {
      hide Decode, Length, SizeOf, KindOf, Layout, Size, Parsed;
      ParsedFromBytes(buffer, offset);
      if offset + 3 > |buffer| {
        return None;
      }
      var msgLength := Length(buffer, offset);
      var msgType := buffer[offset + 2];
      if offset + msgLength > |buffer| {
        return None;
      }
      result := None;
      match KindOf(msgType) {
        case Some(k) =>
          if msgLength >= SizeOf(k) {
            var message := Read(k, buffer[offset..offset + SizeOf(k)]);
            result := Some(message);
          }
        case None =>
      }
      offset := offset + msgLength;
    }

    /** One case of the switch: copy the struct, then overwrite its numbers with their swapped values. */
    static method Read(k: Kind, bytes: seq<Byte>) returns (message: Message)
      requires |bytes| == SizeOf(k)
      ensures Size(Layout(k)) == SizeOf(k) && message == Decode(k, bytes)
    {
      SizesAddUp(k);
      CopyThenSwapIsDecode(k, bytes);
      message := Copy(k, bytes);
      message := SwapMessage(message);
    }

    predicate HasMore()
      reads this
    {
      offset < |buffer|
    }

    method Reset()
      modifies this`offset
      ensures offset == 0
    {
      offset := 0;
    }
  }

  // ---------------------------------------------------------------- progress

  /** An incomplete header, a zero length or a truncated frame. */
  predicate Stalls(buf: seq<Byte>, off: nat) {
    || off + 3 > |buf|
    || Length(buf, off) == 0
    || off + Length(buf, off) > |buf|
  }

  /** A call stays in the buffer, and fails to advance exactly when it stalls; then it returns nothing. */
  lemma AdvancesUnlessStalled(buf: seq<Byte>, off: nat)
    ensures Next(buf, off) >= off
    ensures Next(buf, off) == off <==> Stalls(buf, off)
    ensures off <= |buf| ==> Next(buf, off) <= |buf|
    ensures Stalls(buf, off) ==> Item(buf, off) == None
  {
  }

  /** A stalled parser never moves again. */
  lemma {:induction false} StalledForever(buf: seq<Byte>, off: nat, n: nat)
    requires Stalls(buf, off)
    ensures Position(buf, off, n) == off
    ensures forall i :: 0 <= i < n ==> Results(buf, off, n)[i] == None
  {
    if n > 0 {
      AdvancesUnlessStalled(buf, off);
      StalledForever(buf, off, n - 1);
    }
  }

  lemma {:induction false} PositionBounds(buf: seq<Byte>, off: nat, n: nat)
    requires off <= |buf|
    ensures off <= Position(buf, off, n) <= |buf|
    decreases n
  {
    if n > 0 {
      AdvancesUnlessStalled(buf, off);
      PositionBounds(buf, Next(buf, off), n - 1);
    }
  }

  // ---------------------------------------------------------------- streaming

  /** What is extracted depends on the bytes of the frame only. */
  lemma ExtractLocal(a: seq<Byte>, i: nat, b: seq<Byte>, j: nat)
    requires Complete(a, i) && Complete(b, j)
    requires a[i + 2] == b[j + 2] && Length(a, i) == Length(b, j)
    requires a[i..i + Length(a, i)] == b[j..j + Length(a, i)]
    ensures Extract(a, i) == Extract(b, j)
  {
    hide Length, Decode;
    match KindOf(a[i + 2])
    case None =>
    case Some(k) =>
      if Length(a, i) < SizeOf(k) {
      } else {
        Shorten(a, i, b, j, SizeOf(k), Length(a, i));
        var bytes := a[i..i + SizeOf(k)];
        ExtractKnown(a, i, k, bytes);
        ExtractKnown(b, j, k, bytes);
      }
  }

  lemma ExtractKnown(buf: seq<Byte>, off: nat, k: Kind, bytes: seq<Byte>)
    requires Complete(buf, off) && KindOf(buf[off + 2]) == Some(k) && Length(buf, off) >= SizeOf(k)
    requires bytes == buf[off..off + SizeOf(k)]
    ensures Size(Layout(k)) <= |bytes| && Extract(buf, off) == Some(Decode(k, bytes))
  {
    hide Decode, Layout, Size, Length, KindOf;
    SizesAddUp(k);
  }

  lemma Shorten(a: seq<Byte>, i: nat, b: seq<Byte>, j: nat, m: nat, n: nat)
    requires m <= n && i + n <= |a| && j + n <= |b| && a[i..i + n] == b[j..j + n]
    ensures a[i..i + m] == b[j..j + m]
  {
    assert a[i..i + m] == a[i..i + n][..m];
    assert b[j..j + m] == b[j..j + n][..m];
  }

  lemma SameLength(a: seq<Byte>, i: nat, b: seq<Byte>, j: nat)
    requires i + 2 <= |a| && j + 2 <= |b| && a[i..i + 2] == b[j..j + 2]
    ensures Length(a, i) == Length(b, j)
  {
  }

  /** Neither what is before a frame nor what is after it matters. */
  lemma ParseInContext(before: seq<Byte>, frame: seq<Byte>, after: seq<Byte>)
    requires Complete(frame, 0) && Length(frame, 0) == |frame|
    ensures Next(before + frame + after, |before|) == |before| + |frame|
    ensures Item(before + frame + after, |before|) == Extract(frame, 0)
  {
    hide Length, Extract;
    var buf, off := before + frame + after, |before|;
    assert buf[off..off + |frame|] == frame[0..0 + |frame|];
    Shorten(buf, off, frame, 0, 2, |frame|);
    SameLength(buf, off, frame, 0);
    assert buf[off + 2] == frame[0 + 2];
    ExtractLocal(buf, off, frame, 0);
  }

  /** A complete frame is parsed the same once more bytes have arrived. */
  lemma ParseUnchangedByMore(buf: seq<Byte>, off: nat, more: seq<Byte>)
    requires Complete(buf, off)
    ensures Next(buf + more, off) == Next(buf, off)
    ensures Item(buf + more, off) == Item(buf, off)
  {
    hide Length, Extract;
    var all, n := buf + more, |buf| - off;
    assert all[off..off + n] == buf[off..off + n];
    Shorten(all, off, buf, off, 2, n);
    SameLength(all, off, buf, off);
    Shorten(all, off, buf, off, Length(buf, off), n);
    ExtractLocal(all, off, buf, off);
  }

  /** The next `n` calls all find a complete frame. */
  predicate CompleteFor(buf: seq<Byte>, off: nat, n: nat)
    decreases n
  {
    n == 0 || (Complete(buf, off) && CompleteFor(buf, Next(buf, off), n - 1))
  }

  /** Calls that find complete frames leave the same offset once more bytes have arrived. */
  lemma {:induction false} PositionUnchangedByMore(buf: seq<Byte>, off: nat, more: seq<Byte>, n: nat)
    requires CompleteFor(buf, off, n)
    ensures CompleteFor(buf + more, off, n) && Position(buf + more, off, n) == Position(buf, off, n)
    decreases n
  {
    if n > 0 {
      ParseUnchangedByMore(buf, off, more);
      PositionUnchangedByMore(buf, Next(buf, off), more, n - 1);
    }
  }

  /** And they return the same. */
  lemma {:induction false} ResultsUnchangedByMore(buf: seq<Byte>, off: nat, more: seq<Byte>, n: nat)
    requires CompleteFor(buf, off, n)
    ensures Results(buf + more, off, n) == Results(buf, off, n)
    decreases n
  {
    hide Complete, Item, Next;
    if n > 0 {
      ParseUnchangedByMore(buf, off, more);
      ResultsUnchangedByMore(buf, Next(buf, off), more, n - 1);
    }
  }

  // ---------------------------------------------------------------- frames

  /** A message with padding counted in its length, or a frame the parser skips. */
  datatype Frame = Known(message: Message, padding: seq<Byte>) | Skipped(length: bv16, code: Byte, body: seq<Byte>)

  predicate FrameOk(f: Frame) {
    match f
    case Known(m, padding) => m.h.length as nat == SizeOf(KindOfMessage(m)) + |padding|
    case Skipped(length, code, body) =>
      && length as nat == 3 + |body|
      && (KindOf(code).Some? ==> length as nat < SizeOf(KindOf(code).value))
  }

  function FrameBytes(f: Frame): seq<Byte> {
    match f
    case Known(m, padding) => Encode(m) + padding
    case Skipped(length, code, body) => Store16(Swap16(length)) + [code] + body
  }

  function FrameResult(f: Frame): Option<Message> {
    match f
    case Known(m, _) => Some(m)
    case Skipped(_, _, _) => None
  }

  ghost predicate FramesOk(frames: seq<Frame>) {
    forall i :: 0 <= i < |frames| ==> FrameOk(frames[i])
  }

  function Stream(frames: seq<Frame>): seq<Byte> {
    if frames == [] then [] else FrameBytes(frames[0]) + Stream(frames[1..])
  }

  function FrameResults(frames: seq<Frame>): (results: seq<Option<Message>>)
    ensures |results| == |frames|
  {
    if frames == [] then [] else [FrameResult(frames[0])] + FrameResults(frames[1..])
  }

  lemma LengthStored(bytes: seq<Byte>, length: bv16)
    requires |bytes| >= 2 && bytes[0..2] == Store16(Swap16(length))
    ensures Length(bytes, 0) == length as nat
  {
    RoundTrip16(length);
  }

  /** The first three bytes of stored fields that start with a number of two bytes and one byte. */
  lemma StoredHead(values: seq<Value>, rest: seq<Byte>)
    requires |values| >= 2 && values[0].U16? && values[1].U8?
    ensures var bytes := StoreFields(values) + rest;
      |bytes| >= 3 && bytes[0..2] == StoreField(values[0]) && bytes[2] == values[1].u8
  {
    var layout, bytes := LayoutOf(values), StoreFields(values) + rest;
    assert layout[0] == F16 && layout[1] == F8;
    assert Offset(layout, 1) == 2 && Offset(layout, 2) == 3;
    StoredSize(values);
    OffsetMonotone(layout, 2, |layout|);
    StoredSlice(values, rest, 0);
    StoredSlice(values, rest, 1);
    assert bytes[2] == bytes[2..3][0];
  }

  lemma HeadFields(m: Message)
    ensures |SwapFields(Fields(m))| >= 2
    ensures SwapFields(Fields(m))[0] == U16(Swap16(m.h.length))
    ensures SwapFields(Fields(m))[1] == U8(CodeOf(KindOfMessage(m)))
  {
    var fields := HeaderFields(m.h, KindOfMessage(m)) + TailFields(m);
    assert fields[0] == U16(m.h.length) && fields[1] == U8(CodeOf(KindOfMessage(m)));
  }

  /** The first three bytes of an encoded message: its length, most significant byte first, and its type. */
  lemma EncodedHead(m: Message, rest: seq<Byte>)
    ensures |Encode(m) + rest| >= 3
    ensures (Encode(m) + rest)[0..2] == Store16(Swap16(m.h.length))
    ensures (Encode(m) + rest)[2] == CodeOf(KindOfMessage(m))
  {
    HeadFields(m);
    StoredHead(SwapFields(Fields(m)), rest);
  }

  lemma KnownFrame(m: Message, padding: seq<Byte>)
    requires FrameOk(Known(m, padding))
    ensures var bytes := Encode(m) + padding;
      && Complete(bytes, 0) && Length(bytes, 0) == |bytes| && Extract(bytes, 0) == Some(m)
  {
    var bytes := Encode(m) + padding;
    EncodedHead(m, padding);
    EncodedSize(m);
    LengthStored(bytes, m.h.length);
    KnownExtract(m, padding);
  }

  lemma KnownExtract(m: Message, padding: seq<Byte>)
    requires var bytes := Encode(m) + padding;
      && Complete(bytes, 0) && Length(bytes, 0) == |bytes| && bytes[2] == CodeOf(KindOfMessage(m))
      && |Encode(m)| == SizeOf(KindOfMessage(m))
    ensures Extract(Encode(m) + padding, 0) == Some(m)
  {
    var bytes := Encode(m) + padding;
    var k := KindOfMessage(m);
    assert bytes[0..0 + SizeOf(k)] == Encode(m) + [];
    assert KindOf(bytes[0 + 2]) == Some(k);
    MessageRoundTrip(m, []);
  }

  lemma SkippedHead(head: seq<Byte>, code: Byte, body: seq<Byte>)
    requires |head| == 2
    ensures (head + [code] + body)[0..2] == head && (head + [code] + body)[2] == code
  {
  }

  lemma SkippedFrame(length: bv16, code: Byte, body: seq<Byte>)
    requires FrameOk(Skipped(length, code, body))
    ensures var bytes := Store16(Swap16(length)) + [code] + body;
      && Complete(bytes, 0) && Length(bytes, 0) == |bytes| && Extract(bytes, 0) == None
  {
    var head := Store16(Swap16(length));
    SkippedHead(head, code, body);
    LengthStored(head + [code] + body, length);
  }

  lemma FrameParsed(f: Frame)
    requires FrameOk(f)
    ensures Complete(FrameBytes(f), 0)
    ensures Length(FrameBytes(f), 0) == |FrameBytes(f)|
    ensures Extract(FrameBytes(f), 0) == FrameResult(f)
  {
    match f
    case Known(m, padding) => KnownFrame(m, padding);
    case Skipped(length, code, body) => SkippedFrame(length, code, body);
  }

  lemma FrameParsedIn(before: seq<Byte>, f: Frame, after: seq<Byte>)
    requires FrameOk(f)
    ensures Next(before + FrameBytes(f) + after, |before|) == |before| + |FrameBytes(f)|
    ensures Item(before + FrameBytes(f) + after, |before|) == FrameResult(f)
  {
    FrameParsed(f);
    ParseInContext(before, FrameBytes(f), after);
  }

  lemma Nest(before: seq<Byte>, first: seq<Byte>, rest: seq<Byte>, after: seq<Byte>)
    ensures before + first + (rest + after) == before + (first + rest) + after
    ensures (before + first) + rest + after == before + (first + rest) + after
  {
  }

  lemma {:induction false} StreamPosition(before: seq<Byte>, frames: seq<Frame>, after: seq<Byte>)
    requires FramesOk(frames)
    ensures Position(before + Stream(frames) + after, |before|, |frames|) == |before| + |Stream(frames)|
    decreases frames
  {
    hide Complete, Item, Next, FrameBytes, FrameOk;
    if frames != [] {
      var first, rest := FrameBytes(frames[0]), Stream(frames[1..]);
      Nest(before, first, rest, after);
      FrameParsedIn(before, frames[0], rest + after);
      StreamPosition(before + first, frames[1..], after);
    }
  }

  lemma {:induction false} StreamResults(before: seq<Byte>, frames: seq<Frame>, after: seq<Byte>)
    requires FramesOk(frames)
    ensures Results(before + Stream(frames) + after, |before|, |frames|) == FrameResults(frames)
    decreases frames
  {
    hide Item, Next, FrameBytes, FrameOk, FrameResult;
    if frames != [] {
      var first, rest := FrameBytes(frames[0]), Stream(frames[1..]);
      Nest(before, first, rest, after);
      FrameParsedIn(before, frames[0], rest + after);
      StreamResults(before + first, frames[1..], after);
    }
  }

  /**
   Round trip: parsing a stream returns exactly its messages, in order, nothing for each skipped frame,
   and ends at the end of the buffer.
   */
  lemma StreamRoundTrip(frames: seq<Frame>)
    requires FramesOk(frames)
    ensures Results(Stream(frames), 0, |frames|) == FrameResults(frames)
    ensures Position(Stream(frames), 0, |frames|) == |Stream(frames)|
  {
    StreamPosition([], frames, []);
    StreamResults([], frames, []);
    assert [] + Stream(frames) + [] == Stream(frames);
  }

  // ---------------------------------------------------------------- well-framed buffers

  /** Frames of non-zero length fill the buffer from `off` to its end. */
  ghost predicate WellFramed(buf: seq<Byte>, off: nat)
    requires off <= |buf|
    decreases |buf| - off
  {
    off == |buf| || (!Stalls(buf, off) && WellFramed(buf, off + Length(buf, off)))
  }

  /** The number of calls that take a well-framed buffer to its end. */
  ghost function CallsToEnd(buf: seq<Byte>, off: nat): (n: nat)
    requires off <= |buf| && WellFramed(buf, off)
    ensures Position(buf, off, n) == |buf|
    decreases |buf| - off
  {
    if off == |buf| then 0 else CallsToEnd(buf, Next(buf, off)) + 1
  }

  lemma {:induction false} ReachingEndIsWellFramed(buf: seq<Byte>, off: nat, n: nat)
    requires off <= |buf| && Position(buf, off, n) == |buf|
    ensures WellFramed(buf, off)
    decreases n
  {
    if off < |buf| {
      AdvancesUnlessStalled(buf, off);
      if Stalls(buf, off) {
        StalledForever(buf, off, n);
      } else {
        ReachingEndIsWellFramed(buf, Next(buf, off), n - 1);
      }
    }
  }

  /** A loop that parses while there is more ends exactly on well-framed buffers. */
  lemma LoopEndsIffWellFramed(buf: seq<Byte>)
    ensures WellFramed(buf, 0) <==> exists n: nat :: Position(buf, 0, n) >= |buf|
  {
    if WellFramed(buf, 0) {
      var n := CallsToEnd(buf, 0);
      assert Position(buf, 0, n) >= |buf|;
    }
    if n: nat :| Position(buf, 0, n) >= |buf| {
      PositionBounds(buf, 0, n);
      ReachingEndIsWellFramed(buf, 0, n);
    }
  }

  /** Three zero bytes: a frame of length zero, on which the loop never ends. */
  lemma ZeroLengthStalls(n: nat)
    ensures var buf: seq<Byte> := [0, 0, 0];
      && Stalls(buf, 0) && !WellFramed(buf, 0)
      && Position(buf, 0, n) == 0 && forall i :: 0 <= i < n ==> Results(buf, 0, n)[i] == None
  {
    var buf: seq<Byte> := [0, 0, 0];
    LengthStored(buf, 0);
    StalledForever(buf, 0, n);
  }

  /** A stream of frames is well-framed, and takes one call a frame. */
  lemma {:induction false} StreamWellFramed(before: seq<Byte>, frames: seq<Frame>)
    requires FramesOk(frames)
    ensures var buf := before + Stream(frames);
      WellFramed(buf, |before|) && CallsToEnd(buf, |before|) == |frames|
    decreases frames
  {
    hide FrameBytes, FrameOk, FrameResult, Item, Extract, WellFramed, CallsToEnd, Length, Complete, Stalls;
    if frames != [] {
      var first, rest := FrameBytes(frames[0]), Stream(frames[1..]);
      Nest(before, first, rest, []);
      assert before + first + rest == before + (first + rest);
      FrameParsedIn(before, frames[0], rest);
      FrameNotEmpty(frames[0]);
      StreamWellFramed(before + first, frames[1..]);
      OneCallMore(before + first + rest, |before|);
    } else {
      NoCallAtEnd(before);
      assert before + [] == before;
    }
  }

  lemma NoCallAtEnd(buf: seq<Byte>)
    ensures WellFramed(buf, |buf|) && CallsToEnd(buf, |buf|) == 0
  {
  }

  lemma OneCallMore(buf: seq<Byte>, off: nat)
    requires off < Next(buf, off) <= |buf| && WellFramed(buf, Next(buf, off))
    ensures WellFramed(buf, off) && CallsToEnd(buf, off) == CallsToEnd(buf, Next(buf, off)) + 1
  {
    hide Extract;
    AdvancesUnlessStalled(buf, off);
  }

  lemma FrameNotEmpty(f: Frame)
    requires FrameOk(f)
    ensures |FrameBytes(f)| >= 3
  {
    FrameParsed(f);
  }
}
