/** The frames the server broadcasts, against a decoder of section 5.2 of RFC 6455. */
module WebSocketFrames {
  import opened Words

  type Octet = b: nat | b < 256

  datatype Frame = Text(payload: seq<Octet>) | Binary(payload: seq<Octet>)

  const HALF: nat := 0x8000_0000_0000_0000

  // ---------------------------------------------------------------- numbers as octets

  /** `n >> (8 * i)`. */
  function Shift(n: nat, i: nat): nat {
    if i == 0 then n else Shift(n, i - 1) / 256
  }

  /** The low `k` octets of `n`, most significant first. */
  function BigEndian(n: nat, k: nat): (octets: seq<Octet>)
    ensures |octets| == k
  {
    if k == 0 then [] else BigEndian(n / 256, k - 1) + [n % 256]
  }

  function Number(octets: seq<Octet>): nat {
    if octets == [] then 0 else 256 * Number(octets[..|octets| - 1]) + octets[|octets| - 1]
  }

  function Bound(k: nat): nat {
    if k == 0 then 1 else 256 * Bound(k - 1)
  }

  lemma {:induction false} NumberOfBigEndian(n: nat, k: nat)
    requires n < Bound(k)
    ensures Number(BigEndian(n, k)) == n
  {
    if k > 0 {
      NumberOfBigEndian(n / 256, k - 1);
      assert BigEndian(n, k)[..k - 1] == BigEndian(n / 256, k - 1);
    }
  }

  lemma {:induction false} NumberBelow(octets: seq<Octet>)
    ensures Number(octets) < Bound(|octets|)
  {
    if octets != [] { NumberBelow(octets[..|octets| - 1]); }
  }

  lemma Bounds()
    ensures Bound(2) == 0x1_0000 && Bound(8) == MODULUS
  {
    assert Bound(4) == 0x1_0000_0000;
  }

  // ---------------------------------------------------------------- the frame builders

  function FirstOctet(f: Frame): Octet {
    if f.Text? then 0x81 else 0x82
  }

  function LengthOctets(n: nat): seq<Octet> {
    if n <= 125 then [n]
    else if n <= 65535 then [126] + BigEndian(n, 2)
    else [127] + BigEndian(n, 8)
  }

  function FrameBytes(f: Frame): seq<Octet> {
    [FirstOctet(f)] + LengthOctets(|f.payload|) + f.payload
  }

  /** The length octets, appended to what the frame holds so far. */
  method PushLength(start: seq<Octet>, len: nat) returns (frame: seq<Octet>)
    requires len < MODULUS
    ensures frame == start + LengthOctets(len)
  {
    frame := start;
    if len <= 125 {
      frame := frame + [len];
    } else if len <= 65535 {
      frame := frame + [126];
      frame := frame + [Shift(len, 1) % 256];
      frame := frame + [len % 256];
      TwoOctets(len);
    } else {
      frame := frame + [127];
      ghost var before := frame;
      var i := 7;
      ShiftedOut(len);
      while i >= 0
        invariant -1 <= i <= 7
        invariant frame == before + BigEndian(Shift(len, i + 1), 7 - i)
      {
        frame := frame + [Shift(len, i) % 256];
        i := i - 1;
      }
      assert BigEndian(Shift(len, 0), 8) == BigEndian(len, 8);
    }
  }

  lemma TwoOctets(n: nat)
    ensures BigEndian(n, 2) == [Shift(n, 1) % 256, n % 256]
  {
    assert BigEndian(n / 256, 1) == BigEndian(n / 256 / 256, 0) + [n / 256 % 256];
    assert Shift(n, 1) == Shift(n, 0) / 256;
  }

  lemma ShiftedOut(n: nat)
    ensures BigEndian(Shift(n, 8), 0) == []
  {
  }

  method Broadcast(message: seq<Octet>) returns (frame: seq<Octet>)
    requires |message| < MODULUS
    ensures frame == FrameBytes(Text(message))
  {
    frame := [0x81];
    frame := PushLength(frame, |message|);
    ghost var header := frame;
    var i := 0;
    while i < |message|
      invariant 0 <= i <= |message|
      invariant frame == header + message[..i]
    {
      frame := frame + [message[i]];
      i := i + 1;
    }
  }

  method BroadcastBinary(data: seq<Octet>) returns (frame: seq<Octet>)
    requires |data| < MODULUS
    ensures frame == FrameBytes(Binary(data))
  {
    frame := [0x82];
    frame := PushLength(frame, |data|);
    frame := frame + data;
  }

  // ---------------------------------------------------------------- the decoder

  /** A payload length and how many octets it took, in whichever form: seven bits, 16 bits or 64 bits. */
  function ReadLength(bytes: seq<Octet>): Option<(nat, nat)> {
    if |bytes| == 0 || bytes[0] >= 128 then None
    else if bytes[0] <= 125 then Some((bytes[0], 1))
    else if bytes[0] == 126 then
      if |bytes| < 3 then None else Some((Number(bytes[1..3]), 3))
    else
      if |bytes| < 9 || bytes[1] >= 128 then None else Some((Number(bytes[1..9]), 9))
  }

  /**
   One final, unmasked frame of text or binary data: the frame and how many octets it took. A length
   not written in the shortest form is refused.
   */
  function ReadFrame(bytes: seq<Octet>): Option<(Frame, nat)> {
    if |bytes| == 0 || (bytes[0] != 0x81 && bytes[0] != 0x82) then None
    else
      match ReadLength(bytes[1..])
      case None => None
      case Some((n, size)) =>
        if size != |LengthOctets(n)| || 1 + size + n > |bytes| then None
        else
          var payload := bytes[1 + size..1 + size + n];
          Some((if bytes[0] == 0x81 then Text(payload) else Binary(payload), 1 + size + n))
  }

  function ReadFrames(bytes: seq<Octet>): Option<seq<Frame>> {
    if bytes == [] then Some([])
    else
      match ReadFrame(bytes)
      case None => None
      case Some((frame, size)) =>
        match ReadFrames(bytes[size..])
        case None => None
        case Some(frames) => Some([frame] + frames)
  }

  // ---------------------------------------------------------------- lengths

  /** The top bit is clear exactly for the lower half of the numbers. */
  lemma {:induction false} TopBit(n: nat, k: nat)
    requires k > 0 && n < Bound(k)
    ensures BigEndian(n, k)[0] < 128 <==> n < 128 * Bound(k - 1)
  {
    if k > 1 {
      TopBit(n / 256, k - 1);
      assert BigEndian(n, k)[0] == BigEndian(n / 256, k - 1)[0];
    } else {
      assert BigEndian(n, 1) == BigEndian(n / 256, 0) + [n % 256];
    }
  }

  lemma HalfIsTopBit()
    ensures 128 * Bound(7) == HALF
  {
    assert Bound(3) == 0x100_0000;
    assert Bound(5) == 0x100_0000_0000;
  }

  lemma LengthOctetsRead(n: nat, rest: seq<Octet>)
    requires n < MODULUS
    ensures ReadLength(LengthOctets(n) + rest) ==
            if n < HALF then Some((n, |LengthOctets(n)|)) else None
  {
    hide Number, Bound;
    var bytes := LengthOctets(n) + rest;
    Bounds();
    if n <= 125 {
    } else if n <= 65535 {
      assert bytes[1..3] == BigEndian(n, 2);
      NumberOfBigEndian(n, 2);
    } else {
      assert bytes[1..9] == BigEndian(n, 8);
      assert bytes[1] == BigEndian(n, 8)[0];
      NumberOfBigEndian(n, 8);
      TopBit(n, 8);
      HalfIsTopBit();
    }
  }

  lemma {:induction false} BigEndianOfNumber(octets: seq<Octet>)
    ensures BigEndian(Number(octets), |octets|) == octets
  {
    if octets != [] {
      var k, last: nat := |octets| - 1, octets[|octets| - 1];
      BigEndianOfNumber(octets[..k]);
      assert Number(octets) / 256 == Number(octets[..k]) && Number(octets) % 256 == last;
      assert octets == octets[..k] + [last];
    }
  }

  /** Whatever form a decoder reads a length from, the builders use no more octets for it. */
  lemma ShortestForm(bytes: seq<Octet>)
    requires ReadLength(bytes).Some?
    ensures var (n, size) := ReadLength(bytes).value; |LengthOctets(n)| <= size
  {
    hide Number, Bound;
    Bounds();
    if bytes[0] == 126 {
      NumberBelow(bytes[1..3]);
    }
  }

  /** A length read from its shortest form is written back the same, and is less than 2^63. */
  lemma LengthWrittenBack(bytes: seq<Octet>)
    requires ReadLength(bytes).Some?
    ensures var (n, size) := ReadLength(bytes).value;
      && size <= |bytes| && n < HALF
      && (size == |LengthOctets(n)| ==> LengthOctets(n) == bytes[..size])
  {
    hide Number, Bound;
    Bounds();
    if bytes[0] == 126 {
      NumberBelow(bytes[1..3]);
      BigEndianOfNumber(bytes[1..3]);
      assert bytes[..3] == [126] + bytes[1..3];
    } else if bytes[0] == 127 {
      NumberBelow(bytes[1..9]);
      BigEndianOfNumber(bytes[1..9]);
      TopBit(Number(bytes[1..9]), 8);
      HalfIsTopBit();
      assert bytes[..9] == [127] + bytes[1..9];
    } else {
      assert bytes[..1] == [bytes[0]];
    }
  }

  // ---------------------------------------------------------------- frames and streams

  lemma FrameParts(first: Octet, length: seq<Octet>, payload: seq<Octet>, rest: seq<Octet>)
    ensures var bytes := ([first] + length + payload) + rest;
      && bytes[0] == first && bytes[1..] == length + (payload + rest)
      && bytes[1 + |length|..1 + |length| + |payload|] == payload
      && bytes[1 + |length| + |payload|..] == rest
  {
    var bytes := ([first] + length + payload) + rest;
    assert bytes == [first] + (length + (payload + rest));
  }

  /** A frame is read back, whatever follows, exactly when its payload is shorter than 2^63. */
  lemma FrameRead(f: Frame, rest: seq<Octet>)
    requires |f.payload| < MODULUS
    ensures ReadFrame(FrameBytes(f) + rest) ==
            if |f.payload| < HALF then Some((f, |FrameBytes(f)|)) else None
  {
    hide LengthOctets, ReadLength;
    FrameParts(FirstOctet(f), LengthOctets(|f.payload|), f.payload, rest);
    LengthOctetsRead(|f.payload|, f.payload + rest);
  }

  /** The shortest payload that is not read back: its length sets the top bit. */
  lemma HugeFrameRefused()
    ensures ReadFrame(FrameBytes(Text(seq(HALF, i => 0)))) == None
  {
    hide FrameBytes, ReadFrame;
    var f := Text(seq(HALF, i => 0));
    FrameRead(f, []);
    assert FrameBytes(f) + [] == FrameBytes(f);
  }

  function Stream(frames: seq<Frame>): seq<Octet> {
    if frames == [] then [] else FrameBytes(frames[0]) + Stream(frames[1..])
  }

  /** A stream of frames is read back exactly when every payload is shorter than 2^63. */
  lemma {:induction false} StreamRead(frames: seq<Frame>)
    requires forall i :: 0 <= i < |frames| ==> |frames[i].payload| < MODULUS
    ensures ReadFrames(Stream(frames)) == Some(frames) <==>
            forall i :: 0 <= i < |frames| ==> |frames[i].payload| < HALF
  {
    hide FrameBytes, ReadFrame;
    if frames != [] {
      var f, rest := frames[0], Stream(frames[1..]);
      FrameRead(f, rest);
      FrameNotEmpty(f);
      StreamRead(frames[1..]);
      assert Stream(frames)[|FrameBytes(f)|..] == rest;
      assert frames == [f] + frames[1..];
      if |f.payload| < HALF {
        assert ReadFrames(Stream(frames)) ==
          (match ReadFrames(rest) case None => None case Some(tail) => Some([f] + tail));
        FirstReadBack(f, frames[1..], ReadFrames(rest));
      }
    }
  }

  lemma FrameNotEmpty(f: Frame)
    ensures |FrameBytes(f)| > 0
  {
  }

  lemma FirstReadBack(f: Frame, tail: seq<Frame>, read: Option<seq<Frame>>)
    ensures (read.Some? && [f] + read.value == [f] + tail) <==> read == Some(tail)
  {
    if read.Some? && [f] + read.value == [f] + tail {
      assert read.value == ([f] + read.value)[1..] == ([f] + tail)[1..] == tail;
    }
  }

  /** No two sequences of such frames share a stream. */
  lemma StreamInjective(p: seq<Frame>, q: seq<Frame>)
    requires forall i :: 0 <= i < |p| ==> |p[i].payload| < HALF
    requires forall i :: 0 <= i < |q| ==> |q[i].payload| < HALF
    requires Stream(p) == Stream(q)
    ensures p == q
  {
    hide Stream, ReadFrames;
    StreamRead(p);
    StreamRead(q);
  }

  lemma FrameWrittenBack(bytes: seq<Octet>)
    requires ReadFrame(bytes).Some?
    ensures var (f, size) := ReadFrame(bytes).value;
      size <= |bytes| && FrameBytes(f) == bytes[..size] && |f.payload| < HALF
  {
    hide LengthOctets, ReadLength;
    var (f, size) := ReadFrame(bytes).value;
    var (n, k) := ReadLength(bytes[1..]).value;
    LengthWrittenBack(bytes[1..]);
    assert bytes[1..][..k] == bytes[1..1 + k];
    assert bytes[..size] == [bytes[0]] + bytes[1..1 + k] + bytes[1 + k..size];
  }

  /** The decoder accepts nothing but streams of such frames. */
  lemma {:induction false} StreamWrittenBack(bytes: seq<Octet>)
    requires ReadFrames(bytes).Some?
    ensures Stream(ReadFrames(bytes).value) == bytes
    decreases |bytes|
  {
    hide ReadFrame, FrameBytes;
    if bytes != [] {
      var (f, size) := ReadFrame(bytes).value;
      FrameWrittenBack(bytes);
      FrameNotEmpty(f);
      StreamWrittenBack(bytes[size..]);
      var frames := ReadFrames(bytes).value;
      assert frames[1..] == ReadFrames(bytes[size..]).value;
      assert bytes == bytes[..size] + bytes[size..];
    }
  }
}
