/** The base64 encoder of the handshake, against the decoder of section 4 of RFC 4648. */
module Base64 {
  import opened Words

  type Byte = bv8

  const ALPHABET: string :=
    "ABCDEFGHIJKLM" + "NOPQRSTUVWXYZ" + "abcdefghijklm" + "nopqrstuvwxyz" + "0123456789+/"

  /** Six bits as a character of the alphabet. */
  function Symbol(v: Byte): char
    requires v < 64
  {
    ALPHABET[v as nat]
  }

  // ---------------------------------------------------------------- the encoder

  function First(a: Byte): (v: Byte)
    ensures v < 64
  {
    (a & 0xfc) >> 2
  }

  function Second(a: Byte, b: Byte): (v: Byte)
    ensures v < 64
  {
    ((a & 0x03) << 4) + ((b & 0xf0) >> 4)
  }

  function Third(b: Byte, c: Byte): (v: Byte)
    ensures v < 64
  {
    ((b & 0x0f) << 2) + ((c & 0xc0) >> 6)
  }

  function Fourth(c: Byte): (v: Byte)
    ensures v < 64
  {
    c & 0x3f
  }

  /** Three bytes as four characters. */
  function Quad(a: Byte, b: Byte, c: Byte): (s: string)
    ensures |s| == 4
  {
    [Symbol(First(a)), Symbol(Second(a, b)), Symbol(Third(b, c)), Symbol(Fourth(c))]
  }

  function Encode(bytes: seq<Byte>): string {
    if |bytes| == 0 then ""
    else if |bytes| == 1 then [Symbol(First(bytes[0])), Symbol(Second(bytes[0], 0)), '=', '=']
    else if |bytes| == 2 then
      [Symbol(First(bytes[0])), Symbol(Second(bytes[0], bytes[1])), Symbol(Third(bytes[1], 0)), '=']
    else Quad(bytes[0], bytes[1], bytes[2]) + Encode(bytes[3..])
  }

  lemma {:induction false} EncodeAppend(p: seq<Byte>, q: seq<Byte>)
    requires |p| % 3 == 0
    ensures Encode(p + q) == Encode(p) + Encode(q)
    decreases |p|
  {
    hide Quad, Encode;
    if p == [] {
      assert p + q == q;
      EncodeNone();
    } else {
      EncodeAppend(p[3..], q);
      EncodeFirst(p);
      EncodeFirst(p + q);
      assert (p + q)[3..] == p[3..] + q;
    }
  }

  lemma EncodeFirst(bytes: seq<Byte>)
    requires |bytes| >= 3
    ensures Encode(bytes) == Quad(bytes[0], bytes[1], bytes[2]) + Encode(bytes[3..])
  {
  }

  lemma EncodeNone()
    ensures Encode([]) == ""
  {
  }

  function Equals(n: nat): (s: string)
    ensures |s| == n
  {
    if n == 0 then "" else Equals(n - 1) + ['=']
  }

  /** The four characters of a full group. */
  method WriteGroup(char3: array<Byte>) returns (result: string)
    requires char3.Length == 3
    ensures result == Quad(char3[0], char3[1], char3[2])
  {
    hide Symbol, First, Second, Third, Fourth;
    var char4 := new Byte[4];
    char4[0] := First(char3[0]);
    char4[1] := Second(char3[0], char3[1]);
    char4[2] := Third(char3[1], char3[2]);
    char4[3] := Fourth(char3[2]);
    ghost var quad := Quad(char3[0], char3[1], char3[2]);
    result := "";
    var i := 0;
    while i < 4
      invariant 0 <= i <= 4
      invariant forall k :: 0 <= k < 4 ==> char4[k] < 64 && quad[k] == Symbol(char4[k])
      invariant result == quad[..i]
    {
      result := result + [Symbol(char4[i])];
      i := i + 1;
    }
  }

  /** The last group, of the first `count` bytes of the scratch array: zeros fill it up, '=' pads it. */
  method WriteRest(char3: array<Byte>, count: nat) returns (result: string)
    requires char3.Length == 3 && 1 <= count <= 2
    modifies char3
    ensures result == Encode(old(char3[..count]))
  {
    hide Symbol, First, Second, Third, Encode, Equals, Trio;
    ghost var rest := char3[..count];
    var i, j := count, count;
    while j < 3
      invariant count <= j <= 3 && char3[..count] == rest
      invariant forall k :: count <= k < j ==> char3[k] == 0
    {
      char3[j] := 0;
      j := j + 1;
    }
    var char4 := new Byte[4];
    char4[0] := First(char3[0]);
    char4[1] := Second(char3[0], char3[1]);
    char4[2] := Third(char3[1], char3[2]);
    ghost var trio := Trio(char3[0], char3[1], char3[2]);
    ghost var symbols := trio[..count + 1];
    TrioIs(char3[0], char3[1], char3[2]);
    assert rest[0] == char3[0] && (count == 2 ==> rest[1] == char3[1]);
    EncodeRest(rest, char3[1], char3[2]);
    NoEquals();
    result := "";
    j := 0;
    while j < i + 1
      invariant 0 <= j <= i + 1 && i == count
      invariant forall k :: 0 <= k < 3 ==> char4[k] < 64 && trio[k] == Symbol(char4[k])
      invariant result == trio[..j]
    {
      result := result + [Symbol(char4[j])];
      j := j + 1;
    }
    while i < 3
      invariant count <= i <= 3
      invariant result == symbols + Equals(i - count)
    {
      i := i + 1;
      result := result + ['='];
      OneMoreEquals(i - count);
    }
  }

  /** The three characters the left-over bytes can give. */
  function Trio(a: Byte, b: Byte, c: Byte): (s: string)
    ensures |s| == 3
  {
    [Symbol(First(a)), Symbol(Second(a, b)), Symbol(Third(b, c))]
  }

  lemma TrioIs(a: Byte, b: Byte, c: Byte)
    ensures var s := Trio(a, b, c);
      s[0] == Symbol(First(a)) && s[1] == Symbol(Second(a, b)) && s[2] == Symbol(Third(b, c))
  {
  }

  lemma NoEquals()
    ensures Equals(0) == ""
  {
  }

  lemma OneMoreEquals(n: nat)
    requires n > 0
    ensures Equals(n) == Equals(n - 1) + ['=']
  {
  }

  lemma Padded(x: char, y: char, z: char)
    ensures [x, y, z][..2] + Equals(2) == [x, y, '=', '=']
    ensures [x, y, z][..3] + Equals(1) == [x, y, z, '=']
  {
    assert Equals(1) == "" + ['='] && Equals(2) == Equals(1) + ['='];
  }

  lemma EncodeRest(rest: seq<Byte>, b: Byte, c: Byte)
    requires 1 <= |rest| <= 2 && c == 0 && b == (if |rest| == 2 then rest[1] else 0)
    ensures Encode(rest) == Trio(rest[0], b, c)[..|rest| + 1] + Equals(3 - |rest|)
  {
    hide Symbol, First, Second, Third, Equals;
    Padded(Symbol(First(rest[0])), Symbol(Second(rest[0], b)), Symbol(Third(b, c)));
  }

  method Base64Encode(buffer: seq<Byte>) returns (result: string)
    ensures result == Encode(buffer)
  {
    hide *;
    result := "";
    var length := |buffer|;
    var next, i := 0, 0;
    var char3 := new Byte[3];
    ghost var done: seq<Byte>, rest: seq<Byte> := [], [];
    EncodeNone();
    while length > 0
      invariant length == |buffer| - next && 0 <= next <= |buffer|
      invariant buffer[..next] == done + rest
      invariant |done| % 3 == 0 && |rest| == i < 3
      invariant char3[..i] == rest
      invariant result == Encode(done)
    {
      length := length - 1;
      char3[i] := buffer[next];
      rest := rest + [buffer[next]];
      next, i := next + 1, i + 1;
      assert char3[..i] == rest;
      assert buffer[..next] == done + rest;
      if i == 3 {
        assert char3[0] == rest[0] && char3[1] == rest[1] && char3[2] == rest[2];
        var group := WriteGroup(char3);
        EncodeThree(rest);
        EncodeAppend(done, rest);
        result := result + group;
        done, rest, i := done + rest, [], 0;
        assert buffer[..next] == done + rest;
      }
    }
    assert buffer[..next] == buffer;
    EncodeAppend(done, rest);
    if i != 0 {
      var group := WriteRest(char3, i);
      result := result + group;
    } else {
      assert done + rest == done;
    }
  }

  lemma EncodeThree(three: seq<Byte>)
    requires |three| == 3
    ensures Encode(three) == Quad(three[0], three[1], three[2])
  {
    assert Encode(three[3..]) == "";
  }

  // ---------------------------------------------------------------- the decoder

  /** The index of a character in the alphabet, by its range. */
  function Rank(c: char): (r: int)
    ensures -1 <= r < 64
  {
    if 'A' <= c <= 'Z' then c as int - 'A' as int
    else if 'a' <= c <= 'z' then c as int - 'a' as int + 26
    else if '0' <= c <= '9' then c as int - '0' as int + 52
    else if c == '+' then 62
    else if c == '/' then 63
    else -1
  }

  function Value(c: char): Option<Byte> {
    if Rank(c) >= 0 then Some(Rank(c) as Byte) else None
  }

  /** Four characters without padding: 24 bits. */
  function DecodeFour(a: char, b: char, c: char, d: char): Option<seq<Byte>> {
    match (Value(a), Value(b), Value(c), Value(d))
    case (Some(p), Some(q), Some(r), Some(s)) => Some([(p << 2) | (q >> 4), (q << 4) | (r >> 2), (r << 6) | s])
    case _ => None
  }

  /** The last four characters: two '=' leave 8 bits, one leaves 16. Pad bits must be zero. */
  function DecodeLast(a: char, b: char, c: char, d: char): Option<seq<Byte>> {
    if d != '=' then DecodeFour(a, b, c, d)
    else if c == '=' then
      match (Value(a), Value(b))
      case (Some(p), Some(q)) => if q & 0x0f == 0 then Some([(p << 2) | (q >> 4)]) else None
      case _ => None
    else
      match (Value(a), Value(b), Value(c))
      case (Some(p), Some(q), Some(r)) =>
        if r & 0x03 == 0 then Some([(p << 2) | (q >> 4), (q << 4) | (r >> 2)]) else None
      case _ => None
  }

  function Decode(s: string): Option<seq<Byte>> {
    if |s| == 0 then Some([])
    else if |s| < 4 then None
    else if |s| == 4 then DecodeLast(s[0], s[1], s[2], s[3])
    else
      match (DecodeFour(s[0], s[1], s[2], s[3]), Decode(s[4..]))
      case (Some(front), Some(back)) => Some(front + back)
      case _ => None
  }

  // ---------------------------------------------------------------- the alphabet

  lemma UpperTable(i: nat)
    requires i < 26
    ensures Rank(ALPHABET[i]) == i
  {
  }

  lemma LowerTable(i: nat)
    requires 26 <= i < 52
    ensures Rank(ALPHABET[i]) == i
  {
  }

  lemma DigitTable(i: nat)
    requires 52 <= i < 64
    ensures Rank(ALPHABET[i]) == i
  {
  }

  lemma RankOfSymbol(v: Byte)
    requires v < 64
    ensures Rank(Symbol(v)) == v as nat
  {
    hide Rank;
    var i := v as nat;
    if i < 26 {
      UpperTable(i);
    } else if i < 52 {
      LowerTable(i);
    } else {
      DigitTable(i);
    }
  }

  lemma ByteOfNat(v: Byte)
    ensures (v as nat) as Byte == v
  {
  }

  lemma NextByte(v: Byte)
    requires v < 64
    ensures (v + 1) as nat == v as nat + 1
  {
  }

  lemma {:induction false} ByteFor(i: nat) returns (v: Byte)
    requires i <= 64
    ensures v <= 64 && v as nat == i
  {
    if i == 0 {
      v := 0;
    } else {
      var u := ByteFor(i - 1);
      NextByte(u);
      v := u + 1;
    }
  }

  lemma RankInjective(c: char, d: char)
    requires Rank(c) == Rank(d) >= 0
    ensures c == d
  {
  }

  /** A character of the alphabet is the symbol of its value, and no symbol is '='. */
  lemma ValueOfSymbol(v: Byte)
    requires v < 64
    ensures Value(Symbol(v)) == Some(v) && Symbol(v) != '='
  {
    hide Rank, Symbol;
    RankOfSymbol(v);
    ByteOfNat(v);
    EqualsHasNoRank();
  }

  lemma EqualsHasNoRank()
    ensures Rank('=') == -1
  {
  }

  lemma SymbolOfValue(c: char)
    requires Value(c).Some?
    ensures Value(c).value < 64 && Symbol(Value(c).value) == c
  {
    hide Rank, Symbol;
    var v := ByteFor(Rank(c));
    ByteOfNat(v);
    ValueBelow(v);
    RankOfSymbol(v);
    RankInjective(Symbol(v), c);
  }

  lemma ValueBelow(v: Byte)
    requires v as nat < 64
    ensures v < 64
  {
  }

  // ---------------------------------------------------------------- round trips

  lemma FourOfQuad(a: Byte, b: Byte, c: Byte)
    ensures var s := Quad(a, b, c);
      s[3] != '=' && DecodeFour(s[0], s[1], s[2], s[3]) == Some([a, b, c])
  {
    hide Symbol, Value;
    ValueOfSymbol(First(a));
    ValueOfSymbol(Second(a, b));
    ValueOfSymbol(Third(b, c));
    ValueOfSymbol(Fourth(c));
  }

  lemma LastOfTwo(a: Byte, b: Byte)
    ensures DecodeLast(Symbol(First(a)), Symbol(Second(a, b)), Symbol(Third(b, 0)), '=') == Some([a, b])
  {
    hide Symbol, Value;
    ValueOfSymbol(First(a));
    ValueOfSymbol(Second(a, b));
    ValueOfSymbol(Third(b, 0));
  }

  lemma LastOfOne(a: Byte)
    ensures DecodeLast(Symbol(First(a)), Symbol(Second(a, 0)), '=', '=') == Some([a])
  {
    hide Symbol, Value;
    ValueOfSymbol(First(a));
    ValueOfSymbol(Second(a, 0));
  }

  /** Decoding undoes encoding. */
  lemma {:induction false} DecodeOfEncode(bytes: seq<Byte>)
    ensures Decode(Encode(bytes)) == Some(bytes)
    decreases |bytes|
  {
    hide Symbol, First, Second, Third, Fourth, Quad, Decode, DecodeFour, DecodeLast;
    if |bytes| == 0 {
      DecodeNone();
    } else if |bytes| == 1 {
      LastOfOne(bytes[0]);
      DecodeOnly(Encode(bytes));
      assert bytes == [bytes[0]];
    } else if |bytes| == 2 {
      LastOfTwo(bytes[0], bytes[1]);
      DecodeOnly(Encode(bytes));
      assert bytes == [bytes[0], bytes[1]];
    } else {
      FourOfQuad(bytes[0], bytes[1], bytes[2]);
      DecodeOfEncode(bytes[3..]);
      DecodeOfFirst(Quad(bytes[0], bytes[1], bytes[2]), Encode(bytes[3..]));
      assert bytes == [bytes[0], bytes[1], bytes[2]] + bytes[3..];
    }
  }

  lemma DecodeNone()
    ensures Decode("") == Some([])
  {
  }

  lemma DecodeOnly(s: string)
    requires |s| == 4
    ensures Decode(s) == DecodeLast(s[0], s[1], s[2], s[3])
  {
  }

  lemma DecodeOfFirst(front: string, rest: string)
    requires |front| == 4 && front[3] != '='
    requires DecodeFour(front[0], front[1], front[2], front[3]).Some? && Decode(rest).Some?
    ensures Decode(front + rest) == Some(DecodeFour(front[0], front[1], front[2], front[3]).value + Decode(rest).value)
  {
    hide DecodeFour;
    var s := front + rest;
    assert s[4..] == rest;
    if rest == "" {
      DecodeNone();
      assert s == front;
      var bytes := DecodeFour(front[0], front[1], front[2], front[3]).value;
      assert bytes + [] == bytes;
    }
  }

  /** No two byte strings share an encoding. */
  lemma EncodeInjective(p: seq<Byte>, q: seq<Byte>)
    requires Encode(p) == Encode(q)
    ensures p == q
  {
    hide Encode, Decode;
    DecodeOfEncode(p);
    DecodeOfEncode(q);
  }

  function Padding(n: nat): nat {
    (3 - n % 3) % 3
  }

  lemma {:induction false} EncodedLength(bytes: seq<Byte>)
    ensures |Encode(bytes)| == 4 * ((|bytes| + 2) / 3)
    decreases |bytes|
  {
    hide Symbol, Quad;
    if |bytes| >= 3 {
      EncodedLength(bytes[3..]);
    }
  }

  lemma SymbolsNotEquals(a: Byte, b: Byte, c: Byte)
    ensures Symbol(First(a)) != '=' && Symbol(Second(a, b)) != '=' && Symbol(Third(b, c)) != '='
    ensures var s := Quad(a, b, c);
      s[0] != '=' && s[1] != '=' && s[2] != '=' && s[3] != '='
  {
    hide Symbol, Value;
    ValueOfSymbol(First(a));
    ValueOfSymbol(Second(a, b));
    ValueOfSymbol(Third(b, c));
    ValueOfSymbol(Fourth(c));
  }

  /** The padding characters are the last ones, and as many as the last group is short of three bytes. */
  lemma {:induction false} PaddingAtEnd(bytes: seq<Byte>, i: nat)
    requires i < |Encode(bytes)|
    ensures Encode(bytes)[i] == '=' <==> i >= |Encode(bytes)| - Padding(|bytes|)
    decreases |bytes|
  {
    hide Symbol, First, Second, Third, Fourth, Quad;
    EncodedLength(bytes);
    if |bytes| == 1 {
      SymbolsNotEquals(bytes[0], 0, 0);
    } else if |bytes| == 2 {
      SymbolsNotEquals(bytes[0], bytes[1], 0);
    } else if |bytes| >= 3 {
      SymbolsNotEquals(bytes[0], bytes[1], bytes[2]);
      EncodedLength(bytes[3..]);
      if i >= 4 {
        PaddingAtEnd(bytes[3..], i - 4);
      }
    }
  }

  lemma QuadOfFour(a: char, b: char, c: char, d: char)
    requires DecodeFour(a, b, c, d).Some?
    ensures var t := DecodeFour(a, b, c, d).value;
      |t| == 3 && Quad(t[0], t[1], t[2]) == [a, b, c, d]
  {
    hide Symbol, Value, First, Second, Third, Fourth, DecodeFour;
    FourParts(a, b, c, d);
    SymbolOfValue(a);
    SymbolOfValue(b);
    SymbolOfValue(c);
    SymbolOfValue(d);
    SixBitsBack(Value(a).value, Value(b).value, Value(c).value, Value(d).value);
  }

  lemma FourParts(a: char, b: char, c: char, d: char)
    requires DecodeFour(a, b, c, d).Some?
    ensures Value(a).Some? && Value(b).Some? && Value(c).Some? && Value(d).Some?
    ensures var p, q, r, s := Value(a).value, Value(b).value, Value(c).value, Value(d).value;
      DecodeFour(a, b, c, d) == Some([(p << 2) | (q >> 4), (q << 4) | (r >> 2), (r << 6) | s])
  {
    hide Value;
  }

  /** 24 bits cut into bytes and again into sextets. */
  lemma SixBitsBack(p: Byte, q: Byte, r: Byte, s: Byte)
    requires p < 64 && q < 64 && r < 64 && s < 64
    ensures First((p << 2) | (q >> 4)) == p
    ensures Second((p << 2) | (q >> 4), (q << 4) | (r >> 2)) == q
    ensures Third((q << 4) | (r >> 2), (r << 6) | s) == r
    ensures Fourth((r << 6) | s) == s
  {
  }

  lemma EncodeOfLastTwo(a: char, b: char, c: char)
    requires c != '=' && DecodeLast(a, b, c, '=').Some?
    ensures Encode(DecodeLast(a, b, c, '=').value) == [a, b, c, '=']
  {
    hide Symbol, Value;
    SymbolOfValue(a);
    SymbolOfValue(b);
    SymbolOfValue(c);
  }

  lemma EncodeOfLastOne(a: char, b: char)
    requires DecodeLast(a, b, '=', '=').Some?
    ensures Encode(DecodeLast(a, b, '=', '=').value) == [a, b, '=', '=']
  {
    hide Symbol, Value;
    SymbolOfValue(a);
    SymbolOfValue(b);
  }

  /** The decoder accepts nothing but encodings. */
  lemma {:induction false} EncodeOfDecode(s: string)
    requires Decode(s).Some?
    ensures Encode(Decode(s).value) == s
    decreases |s|
  {
    hide Symbol, First, Second, Third, Fourth, Quad, DecodeFour, Value;
    if |s| == 4 {
      if s[3] != '=' {
        QuadOfFour(s[0], s[1], s[2], s[3]);
        EncodeThree(Decode(s).value);
      } else if s[2] == '=' {
        EncodeOfLastOne(s[0], s[1]);
      } else {
        EncodeOfLastTwo(s[0], s[1], s[2]);
      }
    } else if |s| > 4 {
      QuadOfFour(s[0], s[1], s[2], s[3]);
      var front, back := DecodeFour(s[0], s[1], s[2], s[3]).value, Decode(s[4..]).value;
      EncodeOfDecode(s[4..]);
      EncodeThree(front);
      EncodeAppend(front, back);
      assert s == [s[0], s[1], s[2], s[3]] + s[4..];
    }
  }
}
