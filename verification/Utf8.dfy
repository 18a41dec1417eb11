/** UTF-8 (section 3 of RFC 3629): the bytes of a text, and reading them back. */
module Utf8 {
  import opened Wrappers
  import opened Bytes

  /** A Unicode scalar value: any code point but a surrogate. */
  type scalar = x: int | 0 <= x < 0xD800 || 0xE000 <= x < 0x110000
  type Text = seq<scalar>

  /** The bit distribution of section 3. */
  function EncodeScalar(c: scalar): (r: Bytes)
    ensures 1 <= |r| <= 4
  {
    if c < 0x80 then [c]
    else if c < 0x800 then [0xC0 + c / 64, 0x80 + c % 64]
    else if c < 0x10000 then [0xE0 + c / 64 / 64, 0x80 + c / 64 % 64, 0x80 + c % 64]
    else [0xF0 + c / 64 / 64 / 64, 0x80 + c / 64 / 64 % 64, 0x80 + c / 64 % 64, 0x80 + c % 64]
  }

  /** The code point is the payload bits of its bytes, six in each continuation
      byte, and the first byte tells how many bytes there are. */
  lemma ScalarBits(c: scalar)
    ensures var b: seq<int> := EncodeScalar(c);
            match |b|
            case 1 => c < 0x80 && c == b[0]
            case 2 => 0x80 <= c < 0x800 && 0xC2 <= b[0] <= 0xDF && Tail(b[1])
                      && c == (b[0] - 0xC0) * 0x40 + (b[1] - 0x80)
            case 3 => 0x800 <= c < 0x10000 && 0xE0 <= b[0] <= 0xEF && Tail(b[1]) && Tail(b[2])
                      && c == (b[0] - 0xE0) * 0x1000 + (b[1] - 0x80) * 0x40 + (b[2] - 0x80)
            case _ => 0x10000 <= c && 0xF0 <= b[0] <= 0xF4 && Tail(b[1]) && Tail(b[2]) && Tail(b[3])
                      && c == (b[0] - 0xF0) * 0x40000 + (b[1] - 0x80) * 0x1000 + (b[2] - 0x80) * 0x40
                              + (b[3] - 0x80)
  {
  }

  function Encode(t: Text): Bytes {
    if t == [] then [] else EncodeScalar(t[0]) + Encode(t[1..])
  }

  predicate Tail(b: int) {
    0x80 <= b <= 0xBF
  }

  /** The second bytes allowed after each first byte of a three-byte form
      (section 4): no overlong forms, no surrogates. */
  predicate SecondOfThree(b0: byte, b1: byte) {
    || (b0 == 0xE0 && 0xA0 <= b1 <= 0xBF)
    || (0xE1 <= b0 <= 0xEF && b0 != 0xED && Tail(b1))
    || (b0 == 0xED && 0x80 <= b1 <= 0x9F)
  }

  /** The same for a four-byte form: no overlong forms, nothing above 10FFFF. */
  predicate SecondOfFour(b0: byte, b1: byte) {
    || (b0 == 0xF0 && 0x90 <= b1 <= 0xBF)
    || (0xF1 <= b0 <= 0xF3 && Tail(b1))
    || (b0 == 0xF4 && 0x80 <= b1 <= 0x8F)
  }

  datatype Head = Head(scalar: scalar, size: nat)

  /** The first character of a byte string. */
  function DecodeHead(b: Bytes): (r: Option<Head>)
    ensures r.Some? ==> 0 < r.value.size <= |b|
  {
    if |b| >= 1 && b[0] < 0x80 then Some(Head(b[0], 1))
    else if |b| >= 2 && 0xC2 <= b[0] <= 0xDF && Tail(b[1]) then
      Some(Head(Join(Low(b[0], 0xC0), b[1]), 2))
    else if |b| >= 3 && SecondOfThree(b[0], b[1]) && Tail(b[2]) then
      Some(Head(Join(Join(Low(b[0], 0xE0), b[1]), b[2]), 3))
    else if |b| >= 4 && SecondOfFour(b[0], b[1]) && Tail(b[2]) && Tail(b[3]) then
      Some(Head(Join(Join(Join(Low(b[0], 0xF0), b[1]), b[2]), b[3]), 4))
    else None
  }

  /** The payload bits of a first byte. */
  function Low(b: int, marker: int): int {
    b - marker
  }

  /** Six more bits from a continuation byte. */
  function Join(high: int, b: int): int {
    high * 64 + (b - 0x80)
  }

  function Decode(b: Bytes): Option<Text>
    decreases |b|
  {
    if b == [] then Some([])
    else
      var head :- DecodeHead(b);
      var rest :- Decode(b[head.size..]);
      Some([head.scalar] + rest)
  }

  lemma JoinSplits(high: int, b: byte)
    requires Tail(b)
    ensures Join(high, b) / 64 == high && Join(high, b) % 64 == b - 0x80
  {
  }

  lemma DecodeHeadShort(c: scalar, rest: Bytes)
    requires c < 0x800
    ensures DecodeHead(EncodeScalar(c) + rest) == Some(Head(c, |EncodeScalar(c)|))
  {
    var b := EncodeScalar(c) + rest;
    if c < 0x80 {
      assert b[0] == c;
    } else {
      assert b[0] == 0xC0 + c / 64 && b[1] == 0x80 + c % 64;
    }
  }

  lemma DecodeHeadThree(c: scalar, rest: Bytes)
    requires 0x800 <= c < 0x10000
    ensures DecodeHead(EncodeScalar(c) + rest) == Some(Head(c, 3))
  {
    var b := EncodeScalar(c) + rest;
    assert b[0] == 0xE0 + c / 64 / 64 && b[1] == 0x80 + c / 64 % 64 && b[2] == 0x80 + c % 64;
  }

  lemma DecodeHeadFour(c: scalar, rest: Bytes)
    requires 0x10000 <= c
    ensures DecodeHead(EncodeScalar(c) + rest) == Some(Head(c, 4))
  {
    var b := EncodeScalar(c) + rest;
    assert b[0] == 0xF0 + c / 64 / 64 / 64 && b[1] == 0x80 + c / 64 / 64 % 64;
    assert b[2] == 0x80 + c / 64 % 64 && b[3] == 0x80 + c % 64;
  }

  lemma DecodeHeadOfEncode(c: scalar, rest: Bytes)
    ensures DecodeHead(EncodeScalar(c) + rest) == Some(Head(c, |EncodeScalar(c)|))
  {
    if c < 0x800 {
      DecodeHeadShort(c, rest);
    } else if c < 0x10000 {
      DecodeHeadThree(c, rest);
    } else {
      DecodeHeadFour(c, rest);
    }
  }

  lemma EncodeOfDecodeHead(b: Bytes)
    requires DecodeHead(b).Some?
    ensures var h := DecodeHead(b).value;
            EncodeScalar(h.scalar) == b[..h.size]
  {
    var h := DecodeHead(b).value;
    if h.size == 2 {
      JoinSplits(Low(b[0], 0xC0), b[1]);
    } else if h.size == 3 {
      var x := Low(b[0], 0xE0);
      JoinSplits(x, b[1]);
      JoinSplits(Join(x, b[1]), b[2]);
    } else if h.size == 4 {
      var x := Low(b[0], 0xF0);
      JoinSplits(x, b[1]);
      JoinSplits(Join(x, b[1]), b[2]);
      JoinSplits(Join(Join(x, b[1]), b[2]), b[3]);
    }
  }

  lemma {:induction false} DecodeOfEncode(t: Text)
    ensures Decode(Encode(t)) == Some(t)
    decreases |t|
  {
    if t != [] {
      var e, rest := EncodeScalar(t[0]), Encode(t[1..]);
      DecodeHeadOfEncode(t[0], rest);
      DecodeOfEncode(t[1..]);
      assert (e + rest)[|e|..] == rest;
      assert [t[0]] + t[1..] == t;
    }
  }

  lemma {:induction false} EncodeOfDecode(b: Bytes)
    requires Decode(b).Some?
    ensures Encode(Decode(b).value) == b
    decreases |b|
  {
    if b != [] {
      var h := DecodeHead(b).value;
      EncodeOfDecodeHead(b);
      EncodeOfDecode(b[h.size..]);
      EncodeCons(h.scalar, Decode(b[h.size..]).value, b, h.size);
    }
  }

  lemma EncodeCons(c: scalar, t: Text, b: Bytes, k: nat)
    requires k <= |b| && EncodeScalar(c) == b[..k] && Encode(t) == b[k..]
    ensures Encode([c] + t) == b
  {
    assert ([c] + t)[1..] == t;
    assert b[..k] + b[k..] == b;
  }

  /** A byte string reads as a text exactly when it is that text's encoding. */
  lemma DecodeExact(b: Bytes, t: Text)
    ensures Decode(b) == Some(t) <==> b == Encode(t)
  {
    if Decode(b) == Some(t) {
      EncodeOfDecode(b);
    }
    DecodeOfEncode(t);
  }
}
