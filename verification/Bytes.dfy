/** Byte strings and the few operations the models share. */
module Bytes {

  type byte = x: int | 0 <= x < 256
  type Bytes = seq<byte>

  function Min(a: nat, b: nat): nat {
    if a <= b then a else b
  }

  /** Concatenation of a list of byte strings. */
  function Concat(parts: seq<Bytes>): Bytes {
    if parts == [] then [] else parts[0] + Concat(parts[1..])
  }

  lemma {:induction false} ConcatAppend(a: seq<Bytes>, b: seq<Bytes>)
    ensures Concat(a + b) == Concat(a) + Concat(b)
  {
    if a == [] {
      assert a + b == b;
    } else {
      assert (a + b)[1..] == a[1..] + b;
      ConcatAppend(a[1..], b);
    }
  }

  lemma ConcatSnoc(a: seq<Bytes>, x: Bytes)
    ensures Concat(a + [x]) == Concat(a) + x
  {
    ConcatAppend(a, [x]);
    assert Concat([x]) == x + Concat([x][1..]);
  }

  /** Copies `bytes` to `out[from..]`. */
  method CopyInto(out: array<byte>, from: nat, bytes: Bytes)
    requires from + |bytes| <= out.Length
    modifies out
    ensures out[..from + |bytes|] == old(out[..from]) + bytes
    ensures forall j :: from + |bytes| <= j < out.Length ==> out[j] == old(out[j])
  {
    forall i | 0 <= i < |bytes| {
      out[from + i] := bytes[i];
    }
  }

  function Pow2(k: nat): (r: nat)
    ensures 0 < r
  {
    if k == 0 then 1 else 2 * Pow2(k - 1)
  }

  /** Exclusive or of the low `k` bits. */
  function XorBits(a: nat, b: nat, k: nat): (r: nat)
    ensures r < Pow2(k)
  {
    if k == 0 then 0
    else (if a % 2 == b % 2 then 0 else 1) + 2 * XorBits(a / 2, b / 2, k - 1)
  }

  function Xor(a: byte, b: byte): byte {
    XorBits(a, b, 8)
  }

  /** Byte by byte over the common length; the rest of `a` stays. */
  function Xored(a: Bytes, b: Bytes): (r: Bytes)
    ensures |r| == |a|
  {
    seq(|a|, i requires 0 <= i < |a| => if i < |b| then Xor(a[i], b[i]) else a[i])
  }

  lemma LowBit(bit: nat, rest: nat)
    requires bit < 2
    ensures (bit + 2 * rest) % 2 == bit && (bit + 2 * rest) / 2 == rest
  {
  }

  lemma {:induction false} XorBitsUndone(a: nat, b: nat, k: nat)
    requires a < Pow2(k)
    ensures XorBits(XorBits(a, b, k), b, k) == a
    decreases k
  {
    if k > 0 {
      var bit := if a % 2 == b % 2 then 0 else 1;
      var rest := XorBits(a / 2, b / 2, k - 1);
      LowBit(bit, rest);
      XorBitsUndone(a / 2, b / 2, k - 1);
    }
  }

  lemma {:induction false} XorBitsCommutes(a: nat, b: nat, k: nat)
    ensures XorBits(a, b, k) == XorBits(b, a, k)
    decreases k
  {
    if k > 0 {
      XorBitsCommutes(a / 2, b / 2, k - 1);
    }
  }

  lemma Pow2Of8()
    ensures Pow2(8) == 256
  {
    assert Pow2(4) == 16;
  }

  lemma XorUndone(a: byte, b: byte)
    ensures Xor(Xor(a, b), b) == a
  {
    Pow2Of8();
    XorBitsUndone(a, b, 8);
  }

  lemma XorCommutes(a: byte, b: byte)
    ensures Xor(a, b) == Xor(b, a)
  {
    XorBitsCommutes(a, b, 8);
  }

  /** Bit `i` of a number, the lowest one first. */
  function Bit(a: nat, i: nat): nat {
    a / Pow2(i) % 2
  }

  lemma HalveTwice(a: nat, p: nat)
    requires 0 < p
    ensures a / (2 * p) == a / 2 / p
  {
    var q, s := a / 2 / p, a / 2 % p;
    assert a / 2 == q * p + s;
    assert a == q * (2 * p) + (2 * s + a % 2);
    DivIs(a, 2 * p, q, 2 * s + a % 2);
  }

  lemma DivIs(a: nat, d: nat, q: nat, r: nat)
    requires a == q * d + r && r < d
    ensures a / d == q
  {
    var other := a / d;
    assert a == other * d + a % d;
    if q < other {
      NextMultiple(q, other, d);
    } else if other < q {
      NextMultiple(other, q, d);
    }
  }

  lemma NextMultiple(x: nat, y: nat, d: nat)
    requires x < y
    ensures x * d + d <= y * d
  {
    assert (x + 1) * d <= y * d;
  }

  /** Above the lowest bit the bits are those of the half. */
  lemma BitHalves(a: nat, i: nat)
    requires 0 < i
    ensures Bit(a, i) == Bit(a / 2, i - 1)
  {
    HalveTwice(a, Pow2(i - 1));
  }

  lemma {:induction false} XorBitsExact(a: nat, b: nat, k: nat, i: nat)
    requires i < k
    ensures Bit(XorBits(a, b, k), i) == if Bit(a, i) == Bit(b, i) then 0 else 1
    decreases k
  {
    var bit := if a % 2 == b % 2 then 0 else 1;
    LowBit(bit, XorBits(a / 2, b / 2, k - 1));
    if i == 0 {
      assert Pow2(0) == 1;
    } else {
      BitHalves(a, i);
      BitHalves(b, i);
      BitHalves(XorBits(a, b, k), i);
      XorBitsExact(a / 2, b / 2, k - 1, i - 1);
    }
  }

  /** Exclusive or, bit by bit: set exactly where the two bytes differ. */
  lemma XorExact(a: byte, b: byte, i: nat)
    requires i < 8
    ensures Bit(Xor(a, b), i) == 1 <==> Bit(a, i) != Bit(b, i)
  {
    XorBitsExact(a, b, 8, i);
  }

  lemma {:induction false} SameLowBits(a: nat, b: nat, k: nat)
    requires a < Pow2(k) && b < Pow2(k) && forall i :: 0 <= i < k ==> Bit(a, i) == Bit(b, i)
    ensures a == b
    decreases k
  {
    if k > 0 {
      assert Pow2(0) == 1 && Bit(a, 0) == Bit(b, 0);
      forall i | 0 <= i < k - 1 ensures Bit(a / 2, i) == Bit(b / 2, i) {
        BitHalves(a, i + 1);
        BitHalves(b, i + 1);
      }
      SameLowBits(a / 2, b / 2, k - 1);
    }
  }

  /** Eight bits make up a byte, so their exclusive or is the only byte with the
      bits that `XorExact` gives. */
  lemma SameBits(a: byte, b: byte)
    requires forall i :: 0 <= i < 8 ==> Bit(a, i) == Bit(b, i)
    ensures a == b
  {
    Pow2Of8();
    SameLowBits(a, b, 8);
  }

  /** Masking a string: bit `i` of byte `j` is set exactly where mask and string
      differ, and bytes beyond the mask stay. */
  lemma XoredExact(a: Bytes, b: Bytes, j: nat, i: nat)
    requires j < |a| && i < 8
    ensures Bit(Xored(a, b)[j], i) == 1 <==> if j < |b| then Bit(a[j], i) != Bit(b[j], i) else Bit(a[j], i) == 1
  {
    if j < |b| {
      XorExact(a[j], b[j], i);
    }
  }

  // ---------------------------------------------------------------------
  // ASCII.
  // ---------------------------------------------------------------------

  /** The bytes of an ASCII string. */
  function Label(s: string): Bytes {
    seq(|s|, i requires 0 <= i < |s| => (s[i] as int) % 256)
  }

  /** One byte per character, its code. */
  lemma LabelExact(s: string)
    requires forall i :: 0 <= i < |s| ==> s[i] as int < 128
    ensures |Label(s)| == |s| && forall i :: 0 <= i < |s| ==> Label(s)[i] == s[i] as int
  {
  }

  /** Applying the same mask twice gives the string back. */
  lemma XoredUndone(a: Bytes, b: Bytes)
    ensures Xored(Xored(a, b), b) == a
  {
    forall i | 0 <= i < |a| ensures Xored(Xored(a, b), b)[i] == a[i] {
      if i < |b| {
        XorUndone(a[i], b[i]);
      }
    }
  }

  lemma XoredCommutes(a: Bytes, b: Bytes)
    requires |a| == |b|
    ensures Xored(a, b) == Xored(b, a)
  {
    forall i | 0 <= i < |a| ensures Xored(a, b)[i] == Xored(b, a)[i] {
      XorCommutes(a[i], b[i]);
    }
  }
}
