/**
  Cipher block chaining (section 6.2 of NIST SP 800-38A) over a block cipher and
  a MAC that are parameters: AES-256 and HMAC-SHA256 in the source.
 */
module Cbc {
  import opened Bytes

  const BLOCK := 16

  datatype Primitives = Primitives(
    encrypt: (Bytes, Bytes) -> Bytes,
    decrypt: (Bytes, Bytes) -> Bytes,
    hmac: (Bytes, Bytes) -> Bytes)

  ghost predicate Inverse(c: Primitives, k: Bytes, b: Bytes) {
    && |c.encrypt(k, b)| == BLOCK && c.decrypt(k, c.encrypt(k, b)) == b
    && |c.decrypt(k, b)| == BLOCK && c.encrypt(k, c.decrypt(k, b)) == b
  }

  ghost predicate MacSized(c: Primitives, k: Bytes, x: Bytes) {
    |c.hmac(k, x)| == 32
  }

  /** Each key makes `encrypt` and `decrypt` inverse permutations of the
      16-byte blocks, and a MAC has 32 bytes.  Nothing else is assumed. */
  ghost predicate Correct(c: Primitives) {
    && (forall k: Bytes, b: Bytes :: |b| == BLOCK ==> Inverse(c, k, b))
    && (forall k: Bytes, x: Bytes :: MacSized(c, k, x))
  }

  /** The whole blocks of `p`, each masked with the ciphertext before it. */
  function Encrypt(c: Primitives, key: Bytes, chain: Bytes, p: Bytes): Bytes
    decreases |p|
  {
    if |p| < BLOCK then []
    else
      var block := c.encrypt(key, Xored(p[..BLOCK], chain));
      block + Encrypt(c, key, block, p[BLOCK..])
  }

  function Decrypt(c: Primitives, key: Bytes, chain: Bytes, x: Bytes): Bytes
    decreases |x|
  {
    if |x| < BLOCK then []
    else Xored(c.decrypt(key, x[..BLOCK]), chain) + Decrypt(c, key, x[..BLOCK], x[BLOCK..])
  }

  lemma {:induction false} EncryptSize(c: Primitives, key: Bytes, chain: Bytes, p: Bytes)
    requires Correct(c) && |p| % BLOCK == 0
    ensures |Encrypt(c, key, chain, p)| == |p|
    decreases |p|
  {
    if p != [] {
      assert Inverse(c, key, Xored(p[..BLOCK], chain));
      EncryptSize(c, key, c.encrypt(key, Xored(p[..BLOCK], chain)), p[BLOCK..]);
    }
  }

  lemma {:induction false} DecryptSize(c: Primitives, key: Bytes, chain: Bytes, x: Bytes)
    requires Correct(c) && |x| % BLOCK == 0
    ensures |Decrypt(c, key, chain, x)| == |x|
    decreases |x|
  {
    if x != [] {
      assert Inverse(c, key, x[..BLOCK]);
      DecryptSize(c, key, x[..BLOCK], x[BLOCK..]);
    }
  }

  lemma EncryptUnfold(c: Primitives, key: Bytes, chain: Bytes, p: Bytes, rest: Bytes)
    requires |p| == BLOCK
    ensures var block := c.encrypt(key, Xored(p, chain));
            Encrypt(c, key, chain, p + rest) == block + Encrypt(c, key, block, rest)
  {
    assert (p + rest)[..BLOCK] == p && (p + rest)[BLOCK..] == rest;
  }

  lemma DecryptUnfold(c: Primitives, key: Bytes, chain: Bytes, x: Bytes, rest: Bytes)
    requires |x| == BLOCK
    ensures Decrypt(c, key, chain, x + rest)
         == Xored(c.decrypt(key, x), chain) + Decrypt(c, key, x, rest)
  {
    assert (x + rest)[..BLOCK] == x && (x + rest)[BLOCK..] == rest;
  }

  /** Decryption undoes encryption. */
  lemma {:induction false} DecryptOfEncrypt(c: Primitives, key: Bytes, chain: Bytes, p: Bytes)
    requires Correct(c) && |p| % BLOCK == 0
    ensures |Encrypt(c, key, chain, p)| == |p|
    ensures Decrypt(c, key, chain, Encrypt(c, key, chain, p)) == p
    decreases |p|
  {
    EncryptSize(c, key, chain, p);
    if p != [] {
      var block := c.encrypt(key, Xored(p[..BLOCK], chain));
      var rest := Encrypt(c, key, block, p[BLOCK..]);
      assert Inverse(c, key, Xored(p[..BLOCK], chain));
      EncryptSize(c, key, block, p[BLOCK..]);
      DecryptOfEncrypt(c, key, block, p[BLOCK..]);
      DecryptUnfold(c, key, chain, block, rest);
      XoredUndone(p[..BLOCK], chain);
      assert p[..BLOCK] + p[BLOCK..] == p;
    }
  }

  /** Encryption undoes decryption. */
  lemma {:induction false} EncryptOfDecrypt(c: Primitives, key: Bytes, chain: Bytes, x: Bytes)
    requires Correct(c) && |x| % BLOCK == 0
    ensures |Decrypt(c, key, chain, x)| == |x|
    ensures Encrypt(c, key, chain, Decrypt(c, key, chain, x)) == x
    decreases |x|
  {
    DecryptSize(c, key, chain, x);
    if x != [] {
      var clear := c.decrypt(key, x[..BLOCK]);
      assert Inverse(c, key, x[..BLOCK]);
      EncryptOfDecrypt(c, key, x[..BLOCK], x[BLOCK..]);
      EncryptUnfold(c, key, chain, Xored(clear, chain), Decrypt(c, key, x[..BLOCK], x[BLOCK..]));
      XoredUndone(clear, chain);
      assert x[..BLOCK] + x[BLOCK..] == x;
    }
  }

  /** Block `j` of a byte string. */
  function Block(s: Bytes, j: nat): Bytes
    requires BLOCK * j + BLOCK <= |s|
  {
    s[BLOCK * j..BLOCK * j + BLOCK]
  }

  lemma BlockBehind(head: Bytes, rest: Bytes, j: nat)
    requires |head| == BLOCK && BLOCK * j + BLOCK <= |rest|
    ensures Block(head + rest, j + 1) == Block(rest, j)
    ensures Block(head + rest, 0) == head
  {
  }

  /** The chaining equation, block by block: the first ciphertext block is the
      cipher of the first plaintext block masked with the initial vector, and
      block `j` that of plaintext block `j` masked with ciphertext block `j-1`. */
  lemma {:induction false} ChainingEquation(c: Primitives, key: Bytes, iv: Bytes, p: Bytes, j: nat)
    requires Correct(c) && BLOCK * j + BLOCK <= |p|
    ensures BLOCK * j + BLOCK <= |Encrypt(c, key, iv, p)|
    ensures var x := Encrypt(c, key, iv, p);
            Block(x, j) == c.encrypt(key, Xored(Block(p, j), if j == 0 then iv else Block(x, j - 1)))
    decreases j
  {
    var head, tail := p[..BLOCK], p[BLOCK..];
    var first := c.encrypt(key, Xored(head, iv));
    var rest := Encrypt(c, key, first, tail);
    assert Inverse(c, key, Xored(head, iv));
    if j == 0 {
      assert Block(first + rest, 0) == first && Block(p, 0) == head;
    } else {
      ChainingEquation(c, key, first, tail, j - 1);
      assert p == head + tail;
      BlockBehind(head, tail, j - 1);
      BlockBehind(first, rest, j - 1);
      if j > 1 {
        BlockBehind(first, rest, j - 2);
      }
    }
  }

  /** Fills `out[from..from + |p|]` with the ciphertext, block after block. */
  method EncryptInto(c: Primitives, key: Bytes, iv: Bytes, p: Bytes, out: array<byte>, from: nat)
    requires Correct(c) && |p| % BLOCK == 0 && from + |p| <= out.Length
    modifies out
    ensures out[..from + |p|] == old(out[..from]) + Encrypt(c, key, iv, p)
    ensures forall j :: from + |p| <= j < out.Length ==> out[j] == old(out[j])
  {
    var i: nat, chain := 0, iv;
    ghost var done: Bytes := [];
    assert p[0..] == p;
    while i + BLOCK <= |p|
      invariant i <= |p| && (|p| - i) % BLOCK == 0
      invariant done + Encrypt(c, key, chain, p[i..]) == Encrypt(c, key, iv, p)
      invariant out[..from + i] == old(out[..from]) + done
      invariant forall j :: from + |p| <= j < out.Length ==> out[j] == old(out[j])
    {
      EncryptNext(c, key, chain, p, i, done);
      assert Inverse(c, key, Xored(p[i..i + BLOCK], chain));
      chain := c.encrypt(key, Xored(p[i..i + BLOCK], chain));
      CopyInto(out, from + i, chain);
      done := done + chain;
      i := i + BLOCK;
    }
    assert i == |p| && p[i..] == [];
    assert done + [] == done;
  }

  lemma EncryptNext(c: Primitives, key: Bytes, chain: Bytes, p: Bytes, i: nat, done: Bytes)
    requires i + BLOCK <= |p|
    ensures var block := c.encrypt(key, Xored(p[i..i + BLOCK], chain));
            done + Encrypt(c, key, chain, p[i..]) == done + block + Encrypt(c, key, block, p[i + BLOCK..])
  {
    assert p[i..] == p[i..i + BLOCK] + p[i + BLOCK..];
    EncryptUnfold(c, key, chain, p[i..i + BLOCK], p[i + BLOCK..]);
    var block := c.encrypt(key, Xored(p[i..i + BLOCK], chain));
    var rest := Encrypt(c, key, block, p[i + BLOCK..]);
    assert done + (block + rest) == done + block + rest;
  }

  /** Recovers the plaintext, block after block. */
  method DecryptAll(c: Primitives, key: Bytes, iv: Bytes, x: Bytes) returns (p: Bytes)
    ensures p == Decrypt(c, key, iv, x)
  {
    var i: nat, chain := 0, iv;
    p := [];
    assert x[0..] == x;
    while i + BLOCK <= |x|
      invariant i <= |x|
      invariant p + Decrypt(c, key, chain, x[i..]) == Decrypt(c, key, iv, x)
    {
      DecryptNext(c, key, chain, x, i, p);
      p := p + Xored(c.decrypt(key, x[i..i + BLOCK]), chain);
      chain := x[i..i + BLOCK];
      i := i + BLOCK;
    }
    assert p + [] == p;
  }

  lemma DecryptNext(c: Primitives, key: Bytes, chain: Bytes, x: Bytes, i: nat, done: Bytes)
    requires i + BLOCK <= |x|
    ensures var block := x[i..i + BLOCK];
            done + Decrypt(c, key, chain, x[i..])
            == done + Xored(c.decrypt(key, block), chain) + Decrypt(c, key, block, x[i + BLOCK..])
  {
    var block := x[i..i + BLOCK];
    assert x[i..] == block + x[i + BLOCK..];
    DecryptUnfold(c, key, chain, block, x[i + BLOCK..]);
    var clear := Xored(c.decrypt(key, block), chain);
    var rest := Decrypt(c, key, block, x[i + BLOCK..]);
    assert done + (clear + rest) == done + clear + rest;
  }
}
