/**
  HMAC-SHA256-SIV, the fixed-length encryption of the master key
  (rust/account-keys/src/hash.rs).  The MAC is a parameter.
 */
module Siv {
  import opened Wrappers
  import opened Bytes

  type Mac = (Bytes, Bytes) -> Bytes

  const IV_LEN := 16
  const KEY_LEN := 32
  const BLOB_LEN := IV_LEN + KEY_LEN

  const AUTH: Bytes := Label("auth")
  const ENC: Bytes := Label("enc")

  ghost predicate Correct(hmac: Mac) {
    forall k: Bytes, x: Bytes :: |hmac(k, x)| == KEY_LEN
  }

  /** The synthetic vector of a message. */
  function Vector(hmac: Mac, key: Bytes, m: Bytes): Bytes
    requires Correct(hmac)
  {
    hmac(hmac(key, AUTH), m)[..IV_LEN]
  }

  /** The mask drawn from a vector. */
  function Mask(hmac: Mac, key: Bytes, iv: Bytes): Bytes {
    hmac(hmac(key, ENC), iv)
  }

  function Encrypted(hmac: Mac, key: Bytes, m: Bytes): Bytes
    requires Correct(hmac)
  {
    var iv := Vector(hmac, key, m);
    iv + Xored(Mask(hmac, key, iv), m)
  }

  function Decrypted(hmac: Mac, key: Bytes, x: Bytes): Option<Bytes>
    requires Correct(hmac) && |x| == BLOB_LEN
  {
    var iv := x[..IV_LEN];
    var m := Xored(Mask(hmac, key, iv), x[IV_LEN..]);
    if iv == Vector(hmac, key, m) then Some(m) else None
  }

  /** Masks `c` with `m` in place, as far as both go. */
  method XorInto(c: array<byte>, m: Bytes)
    modifies c
    ensures c[..] == Xored(old(c[..]), m)
  {
    var i: nat := 0;
    while i < c.Length && i < |m|
      invariant i <= c.Length && i <= |m|
      invariant forall j :: 0 <= j < i ==> c[j] == Xor(old(c[j]), m[j])
      invariant forall j :: i <= j < c.Length ==> c[j] == old(c[j])
    {
      c[i] := Xor(c[i], m[i]);
      i := i + 1;
    }
  }

  method Encrypt(hmac: Mac, key: Bytes, m: Bytes) returns (x: Bytes)
    requires Correct(hmac) && |m| == KEY_LEN
    ensures x == Encrypted(hmac, key, m) && |x| == BLOB_LEN
    ensures x[..IV_LEN] == hmac(hmac(key, [0x61, 0x75, 0x74, 0x68]), m)[..IV_LEN]
    ensures forall i :: 0 <= i < KEY_LEN ==>
              x[IV_LEN + i] == Xor(hmac(hmac(key, [0x65, 0x6E, 0x63]), x[..IV_LEN])[i], m[i])
  {
    assert AUTH == [0x61, 0x75, 0x74, 0x68] && ENC == [0x65, 0x6E, 0x63];
    var kA, kE := hmac(key, AUTH), hmac(key, ENC);
    var iv := hmac(kA, m)[..IV_LEN];
    var kX := hmac(kE, iv);
    var c := new byte[KEY_LEN](i requires 0 <= i < KEY_LEN => kX[i]);
    assert c[..] == kX;
    XorInto(c, m);
    var ret := new byte[BLOB_LEN](_ => 0);
    CopyInto(ret, 0, iv);
    CopyInto(ret, IV_LEN, c[..]);
    x := ret[..];
    assert x == ret[..BLOB_LEN];
  }

  method Decrypt(hmac: Mac, key: Bytes, x: Bytes) returns (r: Option<Bytes>)
    requires Correct(hmac) && |x| == BLOB_LEN
    ensures r == Decrypted(hmac, key, x)
  {
    var kA, kE := hmac(key, AUTH), hmac(key, ENC);
    var iv, c := x[..IV_LEN], x[IV_LEN..];
    var kX := hmac(kE, iv);
    var m := new byte[KEY_LEN](i requires 0 <= i < KEY_LEN => kX[i]);
    assert m[..] == kX;
    XorInto(m, c);
    var expected := hmac(kA, m[..])[..IV_LEN];
    return if iv == expected then Some(m[..]) else None;
  }

  /** For any MAC, a blob decrypts to `m` exactly when it is the encryption of
      `m`.  So encryption is injective, every encryption decrypts, and nothing
      else does. */
  lemma DecryptedExact(hmac: Mac, key: Bytes, x: Bytes, m: Bytes)
    requires Correct(hmac) && |x| == BLOB_LEN && |m| == KEY_LEN
    ensures Decrypted(hmac, key, x) == Some(m) <==> x == Encrypted(hmac, key, m)
  {
    var iv := x[..IV_LEN];
    var mask := Mask(hmac, key, iv);
    assert x == iv + x[IV_LEN..];
    MaskTwice(mask, x[IV_LEN..]);
    MaskTwice(mask, m);
    if x == Encrypted(hmac, key, m) {
      assert iv == Vector(hmac, key, m) && x[IV_LEN..] == Xored(mask, m);
    }
  }

  lemma MaskTwice(mask: Bytes, m: Bytes)
    requires |mask| == |m|
    ensures Xored(mask, Xored(mask, m)) == m
  {
    XoredCommutes(mask, m);
    XoredCommutes(mask, Xored(mask, m));
    XoredUndone(m, mask);
  }

  /** Under one key, different messages have different encryptions. */
  lemma EncryptedInjective(hmac: Mac, key: Bytes, m: Bytes, m': Bytes)
    requires Correct(hmac) && |m| == KEY_LEN && |m'| == KEY_LEN
    requires Encrypted(hmac, key, m) == Encrypted(hmac, key, m')
    ensures m == m'
  {
    var x := Encrypted(hmac, key, m);
    DecryptedExact(hmac, key, x, m);
    DecryptedExact(hmac, key, x, m');
  }
}
