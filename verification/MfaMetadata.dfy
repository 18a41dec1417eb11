/**
  Encrypted metadata of an account's MFA keys
  (rust/account-keys/src/mfa_metadata.rs): a protobuf message, padded to a fixed
  width, encrypted and authenticated into a blob of 160 bytes.
 */
module MfaMetadata {
  import opened Wrappers
  import opened Bytes
  import opened Utf8
  import Protobuf
  import Cbc

  const CIPHERTEXT_LEN := 160
  const NAME_MAX_LEN := 98
  const IV_LEN := 16
  const PADDED_LEN := 112
  const MAC_START := IV_LEN + PADDED_LEN

  type u64 = Protobuf.u64

  datatype Metadata = Metadata(name: Text, createdAt: u64)
  datatype InvalidName = TooLong | ContainsNull

  /** The invariant of the type: only `New` and decryption construct values. */
  predicate ValidName(name: Text) {
    0 !in name && |Encode(name)| <= NAME_MAX_LEN
  }

  function New(name: Text, createdAt: u64): (r: Result<Metadata, InvalidName>)
    ensures r.Ok? <==> ValidName(name)
    ensures r.Ok? ==> r.value.name == name && r.value.createdAt == createdAt
    ensures r == Err(ContainsNull) <==> 0 in name
  {
    if 0 in name then Err(ContainsNull)
    else if |Encode(name)| > NAME_MAX_LEN then Err(TooLong)
    else Ok(Metadata(name, createdAt))
  }

  // ---------------------------------------------------------------------
  // Padding to the fixed width.
  // ---------------------------------------------------------------------

  function Repeat(b: byte, n: nat): Bytes {
    seq(n, _ => b)
  }

  function Pad(x: Bytes): (y: Bytes)
    requires |x| < PADDED_LEN
    ensures |y| == PADDED_LEN
  {
    x + Repeat(PADDED_LEN - |x|, PADDED_LEN - |x|)
  }

  /** The plaintext, and then every byte tells how many follow the plaintext. */
  lemma PadLayout(x: Bytes, i: nat)
    requires |x| < PADDED_LEN && i < PADDED_LEN
    ensures Pad(x)[i] == if i < |x| then x[i] else PADDED_LEN - |x|
  {
  }

  function Unpad(y: Bytes): Option<Bytes>
    requires |y| == PADDED_LEN
  {
    var paddingLen := y[PADDED_LEN - 1];
    if !(1 <= paddingLen <= PADDED_LEN) then None
    else
      var plaintextLen := PADDED_LEN - paddingLen;
      if exists i :: plaintextLen <= i < PADDED_LEN && y[i] != paddingLen then None
      else Some(y[..plaintextLen])
  }

  /** Unpadding gives `x` exactly for the padded form of `x`, down to the empty
      plaintext with 112 bytes of padding. */
  lemma UnpadExact(y: Bytes, x: Bytes)
    requires |y| == PADDED_LEN
    ensures Unpad(y) == Some(x) <==> |x| < PADDED_LEN && y == Pad(x)
  {
    if Unpad(y) == Some(x) {
      var k := y[PADDED_LEN - 1];
      assert y[PADDED_LEN - k..] == Repeat(k, k);
      assert y == y[..PADDED_LEN - k] + y[PADDED_LEN - k..];
    }
    if |x| < PADDED_LEN && y == Pad(x) {
      assert y[..|x|] == x;
      assert forall i :: |x| <= i < PADDED_LEN ==> y[i] == PADDED_LEN - |x|;
    }
  }

  // ---------------------------------------------------------------------
  // Sealing and opening a plaintext.
  // ---------------------------------------------------------------------

  function CipherKey(c: Cbc.Primitives, svrKey: Bytes): Bytes {
    c.hmac(svrKey, Label("20260831 TOTP Metadata Encryption"))
  }

  function MacKey(c: Cbc.Primitives, svrKey: Bytes): Bytes {
    c.hmac(svrKey, Label("20260831 TOTP Metadata Authentication"))
  }

  /** The label of the cipher key, byte by byte. */
  const ENCRYPTION_LABEL: Bytes := [
    0x32, 0x30, 0x32, 0x36, 0x30, 0x38, 0x33, 0x31, 0x20, 0x54, 0x4F, 0x54,
    0x50, 0x20, 0x4D, 0x65, 0x74, 0x61, 0x64, 0x61, 0x74, 0x61, 0x20, 0x45,
    0x6E, 0x63, 0x72, 0x79, 0x70, 0x74, 0x69, 0x6F, 0x6E]

  /** The label of the MAC key, byte by byte. */
  const AUTHENTICATION_LABEL: Bytes := [
    0x32, 0x30, 0x32, 0x36, 0x30, 0x38, 0x33, 0x31, 0x20, 0x54, 0x4F, 0x54,
    0x50, 0x20, 0x4D, 0x65, 0x74, 0x61, 0x64, 0x61, 0x74, 0x61, 0x20, 0x41,
    0x75, 0x74, 0x68, 0x65, 0x6E, 0x74, 0x69, 0x63, 0x61, 0x74, 0x69, 0x6F,
    0x6E]

  /** The two derived keys are MACs, under the account's key, of two different
      labels of 33 and 37 bytes. */
  lemma KeysExact(c: Cbc.Primitives, svrKey: Bytes)
    ensures CipherKey(c, svrKey) == c.hmac(svrKey, ENCRYPTION_LABEL)
    ensures MacKey(c, svrKey) == c.hmac(svrKey, AUTHENTICATION_LABEL)
    ensures |ENCRYPTION_LABEL| == 33 && |AUTHENTICATION_LABEL| == 37
    ensures ENCRYPTION_LABEL != AUTHENTICATION_LABEL
  {
    EncryptionLabelIs();
    AuthenticationLabelIs();
  }

  lemma EncryptionLabelIs()
    ensures Label("20260831 TOTP Metadata Encryption") == ENCRYPTION_LABEL
  {
  }

  lemma AuthenticationLabelIs()
    ensures Label("20260831 TOTP Metadata Authentication") == AUTHENTICATION_LABEL
  {
  }

  function Seal(c: Cbc.Primitives, svrKey: Bytes, iv: Bytes, plaintext: Bytes): Bytes
    requires |plaintext| < PADDED_LEN
  {
    var x := iv + Cbc.Encrypt(c, CipherKey(c, svrKey), iv, Pad(plaintext));
    x + c.hmac(MacKey(c, svrKey), x)
  }

  /** The plaintext of an authentic, properly padded blob. */
  function Unseal(c: Cbc.Primitives, svrKey: Bytes, blob: Bytes): Option<Bytes>
    requires Cbc.Correct(c)
  {
    if |blob| != CIPHERTEXT_LEN then None
    else
      var iv, ciphertext, mac := blob[..IV_LEN], blob[IV_LEN..MAC_START], blob[MAC_START..];
      if mac != c.hmac(MacKey(c, svrKey), iv + ciphertext) then None
      else
        Cbc.DecryptSize(c, CipherKey(c, svrKey), iv, ciphertext);
        Unpad(Cbc.Decrypt(c, CipherKey(c, svrKey), iv, ciphertext))
  }

  lemma SealParts(c: Cbc.Primitives, svrKey: Bytes, iv: Bytes, plaintext: Bytes)
    requires Cbc.Correct(c) && |iv| == IV_LEN && |plaintext| < PADDED_LEN
    ensures var blob := Seal(c, svrKey, iv, plaintext);
            && |blob| == CIPHERTEXT_LEN && blob[..IV_LEN] == iv
            && blob[IV_LEN..MAC_START] == Cbc.Encrypt(c, CipherKey(c, svrKey), iv, Pad(plaintext))
            && blob[MAC_START..] == c.hmac(MacKey(c, svrKey), blob[..IV_LEN] + blob[IV_LEN..MAC_START])
  {
    Cbc.EncryptSize(c, CipherKey(c, svrKey), iv, Pad(plaintext));
    var x := iv + Cbc.Encrypt(c, CipherKey(c, svrKey), iv, Pad(plaintext));
    assert Cbc.MacSized(c, MacKey(c, svrKey), x);
    var blob := Seal(c, svrKey, iv, plaintext);
    assert blob[..MAC_START] == x && blob[..IV_LEN] == x[..IV_LEN] && blob[IV_LEN..MAC_START] == x[IV_LEN..];
    assert blob[..IV_LEN] + blob[IV_LEN..MAC_START] == x;
  }

  /** The layout of a blob, read off its bytes: the initial vector, seven blocks
      chained under one derived key, and under the other the MAC of all that. */
  lemma SealLayout(c: Cbc.Primitives, svrKey: Bytes, iv: Bytes, plaintext: Bytes, j: nat)
    requires Cbc.Correct(c) && |iv| == IV_LEN && |plaintext| < PADDED_LEN && j < 7
    ensures var blob := Seal(c, svrKey, iv, plaintext);
            && |blob| == CIPHERTEXT_LEN && blob[..IV_LEN] == iv
            && Cbc.Block(blob, j + 1)
               == c.encrypt(c.hmac(svrKey, ENCRYPTION_LABEL),
                            Xored(Cbc.Block(Pad(plaintext), j), Cbc.Block(blob, j)))
            && blob[MAC_START..] == c.hmac(c.hmac(svrKey, AUTHENTICATION_LABEL), blob[..MAC_START])
  {
    KeysExact(c, svrKey);
    SealParts(c, svrKey, iv, plaintext);
    Cbc.ChainingEquation(c, CipherKey(c, svrKey), iv, Pad(plaintext), j);
    var blob := Seal(c, svrKey, iv, plaintext);
    var x := blob[IV_LEN..MAC_START];
    assert blob == iv + blob[IV_LEN..];
    assert Cbc.Block(x, j) == Cbc.Block(blob, j + 1);
    assert j > 0 ==> Cbc.Block(x, j - 1) == Cbc.Block(blob, j);
    assert j == 0 ==> Cbc.Block(blob, 0) == iv;
    assert blob[..IV_LEN] + blob[IV_LEN..MAC_START] == blob[..MAC_START];
  }

  /** A blob opens to a plaintext exactly when sealing that plaintext under the
      blob's initial vector gives the blob. */
  lemma UnsealExact(c: Cbc.Primitives, svrKey: Bytes, blob: Bytes, plaintext: Bytes)
    requires Cbc.Correct(c)
    ensures Unseal(c, svrKey, blob) == Some(plaintext) <==>
            |plaintext| < PADDED_LEN && |blob| == CIPHERTEXT_LEN
            && blob == Seal(c, svrKey, blob[..IV_LEN], plaintext)
  {
    if Unseal(c, svrKey, blob) == Some(plaintext) {
      UnsealOnlySealed(c, svrKey, blob, plaintext);
    }
    if |plaintext| < PADDED_LEN && |blob| == CIPHERTEXT_LEN && blob == Seal(c, svrKey, blob[..IV_LEN], plaintext) {
      SealParts(c, svrKey, blob[..IV_LEN], plaintext);
      Cbc.DecryptOfEncrypt(c, CipherKey(c, svrKey), blob[..IV_LEN], Pad(plaintext));
      UnpadExact(Pad(plaintext), plaintext);
    }
  }

  lemma UnsealOnlySealed(c: Cbc.Primitives, svrKey: Bytes, blob: Bytes, plaintext: Bytes)
    requires Cbc.Correct(c) && Unseal(c, svrKey, blob) == Some(plaintext)
    ensures |plaintext| < PADDED_LEN && |blob| == CIPHERTEXT_LEN
    ensures blob == Seal(c, svrKey, blob[..IV_LEN], plaintext)
  {
    var iv, x := blob[..IV_LEN], blob[IV_LEN..MAC_START];
    var key := CipherKey(c, svrKey);
    var padded := Cbc.Decrypt(c, key, iv, x);
    Cbc.DecryptSize(c, key, iv, x);
    UnpadExact(padded, plaintext);
    Cbc.EncryptOfDecrypt(c, key, iv, x);
    assert blob == iv + x + blob[MAC_START..];
  }

  // ---------------------------------------------------------------------
  // Metadata.
  // ---------------------------------------------------------------------

  /** The message stored for some metadata: whole seconds. */
  function Stored(md: Metadata): Protobuf.Message {
    Protobuf.Message(md.createdAt / 1000, md.name)
  }

  /** The checks after parsing. */
  function Revalidate(m: Protobuf.Message): Option<Metadata> {
    if m.seconds * 1000 >= Protobuf.U64_LIMIT then None
    else
      match New(m.name, m.seconds * 1000)
      case Ok(md) => Some(md)
      case Err(_) => None
  }

  /** Parsing and checking a plaintext. */
  function Checked(plaintext: Bytes): Option<Metadata> {
    var m :- Protobuf.Parse(plaintext);
    Revalidate(m)
  }

  function Opened(c: Cbc.Primitives, svrKey: Bytes, blob: Bytes): Option<Metadata>
    requires Cbc.Correct(c)
  {
    var plaintext :- Unseal(c, svrKey, blob);
    Checked(plaintext)
  }

  /** The largest encoding leaves room for a byte of padding: two tags, a
      one-byte length, ten bytes of varint and 98 of name make 111. */
  lemma EncodingFits(m: Protobuf.Message)
    requires |Encode(m.name)| <= NAME_MAX_LEN
    ensures |Protobuf.Write(m)| <= 111 < PADDED_LEN
  {
    Protobuf.LimitIsU64();
    Protobuf.ReadOfWriteVarint(m.seconds, Protobuf.VARINT_MAX, []);
  }

  /** Fills the 160-byte buffer: initial vector, ciphertext, MAC. */
  method FillBlob(c: Cbc.Primitives, cipherKey: Bytes, macKey: Bytes, iv: Bytes, padded: Bytes) returns (blob: Bytes)
    requires Cbc.Correct(c) && |iv| == IV_LEN && |padded| == PADDED_LEN
    ensures var x := iv + Cbc.Encrypt(c, cipherKey, iv, padded);
            blob == x + c.hmac(macKey, x)
    ensures |blob| == CIPHERTEXT_LEN
  {
    var result := new byte[CIPHERTEXT_LEN](_ => 0);
    CopyInto(result, 0, iv);
    Cbc.EncryptInto(c, cipherKey, iv, padded, result, IV_LEN);
    ghost var x := iv + Cbc.Encrypt(c, cipherKey, iv, padded);
    var macInput: Bytes := [];
    macInput := macInput + result[..IV_LEN];
    macInput := macInput + result[IV_LEN..MAC_START];
    assert macInput == result[..MAC_START] == x;
    var mac := c.hmac(macKey, macInput);
    assert Cbc.MacSized(c, macKey, macInput);
    CopyInto(result, MAC_START, mac);
    blob := result[..];
    assert blob == result[..CIPHERTEXT_LEN];
  }

  /** Serialises, pads, encrypts and authenticates. */
  method Encrypt(c: Cbc.Primitives, svrKey: Bytes, md: Metadata, iv: Bytes) returns (blob: Bytes)
    requires Cbc.Correct(c) && ValidName(md.name) && |iv| == IV_LEN
    ensures |Protobuf.Write(Stored(md))| < PADDED_LEN
    ensures blob == Seal(c, svrKey, iv, Protobuf.Write(Stored(md)))
    ensures |blob| == CIPHERTEXT_LEN
  {
    var plaintext := Protobuf.Write(Protobuf.Message(md.createdAt / 1000, md.name));
    EncodingFits(Stored(md));
    var paddingLen := PADDED_LEN - |plaintext|;
    assert 0 < paddingLen < 256;
    var padded := plaintext + Repeat(paddingLen, paddingLen);
    blob := FillBlob(c, CipherKey(c, svrKey), MacKey(c, svrKey), iv, padded);
  }

  /** Authenticates, decrypts, unpads, parses and revalidates any byte string. */
  method Decrypt(c: Cbc.Primitives, svrKey: Bytes, blob: Bytes) returns (r: Option<Metadata>)
    requires Cbc.Correct(c)
    ensures r == Opened(c, svrKey, blob)
  {
    if |blob| != CIPHERTEXT_LEN {
      return None;
    }
    var iv, ciphertext, mac := blob[..IV_LEN], blob[IV_LEN..MAC_START], blob[MAC_START..];
    var macInput: Bytes := [];
    macInput := macInput + iv;
    macInput := macInput + ciphertext;
    assert macInput == iv + ciphertext;
    if mac != c.hmac(MacKey(c, svrKey), macInput) {
      return None;
    }
    var padded := Cbc.DecryptAll(c, CipherKey(c, svrKey), iv, ciphertext);
    Cbc.DecryptSize(c, CipherKey(c, svrKey), iv, ciphertext);
    var plaintext := Unpad(padded);
    if plaintext.None? {
      return None;
    }
    var m := Protobuf.Parse(plaintext.value);
    if m.None? {
      return None;
    }
    return Revalidate(m.value);
  }

  /** Only the parse of the sealed plaintext counts: two encodings of one message
      open alike, and an encoding that does not parse or does not pass the checks
      is refused although it is authentic. */
  lemma OpenedOfSeal(c: Cbc.Primitives, svrKey: Bytes, iv: Bytes, plaintext: Bytes)
    requires Cbc.Correct(c) && |iv| == IV_LEN && |plaintext| < PADDED_LEN
    ensures Opened(c, svrKey, Seal(c, svrKey, iv, plaintext))
         == match Protobuf.Parse(plaintext) { case None => None case Some(m) => Revalidate(m) }
  {
    SealParts(c, svrKey, iv, plaintext);
    UnsealExact(c, svrKey, Seal(c, svrKey, iv, plaintext), plaintext);
  }

  /** The checks refuse exactly a time past the last second that fits in 64 bits
      of milliseconds, a name with a null and a name that is too long. */
  lemma RevalidateExact(m: Protobuf.Message)
    ensures Revalidate(m).None? <==>
            m.seconds > 18446744073709551 || 0 in m.name || |Encode(m.name)| > NAME_MAX_LEN
    ensures Revalidate(m).Some? ==> Revalidate(m).value == Metadata(m.name, m.seconds * 1000)
  {
    assert m.seconds * 1000 >= Protobuf.U64_LIMIT <==> m.seconds > 18446744073709551;
  }

  /** Through every layer: whatever the key, the initial vector, the name and
      the time, decryption gives back the name and the time floored to a whole
      second. */
  lemma RoundTrip(c: Cbc.Primitives, svrKey: Bytes, md: Metadata, iv: Bytes)
    requires Cbc.Correct(c) && ValidName(md.name) && |iv| == IV_LEN
    ensures |Protobuf.Write(Stored(md))| < PADDED_LEN
    ensures Opened(c, svrKey, Seal(c, svrKey, iv, Protobuf.Write(Stored(md))))
         == Some(Metadata(md.name, md.createdAt / 1000 * 1000))
  {
    EncodingFits(Stored(md));
    OpenedOfSeal(c, svrKey, iv, Protobuf.Write(Stored(md)));
    Protobuf.ParseOfWrite(Stored(md));
    RevalidateExact(Stored(md));
  }

  /** Exactly the blobs that seal some plaintext which parses and passes the
      checks are accepted, and then that plaintext decides the result. */
  lemma OpenedExact(c: Cbc.Primitives, svrKey: Bytes, blob: Bytes, md: Metadata)
    requires Cbc.Correct(c)
    ensures Opened(c, svrKey, blob) == Some(md) <==>
            exists plaintext: Bytes :: Accepts(c, svrKey, blob, plaintext, md)
  {
    if Opened(c, svrKey, blob) == Some(md) {
      var plaintext := Unseal(c, svrKey, blob).value;
      UnsealExact(c, svrKey, blob, plaintext);
      assert Accepts(c, svrKey, blob, plaintext, md);
    }
    if plaintext: Bytes :| Accepts(c, svrKey, blob, plaintext, md) {
      UnsealExact(c, svrKey, blob, plaintext);
    }
  }

  ghost predicate Accepts(c: Cbc.Primitives, svrKey: Bytes, blob: Bytes, plaintext: Bytes, md: Metadata) {
    && |plaintext| < PADDED_LEN && |blob| == CIPHERTEXT_LEN
    && blob == Seal(c, svrKey, blob[..IV_LEN], plaintext)
    && var m := Protobuf.Parse(plaintext);
    && m.Some? && ValidName(m.value.name) && m.value.seconds * 1000 < Protobuf.U64_LIMIT
    && md == Metadata(m.value.name, m.value.seconds * 1000)
  }

  /** Whatever was accepted, fields reordered, repeated or unknown, the result
      keeps the invariant, holds a whole second, and is a fixpoint: encrypting it
      under any key and initial vector and decrypting gives it back. */
  lemma NormalForm(c: Cbc.Primitives, svrKey: Bytes, blob: Bytes, md: Metadata,
                                      otherKey: Bytes, iv: Bytes)
    requires Cbc.Correct(c) && Opened(c, svrKey, blob) == Some(md) && |iv| == IV_LEN
    ensures ValidName(md.name) && md.createdAt % 1000 == 0
    ensures |Protobuf.Write(Stored(md))| < PADDED_LEN
    ensures Opened(c, otherKey, Seal(c, otherKey, iv, Protobuf.Write(Stored(md)))) == Some(md)
  {
    OpenedValid(c, svrKey, blob);
    WholeSecondRoundTrip(c, otherKey, md, iv);
  }

  lemma OpenedValid(c: Cbc.Primitives, svrKey: Bytes, blob: Bytes)
    requires Cbc.Correct(c) && Opened(c, svrKey, blob).Some?
    ensures var md := Opened(c, svrKey, blob).value;
            ValidName(md.name) && md.createdAt % 1000 == 0
  {
    CheckedValid(Unseal(c, svrKey, blob).value);
  }

  lemma CheckedValid(plaintext: Bytes)
    requires Checked(plaintext).Some?
    ensures var md := Checked(plaintext).value;
            ValidName(md.name) && md.createdAt % 1000 == 0
  {
    RevalidateExact(Protobuf.Parse(plaintext).value);
  }

  lemma WholeSecondRoundTrip(c: Cbc.Primitives, svrKey: Bytes, md: Metadata, iv: Bytes)
    requires Cbc.Correct(c) && ValidName(md.name) && |iv| == IV_LEN && md.createdAt % 1000 == 0
    ensures |Protobuf.Write(Stored(md))| < PADDED_LEN
    ensures Opened(c, svrKey, Seal(c, svrKey, iv, Protobuf.Write(Stored(md)))) == Some(md)
  {
    RoundTrip(c, svrKey, md, iv);
    assert md.createdAt / 1000 * 1000 == md.createdAt;
  }
}
