/**
  Parsing and printing of the account entropy pool
  (rust/account-keys/src/lib.rs).
 */
module EntropyPool {
  import opened Wrappers
  import opened Bytes
  import opened Utf8

  const LENGTH := 64

  /** "0123456789abcdefghijklmnopqrstuvwxyz" */
  const ALPHABET: Bytes := [
    0x30, 0x31, 0x32, 0x33, 0x34, 0x35, 0x36, 0x37, 0x38, 0x39,
    0x61, 0x62, 0x63, 0x64, 0x65, 0x66, 0x67, 0x68, 0x69, 0x6A,
    0x6B, 0x6C, 0x6D, 0x6E, 0x6F, 0x70, 0x71, 0x72, 0x73, 0x74,
    0x75, 0x76, 0x77, 0x78, 0x79, 0x7A]

  datatype Invalid = WrongLength(len: nat) | InvalidCharacter(c: scalar)

  /** An ASCII digit or lower-case letter. */
  predicate Allowed(c: int) {
    0x30 <= c <= 0x39 || 0x61 <= c <= 0x7A
  }

  ghost predicate ValidPool(pool: Bytes) {
    |pool| == LENGTH && forall i :: 0 <= i < |pool| ==> Allowed(pool[i])
  }

  /** The first byte that is not allowed. */
  function Position(b: Bytes): (r: Option<nat>)
    ensures r.Some? ==> r.value < |b| && !Allowed(b[r.value])
    ensures r.Some? ==> forall i :: 0 <= i < r.value ==> Allowed(b[i])
    ensures r.None? ==> forall i :: 0 <= i < |b| ==> Allowed(b[i])
  {
    if b == [] then None
    else if !Allowed(b[0]) then Some(0)
    else
      var rest :- Position(b[1..]);
      Some(rest + 1)
  }

  /** Reading an allowed byte reads that character. */
  lemma AllowedHead(b: Bytes, s: Text)
    requires b != [] && Allowed(b[0]) && Decode(b) == Some(s)
    ensures s != [] && s[0] == b[0] && Decode(b[1..]) == Some(s[1..])
  {
    assert DecodeHead(b) == Some(Head(b[0], 1));
    var rest := Decode(b[1..]).value;
    assert s == [b[0]] + rest && s[1..] == rest;
  }

  /** Reading another byte reads another character. */
  lemma InvalidHead(b: Bytes, s: Text)
    requires b != [] && !Allowed(b[0]) && Decode(b) == Some(s)
    ensures s != [] && !Allowed(s[0])
  {
    var head := DecodeHead(b).value;
    assert s[0] == head.scalar;
    assert b[0] >= 0x80 ==> head.scalar >= 0x80;
  }

  /** As long as its bytes are allowed, a text is one byte per character. */
  lemma {:induction false} AllowedPrefix(b: Bytes, s: Text, at: nat)
    requires Decode(b) == Some(s) && at <= |b|
    requires forall i :: 0 <= i < at ==> Allowed(b[i])
    ensures at <= |s| && s[..at] == b[..at] && Decode(b[at..]) == Some(s[at..])
    decreases at
  {
    if at == 0 {
      assert b[0..] == b && s[0..] == s;
    } else {
      AllowedHead(b, s);
      AllowedPrefix(b[1..], s[1..], at - 1);
      assert b[1..][at - 1..] == b[at..] && s[1..][at - 1..] == s[at..];
      assert s[..at] == [s[0]] + s[1..][..at - 1];
      assert b[..at] == [b[0]] + b[1..][..at - 1];
    }
  }

  /** Up to the first byte that is not allowed every character is one byte, so
      that byte starts a character: the first one that is not allowed. */
  lemma FirstInvalid(s: Text, at: nat)
    requires at < |Encode(s)| && !Allowed(Encode(s)[at])
    requires forall i :: 0 <= i < at ==> Allowed(Encode(s)[i])
    ensures at < |s| && Encode(s)[at..] == Encode(s[at..])
    ensures !Allowed(s[at]) && forall i :: 0 <= i < at ==> Allowed(s[i])
  {
    DecodeExact(Encode(s), s);
    FirstInvalidByte(Encode(s), s, at);
    DecodeExact(Encode(s)[at..], s[at..]);
  }

  lemma FirstInvalidByte(b: Bytes, s: Text, at: nat)
    requires Decode(b) == Some(s) && at < |b| && !Allowed(b[at])
    requires forall i :: 0 <= i < at ==> Allowed(b[i])
    ensures at < |s| && Decode(b[at..]) == Some(s[at..])
    ensures !Allowed(s[at]) && forall i :: 0 <= i < at ==> Allowed(s[i])
  {
    AllowedPrefix(b, s, at);
    InvalidHead(b[at..], s[at..]);
    forall i | 0 <= i < at ensures Allowed(s[i]) {
      assert s[i] == s[..at][i] == b[..at][i];
    }
  }

  /** Slicing a string at a character boundary; the source panics elsewhere. */
  function SliceFrom(b: Bytes, at: nat): Option<Text>
    requires at <= |b|
  {
    Decode(b[at..])
  }

  function FromStr(s: Text): Result<Bytes, Invalid> {
    var b := Encode(s);
    if |b| != LENGTH then Err(WrongLength(|b|))
    else
      match Position(b)
      case None => Ok(b)
      case Some(at) =>
        FirstInvalid(s, at);
        DecodeOfEncode(s[at..]);
        Err(InvalidCharacter(SliceFrom(b, at).value[0]))
  }

  function Display(pool: Bytes): Option<Text> {
    Decode(pool)
  }

  ghost predicate ValidDraws(draws: seq<nat>) {
    |draws| == LENGTH && forall i :: 0 <= i < |draws| ==> draws[i] < |ALPHABET|
  }

  /** A pool from 64 draws of an index into the alphabet. */
  function Generate(draws: seq<nat>): Bytes
    requires ValidDraws(draws)
  {
    seq(LENGTH, i requires 0 <= i < LENGTH => ALPHABET[draws[i]])
  }

  /** Allowed characters are their own bytes. */
  lemma {:induction false} EncodeOfAllowed(s: Text)
    requires forall i :: 0 <= i < |s| ==> Allowed(s[i])
    ensures Encode(s) == s
    decreases |s|
  {
    if s != [] {
      EncodeOfAllowed(s[1..]);
      assert EncodeScalar(s[0]) == [s[0]];
      assert [s[0]] + s[1..] == s;
    }
  }

  lemma AllowedOfEncode(s: Text)
    requires forall i :: 0 <= i < |Encode(s)| ==> Allowed(Encode(s)[i])
    ensures Encode(s) == s
  {
    var b := Encode(s);
    DecodeOfEncode(s);
    AllowedPrefix(b, s, |b|);
    assert b[|b|..] == [];
    assert s[..|b|] == s && b[..|b|] == b;
  }

  /** What a caller sees of a string: the pool of a string of 64 allowed
      characters is its characters; another byte length is reported; and
      otherwise the first character that is not allowed is. */
  lemma FromStrExact(s: Text)
    ensures FromStr(s).Ok? <==> |s| == LENGTH && forall i :: 0 <= i < |s| ==> Allowed(s[i])
    ensures FromStr(s).Ok? ==> FromStr(s).value == s && ValidPool(FromStr(s).value)
    ensures |Encode(s)| != LENGTH <==> FromStr(s) == Err(WrongLength(|Encode(s)|))
    ensures FromStr(s).Err? && |Encode(s)| == LENGTH ==>
              exists at :: 0 <= at < |s| && !Allowed(s[at]) && FromStr(s) == Err(InvalidCharacter(s[at]))
                        && forall i :: 0 <= i < at ==> Allowed(s[i])
  {
    if FromStr(s).Ok? {
      AllowedOfEncode(s);
    } else if forall i :: 0 <= i < |s| ==> Allowed(s[i]) {
      EncodeOfAllowed(s);
    } else if |Encode(s)| == LENGTH {
      var at := Position(Encode(s)).value;
      FirstInvalid(s, at);
      DecodeOfEncode(s[at..]);
      assert SliceFrom(Encode(s), at) == Some(s[at..]);
    }
  }

  /** Printing and parsing undo each other on every pool, and printing never
      fails. */
  lemma DisplayParses(pool: Bytes)
    requires ValidPool(pool)
    ensures Display(pool).Some? && FromStr(Display(pool).value) == Ok(pool)
  {
    var s: Text := pool;
    EncodeOfAllowed(s);
    DecodeOfEncode(s);
    FromStrExact(s);
  }

  lemma ParseDisplays(s: Text)
    requires FromStr(s).Ok?
    ensures Display(FromStr(s).value) == Some(s)
  {
    DecodeOfEncode(s);
  }

  /** The two range checks of the parser accept exactly the alphabet's bytes. */
  lemma AlphabetExact(c: byte)
    ensures Allowed(c) <==> c in ALPHABET
  {
    if 0x30 <= c <= 0x39 {
      assert c == ALPHABET[c - 0x30];
    } else if 0x61 <= c <= 0x7A {
      assert c == ALPHABET[c - 0x61 + 10];
    }
  }

  lemma GenerateAt(draws: seq<nat>, i: nat)
    requires ValidDraws(draws) && i < LENGTH
    ensures |Generate(draws)| == LENGTH && Generate(draws)[i] == ALPHABET[draws[i]]
  {
  }

  /** The alphabet lists no byte twice. */
  lemma AlphabetDistinct(i: nat, j: nat)
    requires i < |ALPHABET| && j < |ALPHABET| && ALPHABET[i] == ALPHABET[j]
    ensures i == j
  {
    AlphabetAt(i);
    AlphabetAt(j);
  }

  lemma AlphabetAt(i: nat)
    requires i < |ALPHABET|
    ensures ALPHABET[i] == if i < 10 then 0x30 + i else 0x61 + (i - 10)
  {
  }

  /** Different draws give different pools. */
  lemma GenerateInjective(draws: seq<nat>, others: seq<nat>)
    requires ValidDraws(draws) && ValidDraws(others) && Generate(draws) == Generate(others)
    ensures draws == others
  {
    forall i | 0 <= i < LENGTH ensures draws[i] == others[i] {
      GenerateAt(draws, i);
      GenerateAt(others, i);
      AlphabetDistinct(draws[i], others[i]);
    }
  }

  /** Every pool is drawn by some draws. */
  lemma GenerateSurjective(pool: Bytes) returns (draws: seq<nat>)
    requires ValidPool(pool)
    ensures ValidDraws(draws) && Generate(draws) == pool
  {
    draws := seq(LENGTH, i requires 0 <= i < LENGTH => IndexOf(pool[i]));
    forall i | 0 <= i < LENGTH ensures draws[i] < |ALPHABET| && ALPHABET[draws[i]] == pool[i] {
      AlphabetAt(IndexOf(pool[i]));
    }
    forall i | 0 <= i < LENGTH ensures Generate(draws)[i] == pool[i] {
      GenerateAt(draws, i);
    }
  }

  /** The place of an allowed byte in the alphabet. */
  function IndexOf(c: byte): (i: nat)
    ensures Allowed(c) ==> i < |ALPHABET|
  {
    if c <= 0x39 then (if 0x30 <= c then c - 0x30 else 0) else (if 0x61 <= c then c - 0x61 + 10 else 0)
  }

  /** Every generated pool prints, and its text is accepted as that pool. */
  lemma GeneratedParses(draws: seq<nat>)
    requires ValidDraws(draws)
    ensures Display(Generate(draws)).Some?
    ensures FromStr(Display(Generate(draws)).value) == Ok(Generate(draws))
    ensures var text := Display(Generate(draws)).value;
            |text| == LENGTH && forall i :: 0 <= i < LENGTH ==> text[i] == ALPHABET[draws[i]]
  {
    assert forall j :: 0 <= j < |ALPHABET| ==> Allowed(ALPHABET[j]);
    assert ValidPool(Generate(draws));
    DisplayParses(Generate(draws));
    FromStrExact(Display(Generate(draws)).value);
  }
}
