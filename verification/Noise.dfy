/**
  Framing of messages over an established Noise session
  (rust/attest/src/client_connection.rs).

  The cipher is a parameter.  `TransportState` models the part of the Noise
  transport that the framing relies on: packet limits, the tag, and one nonce
  per direction that advances by one for every packet that goes through.
 */
module Noise {
  import opened Wrappers
  import opened Bytes

  const PER_PACKET_MAX := 65535
  const PER_PAYLOAD_OVERHEAD := 16
  const PER_PAYLOAD_MAX := PER_PACKET_MAX - PER_PAYLOAD_OVERHEAD

  /** The largest nonce is reserved (section 5.1 of the Noise Protocol
      Framework): no packet is sealed or opened with it. */
  const NONCE_MAX: nat := 0xFFFF_FFFF_FFFF_FFFF

  datatype Error = Input | Decrypt | Exhausted

  /** An authenticated cipher with its key fixed. */
  datatype Aead = Aead(seal: (nat, Bytes) -> Bytes, open: (nat, Bytes) -> Option<Bytes>)

  ghost predicate Sized(a: Aead, n: nat, p: Bytes) {
    |a.seal(n, p)| == |p| + PER_PAYLOAD_OVERHEAD
  }

  ghost predicate Matches(a: Aead, n: nat, p: Bytes, c: Bytes) {
    a.open(n, c) == Some(p) <==> c == a.seal(n, p)
  }

  /** Sealing adds a 16-byte tag, and a packet opens to `p` exactly when it is
      what sealing `p` under the same nonce gives. */
  ghost predicate Correct(a: Aead) {
    && (forall n: nat, p: Bytes :: Sized(a, n, p))
    && (forall n: nat, p: Bytes, c: Bytes :: Matches(a, n, p, c))
  }

  /** A call's answer together with the nonce it leaves behind. */
  datatype Reply = Reply(result: Result<Bytes, Error>, nonce: nat)

  /** Number of packets for a payload of `len` bytes. */
  function Packets(len: nat): nat {
    if len == 0 then 0 else 1 + Packets(len - Min(len, PER_PAYLOAD_MAX))
  }

  /** `len.div_ceil(NOISE_TRANSPORT_PER_PAYLOAD_MAX)`. */
  function DivCeil(len: nat): nat {
    (len + PER_PAYLOAD_MAX - 1) / PER_PAYLOAD_MAX
  }

  lemma {:induction false} PacketsIsDivCeil(len: nat)
    ensures Packets(len) == DivCeil(len)
  {
    if len > 0 {
      PacketsIsDivCeil(len - Min(len, PER_PAYLOAD_MAX));
    }
  }

  /** Ciphertext bytes for a payload of `len` bytes. */
  ghost function Room(len: nat): nat {
    len + Packets(len) * PER_PAYLOAD_OVERHEAD
  }

  lemma RoomIs(len: nat)
    ensures Room(len) == len + DivCeil(len) * PER_PAYLOAD_OVERHEAD
  {
    PacketsIsDivCeil(len);
  }

  lemma RoomStep(len: nat)
    requires 0 < len
    ensures var k := Min(PER_PAYLOAD_MAX, len);
            Room(len) == k + PER_PAYLOAD_OVERHEAD + Room(len - k)
  {
    assert Min(PER_PAYLOAD_MAX, len) == Min(len, PER_PAYLOAD_MAX);
  }

  // ---------------------------------------------------------------------
  // What send and recv compute.
  // ---------------------------------------------------------------------

  function SendReply(a: Aead, n: nat, p: Bytes): (r: Reply)
    decreases |p|
  {
    if p == [] then Reply(Ok([]), n)
    else if n >= NONCE_MAX then Reply(Err(Exhausted), n)
    else
      var k := Min(|p|, PER_PAYLOAD_MAX);
      var rest := SendReply(a, n + 1, p[k..]);
      match rest.result
      case Err(e) => rest
      case Ok(c) => Reply(Ok(a.seal(n, p[..k]) + c), rest.nonce)
  }

  /** Opening one packet under nonce `n`. */
  function OpenPacket(a: Aead, n: nat, packet: Bytes): Result<Bytes, Error> {
    if |packet| > PER_PACKET_MAX then Err(Input)
    else if |packet| < PER_PAYLOAD_OVERHEAD then Err(Decrypt)
    else if n >= NONCE_MAX then Err(Exhausted)
    else
      match a.open(n, packet)
      case None => Err(Decrypt)
      case Some(payload) => Ok(payload)
  }

  function RecvReply(a: Aead, n: nat, c: Bytes): (r: Reply)
    decreases |c|
  {
    if c == [] then Reply(Ok([]), n)
    else
      var k := Min(|c|, PER_PACKET_MAX);
      match OpenPacket(a, n, c[..k])
      case Err(e) => Reply(Err(e), n)
      case Ok(payload) =>
        var rest := RecvReply(a, n + 1, c[k..]);
        match rest.result
        case Err(e) => rest
        case Ok(p) => Reply(Ok(payload + p), rest.nonce)
  }

  // ---------------------------------------------------------------------
  // The source's own form: preallocated buffers and a mutable transport.
  // ---------------------------------------------------------------------

  class ClientConnection {
    const outgoing: Aead
    const incoming: Aead
    var sendNonce: nat
    var recvNonce: nat

    ghost predicate Valid()
      reads this
    {
      Correct(outgoing) && Correct(incoming) && sendNonce <= NONCE_MAX && recvNonce <= NONCE_MAX
    }

    constructor (outgoing: Aead, incoming: Aead)
      requires Correct(outgoing) && Correct(incoming)
      ensures Valid() && sendNonce == 0 && recvNonce == 0
      ensures this.outgoing == outgoing && this.incoming == incoming
    {
      this.outgoing, this.incoming := outgoing, incoming;
      sendNonce, recvNonce := 0, 0;
    }

    /** Seals one packet into `out[from..]`. */
    method WriteMessage(payload: Bytes, out: array<byte>, from: nat) returns (r: Result<nat, Error>)
      requires Valid() && from <= out.Length
      modifies this`sendNonce, out
      ensures Valid()
      ensures r == Err(Input) <==>
              |payload| + PER_PAYLOAD_OVERHEAD > Min(PER_PACKET_MAX, out.Length - from)
      ensures r.Err? && r.error != Input ==> r == Err(Exhausted) && old(sendNonce) == NONCE_MAX
      ensures r.Err? ==> sendNonce == old(sendNonce)
      ensures r.Ok? ==> old(sendNonce) < NONCE_MAX && sendNonce == old(sendNonce) + 1
      ensures r.Ok? ==> r.value == |payload| + PER_PAYLOAD_OVERHEAD && from + r.value <= out.Length
      ensures r.Ok? ==> out[..from + r.value] == old(out[..from]) + outgoing.seal(old(sendNonce), payload)
    {
      if |payload| + PER_PAYLOAD_OVERHEAD > PER_PACKET_MAX
        || |payload| + PER_PAYLOAD_OVERHEAD > out.Length - from {
        return Err(Input);
      }
      if sendNonce == NONCE_MAX {
        return Err(Exhausted);
      }
      var packet := outgoing.seal(sendNonce, payload);
      assert Sized(outgoing, sendNonce, payload);
      CopyInto(out, from, packet);
      sendNonce := sendNonce + 1;
      return Ok(|packet|);
    }

    /** Opens one packet into `out[from..]`; a failure leaves the nonce. */
    method ReadMessage(packet: Bytes, out: array<byte>, from: nat) returns (r: Result<nat, Error>)
      requires Valid() && from <= out.Length
      modifies this`recvNonce, out
      ensures Valid()
      ensures |packet| - PER_PAYLOAD_OVERHEAD > out.Length - from ==> r.Err?
      ensures |packet| - PER_PAYLOAD_OVERHEAD <= out.Length - from ==>
                match OpenPacket(incoming, old(recvNonce), packet)
                case Err(e) => r == Err(e)
                case Ok(payload) =>
                  && r == Ok(|payload|) && |packet| == |payload| + PER_PAYLOAD_OVERHEAD
                  && out[..from + |payload|] == old(out[..from]) + payload
      ensures recvNonce == old(recvNonce) + if r.Ok? then 1 else 0
    {
      if |packet| > PER_PACKET_MAX {
        return Err(Input);
      }
      if |packet| < PER_PAYLOAD_OVERHEAD || out.Length - from < |packet| - PER_PAYLOAD_OVERHEAD {
        return Err(Decrypt);
      }
      if recvNonce == NONCE_MAX {
        return Err(Exhausted);
      }
      var answer := incoming.open(recvNonce, packet);
      if answer.None? {
        return Err(Decrypt);
      }
      var payload := answer.value;
      assert Matches(incoming, recvNonce, payload, packet) && Sized(incoming, recvNonce, payload);
      CopyInto(out, from, payload);
      recvNonce := recvNonce + 1;
      return Ok(|payload|);
    }

    /** Wraps a message.  The buffer sized up front is filled exactly, so the
        final truncation drops nothing. */
    method Send(plaintext: Bytes) returns (r: Result<Bytes, Error>)
      requires Valid()
      modifies this`sendNonce
      ensures Valid()
      ensures Reply(r, sendNonce) == SendReply(outgoing, old(sendNonce), plaintext)
      ensures r.Ok? ==> |r.value| == |plaintext| + DivCeil(|plaintext|) * PER_PAYLOAD_OVERHEAD
    {
      var maxSize: nat := |plaintext| + DivCeil(|plaintext|) * PER_PAYLOAD_OVERHEAD;
      assert maxSize == Room(|plaintext|) by {
        RoomIs(|plaintext|);
      }
      var ciphertext := new byte[maxSize](_ => 0);
      var totalSize: nat, pos: nat := 0, 0;
      ghost var whole := SendReply(outgoing, sendNonce, plaintext);
      ContinuesStart(whole);
      assert ciphertext[..0] == [] && plaintext[0..] == plaintext;
      while pos < |plaintext|
        invariant pos <= |plaintext| && totalSize <= ciphertext.Length
        invariant Valid()
        invariant ciphertext.Length == totalSize + Room(|plaintext| - pos)
        invariant Continues(whole, ciphertext[..totalSize], SendReply(outgoing, sendNonce, plaintext[pos..]))
      {
        var k := Min(PER_PAYLOAD_MAX, |plaintext| - pos);
        SendContinues(whole, ciphertext[..totalSize], outgoing, sendNonce, plaintext, pos);
        RoomStep(|plaintext| - pos);
        var w := WriteMessage(plaintext[pos..pos + k], ciphertext, totalSize);
        if w.Err? {
          return Err(w.error);
        }
        totalSize := totalSize + w.value;
        pos := pos + k;
      }
      assert totalSize == ciphertext.Length && plaintext[pos..] == [];
      ContinuesEnd(whole, ciphertext[..totalSize], sendNonce);
      return Ok(ciphertext[..totalSize]);
    }

    /** Unwraps a message. */
    method Recv(ciphertext: Bytes) returns (r: Result<Bytes, Error>)
      requires Valid()
      modifies this`recvNonce
      ensures Valid()
      ensures Reply(r, recvNonce) == RecvReply(incoming, old(recvNonce), ciphertext)
    {
      var plaintext := new byte[|ciphertext|](_ => 0);
      var totalSize: nat, pos: nat := 0, 0;
      ghost var whole := RecvReply(incoming, recvNonce, ciphertext);
      ContinuesStart(whole);
      assert plaintext[..0] == [] && ciphertext[0..] == ciphertext;
      while pos < |ciphertext|
        invariant totalSize <= pos <= |ciphertext|
        invariant Valid()
        invariant Continues(whole, plaintext[..totalSize], RecvReply(incoming, recvNonce, ciphertext[pos..]))
      {
        var k := Min(PER_PACKET_MAX, |ciphertext| - pos);
        RecvContinues(whole, plaintext[..totalSize], incoming, recvNonce, ciphertext, pos);
        var w := ReadMessage(ciphertext[pos..pos + k], plaintext, totalSize);
        if w.Err? {
          return Err(w.error);
        }
        totalSize := totalSize + w.value;
        pos := pos + k;
      }
      assert ciphertext[pos..] == [];
      ContinuesEnd(whole, plaintext[..totalSize], recvNonce);
      return Ok(plaintext[..totalSize]);
    }
  }

  /** `whole` is what prefixing `done` to the bytes of `rest` gives. */
  ghost predicate Continues(whole: Reply, done: Bytes, rest: Reply) {
    && whole.nonce == rest.nonce
    && whole.result == match rest.result { case Err(e) => rest.result case Ok(x) => Ok(done + x) }
  }

  lemma ContinuesStart(whole: Reply)
    ensures Continues(whole, [], whole)
  {
    if whole.result.Ok? {
      assert [] + whole.result.value == whole.result.value;
    }
  }

  lemma ContinuesEnd(whole: Reply, done: Bytes, n: nat)
    requires Continues(whole, done, Reply(Ok([]), n))
    ensures whole == Reply(Ok(done), n)
  {
    assert done + [] == done;
  }

  lemma ContinuesStep(whole: Reply, done: Bytes, next: Bytes, rest: Reply)
    requires Continues(whole, done,
               match rest.result { case Err(e) => rest case Ok(x) => Reply(Ok(next + x), rest.nonce) })
    ensures Continues(whole, done + next, rest)
  {
    if rest.result.Ok? {
      assert done + (next + rest.result.value) == done + next + rest.result.value;
    }
  }

  /** One turn of the sending loop. */
  lemma SendContinues(whole: Reply, done: Bytes, a: Aead, n: nat, p: Bytes, pos: nat)
    requires pos < |p| && n <= NONCE_MAX && Continues(whole, done, SendReply(a, n, p[pos..]))
    ensures var k := Min(PER_PAYLOAD_MAX, |p| - pos);
            if n == NONCE_MAX then whole == Reply(Err(Exhausted), n)
            else Continues(whole, done + a.seal(n, p[pos..pos + k]), SendReply(a, n + 1, p[pos + k..]))
  {
    var k := Min(PER_PAYLOAD_MAX, |p| - pos);
    assert p[pos..][..k] == p[pos..pos + k] && p[pos..][k..] == p[pos + k..];
    if n < NONCE_MAX {
      ContinuesStep(whole, done, a.seal(n, p[pos..pos + k]), SendReply(a, n + 1, p[pos + k..]));
    }
  }

  /** One turn of the receiving loop. */
  lemma RecvContinues(whole: Reply, done: Bytes, a: Aead, n: nat, c: Bytes, pos: nat)
    requires pos < |c| && Continues(whole, done, RecvReply(a, n, c[pos..]))
    ensures var k := Min(PER_PACKET_MAX, |c| - pos);
            match OpenPacket(a, n, c[pos..pos + k])
            case Err(e) => whole == Reply(Err(e), n)
            case Ok(payload) => Continues(whole, done + payload, RecvReply(a, n + 1, c[pos + k..]))
  {
    var k := Min(PER_PACKET_MAX, |c| - pos);
    assert c[pos..][..k] == c[pos..pos + k] && c[pos..][k..] == c[pos + k..];
    var packet := OpenPacket(a, n, c[pos..pos + k]);
    if packet.Ok? {
      ContinuesStep(whole, done, packet.value, RecvReply(a, n + 1, c[pos + k..]));
    }
  }

  // ---------------------------------------------------------------------
  // Exactness of send.
  // ---------------------------------------------------------------------

  lemma {:induction false} SendCounts(a: Aead, n: nat, p: Bytes)
    requires Correct(a) && n <= NONCE_MAX
    ensures SendReply(a, n, p).result.Ok? <==> n + Packets(|p|) <= NONCE_MAX
    ensures match SendReply(a, n, p).result
            case Ok(c) => SendReply(a, n, p).nonce == n + Packets(|p|) && |c| == Room(|p|)
            case Err(e) => SendReply(a, n, p) == Reply(Err(Exhausted), NONCE_MAX)
    decreases |p|
  {
    if p != [] && n < NONCE_MAX {
      var k := Min(|p|, PER_PAYLOAD_MAX);
      SendCounts(a, n + 1, p[k..]);
      assert Sized(a, n, p[..k]);
      RoomStep(|p|);
    }
  }

  /** `send` succeeds exactly when there is a nonce left for every packet.  Its
      output is the payload plus one tag per packet, and each packet advances
      the nonce by one.  The only failure is running out of nonces, which uses
      up all that were left. */
  lemma SendExact(a: Aead, n: nat, p: Bytes)
    requires Correct(a) && n <= NONCE_MAX
    ensures SendReply(a, n, p).result.Ok? <==> n + DivCeil(|p|) <= NONCE_MAX
    ensures match SendReply(a, n, p).result
            case Ok(c) =>
              && SendReply(a, n, p).nonce == n + DivCeil(|p|)
              && |c| == |p| + DivCeil(|p|) * PER_PAYLOAD_OVERHEAD
            case Err(e) => SendReply(a, n, p) == Reply(Err(Exhausted), NONCE_MAX)
  {
    SendCounts(a, n, p);
    RoomIs(|p|);
    PacketsIsDivCeil(|p|);
  }

  /** The first packet, never longer than 65535 bytes, seals the first 65519
      bytes of payload. */
  lemma SendFirstPacket(a: Aead, n: nat, p: Bytes)
    requires Correct(a) && n <= NONCE_MAX && SendReply(a, n, p).result.Ok? && p != []
    ensures var c := SendReply(a, n, p).result.value;
            c[..Min(|c|, PER_PACKET_MAX)] == a.seal(n, p[..Min(|p|, PER_PAYLOAD_MAX)])
  {
    var k := Min(|p|, PER_PAYLOAD_MAX);
    var packet, rest := a.seal(n, p[..k]), SendReply(a, n + 1, p[k..]).result.value;
    assert Sized(a, n, p[..k]);
    SendCounts(a, n + 1, p[k..]);
    assert k == |p| ==> p[k..] == [] && rest == [];
    assert (packet + rest)[..|packet|] == packet;
  }

  lemma SendBehindFirst(a: Aead, n: nat, p: Bytes)
    requires Correct(a) && n <= NONCE_MAX && SendReply(a, n, p).result.Ok? && PER_PAYLOAD_MAX <= |p|
    ensures var r := SendReply(a, n, p);
            && n < NONCE_MAX && PER_PACKET_MAX <= |r.result.value|
            && SendReply(a, n + 1, p[PER_PAYLOAD_MAX..]) == Reply(Ok(r.result.value[PER_PACKET_MAX..]), r.nonce)
  {
    var k := PER_PAYLOAD_MAX;
    var packet, rest := a.seal(n, p[..k]), SendReply(a, n + 1, p[k..]).result.value;
    assert Sized(a, n, p[..k]);
    assert (packet + rest)[PER_PACKET_MAX..] == rest;
  }

  function Times(i: nat, k: nat): nat {
    if i == 0 then 0 else k + Times(i - 1, k)
  }

  lemma {:induction false} TimesIs(i: nat, k: nat)
    ensures Times(i, k) == i * k
  {
    if i > 0 {
      TimesIs(i - 1, k);
    }
  }

  lemma {:induction false} SendDropped(a: Aead, n: nat, p: Bytes, i: nat)
    requires Correct(a) && n <= NONCE_MAX && SendReply(a, n, p).result.Ok?
    requires Times(i, PER_PAYLOAD_MAX) <= |p|
    ensures var r := SendReply(a, n, p);
            var lo, clo := Times(i, PER_PAYLOAD_MAX), Times(i, PER_PACKET_MAX);
            clo <= |r.result.value| && SendReply(a, n + i, p[lo..]) == Reply(Ok(r.result.value[clo..]), r.nonce)
    decreases i
  {
    var c := SendReply(a, n, p).result.value;
    if i == 0 {
      assert p[0..] == p && c[0..] == c;
    } else {
      var lo, clo := Times(i - 1, PER_PAYLOAD_MAX), Times(i - 1, PER_PACKET_MAX);
      assert Times(i, PER_PAYLOAD_MAX) == PER_PAYLOAD_MAX + lo && Times(i, PER_PACKET_MAX) == PER_PACKET_MAX + clo;
      SendBehindFirst(a, n, p);
      SendDropped(a, n + 1, p[PER_PAYLOAD_MAX..], i - 1);
      assert p[PER_PAYLOAD_MAX..][lo..] == p[PER_PAYLOAD_MAX + lo..] by {
        DropTwice(p, PER_PAYLOAD_MAX, PER_PAYLOAD_MAX + lo);
      }
      assert c[PER_PACKET_MAX..][clo..] == c[PER_PACKET_MAX + clo..] by {
        DropTwice(c, PER_PACKET_MAX, PER_PACKET_MAX + clo);
      }
    }
  }

  /** Behind `i` full packets of 65535 bytes a message goes on with payload byte
      `65519 * i` and nonce `n + i`; with the first packet this fixes every
      packet. */
  lemma SendPackets(a: Aead, n: nat, p: Bytes, i: nat)
    requires Correct(a) && n <= NONCE_MAX && SendReply(a, n, p).result.Ok?
    requires i * PER_PAYLOAD_MAX <= |p|
    ensures var r := SendReply(a, n, p);
            && i * PER_PACKET_MAX <= |r.result.value|
            && SendReply(a, n + i, p[i * PER_PAYLOAD_MAX..])
               == Reply(Ok(r.result.value[i * PER_PACKET_MAX..]), r.nonce)
  {
    TimesIs(i, PER_PAYLOAD_MAX);
    TimesIs(i, PER_PACKET_MAX);
    SendDropped(a, n, p, i);
  }

  lemma DropTwice(s: Bytes, k: nat, m: nat)
    requires k <= m <= |s|
    ensures s[k..][m - k..] == s[m..]
  {
  }

  /** Sending from the first packet on. */
  lemma SendUnfold(a: Aead, n: nat, head: Bytes, tail: Bytes, c: Bytes, m: nat)
    requires 0 < |head| <= PER_PAYLOAD_MAX && n < NONCE_MAX
    requires tail == [] || |head| == PER_PAYLOAD_MAX
    requires SendReply(a, n + 1, tail) == Reply(Ok(c), m)
    ensures SendReply(a, n, head + tail) == Reply(Ok(a.seal(n, head) + c), m)
  {
    var p := head + tail;
    var k := Min(|p|, PER_PAYLOAD_MAX);
    assert p[..k] == head && p[k..] == tail;
  }

  /** Receiving from the first packet on. */
  lemma RecvUnfold(a: Aead, n: nat, head: Bytes, tail: Bytes, p: Bytes, m: nat)
    requires Correct(a) && |head| <= PER_PAYLOAD_MAX && n < NONCE_MAX
    requires tail == [] || |head| == PER_PAYLOAD_MAX
    requires RecvReply(a, n + 1, tail) == Reply(Ok(p), m)
    ensures RecvReply(a, n, a.seal(n, head) + tail) == Reply(Ok(head + p), m)
  {
    var c := a.seal(n, head) + tail;
    var k := Min(|c|, PER_PACKET_MAX);
    assert Sized(a, n, head) && Matches(a, n, head, a.seal(n, head));
    assert c[..k] == a.seal(n, head) && c[k..] == tail;
    assert a.open(n, c[..k]) == Some(head);
  }

  // ---------------------------------------------------------------------
  // Exactness of recv.
  // ---------------------------------------------------------------------

  /** A peer in sync gets back every message that was sent, and is left in
      sync. */
  lemma {:induction false} RecvOfSend(a: Aead, n: nat, p: Bytes)
    requires Correct(a) && SendReply(a, n, p).result.Ok?
    ensures RecvReply(a, n, SendReply(a, n, p).result.value)
         == Reply(Ok(p), SendReply(a, n, p).nonce)
    decreases |p|
  {
    if p != [] {
      var k := Min(|p|, PER_PAYLOAD_MAX);
      var rest := SendReply(a, n + 1, p[k..]);
      RecvOfSend(a, n + 1, p[k..]);
      RecvUnfold(a, n, p[..k], rest.result.value, p[k..], rest.nonce);
      assert p[..k] + p[k..] == p;
    }
  }

  /** A payload that fills a whole number of packets. */
  predicate FullPackets(len: nat) {
    len == 0 || (len >= PER_PAYLOAD_MAX && FullPackets(len - PER_PAYLOAD_MAX))
  }

  lemma {:induction false} FullPacketsAre(len: nat)
    ensures FullPackets(len) <==> len % PER_PAYLOAD_MAX == 0
  {
    if len >= PER_PAYLOAD_MAX {
      FullPacketsAre(len - PER_PAYLOAD_MAX);
    }
  }

  /** `c` is what `send(p)` gives, followed by one packet with an empty
      payload; `m` is the nonce after it. */
  ghost predicate SentWithEmptyPacket(a: Aead, n: nat, p: Bytes, c: Bytes, m: nat) {
    && 0 < m <= NONCE_MAX && FullPackets(|p|)
    && |c| >= PER_PAYLOAD_OVERHEAD
    && SendReply(a, n, p) == Reply(Ok(c[..|c| - PER_PAYLOAD_OVERHEAD]), m - 1)
    && c[|c| - PER_PAYLOAD_OVERHEAD..] == a.seal(m - 1, [])
  }

  lemma {:induction false} RecvOfSendWithEmptyPacket(a: Aead, n: nat, p: Bytes, c: Bytes, m: nat)
    requires Correct(a) && SentWithEmptyPacket(a, n, p, c, m)
    ensures RecvReply(a, n, c) == Reply(Ok(p), m)
    decreases |p|
  {
    if p == [] {
      assert c == a.seal(n, []) + [];
      RecvUnfold(a, n, [], [], [], n + 1);
      assert p + p == p;
    } else {
      var k := PER_PAYLOAD_MAX;
      var c' := SentBehindFirst(a, n, p, c, m);
      RecvOfSendWithEmptyPacket(a, n + 1, p[k..], c', m);
      RecvUnfold(a, n, p[..k], c', p[k..], m);
      assert p[..k] + p[k..] == p;
    }
  }

  lemma SentBehindFirst(a: Aead, n: nat, p: Bytes, c: Bytes, m: nat) returns (c': Bytes)
    requires Correct(a) && SentWithEmptyPacket(a, n, p, c, m) && p != []
    ensures PER_PAYLOAD_MAX <= |p| && n < NONCE_MAX && c' != []
    ensures c == a.seal(n, p[..PER_PAYLOAD_MAX]) + c'
    ensures SentWithEmptyPacket(a, n + 1, p[PER_PAYLOAD_MAX..], c', m)
  {
    var k := PER_PAYLOAD_MAX;
    assert |p| >= k;
    var sent := SendReply(a, n + 1, p[k..]).result.value;
    var last := a.seal(m - 1, []);
    assert Sized(a, m - 1, []);
    c' := sent + last;
    assert c == c[..|c| - PER_PAYLOAD_OVERHEAD] + last;
    assert a.seal(n, p[..k]) + sent + last == a.seal(n, p[..k]) + c';
    assert c'[..|c'| - PER_PAYLOAD_OVERHEAD] == sent && c'[|c'| - PER_PAYLOAD_OVERHEAD..] == last;
  }

  lemma SentByStep(a: Aead, n: nat, head: Bytes, p: Bytes, c: Bytes, m: nat)
    requires Correct(a) && |head| == PER_PAYLOAD_MAX && n < NONCE_MAX
    requires SendReply(a, n + 1, p) == Reply(Ok(c), m) || SentWithEmptyPacket(a, n + 1, p, c, m)
    ensures || SendReply(a, n, head + p) == Reply(Ok(a.seal(n, head) + c), m)
            || SentWithEmptyPacket(a, n, head + p, a.seal(n, head) + c, m)
  {
    if SendReply(a, n + 1, p) == Reply(Ok(c), m) {
      SendUnfold(a, n, head, p, c, m);
    } else {
      var c0 := c[..|c| - PER_PAYLOAD_OVERHEAD];
      SendUnfold(a, n, head, p, c0, m - 1);
      var whole := a.seal(n, head) + c;
      assert Sized(a, n, head);
      assert whole[..|whole| - PER_PAYLOAD_OVERHEAD] == a.seal(n, head) + c0;
      assert whole[|whole| - PER_PAYLOAD_OVERHEAD..] == c[|c| - PER_PAYLOAD_OVERHEAD..];
    }
  }

  /** An accepted message starts with a genuine packet, and what is behind it was
      accepted too. */
  lemma RecvSplit(a: Aead, n: nat, p: Bytes, c: Bytes, m: nat)
    returns (head: Bytes, tail: Bytes, p': Bytes)
    requires Correct(a) && c != [] && RecvReply(a, n, c) == Reply(Ok(p), m)
    ensures n < NONCE_MAX && |head| <= PER_PAYLOAD_MAX && (tail == [] || |head| == PER_PAYLOAD_MAX)
    ensures c == a.seal(n, head) + tail && p == head + p' && |tail| < |c|
    ensures RecvReply(a, n + 1, tail) == Reply(Ok(p'), m)
  {
    var k := Min(|c|, PER_PACKET_MAX);
    head, tail := OpenPacket(a, n, c[..k]).value, c[k..];
    p' := RecvReply(a, n + 1, tail).result.value;
    assert Matches(a, n, head, c[..k]) && Sized(a, n, head);
    assert c == c[..k] + c[k..];
  }

  lemma LastPacketSent(a: Aead, n: nat, head: Bytes)
    requires Correct(a) && n < NONCE_MAX && |head| <= PER_PAYLOAD_MAX
    ensures var c := a.seal(n, head);
            SendReply(a, n, head) == Reply(Ok(c), n + 1) || SentWithEmptyPacket(a, n, head, c, n + 1)
  {
    var c := a.seal(n, head);
    assert Sized(a, n, head);
    if head == [] {
      assert c[..|c| - PER_PAYLOAD_OVERHEAD] == [] && c[|c| - PER_PAYLOAD_OVERHEAD..] == c;
    } else {
      SendUnfold(a, n, head, [], [], n + 1);
      assert head + [] == head && c + [] == c;
    }
  }

  lemma {:induction false} RecvOnlySent(a: Aead, n: nat, p: Bytes, c: Bytes, m: nat)
    requires Correct(a) && n <= NONCE_MAX
    requires RecvReply(a, n, c) == Reply(Ok(p), m)
    ensures SendReply(a, n, p) == Reply(Ok(c), m) || SentWithEmptyPacket(a, n, p, c, m)
    decreases |c|
  {
    if c != [] {
      var head, tail, p' := RecvSplit(a, n, p, c, m);
      if tail == [] {
        LastPacketSent(a, n, head);
        assert p == head && c == a.seal(n, head);
      } else {
        RecvOnlySent(a, n + 1, p', tail, m);
        SentByStep(a, n, head, p', tail, m);
      }
    }
  }

  /** `recv` accepts `c` as `p` exactly when `c` is what `send(p)` produces at
      that nonce, or that followed by one packet with an empty payload after a
      whole number of full packets. */
  lemma RecvExact(a: Aead, n: nat, p: Bytes, c: Bytes, m: nat)
    requires Correct(a) && n <= NONCE_MAX
    ensures RecvReply(a, n, c) == Reply(Ok(p), m) <==>
            SendReply(a, n, p) == Reply(Ok(c), m) || SentWithEmptyPacket(a, n, p, c, m)
  {
    if RecvReply(a, n, c) == Reply(Ok(p), m) {
      RecvOnlySent(a, n, p, c, m);
    } else if SendReply(a, n, p) == Reply(Ok(c), m) {
      RecvOfSend(a, n, p);
    } else if SentWithEmptyPacket(a, n, p, c, m) {
      RecvOfSendWithEmptyPacket(a, n, p, c, m);
    }
  }

  /** A packet opens to `payload` exactly when there is a nonce left, it is no
      longer than a packet may be, and it is what sealing `payload` gives.  Too
      long a packet is told from one that does not open, and from a want of
      nonces, which shows only on a packet long enough to open. */
  lemma OpenPacketExact(a: Aead, n: nat, packet: Bytes, payload: Bytes)
    requires Correct(a)
    ensures OpenPacket(a, n, packet) == Ok(payload) <==>
            n < NONCE_MAX && |packet| <= PER_PACKET_MAX && packet == a.seal(n, payload)
    ensures OpenPacket(a, n, packet) == Err(Input) <==> |packet| > PER_PACKET_MAX
    ensures OpenPacket(a, n, packet) == Err(Exhausted) <==>
            PER_PAYLOAD_OVERHEAD <= |packet| <= PER_PACKET_MAX && n >= NONCE_MAX
  {
    assert Matches(a, n, payload, packet) && Sized(a, n, payload);
  }

  /** A rejected message still advances the nonce by the full packets in front
      of the bad one: `good` is the payload of those packets, which were
      genuine, and `sent` is their ciphertext. */
  lemma {:induction false} RecvFailure(a: Aead, n: nat, c: Bytes) returns (good: Bytes, sent: Bytes)
    requires Correct(a) && n <= NONCE_MAX && RecvReply(a, n, c).result.Err?
    ensures SendReply(a, n, good) == Reply(Ok(sent), RecvReply(a, n, c).nonce)
    ensures |good| == (RecvReply(a, n, c).nonce - n) * PER_PAYLOAD_MAX
    ensures |sent| < |c| && sent == c[..|sent|]
    ensures var next := c[|sent|..];
            OpenPacket(a, RecvReply(a, n, c).nonce, next[..Min(|next|, PER_PACKET_MAX)])
            == Err(RecvReply(a, n, c).result.error)
    decreases |c|
  {
    var k := Min(|c|, PER_PACKET_MAX);
    var first := OpenPacket(a, n, c[..k]);
    if first.Err? {
      good, sent := [], [];
      assert c[0..] == c;
    } else {
      var head := first.value;
      assert Matches(a, n, head, c[..k]) && Sized(a, n, head);
      assert c[k..] != [];
      var good', sent' := RecvFailure(a, n + 1, c[k..]);
      SendUnfold(a, n, head, good', sent', RecvReply(a, n + 1, c[k..]).nonce);
      good, sent := head + good', a.seal(n, head) + sent';
      PrefixOfRest(c, k, sent');
    }
  }

  lemma PrefixOfRest(c: Bytes, k: nat, s: Bytes)
    requires k <= |c| && |s| <= |c| - k && s == c[k..][..|s|]
    ensures c[..k] + s == c[..k + |s|] && c[k..][|s|..] == c[k + |s|..]
  {
  }

  // ---------------------------------------------------------------------
  // Whole conversations over a connection that delivers in order.
  // ---------------------------------------------------------------------

  /** One direction of a connection: both nonces, the ciphertexts under way,
      and the messages accepted for sending and handed out so far. */
  datatype Link = Link(sendNonce: nat, recvNonce: nat, inFlight: seq<Bytes>,
                       sent: seq<Bytes>, received: seq<Bytes>, broken: bool)

  datatype Event = Transmit(message: Bytes) | Deliver

  function Step(a: Aead, l: Link, ev: Event): Link {
    match ev
    case Transmit(m) =>
      var r := SendReply(a, l.sendNonce, m);
      (match r.result
       case Err(e) => l.(sendNonce := r.nonce)
       case Ok(c) => l.(sendNonce := r.nonce, inFlight := l.inFlight + [c], sent := l.sent + [m]))
    case Deliver =>
      if l.inFlight == [] then l
      else
        var r := RecvReply(a, l.recvNonce, l.inFlight[0]);
        var l' := l.(recvNonce := r.nonce, inFlight := l.inFlight[1..]);
        match r.result
        case Err(e) => l'.(broken := true)
        case Ok(m) => l'.(received := l.received + [m])
  }

  function Run(a: Aead, l: Link, events: seq<Event>): Link
    decreases |events|
  {
    if events == [] then l else Run(a, Step(a, l, events[0]), events[1..])
  }

  /** `cs` are the ciphertexts of `ms` framed one after the other from nonce
      `n` on, ending at nonce `m`. */
  ghost predicate Framed(a: Aead, n: nat, ms: seq<Bytes>, cs: seq<Bytes>, m: nat)
    decreases |ms|
  {
    if ms == [] then cs == [] && n == m
    else
      && cs != [] && SendReply(a, n, ms[0]).result == Ok(cs[0])
      && Framed(a, SendReply(a, n, ms[0]).nonce, ms[1..], cs[1..], m)
  }

  /** A send that starts with nonces left but not with enough of them: it fails
      half way and uses up the rest, while nothing goes out. */
  predicate BurnsNonces(l: Link, ev: Event) {
    ev.Transmit? && l.sendNonce < NONCE_MAX < l.sendNonce + DivCeil(|ev.message|)
  }

  /** Some send of the run burns nonces. */
  predicate RunBurnsNonces(a: Aead, l: Link, events: seq<Event>)
    decreases |events|
  {
    events != [] && (BurnsNonces(l, events[0]) || RunBurnsNonces(a, Step(a, l, events[0]), events[1..]))
  }

  /** Everything sent has been received or is properly framed in flight.  At the
      end of the queue the two ends agree on the nonce, unless nonces were burnt:
      then the sender has none left and the receiver waits below. */
  ghost predicate InSync(a: Aead, l: Link, burnt: bool) {
    && !l.broken && l.sendNonce <= NONCE_MAX
    && |l.received| <= |l.sent| && l.received == l.sent[..|l.received|]
    && exists m: nat :: Framed(a, l.recvNonce, l.sent[|l.received|..], l.inFlight, m)
                     && QueueEnd(l, m, burnt)
  }

  ghost predicate QueueEnd(l: Link, m: nat, burnt: bool) {
    if burnt then m < l.sendNonce == NONCE_MAX else m == l.sendNonce
  }

  lemma {:induction false} FramedSnoc(a: Aead, n: nat, ms: seq<Bytes>, cs: seq<Bytes>, m: nat, p: Bytes,
      c: Bytes, m': nat)
    requires Framed(a, n, ms, cs, m) && SendReply(a, m, p) == Reply(Ok(c), m')
    ensures Framed(a, n, ms + [p], cs + [c], m')
    decreases |ms|
  {
    if ms == [] {
      assert ms + [p] == [p] && cs + [c] == [c];
      assert Framed(a, m', [p][1..], [c][1..], m');
    } else {
      FramedSnoc(a, SendReply(a, n, ms[0]).nonce, ms[1..], cs[1..], m, p, c, m');
      assert (ms + [p])[1..] == ms[1..] + [p] && (cs + [c])[1..] == cs[1..] + [c];
    }
  }

  lemma TransmitKeepsSync(a: Aead, l: Link, p: Bytes, burnt: bool)
    requires Correct(a) && InSync(a, l, burnt)
    ensures InSync(a, Step(a, l, Transmit(p)), burnt || BurnsNonces(l, Transmit(p)))
  {
    SendExact(a, l.sendNonce, p);
    var r := SendReply(a, l.sendNonce, p);
    var l' := Step(a, l, Transmit(p));
    var done := |l.received|;
    var m: nat :| Framed(a, l.recvNonce, l.sent[done..], l.inFlight, m) && QueueEnd(l, m, burnt);
    if r.result.Ok? {
      var m' := if p == [] then m else r.nonce;
      FramedSnoc(a, l.recvNonce, l.sent[done..], l.inFlight, m, p, r.result.value, m');
      assert l'.sent[done..] == l.sent[done..] + [p];
      assert l'.sent[..done] == l.sent[..done];
      assert QueueEnd(l', m', burnt);
    } else {
      assert QueueEnd(l', m, burnt || BurnsNonces(l, Transmit(p)));
    }
  }

  lemma DeliverKeepsSync(a: Aead, l: Link, burnt: bool)
    requires Correct(a) && InSync(a, l, burnt)
    ensures InSync(a, Step(a, l, Deliver), burnt)
  {
    if l.inFlight != [] {
      var done := |l.received|;
      var ms := l.sent[done..];
      var m: nat :| Framed(a, l.recvNonce, ms, l.inFlight, m) && QueueEnd(l, m, burnt);
      RecvOfSend(a, l.recvNonce, ms[0]);
      var l' := Step(a, l, Deliver);
      assert l'.received == l.sent[..done] + [l.sent[done]] == l.sent[..done + 1];
      assert ms[1..] == l.sent[done + 1..];
      assert Framed(a, l'.recvNonce, l'.sent[|l'.received|..], l'.inFlight, m) && QueueEnd(l', m, burnt);
    }
  }

  lemma {:induction false} RunKeepsSync(a: Aead, l: Link, events: seq<Event>, burnt: bool)
    requires Correct(a) && InSync(a, l, burnt)
    ensures InSync(a, Run(a, l, events), burnt || RunBurnsNonces(a, l, events))
    decreases |events|
  {
    if events != [] {
      match events[0] {
        case Transmit(p) => TransmitKeepsSync(a, l, p, burnt);
        case Deliver => DeliverKeepsSync(a, l, burnt);
      }
      RunKeepsSync(a, Step(a, l, events[0]), events[1..], burnt || BurnsNonces(l, events[0]));
    }
  }

  const FRESH: Link := Link(0, 0, [], [], [], false)

  /** However sends and deliveries interleave on a fresh connection, no message
      is ever rejected and messages come out exactly as they went in and in
      order.  Once everything under way is delivered the two ends agree on the
      nonce if and only if no send ran out of nonces half way. */
  lemma ConversationInSync(a: Aead, events: seq<Event>)
    requires Correct(a)
    ensures var l := Run(a, FRESH, events);
            && !l.broken
            && |l.received| <= |l.sent| && l.received == l.sent[..|l.received|]
            && |l.sent| == |l.received| + |l.inFlight|
            && (l.inFlight == [] ==>
                  (l.recvNonce == l.sendNonce <==> !RunBurnsNonces(a, FRESH, events)))
  {
    assert Framed(a, 0, FRESH.sent[0..], FRESH.inFlight, 0) && QueueEnd(FRESH, 0, false);
    RunKeepsSync(a, FRESH, events, false);
    var l := Run(a, FRESH, events);
    var m: nat :| Framed(a, l.recvNonce, l.sent[|l.received|..], l.inFlight, m)
               && QueueEnd(l, m, RunBurnsNonces(a, FRESH, events));
    FramedLength(a, l.recvNonce, l.sent[|l.received|..], l.inFlight, m);
  }

  /** The messages a sender gets out from nonce `n` on: each one for which there
      are nonces enough.  A message that asks for more uses up what is left. */
  function GoOut(n: nat, events: seq<Event>): seq<Bytes>
    decreases |events|
  {
    if events == [] then []
    else
      match events[0]
      case Deliver => GoOut(n, events[1..])
      case Transmit(m) =>
        var next := n + DivCeil(|m|);
        if next <= NONCE_MAX then [m] + GoOut(next, events[1..]) else GoOut(NONCE_MAX, events[1..])
  }

  lemma {:induction false} RunSends(a: Aead, l: Link, events: seq<Event>)
    requires Correct(a) && l.sendNonce <= NONCE_MAX
    ensures Run(a, l, events).sent == l.sent + GoOut(l.sendNonce, events)
    decreases |events|
  {
    if events != [] {
      var l', rest := Step(a, l, events[0]), events[1..];
      if events[0].Transmit? {
        SendExact(a, l.sendNonce, events[0].message);
      }
      RunSends(a, l', rest);
      assert events[0].Transmit? && l'.sent != l.sent ==>
               l.sent + [events[0].message] + GoOut(l'.sendNonce, rest)
               == l.sent + ([events[0].message] + GoOut(l'.sendNonce, rest));
    }
  }

  function Deliveries(k: nat): seq<Event> {
    seq(k, _ => Deliver)
  }

  lemma {:induction false} DeliveriesEmpty(a: Aead, l: Link, burnt: bool, k: nat)
    requires Correct(a) && InSync(a, l, burnt) && k == |l.inFlight|
    ensures var r := Run(a, l, Deliveries(k));
            r.inFlight == [] && r.received == r.sent == l.sent && !r.broken
    decreases k
  {
    var m: nat :| Framed(a, l.recvNonce, l.sent[|l.received|..], l.inFlight, m) && QueueEnd(l, m, burnt);
    FramedLength(a, l.recvNonce, l.sent[|l.received|..], l.inFlight, m);
    if k == 0 {
      assert l.sent[..|l.sent|] == l.sent;
    } else {
      DeliverKeepsSync(a, l, burnt);
      DeliverTakesOne(a, l, m);
      assert Deliveries(k)[1..] == Deliveries(k - 1);
      DeliveriesEmpty(a, Step(a, l, Deliver), burnt, k - 1);
    }
  }

  lemma DeliverTakesOne(a: Aead, l: Link, m: nat)
    requires Correct(a) && l.inFlight != [] && |l.received| <= |l.sent|
    requires Framed(a, l.recvNonce, l.sent[|l.received|..], l.inFlight, m)
    ensures var r := Step(a, l, Deliver);
            r.inFlight == l.inFlight[1..] && r.sent == l.sent && |r.received| == |l.received| + 1
  {
    RecvOfSend(a, l.recvNonce, l.sent[|l.received|..][0]);
  }

  lemma {:induction false} RunAppend(a: Aead, l: Link, x: seq<Event>, y: seq<Event>)
    ensures Run(a, l, x + y) == Run(a, Run(a, l, x), y)
    decreases |x|
  {
    if x == [] {
      assert x + y == y;
    } else {
      assert (x + y)[1..] == x[1..] + y;
      RunAppend(a, Step(a, l, x[0]), x[1..], y);
    }
  }

  /** Every message for which there were nonces goes out, in order and no other;
      and once as many deliveries follow as messages are under way, the receiver
      has exactly those messages. */
  lemma ConversationDelivers(a: Aead, events: seq<Event>)
    requires Correct(a)
    ensures var l := Run(a, FRESH, events);
            && l.sent == GoOut(0, events)
            && Run(a, FRESH, events + Deliveries(|l.inFlight|)).received == GoOut(0, events)
  {
    var l := Run(a, FRESH, events);
    RunSends(a, FRESH, events);
    assert [] + GoOut(0, events) == GoOut(0, events);
    assert Framed(a, 0, FRESH.sent[0..], FRESH.inFlight, 0) && QueueEnd(FRESH, 0, false);
    RunKeepsSync(a, FRESH, events, false);
    RunAppend(a, FRESH, events, Deliveries(|l.inFlight|));
    DeliveriesEmpty(a, l, RunBurnsNonces(a, FRESH, events), |l.inFlight|);
  }

  /** `c` is a ciphertext of `p` that a receiver at nonce `n` takes. */
  ghost predicate Genuine(a: Aead, n: nat, p: Bytes, c: Bytes, m: nat) {
    SendReply(a, n, p) == Reply(Ok(c), m) || SentWithEmptyPacket(a, n, p, c, m)
  }

  /** Something else in place of the next ciphertext breaks the connection, and
      nothing is handed out for it. */
  lemma ForgeryBreaks(a: Aead, l: Link)
    requires Correct(a) && l.recvNonce <= NONCE_MAX && l.inFlight != []
    requires forall p, m :: !Genuine(a, l.recvNonce, p, l.inFlight[0], m)
    ensures var r := Step(a, l, Deliver);
            r.broken && r.received == l.received && r.inFlight == l.inFlight[1..]
  {
    var r := RecvReply(a, l.recvNonce, l.inFlight[0]);
    if r.result.Ok? {
      RecvExact(a, l.recvNonce, r.result.value, l.inFlight[0], r.nonce);
      assert Genuine(a, l.recvNonce, r.result.value, l.inFlight[0], r.nonce);
    }
  }

  /** One message of more packets than there are nonces leaves nothing in flight
      and the two ends as far apart as can be. */
  lemma TooLongMessageDesynchronises(a: Aead, message: Bytes)
    requires Correct(a) && DivCeil(|message|) > NONCE_MAX
    ensures var l := Run(a, FRESH, [Transmit(message)]);
            l.inFlight == [] && l.sent == [] && l.recvNonce == 0 && l.sendNonce == NONCE_MAX
  {
    SendExact(a, 0, message);
    assert [Transmit(message)][1..] == [];
    assert Run(a, FRESH, [Transmit(message)]) == Step(a, FRESH, Transmit(message));
  }

  lemma {:induction false} FramedLength(a: Aead, n: nat, ms: seq<Bytes>, cs: seq<Bytes>, m: nat)
    requires Framed(a, n, ms, cs, m)
    ensures |ms| == |cs|
    decreases |ms|
  {
    if ms != [] {
      FramedLength(a, SendReply(a, n, ms[0]).nonce, ms[1..], cs[1..], m);
    }
  }
}
