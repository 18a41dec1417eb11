/**
  Incremental message authentication: a MAC of the data so far is taken at
  every `n`-th byte and once more at the end
  (rust/protocol/src/incremental_mac.rs, rust/bridge/shared/src/incremental_mac.rs).

  `mac` stands for HMAC-SHA256 with its key fixed, as a function of everything
  fed to it so far.
 */
module IncrementalMac {
  import opened Wrappers
  import opened Bytes

  type pos = x: nat | 0 < x witness 1

  const I32_MAX: nat := 0x7FFF_FFFF

  // ---------------------------------------------------------------------
  // Chunk boundaries.
  // ---------------------------------------------------------------------

  /** Bytes after the last boundary once `len` more bytes follow `used`. */
  function Used(n: pos, used: nat, len: nat): (r: nat)
    requires used < n
    ensures r < n
    decreases len
  {
    if used + len < n then used + len else Used(n, 0, len - (n - used))
  }

  /** Boundaries crossed by `len` more bytes after `used`. */
  function Crossed(n: pos, used: nat, len: nat): nat
    requires used < n
    decreases len
  {
    if used + len < n then 0 else 1 + Crossed(n, 0, len - (n - used))
  }

  lemma {:induction false} CrossedCount(n: pos, used: nat, len: nat)
    requires used < n
    ensures Crossed(n, used, len) * n + Used(n, used, len) == used + len
    decreases len
  {
    if used + len >= n {
      var c := Crossed(n, 0, len - (n - used));
      CrossedCount(n, 0, len - (n - used));
      assert (c + 1) * n == c * n + n;
    }
  }

  lemma {:induction false} UsedAdds(n: pos, used: nat, a: nat, b: nat)
    requires used < n
    ensures Used(n, used, a + b) == Used(n, Used(n, used, a), b)
    decreases a
  {
    if used + a >= n {
      UsedAdds(n, 0, a - (n - used), b);
    }
  }

  /** The MACs taken while `bytes` follow `seen`, of which `used` lie after the
      last boundary. */
  function Macs(mac: Bytes -> Bytes, n: pos, seen: Bytes, used: nat, bytes: Bytes): seq<Bytes>
    requires used < n
    decreases |bytes|
  {
    if used + |bytes| < n then []
    else
      var t := n - used;
      [mac(seen + bytes[..t])] + Macs(mac, n, seen + bytes[..t], 0, bytes[t..])
  }

  lemma {:induction false} MacsCount(mac: Bytes -> Bytes, n: pos, seen: Bytes, used: nat, bytes: Bytes)
    requires used < n
    ensures |Macs(mac, n, seen, used, bytes)| == Crossed(n, used, |bytes|)
    decreases |bytes|
  {
    if used + |bytes| >= n {
      var t := n - used;
      MacsCount(mac, n, seen + bytes[..t], 0, bytes[t..]);
    }
  }

  /** The digests of a whole input: one per boundary and a final one. */
  function Digests(mac: Bytes -> Bytes, n: pos, input: Bytes): seq<Bytes> {
    Macs(mac, n, [], 0, input) + [mac(input)]
  }

  /** Feeding in two portions takes the same MACs as feeding at once. */
  lemma {:induction false} MacsAppend(mac: Bytes -> Bytes, n: pos, seen: Bytes, used: nat, a: Bytes, b: Bytes)
    requires used < n
    ensures Macs(mac, n, seen, used, a + b)
         == Macs(mac, n, seen, used, a) + Macs(mac, n, seen + a, Used(n, used, |a|), b)
    decreases |a|
  {
    if used + |a| < n {
      MacsShift(mac, n, seen, used, a, b);
    } else {
      var t := n - used;
      var x, y := a[..t], a[t..];
      assert x + y == a;
      MacsAppend(mac, n, seen + x, 0, y, b);
      MacsAppendStep(mac, n, seen, used, x, y, b);
    }
  }

  lemma MacsAppendStep(mac: Bytes -> Bytes, n: pos, seen: Bytes, used: nat, x: Bytes,
      y: Bytes, b: Bytes)
    requires used + |x| == n && 0 < |x|
    requires Macs(mac, n, seen + x, 0, y + b)
          == Macs(mac, n, seen + x, 0, y) + Macs(mac, n, seen + x + y, Used(n, 0, |y|), b)
    ensures Macs(mac, n, seen, used, x + y + b)
         == Macs(mac, n, seen, used, x + y) + Macs(mac, n, seen + (x + y), Used(n, used, |x + y|), b)
  {
    MacsUnfold(mac, n, seen, used, x, y);
    MacsUnfold(mac, n, seen, used, x, y + b);
    assert x + (y + b) == x + y + b && seen + x + y == seen + (x + y);
  }

  lemma MacsUnfold(mac: Bytes -> Bytes, n: pos, seen: Bytes, used: nat, x: Bytes, y: Bytes)
    requires used + |x| == n && 0 < |x|
    ensures Macs(mac, n, seen, used, x + y) == [mac(seen + x)] + Macs(mac, n, seen + x, 0, y)
  {
    assert (x + y)[..|x|] == x && (x + y)[|x|..] == y;
  }

  lemma MacsShift(mac: Bytes -> Bytes, n: pos, seen: Bytes, used: nat, a: Bytes, b: Bytes)
    requires used + |a| < n
    ensures Macs(mac, n, seen, used, a + b) == Macs(mac, n, seen + a, used + |a|, b)
  {
    if used + |a| + |b| >= n {
      var t := n - used;
      var t' := t - |a|;
      assert (a + b)[..t] == a + b[..t'] && (a + b)[t..] == b[t'..];
      assert seen + (a + b[..t']) == seen + a + b[..t'];
    }
  }

  /** There is a digest for every whole chunk, and the last one is the MAC of
      everything. */
  lemma DigestCount(mac: Bytes -> Bytes, n: pos, input: Bytes)
    ensures |Macs(mac, n, [], 0, input)| == |input| / n
    ensures |Digests(mac, n, input)| == |input| / n + 1 && Digests(mac, n, input)[|input| / n] == mac(input)
  {
    MacsCount(mac, n, [], 0, input);
    CrossedIs(n, |input|);
  }

  lemma CrossedIs(n: pos, len: nat)
    ensures Crossed(n, 0, len) == len / n && Used(n, 0, len) == len % n
  {
    CrossedCount(n, 0, len);
    DivIs(len, n, Crossed(n, 0, len), Used(n, 0, len));
  }

  /** Every digest but the last is the MAC of the input up to its boundary. */
  lemma DigestsAreOfPrefixes(mac: Bytes -> Bytes, n: pos, input: Bytes, j: nat)
    requires j < |input| / n
    ensures (j + 1) * n <= |input| && |Digests(mac, n, input)| == |input| / n + 1
    ensures Digests(mac, n, input)[j] == mac(input[..(j + 1) * n])
  {
    DigestCount(mac, n, input);
    MacsArePrefixes(mac, n, [], input, j);
    assert [] + input[..(j + 1) * n] == input[..(j + 1) * n];
  }

  lemma {:induction false} MacsArePrefixes(mac: Bytes -> Bytes, n: pos, seen: Bytes, bytes: Bytes, j: nat)
    requires j < |Macs(mac, n, seen, 0, bytes)|
    ensures (j + 1) * n <= |bytes|
    ensures Macs(mac, n, seen, 0, bytes)[j] == mac(seen + bytes[..(j + 1) * n])
    decreases j
  {
    assert (j + 1) * n == j * n + n;
    if j > 0 {
      MacsArePrefixes(mac, n, seen + bytes[..n], bytes[n..], j - 1);
      assert seen + bytes[..n] + bytes[n..][..j * n] == seen + bytes[..(j + 1) * n];
    }
  }

  // ---------------------------------------------------------------------
  // Comparing against the expected MACs.
  // ---------------------------------------------------------------------

  datatype Matched = Matched(ok: bool, whole: nat, rest: seq<Bytes>)

  /** The comparison loop: a mismatch is remembered, but the scan goes on. */
  function Match(expected: seq<Bytes>, macs: seq<Bytes>): Matched {
    if macs == [] then Matched(true, 0, expected)
    else if expected != [] && expected[0] == macs[0] then
      var r := Match(expected[1..], macs[1..]);
      r.(whole := r.whole + 1)
    else
      Match(expected, macs[1..]).(ok := false)
  }

  /** The loop reports success exactly when the MACs are the next expected
      ones, and then it has used up exactly those. */
  lemma {:induction false} MatchIsPrefix(expected: seq<Bytes>, macs: seq<Bytes>)
    ensures Match(expected, macs).ok <==> macs <= expected
    ensures macs <= expected ==> Match(expected, macs) == Matched(true, |macs|, expected[|macs|..])
    decreases |macs|
  {
    if macs != [] {
      if expected != [] && expected[0] == macs[0] {
        MatchIsPrefix(expected[1..], macs[1..]);
        assert macs <= expected <==> macs[1..] <= expected[1..] by {
          assert macs == [macs[0]] + macs[1..] && expected == [expected[0]] + expected[1..];
        }
      }
    }
  }

  /** Success or not, what is left over is what was expected less the MACs that
      were matched. */
  lemma {:induction false} MatchTakesFront(expected: seq<Bytes>, macs: seq<Bytes>)
    ensures var m := Match(expected, macs);
            m.whole <= |expected| && m.whole <= |macs| && m.rest == expected[m.whole..]
    decreases |macs|
  {
    if macs != [] {
      if expected != [] && expected[0] == macs[0] {
        MatchTakesFront(expected[1..], macs[1..]);
      } else {
        MatchTakesFront(expected, macs[1..]);
      }
    }
  }

  /** `a` can be had from `b` by leaving elements out. */
  predicate Subsequence(a: seq<Bytes>, b: seq<Bytes>)
    decreases |b|
  {
    a == [] || (b != [] && ((a[0] == b[0] && Subsequence(a[1..], b[1..])) || Subsequence(a, b[1..])))
  }

  lemma {:induction false} SubsequenceTail(a: seq<Bytes>, b: seq<Bytes>)
    requires a != [] && Subsequence(a, b)
    ensures Subsequence(a[1..], b[1..])
    decreases |b|
  {
    if Subsequence(a, b[1..]) {
      SubsequenceTail(a, b[1..]);
    }
  }

  /** Going on after a mismatch, the loop matches as many of the expected MACs as
      can be found in order among those taken. */
  lemma {:induction false} MatchIsLongest(expected: seq<Bytes>, macs: seq<Bytes>, k: nat)
    requires k <= |expected|
    ensures k <= Match(expected, macs).whole <==> Subsequence(expected[..k], macs)
    decreases |macs|
  {
    if macs != [] && k > 0 {
      var front := expected[..k];
      if expected[0] == macs[0] {
        assert front[1..] == expected[1..][..k - 1];
        MatchIsLongest(expected[1..], macs[1..], k - 1);
        if Subsequence(front, macs) {
          SubsequenceTail(front, macs);
        }
      } else {
        MatchIsLongest(expected, macs[1..], k);
      }
    }
  }

  // ---------------------------------------------------------------------
  // The validator as a value.
  // ---------------------------------------------------------------------

  /** What has been fed, how much of it lies after the last boundary, and the
      MACs still expected. */
  datatype Validator = Validator(seen: Bytes, used: nat, expected: seq<Bytes>)

  datatype Answer = Answer(value: int, validator: Validator)

  /** The native update: bytes newly validated, or -1.  A count that does not
      fit in 32 signed bits is reported as -1 too. */
  function UpdateAnswer(mac: Bytes -> Bytes, n: pos, v: Validator, bytes: Bytes): Answer
    requires v.used < n
  {
    var m := Match(v.expected, Macs(mac, n, v.seen, v.used, bytes));
    Answer(if m.ok && m.whole * n <= I32_MAX then m.whole * n else -1,
           Validator(v.seen + bytes, Used(n, v.used, |bytes|), m.rest))
  }

  /** The native finalize: bytes validated by the last MAC, or -1. */
  function FinalizeAnswer(mac: Bytes -> Bytes, v: Validator): int {
    if v.expected == [mac(v.seen)] && v.used <= I32_MAX then v.used else -1
  }

  // ---------------------------------------------------------------------
  // The source's own form.
  // ---------------------------------------------------------------------

  function Reversed(s: seq<Bytes>): (r: seq<Bytes>)
    ensures |r| == |s|
    ensures forall i :: 0 <= i < |s| ==> r[i] == s[|s| - 1 - i]
  {
    seq(|s|, i requires 0 <= i < |s| => s[|s| - 1 - i])
  }

  class ValidatingMac {
    const mac: Bytes -> Bytes
    const chunkSize: pos
    var fed: Bytes
    var unusedLength: nat
    // In reverse order, so that the next one is taken off the end.
    var expected: seq<Bytes>

    ghost predicate Valid()
      reads this
    {
      0 < unusedLength <= chunkSize
    }

    ghost function State(): Validator
      reads this
      requires Valid()
    {
      Validator(fed, chunkSize - unusedLength, Reversed(expected))
    }

    constructor (mac: Bytes -> Bytes, chunkSize: pos, macs: seq<Bytes>)
      ensures Valid() && State() == Validator([], 0, macs)
      ensures this.mac == mac && this.chunkSize == chunkSize
    {
      this.mac, this.chunkSize := mac, chunkSize;
      fed, unusedLength, expected := [], chunkSize, Reversed(macs);
    }

    /** Feeds at most one chunk's worth. */
    method UpdateChunk(bytes: Bytes) returns (r: Option<Bytes>)
      requires Valid() && |bytes| <= unusedLength
      modifies this`fed, this`unusedLength
      ensures Valid() && fed == old(fed) + bytes
      ensures r == if |bytes| == old(unusedLength) then Some(mac(fed)) else None
      ensures unusedLength == if r.Some? then chunkSize else old(unusedLength) - |bytes|
    {
      fed := fed + bytes;
      unusedLength := unusedLength - |bytes|;
      if unusedLength == 0 {
        unusedLength := chunkSize;
        return Some(mac(fed));
      }
      return None;
    }

    /** Splits the bytes at the boundaries and collects the MACs. */
    method Feed(bytes: Bytes) returns (macs: seq<Bytes>)
      requires Valid()
      modifies this`fed, this`unusedLength
      ensures Valid() && fed == old(fed) + bytes
      ensures macs == Macs(mac, chunkSize, old(fed), chunkSize - old(unusedLength), bytes)
      ensures chunkSize - unusedLength == Used(chunkSize, chunkSize - old(unusedLength), |bytes|)
    {
      var splitPoint := if |bytes| <= unusedLength then |bytes| else unusedLength;
      var first := UpdateChunk(bytes[..splitPoint]);
      macs := if first.Some? then [first.value] else [];
      var at: nat := splitPoint;
      ghost var was, used := old(fed), chunkSize - old(unusedLength);
      assert fed == was + bytes[..at];
      FirstPortion(mac, chunkSize, was, used, bytes, at);
      while at < |bytes|
        invariant splitPoint <= at <= |bytes|
        invariant Valid() && fed == was + bytes[..at]
        invariant at < |bytes| ==> unusedLength == chunkSize
        invariant chunkSize - unusedLength == Used(chunkSize, used, at)
        invariant macs == Macs(mac, chunkSize, was, used, bytes[..at])
      {
        var k := if chunkSize <= |bytes| - at then chunkSize else |bytes| - at;
        SliceStep(was, bytes, at, k);
        var next := UpdateChunk(bytes[at..at + k]);
        macs := macs + if next.Some? then [next.value] else [];
        NextPortion(mac, chunkSize, was, used, bytes, at, k);
        at := at + k;
      }
      assert bytes[..at] == bytes;
    }

    /** The native update. */
    method Update(bytes: Bytes) returns (value: int)
      requires Valid()
      modifies this
      ensures Valid()
      ensures Answer(value, State()) == UpdateAnswer(mac, chunkSize, old(State()), bytes)
    {
      var macs := Feed(bytes);
      var ok, wholeChunks: nat, i: nat := true, 0, 0;
      ghost var all := Match(old(State()).expected, macs);
      assert macs[0..] == macs;
      while i < |macs|
        modifies this`expected
        invariant i <= |macs|
        invariant var rest := Match(Reversed(expected), macs[i..]);
                  && all.ok == (ok && rest.ok)
                  && all.whole == wholeChunks + rest.whole
                  && all.rest == rest.rest
      {
        ghost var ahead := macs[i..];
        assert ahead[0] == macs[i] && ahead[1..] == macs[i + 1..];
        if expected != [] && expected[|expected| - 1] == macs[i] {
          wholeChunks := wholeChunks + 1;
          assert Reversed(expected[..|expected| - 1]) == Reversed(expected)[1..];
          expected := expected[..|expected| - 1];
        } else {
          ok := false;
        }
        i := i + 1;
      }
      assert macs[i..] == [];
      var validatedBytes := wholeChunks * chunkSize;
      value := if ok && validatedBytes <= I32_MAX then validatedBytes else -1;
    }

    /** The native finalize.  The handle is used up; only its answer counts. */
    method Finalize() returns (value: int)
      requires Valid()
      ensures value == FinalizeAnswer(mac, State())
    {
      var pending := chunkSize - unusedLength;
      var last := mac(fed);
      assert |expected| == 1 ==> Reversed(expected) == [expected[0]];
      value := if |expected| == 1 && expected[0] == last && pending <= I32_MAX then pending else -1;
    }
  }

  lemma SliceStep(was: Bytes, bytes: Bytes, at: nat, k: nat)
    requires at + k <= |bytes|
    ensures was + bytes[..at] + bytes[at..at + k] == was + bytes[..at + k]
  {
    assert bytes[..at] + bytes[at..at + k] == bytes[..at + k];
  }

  lemma FirstPortion(mac: Bytes -> Bytes, n: pos, was: Bytes, used: nat, bytes: Bytes, at: nat)
    requires used < n && at <= |bytes| && at <= n - used
    ensures Macs(mac, n, was, used, bytes[..at])
         == if at == n - used then [mac(was + bytes[..at])] else []
    ensures Used(n, used, at) == if at == n - used then 0 else used + at
  {
    if at == n - used {
      assert bytes[..at][..at] == bytes[..at];
    }
  }

  lemma NextPortion(mac: Bytes -> Bytes, n: pos, was: Bytes, used: nat, bytes: Bytes,
      at: nat, k: nat)
    requires used < n && at + k <= |bytes| && k <= n && Used(n, used, at) == 0
    ensures Macs(mac, n, was, used, bytes[..at + k])
         == Macs(mac, n, was, used, bytes[..at])
          + if k == n then [mac(was + bytes[..at + k])] else []
    ensures Used(n, used, at + k) == if k == n then 0 else k
  {
    var more := bytes[at..at + k];
    assert bytes[..at + k] == bytes[..at] + more;
    MacsAppend(mac, n, was, used, bytes[..at], more);
    UsedAdds(n, used, at, k);
    FirstPortion(mac, n, was + bytes[..at], 0, more, k);
    assert more[..k] == more;
    assert was + bytes[..at] + more == was + bytes[..at + k];
  }
}
