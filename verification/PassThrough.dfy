/**
  The stream that releases only validated bytes (node/ts/incremental_mac.ts).

  Node calls `_transform` for one write at a time and `_final` after the last
  one, and calls neither again once a callback has reported an error.
 */
module PassThrough {
  import opened Wrappers
  import opened Bytes
  import opened IncrementalMac

  datatype Failure = CorruptedInput | CorruptedAtEnd | NotFullyProcessed
  datatype Status = Open | Failed(why: Failure) | Finished

  /** The chunks held back, the chunks handed on, and whether the stream is
      still going. */
  datatype Flow = Flow(buffer: seq<Bytes>, pushed: seq<Bytes>, status: Status)

  // ---------------------------------------------------------------------
  // Releasing a validated prefix of the buffered chunks.
  // ---------------------------------------------------------------------

  /** A relative index into a typed array: negative counts from the end, and
      everything is clamped. */
  function Clamp(i: int, len: nat): (r: nat)
    ensures r <= len
  {
    if i < 0 then (if len + i < 0 then 0 else len + i)
    else if i <= len then i else len
  }

  function Subarray(s: Bytes, begin: int, end: int): Bytes {
    var b, e := Clamp(begin, |s|), Clamp(end, |s|);
    if b <= e then s[b..e] else []
  }

  datatype Released = Released(pushed: seq<Bytes>, kept: seq<Bytes>)

  /** The releasing loop, when `validated` bytes lie in the chunks before. */
  function Release(chunks: seq<Bytes>, validated: nat, ready: nat): Released {
    if chunks == [] then Released([], [])
    else
      var chunk := chunks[0];
      var upTo := validated + |chunk|;
      var rest := Release(chunks[1..], upTo, ready);
      if upTo <= ready then Released([chunk] + rest.pushed, rest.kept)
      else
        var notValidated := upTo - ready;
        Released([Subarray(chunk, 0, -notValidated)] + rest.pushed,
                 [Subarray(chunk, -notValidated, |chunk|)] + rest.kept)
  }

  lemma SubarraySplits(chunk: Bytes, notValidated: int)
    requires 0 < notValidated
    ensures var cut := if notValidated <= |chunk| then |chunk| - notValidated else 0;
            && Subarray(chunk, 0, -notValidated) == chunk[..cut]
            && Subarray(chunk, -notValidated, |chunk|) == chunk[cut..]
  {
  }

  lemma ConcatCons(x: Bytes, rest: seq<Bytes>)
    ensures Concat([x] + rest) == x + Concat(rest)
  {
    assert ([x] + rest)[1..] == rest;
  }

  lemma ConcatHead(parts: seq<Bytes>)
    requires parts != []
    ensures Concat(parts) == parts[0] + Concat(parts[1..])
  {
  }

  /** Wherever the boundary falls, the released chunks concatenate to exactly
      the first `ready - validated` bytes and the kept ones to the rest. */
  lemma {:induction false} ReleaseSplits(chunks: seq<Bytes>, validated: nat, ready: nat)
    ensures var all := Concat(chunks);
            var cut := if validated <= ready then Min(ready - validated, |all|) else 0;
            && Concat(Release(chunks, validated, ready).pushed) == all[..cut]
            && Concat(Release(chunks, validated, ready).kept) == all[cut..]
    decreases |chunks|
  {
    if chunks != [] {
      var chunk, tail := chunks[0], chunks[1..];
      var upTo := validated + |chunk|;
      ConcatHead(chunks);
      ReleaseSplits(tail, upTo, ready);
      var rest := Release(tail, upTo, ready);
      if upTo <= ready {
        ConcatCons(chunk, rest.pushed);
        SplitBehind(chunk, Concat(tail), Min(ready - upTo, |Concat(tail)|));
      } else {
        var notValidated := upTo - ready;
        SubarraySplits(chunk, notValidated);
        ConcatCons(Subarray(chunk, 0, -notValidated), rest.pushed);
        ConcatCons(Subarray(chunk, -notValidated, |chunk|), rest.kept);
        SplitInside(chunk, Concat(tail), if notValidated <= |chunk| then |chunk| - notValidated else 0);
      }
    }
  }

  lemma SplitBehind(x: Bytes, y: Bytes, cut: nat)
    requires cut <= |y|
    ensures (x + y)[..|x| + cut] == x + y[..cut] && (x + y)[|x| + cut..] == y[cut..]
  {
  }

  lemma SplitInside(x: Bytes, y: Bytes, cut: nat)
    requires cut <= |x|
    ensures (x + y)[..cut] == x[..cut] + y[..0] && (x + y)[cut..] == x[cut..] + y[0..]
  {
  }

  /** When the boundary does not fall before the last chunk, every earlier chunk
      is released whole and at most a suffix of the last one is kept. */
  lemma {:induction false} ReleaseSplitsLastOnly(chunks: seq<Bytes>, last: Bytes, validated: nat, ready: nat)
    requires validated + |Concat(chunks)| <= ready
    ensures var r := Release(chunks + [last], validated, ready);
            var over := validated + |Concat(chunks)| + |last| - ready;
            && |r.pushed| == |chunks| + 1 && r.pushed[..|chunks|] == chunks
            && r.kept == if over <= 0 then [] else [last[Clamp(-over, |last|)..]]
    decreases |chunks|
  {
    var all := chunks + [last];
    if chunks == [] {
      assert all == [last] && all[1..] == [];
      var over := validated + |last| - ready;
      if over > 0 {
        SubarraySplits(last, over);
      }
    } else {
      ConcatHead(chunks);
      assert all[0] == chunks[0] && all[1..] == chunks[1..] + [last];
      ReleaseSplitsLastOnly(chunks[1..], last, validated + |chunks[0]|, ready);
      var rest := Release(all[1..], validated + |chunks[0]|, ready);
      assert ([chunks[0]] + rest.pushed)[..|chunks|] == [chunks[0]] + rest.pushed[..|chunks| - 1];
    }
  }

  // ---------------------------------------------------------------------
  // The stream against any validator that keeps its contract.
  // ---------------------------------------------------------------------

  /** `_transform`, given the validator's answer. */
  function TransformWith(f: Flow, data: Bytes, answer: int): Flow {
    if !f.status.Open? then f
    else if answer < 0 then f.(status := Failed(CorruptedInput))
    else if answer == 0 then f.(buffer := f.buffer + [data])
    else
      var r := Release(f.buffer + [data], 0, answer);
      Flow(r.kept, f.pushed + r.pushed, Open)
  }

  /** `_final`, given the validator's answer. */
  function FinalWith(f: Flow, answer: int): Flow {
    if !f.status.Open? then f
    else if answer < 0 then f.(status := Failed(CorruptedAtEnd))
    else if |Concat(f.buffer)| != answer then Flow([], f.pushed, Failed(NotFullyProcessed))
    else Flow([], f.pushed + [Concat(f.buffer)], Finished)
  }

  /** While open: the output is the validated prefix of the input and the
      buffer is the rest. */
  ghost predicate Splits(f: Flow, input: Bytes, validated: nat) {
    && validated <= |input|
    && Concat(f.pushed) == input[..validated]
    && Concat(f.buffer) == input[validated..]
  }

  lemma TransformSplits(f: Flow, data: Bytes, answer: int, input: Bytes, validated: nat)
    requires f.status.Open? && Splits(f, input, validated)
    requires 0 <= answer <= |Concat(f.buffer)| + |data|
    ensures TransformWith(f, data, answer).status.Open?
    ensures Splits(TransformWith(f, data, answer), input + data, validated + answer)
  {
    ConcatSnoc(f.buffer, data);
    var held := Concat(f.buffer + [data]);
    assert held == (input + data)[validated..];
    if answer == 0 {
      assert (input + data)[..validated] == input[..validated];
    } else {
      ReleaseSplits(f.buffer + [data], 0, answer);
      var r := Release(f.buffer + [data], 0, answer);
      ConcatAppend(f.pushed, r.pushed);
      assert input[..validated] + held[..answer] == (input + data)[..validated + answer];
      assert held[answer..] == (input + data)[validated + answer..];
    }
  }

  /** One write and what the validator said about it. */
  datatype Write = Write(data: Bytes, answer: int)

  function RunWith(f: Flow, writes: seq<Write>): Flow
    decreases |writes|
  {
    if writes == [] then f
    else RunWith(TransformWith(f, writes[0].data, writes[0].answer), writes[1..])
  }

  function Input(writes: seq<Write>): Bytes {
    if writes == [] then [] else writes[0].data + Input(writes[1..])
  }

  /** The validator's contract: an answer never covers more bytes than are
      still unvalidated. */
  ghost predicate KeepsContract(unvalidated: nat, writes: seq<Write>)
    decreases |writes|
  {
    writes == [] ||
    (var held := unvalidated + |writes[0].data|;
     && writes[0].answer <= held
     && (writes[0].answer >= 0 ==> KeepsContract(held - writes[0].answer, writes[1..])))
  }

  /** The bytes validated by the answers up to the first rejection. */
  function Validated(writes: seq<Write>): nat {
    if writes == [] || writes[0].answer < 0 then 0
    else writes[0].answer + Validated(writes[1..])
  }

  lemma {:induction false} FailedStays(f: Flow, writes: seq<Write>)
    requires !f.status.Open?
    ensures RunWith(f, writes) == f
    decreases |writes|
  {
    if writes != [] {
      FailedStays(f, writes[1..]);
    }
  }

  /** What a run leaves: the validated prefix is out, also after a rejection. */
  ghost predicate Outcome(g: Flow, input: Bytes, validated: nat) {
    && validated <= |input|
    && Concat(g.pushed) == input[..validated]
    && (g.status.Open? || g.status == Failed(CorruptedInput))
    && (g.status.Open? ==> Splits(g, input, validated))
  }

  lemma RejectionKeepsOutcome(f: Flow, more: Bytes, input: Bytes, validated: nat)
    requires f.status.Open? && Splits(f, input, validated)
    ensures Outcome(f.(status := Failed(CorruptedInput)), input + more, validated)
  {
    assert (input + more)[..validated] == input[..validated];
  }

  lemma {:induction false} RunSplits(f: Flow, writes: seq<Write>, input: Bytes, validated: nat)
    requires f.status.Open? && Splits(f, input, validated)
    requires KeepsContract(|input| - validated, writes)
    ensures Outcome(RunWith(f, writes), input + Input(writes), validated + Validated(writes))
    decreases |writes|
  {
    if writes == [] {
      assert input + Input(writes) == input;
    } else {
      var w, rest := writes[0], writes[1..];
      var f' := TransformWith(f, w.data, w.answer);
      assert input + Input(writes) == input + w.data + Input(rest);
      if w.answer < 0 {
        FailedStays(f', rest);
        RejectionKeepsOutcome(f, Input(writes), input, validated);
      } else {
        TransformSplits(f, w.data, w.answer, input, validated);
        RunSplits(f', rest, input + w.data, validated + w.answer);
      }
    }
  }

  /** For any writes and any answers within the contract, what has been handed
      on is exactly the validated prefix of the input, also after an error.  A
      successful end hands on the whole input. */
  lemma OutputIsValidatedPrefix(writes: seq<Write>, last: int)
    requires KeepsContract(0, writes)
    ensures var f := RunWith(Flow([], [], Open), writes);
            var g := FinalWith(f, last);
            && Validated(writes) <= |Input(writes)|
            && Concat(f.pushed) == Input(writes)[..Validated(writes)]
            && (f.status.Open? ==> Concat(f.buffer) == Input(writes)[Validated(writes)..])
            && (g.status == Finished ==> Concat(g.pushed) == Input(writes))
            && (g.status != Finished ==> g.pushed == f.pushed)
            && (g.status == Finished <==>
                f.status.Open? && last == |Input(writes)| - Validated(writes))
  {
    var f := RunWith(Flow([], [], Open), writes);
    assert [] + Input(writes) == Input(writes);
    RunSplits(Flow([], [], Open), writes, [], 0);
    if f.status.Open? {
      FinalSplits(f, last, Input(writes), Validated(writes));
    }
  }

  lemma FinalSplits(f: Flow, last: int, input: Bytes, validated: nat)
    requires f.status.Open? && Splits(f, input, validated)
    ensures var g := FinalWith(f, last);
            && (g.status == Finished <==> last == |input| - validated)
            && (g.status == Finished ==> Concat(g.pushed) == input)
            && (g.status != Finished ==> g.pushed == f.pushed)
  {
    ConcatSnoc(f.pushed, Concat(f.buffer));
    assert input[..validated] + input[validated..] == input;
  }

  // ---------------------------------------------------------------------
  // The stream with the native validator.
  // ---------------------------------------------------------------------

  datatype Stream = Stream(validator: Validator, flow: Flow)

  function Transform(mac: Bytes -> Bytes, n: pos, s: Stream, data: Bytes): (r: Stream)
    requires s.validator.used < n
    ensures r.validator.used < n
  {
    if !s.flow.status.Open? then s
    else
      var a := UpdateAnswer(mac, n, s.validator, data);
      Stream(a.validator, TransformWith(s.flow, data, a.value))
  }

  function Final(mac: Bytes -> Bytes, s: Stream): Stream {
    if !s.flow.status.Open? then s
    else s.(flow := FinalWith(s.flow, FinalizeAnswer(mac, s.validator)))
  }

  function Run(mac: Bytes -> Bytes, n: pos, s: Stream, datas: seq<Bytes>): (r: Stream)
    requires s.validator.used < n
    ensures r.validator.used < n
    decreases |datas|
  {
    if datas == [] then s else Run(mac, n, Transform(mac, n, s, datas[0]), datas[1..])
  }

  function Start(expected: seq<Bytes>): Stream {
    Stream(Validator([], 0, expected), Flow([], [], Open))
  }

  /** The whole life of a stream. */
  function Lifetime(mac: Bytes -> Bytes, n: pos, expected: seq<Bytes>, datas: seq<Bytes>): Flow {
    Final(mac, Run(mac, n, Start(expected), datas)).flow
  }

  /** No single write validates more bytes than the native call can report, and
      neither does the end. */
  ghost predicate Reportable(n: pos, used: nat, datas: seq<Bytes>)
    requires used < n
    decreases |datas|
  {
    if datas == [] then used <= I32_MAX
    else
      && Crossed(n, used, |datas[0]|) * n <= I32_MAX
      && Reportable(n, Used(n, used, |datas[0]|), datas[1..])
  }

  /** All of `expected` so far was matched. */
  ghost predicate ValidatorTracks(mac: Bytes -> Bytes, n: pos, expected: seq<Bytes>, input: Bytes, v: Validator) {
    && v.seen == input
    && v.used == Used(n, 0, |input|) && v.used <= |input|
    && expected == Macs(mac, n, [], 0, input) + v.expected
  }

  /** An open stream: all of `expected` so far was matched, everything up to the
      last boundary is out and the rest is held. */
  ghost predicate Tracks(mac: Bytes -> Bytes, n: pos, expected: seq<Bytes>, input: Bytes, s: Stream) {
    && s.flow.status.Open?
    && ValidatorTracks(mac, n, expected, input, s.validator)
    && Splits(s.flow, input, |input| - s.validator.used)
  }

  /** The MACs taken for the next write. */
  function Next(mac: Bytes -> Bytes, n: pos, input: Bytes, data: Bytes): seq<Bytes> {
    Macs(mac, n, input, Used(n, 0, |input|), data)
  }

  lemma NextExtends(mac: Bytes -> Bytes, n: pos, input: Bytes, data: Bytes)
    ensures Macs(mac, n, [], 0, input + data) == Macs(mac, n, [], 0, input) + Next(mac, n, input, data)
  {
    MacsAppend(mac, n, [], 0, input, data);
    assert [] + input == input;
  }

  /** The native answer to a write whose MACs are expected and whose count can
      be reported. */
  lemma AnswerAccepts(mac: Bytes -> Bytes, n: pos, v: Validator, data: Bytes)
    requires v.used < n
    requires Macs(mac, n, v.seen, v.used, data) <= v.expected
    requires Crossed(n, v.used, |data|) * n <= I32_MAX
    ensures var a := UpdateAnswer(mac, n, v, data);
            var macs := Macs(mac, n, v.seen, v.used, data);
            && a.value + Used(n, v.used, |data|) == v.used + |data| && 0 <= a.value
            && a.validator == Validator(v.seen + data, Used(n, v.used, |data|), v.expected[|macs|..])
  {
    MatchIsPrefix(v.expected, Macs(mac, n, v.seen, v.used, data));
    MacsCount(mac, n, v.seen, v.used, data);
    CrossedCount(n, v.used, |data|);
  }

  lemma TakeExpected(mac: Bytes -> Bytes, n: pos, expected: seq<Bytes>, rest: seq<Bytes>,
      input: Bytes, data: Bytes)
    requires expected == Macs(mac, n, [], 0, input) + rest
    requires Next(mac, n, input, data) <= rest
    ensures expected == Macs(mac, n, [], 0, input + data) + rest[|Next(mac, n, input, data)|..]
  {
    var macs := Next(mac, n, input, data);
    NextExtends(mac, n, input, data);
    assert rest == macs + rest[|macs|..];
  }

  lemma {:induction false} ValidatorStep(mac: Bytes -> Bytes, n: pos, expected: seq<Bytes>, input: Bytes,
      v: Validator, data: Bytes)
    requires ValidatorTracks(mac, n, expected, input, v)
    requires Next(mac, n, input, data) <= v.expected
    requires Crossed(n, v.used, |data|) * n <= I32_MAX
    ensures var a := UpdateAnswer(mac, n, v, data);
            && ValidatorTracks(mac, n, expected, input + data, a.validator)
            && a.value + a.validator.used == v.used + |data| && 0 <= a.value
  {
    AnswerAccepts(mac, n, v, data);
    TakeExpected(mac, n, expected, v.expected, input, data);
    UsedAdds(n, 0, |input|, |data|);
  }

  lemma {:induction false} TrackStep(mac: Bytes -> Bytes, n: pos, expected: seq<Bytes>, input: Bytes,
      s: Stream, data: Bytes)
    requires Tracks(mac, n, expected, input, s)
    requires Next(mac, n, input, data) <= s.validator.expected
    requires Crossed(n, s.validator.used, |data|) * n <= I32_MAX
    ensures Tracks(mac, n, expected, input + data, Transform(mac, n, s, data))
  {
    ValidatorStep(mac, n, expected, input, s.validator, data);
    var a := UpdateAnswer(mac, n, s.validator, data);
    TransformSplits(s.flow, data, a.value, input, |input| - s.validator.used);
  }

  /** Any other write fails the stream and hands nothing on. */
  lemma RejectStep(mac: Bytes -> Bytes, n: pos, expected: seq<Bytes>, input: Bytes,
      s: Stream, data: Bytes)
    requires Tracks(mac, n, expected, input, s)
    requires !(Next(mac, n, input, data) <= s.validator.expected)
          || Crossed(n, s.validator.used, |data|) * n > I32_MAX
    ensures Transform(mac, n, s, data).flow == s.flow.(status := Failed(CorruptedInput))
  {
    MatchIsPrefix(s.validator.expected, Next(mac, n, input, data));
    MacsCount(mac, n, input, s.validator.used, data);
  }

  lemma StepCases(mac: Bytes -> Bytes, n: pos, expected: seq<Bytes>, input: Bytes,
      s: Stream, data: Bytes)
    requires Tracks(mac, n, expected, input, s)
    ensures Transform(mac, n, s, data).flow.status.Open? ==>
              Tracks(mac, n, expected, input + data, Transform(mac, n, s, data))
  {
    if Next(mac, n, input, data) <= s.validator.expected && Crossed(n, s.validator.used, |data|) * n <= I32_MAX {
      TrackStep(mac, n, expected, input, s, data);
    } else {
      RejectStep(mac, n, expected, input, s, data);
    }
  }

  lemma {:induction false} FailedRunStays(mac: Bytes -> Bytes, n: pos, s: Stream, datas: seq<Bytes>)
    requires s.validator.used < n && !s.flow.status.Open?
    ensures Run(mac, n, s, datas) == s
    decreases |datas|
  {
    if datas != [] {
      FailedRunStays(mac, n, s, datas[1..]);
    }
  }

  /** If the MACs of an input that goes on after `input + data` are expected, then
      those of `data` are expected next. */
  lemma ExpectedSoFar(mac: Bytes -> Bytes, n: pos, expected: seq<Bytes>, input: Bytes,
      s: Stream, data: Bytes, more: Bytes)
    requires Tracks(mac, n, expected, input, s)
    requires Macs(mac, n, [], 0, input + data + more) <= expected
    ensures Next(mac, n, input, data) <= s.validator.expected
  {
    var m := Macs(mac, n, [], 0, input);
    var x, y := Next(mac, n, input, data), Next(mac, n, input + data, more);
    NextExtends(mac, n, input, data);
    NextExtends(mac, n, input + data, more);
    PrefixBehind(m, x, y, s.validator.expected);
  }

  lemma PrefixBehind(m: seq<Bytes>, x: seq<Bytes>, y: seq<Bytes>, rest: seq<Bytes>)
    requires m + x + y <= m + rest
    ensures x <= rest
  {
    assert forall i :: 0 <= i < |x| ==> x[i] == (m + x + y)[|m| + i] == (m + rest)[|m| + i] == rest[i];
  }

  lemma FinishExact(mac: Bytes -> Bytes, n: pos, expected: seq<Bytes>, input: Bytes, s: Stream)
    requires Tracks(mac, n, expected, input, s)
    ensures var f := Final(mac, s).flow;
            && (f.status == Finished <==> expected == Digests(mac, n, input) && s.validator.used <= I32_MAX)
            && (f.status == Finished ==> Concat(f.pushed) == input)
            && (f.status != Finished ==> f == s.flow.(status := Failed(CorruptedAtEnd)))
  {
    var v := s.validator;
    var m := Macs(mac, n, [], 0, input);
    assert v.expected == expected[|m|..];
    assert Digests(mac, n, input)[|m|..] == [mac(input)];
    FinalSplits(s.flow, FinalizeAnswer(mac, v), input, |input| - v.used);
  }

  /** Everything handed on ends at a boundary, and its MACs were all expected. */
  ghost predicate OnlyValidated(mac: Bytes -> Bytes, n: pos, expected: seq<Bytes>, whole: Bytes, out: Bytes) {
    && out <= whole
    && Used(n, 0, |out|) == 0
    && Macs(mac, n, [], 0, out) <= expected
  }

  lemma UpToBoundary(mac: Bytes -> Bytes, n: pos, input: Bytes)
    ensures Used(n, 0, |input|) <= |input|
    ensures var out := input[..|input| - Used(n, 0, |input|)];
            Used(n, 0, |out|) == 0 && Macs(mac, n, [], 0, out) == Macs(mac, n, [], 0, input)
  {
    UpToBoundaryFrom(mac, n, [], input);
  }

  lemma {:induction false} UpToBoundaryFrom(mac: Bytes -> Bytes, n: pos, seen: Bytes, input: Bytes)
    ensures Used(n, 0, |input|) <= |input|
    ensures var out := input[..|input| - Used(n, 0, |input|)];
            Used(n, 0, |out|) == 0 && Macs(mac, n, seen, 0, out) == Macs(mac, n, seen, 0, input)
    decreases |input|
  {
    if |input| >= n {
      UpToBoundaryFrom(mac, n, seen + input[..n], input[n..]);
      var out := input[..|input| - Used(n, 0, |input|)];
      assert out[..n] == input[..n];
      assert out[n..] == input[n..][..|input| - n - Used(n, 0, |input|)];
    }
  }

  lemma TracksOnlyValidated(mac: Bytes -> Bytes, n: pos, expected: seq<Bytes>, input: Bytes,
      s: Stream, more: Bytes)
    requires Tracks(mac, n, expected, input, s)
    ensures OnlyValidated(mac, n, expected, input + more, Concat(s.flow.pushed))
  {
    UpToBoundary(mac, n, input);
    var out := Concat(s.flow.pushed);
    assert out == (input + more)[..|out|];
  }

  lemma {:induction false} RunExact(mac: Bytes -> Bytes, n: pos, expected: seq<Bytes>, input: Bytes, s: Stream,
      datas: seq<Bytes>)
    requires Tracks(mac, n, expected, input, s)
    ensures var whole := input + Concat(datas);
            var f := Final(mac, Run(mac, n, s, datas)).flow;
            && (f.status == Finished <==>
                expected == Digests(mac, n, whole) && Reportable(n, s.validator.used, datas))
            && (f.status == Finished ==> Concat(f.pushed) == whole)
            && (f.status != Finished ==> OnlyValidated(mac, n, expected, whole, Concat(f.pushed)))
            && f.status in {Finished, Failed(CorruptedInput), Failed(CorruptedAtEnd)}
    decreases |datas|
  {
    var whole := input + Concat(datas);
    if datas == [] {
      assert whole == input;
      FinishExact(mac, n, expected, input, s);
      TracksOnlyValidated(mac, n, expected, input, s, []);
    } else {
      var data, rest := datas[0], datas[1..];
      var more := Concat(rest);
      assert whole == input + data + more;
      var s' := Transform(mac, n, s, data);
      if Next(mac, n, input, data) <= s.validator.expected && Crossed(n, s.validator.used, |data|) * n <= I32_MAX {
        TrackStep(mac, n, expected, input, s, data);
        RunExact(mac, n, expected, input + data, s', rest);
      } else {
        RejectStep(mac, n, expected, input, s, data);
        FailedRunStays(mac, n, s', rest);
        TracksOnlyValidated(mac, n, expected, input, s, data + more);
        assert input + (data + more) == whole;
        if expected == Digests(mac, n, whole) {
          assert Macs(mac, n, [], 0, input + data + more) <= expected;
          ExpectedSoFar(mac, n, expected, input, s, data, more);
        }
      }
    }
  }

  /** However the input is cut into writes, the stream ends well exactly when
      the expected MACs are the digests of the whole input and every count could
      be reported; then it has handed on the whole input.  Otherwise it fails
      with a verification error, having handed on only whole chunks whose MACs
      all matched. */
  lemma LifetimeExact(mac: Bytes -> Bytes, n: pos, expected: seq<Bytes>, datas: seq<Bytes>)
    ensures var f := Lifetime(mac, n, expected, datas);
            && (f.status == Finished <==>
                expected == Digests(mac, n, Concat(datas)) && Reportable(n, 0, datas))
            && (f.status == Finished ==> Concat(f.pushed) == Concat(datas))
            && (f.status != Finished ==> OnlyValidated(mac, n, expected, Concat(datas), Concat(f.pushed)))
            && f.status in {Finished, Failed(CorruptedInput), Failed(CorruptedAtEnd)}
  {
    var s := Start(expected);
    StartTracks(mac, n, expected);
    assert [] + Concat(datas) == Concat(datas);
    RunExact(mac, n, expected, [], s, datas);
  }

  lemma {:induction false} RunTracks(mac: Bytes -> Bytes, n: pos, expected: seq<Bytes>, input: Bytes,
      s: Stream, datas: seq<Bytes>)
    requires Tracks(mac, n, expected, input, s)
    ensures Run(mac, n, s, datas).flow.status.Open? ==>
              Tracks(mac, n, expected, input + Concat(datas), Run(mac, n, s, datas))
    decreases |datas|
  {
    if datas == [] {
      assert input + Concat(datas) == input;
    } else {
      var data, rest := datas[0], datas[1..];
      var s' := Transform(mac, n, s, data);
      if s'.flow.status.Open? {
        StepCases(mac, n, expected, input, s, data);
        RunTracks(mac, n, expected, input + data, s', rest);
        assert input + data + Concat(rest) == input + Concat(datas);
      } else {
        FailedRunStays(mac, n, s', rest);
      }
    }
  }

  /** While the stream is going everything up to the last boundary is out and
      only what lies after it is held. */
  lemma ReleasedPromptly(mac: Bytes -> Bytes, n: pos, expected: seq<Bytes>, datas: seq<Bytes>)
    requires Run(mac, n, Start(expected), datas).flow.status.Open?
    ensures var f, input := Run(mac, n, Start(expected), datas).flow, Concat(datas);
            var cut := |input| - |input| % n;
            Concat(f.pushed) == input[..cut] && Concat(f.buffer) == input[cut..]
  {
    StartTracks(mac, n, expected);
    RunTracks(mac, n, expected, [], Start(expected), datas);
    assert [] + Concat(datas) == Concat(datas);
    CrossedIs(n, |Concat(datas)|);
  }

  lemma StartTracks(mac: Bytes -> Bytes, n: pos, expected: seq<Bytes>)
    ensures Tracks(mac, n, expected, [], Start(expected))
  {
    assert Macs(mac, n, [], 0, []) + expected == expected;
  }

  /** No single write validates more bytes than the native call can report. */
  ghost predicate WritesReportable(n: pos, used: nat, datas: seq<Bytes>)
    requires used < n
    decreases |datas|
  {
    datas == [] ||
    (&& Crossed(n, used, |datas[0]|) * n <= I32_MAX
     && WritesReportable(n, Used(n, used, |datas[0]|), datas[1..]))
  }

  lemma {:induction false} RunFailsExactly(mac: Bytes -> Bytes, n: pos, expected: seq<Bytes>, input: Bytes,
      s: Stream, datas: seq<Bytes>)
    requires Tracks(mac, n, expected, input, s)
    ensures var status := Run(mac, n, s, datas).flow.status;
            && (status.Open? || status == Failed(CorruptedInput))
            && (status.Open? <==> && Macs(mac, n, [], 0, input + Concat(datas)) <= expected
                                  && WritesReportable(n, s.validator.used, datas))
    decreases |datas|
  {
    if datas == [] {
      assert input + Concat(datas) == input;
    } else {
      var data, rest := datas[0], datas[1..];
      var more := Concat(rest);
      assert input + Concat(datas) == input + data + more;
      var s' := Transform(mac, n, s, data);
      if Next(mac, n, input, data) <= s.validator.expected && Crossed(n, s.validator.used, |data|) * n <= I32_MAX {
        TrackStep(mac, n, expected, input, s, data);
        RunFailsExactly(mac, n, expected, input + data, s', rest);
      } else {
        RejectStep(mac, n, expected, input, s, data);
        FailedRunStays(mac, n, s', rest);
        if Macs(mac, n, [], 0, input + data + more) <= expected {
          ExpectedSoFar(mac, n, expected, input, s, data, more);
        }
      }
    }
  }

  /** Which error a failed stream reports: corruption in a write exactly when some
      MAC at a boundary is not the expected one or some write is not reportable,
      and otherwise corruption at the end. */
  lemma FailureExact(mac: Bytes -> Bytes, n: pos, expected: seq<Bytes>, datas: seq<Bytes>)
    ensures var status := Lifetime(mac, n, expected, datas).status;
            var good := Macs(mac, n, [], 0, Concat(datas)) <= expected && WritesReportable(n, 0, datas);
            && (status == Failed(CorruptedInput) <==> !good)
            && (status == Failed(CorruptedAtEnd) <==> good && status != Finished)
  {
    StartTracks(mac, n, expected);
    assert [] + Concat(datas) == Concat(datas);
    RunFailsExactly(mac, n, expected, [], Start(expected), datas);
    RunTracks(mac, n, expected, [], Start(expected), datas);
    var s := Run(mac, n, Start(expected), datas);
    if s.flow.status.Open? {
      FinishExact(mac, n, expected, Concat(datas), s);
    }
  }

  /** Between writes fewer than `n` bytes are held back, and a write that
      releases anything releases every earlier chunk whole: only the newest
      chunk is ever split. */
  lemma HeldBackIsSmall(mac: Bytes -> Bytes, n: pos, expected: seq<Bytes>,
      datas: seq<Bytes>, data: Bytes)
    requires var s := Run(mac, n, Start(expected), datas);
             s.flow.status.Open? && Transform(mac, n, s, data).flow.status.Open?
    ensures var s := Run(mac, n, Start(expected), datas);
            var r := Transform(mac, n, s, data);
            && |Concat(s.flow.buffer)| < n
            && (r.flow.buffer == s.flow.buffer + [data]
                || (&& |r.flow.pushed| == |s.flow.pushed| + |s.flow.buffer| + 1
                    && r.flow.pushed[..|s.flow.pushed| + |s.flow.buffer|] == s.flow.pushed + s.flow.buffer
                    && |r.flow.buffer| <= 1))
  {
    StartTracks(mac, n, expected);
    RunTracks(mac, n, expected, [], Start(expected), datas);
    var s := Run(mac, n, Start(expected), datas);
    ReleasesEarlierWhole(mac, n, s, data);
  }

  lemma AnswerAtLeastChunk(mac: Bytes -> Bytes, n: pos, v: Validator, data: Bytes)
    requires v.used < n && UpdateAnswer(mac, n, v, data).value > 0
    ensures n <= UpdateAnswer(mac, n, v, data).value
  {
    var whole := Match(v.expected, Macs(mac, n, v.seen, v.used, data)).whole;
    assert whole > 0;
    assert whole * n >= n;
  }

  lemma ReleasesEarlierWhole(mac: Bytes -> Bytes, n: pos, s: Stream, data: Bytes)
    requires s.validator.used < n && |Concat(s.flow.buffer)| < n && s.flow.status.Open?
    requires Transform(mac, n, s, data).flow.status.Open?
    ensures var r := Transform(mac, n, s, data);
            || r.flow.buffer == s.flow.buffer + [data]
            || (&& |r.flow.pushed| == |s.flow.pushed| + |s.flow.buffer| + 1
                && r.flow.pushed[..|s.flow.pushed| + |s.flow.buffer|] == s.flow.pushed + s.flow.buffer
                && |r.flow.buffer| <= 1)
  {
    var a := UpdateAnswer(mac, n, s.validator, data);
    if a.value > 0 {
      AnswerAtLeastChunk(mac, n, s.validator, data);
      ReleaseSplitsLastOnly(s.flow.buffer, data, 0, a.value);
      var r := Release(s.flow.buffer + [data], 0, a.value);
      assert (s.flow.pushed + r.pushed)[..|s.flow.pushed| + |s.flow.buffer|]
          == s.flow.pushed + r.pushed[..|s.flow.buffer|];
    }
  }

  // ---------------------------------------------------------------------
  // When counts can be reported.
  // ---------------------------------------------------------------------

  /** Writes that stay a chunk below the 32-bit limit are always reportable. */
  lemma {:induction false} SmallWritesReportable(n: pos, used: nat, datas: seq<Bytes>)
    requires used < n <= I32_MAX + 1
    requires forall d :: d in datas ==> |d| + n <= I32_MAX + 1
    ensures Reportable(n, used, datas)
    decreases |datas|
  {
    if datas != [] {
      CrossedCount(n, used, |datas[0]|);
      SmallWritesReportable(n, Used(n, used, |datas[0]|), datas[1..]);
    }
  }

  /** A chunk size over the 32-bit limit is accepted by the constructor, yet no
      stream that reaches a boundary then ends well, whatever it expects. */
  lemma HugeChunksNeverFinish(mac: Bytes -> Bytes, n: pos, expected: seq<Bytes>, datas: seq<Bytes>)
    requires I32_MAX < n <= |Concat(datas)|
    ensures Lifetime(mac, n, expected, datas).status != Finished
  {
    HugeChunksNeverReportable(n, 0, datas);
    LifetimeExact(mac, n, expected, datas);
  }

  lemma {:induction false} HugeChunksNeverReportable(n: pos, used: nat, datas: seq<Bytes>)
    requires I32_MAX < n && used < n && n <= used + |Concat(datas)|
    ensures !Reportable(n, used, datas)
    decreases |datas|
  {
    var c := Crossed(n, used, |datas[0]|);
    if c == 0 {
      HugeChunksNeverReportable(n, used + |datas[0]|, datas[1..]);
    } else {
      assert c * n >= n;
    }
  }

  // ---------------------------------------------------------------------
  // Digesting and then validating.
  // ---------------------------------------------------------------------

  const MAC_SIZE := 32

  /** The digests collected by the digesting stream over its writes and at its
      end. */
  function Collected(mac: Bytes -> Bytes, n: pos, seen: Bytes, used: nat, datas: seq<Bytes>): seq<Bytes>
    requires used < n
    decreases |datas|
  {
    if datas == [] then [mac(seen)]
    else
      Macs(mac, n, seen, used, datas[0])
      + Collected(mac, n, seen + datas[0], Used(n, used, |datas[0]|), datas[1..])
  }

  /** Cutting a digest into MACs, as the native constructor does; nothing when
      the length does not fit. */
  function SplitDigest(digest: Bytes): Option<seq<Bytes>>
    decreases |digest|
  {
    if digest == [] then Some([])
    else if |digest| < MAC_SIZE then None
    else
      var rest :- SplitDigest(digest[MAC_SIZE..]);
      Some([digest[..MAC_SIZE]] + rest)
  }

  lemma {:induction false} CollectedIsDigests(mac: Bytes -> Bytes, n: pos, seen: Bytes, used: nat, datas: seq<Bytes>)
    requires used < n
    ensures Collected(mac, n, seen, used, datas)
         == Macs(mac, n, seen, used, Concat(datas)) + [mac(seen + Concat(datas))]
    decreases |datas|
  {
    if datas == [] {
      assert seen + Concat(datas) == seen;
    } else {
      var data, rest := datas[0], datas[1..];
      CollectedIsDigests(mac, n, seen + data, Used(n, used, |data|), rest);
      MacsAppend(mac, n, seen, used, data, Concat(rest));
      assert seen + data + Concat(rest) == seen + Concat(datas);
    }
  }

  lemma {:induction false} SplitDigestExact(digest: Bytes)
    ensures SplitDigest(digest).Some? <==> |digest| % MAC_SIZE == 0
    ensures SplitDigest(digest).Some? ==> Concat(SplitDigest(digest).value) == digest
    ensures SplitDigest(digest).Some? ==> forall m :: m in SplitDigest(digest).value ==> |m| == MAC_SIZE
    decreases |digest|
  {
    if |digest| >= MAC_SIZE {
      SplitDigestExact(digest[MAC_SIZE..]);
      if SplitDigest(digest).Some? {
        ConcatCons(digest[..MAC_SIZE], SplitDigest(digest[MAC_SIZE..]).value);
      }
    }
  }

  lemma {:induction false} SplitDigestOfConcat(macs: seq<Bytes>)
    requires forall m :: m in macs ==> |m| == MAC_SIZE
    ensures SplitDigest(Concat(macs)) == Some(macs)
    decreases |macs|
  {
    if macs != [] {
      var digest := Concat(macs);
      assert digest[..MAC_SIZE] == macs[0] && digest[MAC_SIZE..] == Concat(macs[1..]);
      SplitDigestOfConcat(macs[1..]);
      assert [macs[0]] + macs[1..] == macs;
    }
  }

  lemma {:induction false} MacsSized(mac: Bytes -> Bytes, n: pos, seen: Bytes, used: nat, bytes: Bytes)
    requires used < n && forall x :: |mac(x)| == MAC_SIZE
    ensures forall m :: m in Macs(mac, n, seen, used, bytes) ==> |m| == MAC_SIZE
    decreases |bytes|
  {
    if used + |bytes| >= n {
      var t := n - used;
      MacsSized(mac, n, seen + bytes[..t], 0, bytes[t..]);
    }
  }

  /** Digest an input in any writes, then stream the same bytes in any other
      writes against that digest: everything comes out.  Any other input comes
      out whole only if its digests are the same. */
  lemma DigestThenValidate(mac: Bytes -> Bytes, n: pos, written: seq<Bytes>, streamed: seq<Bytes>)
    requires forall x :: |mac(x)| == MAC_SIZE
    requires Reportable(n, 0, streamed)
    ensures var digest := Concat(Collected(mac, n, [], 0, written));
            && SplitDigest(digest).Some?
            && var f := Lifetime(mac, n, SplitDigest(digest).value, streamed);
            && (f.status == Finished <==>
                Digests(mac, n, Concat(written)) == Digests(mac, n, Concat(streamed)))
            && (Concat(streamed) == Concat(written) ==>
                f.status == Finished && Concat(f.pushed) == Concat(written))
  {
    var macs := Digests(mac, n, Concat(written));
    assert [] + Concat(written) == Concat(written);
    CollectedIsDigests(mac, n, [], 0, written);
    MacsSized(mac, n, [], 0, Concat(written));
    SplitDigestOfConcat(macs);
    LifetimeExact(mac, n, macs, streamed);
  }

  /** So unless the two inputs collide under the MAC, a changed input never comes
      out whole. */
  lemma ChangedInputRejected(mac: Bytes -> Bytes, n: pos, written: seq<Bytes>, streamed: seq<Bytes>)
    requires mac(Concat(written)) != mac(Concat(streamed))
    ensures Lifetime(mac, n, Digests(mac, n, Concat(written)), streamed).status != Finished
  {
    LifetimeExact(mac, n, Digests(mac, n, Concat(written)), streamed);
    var x, y := Digests(mac, n, Concat(written)), Digests(mac, n, Concat(streamed));
    assert x[|x| - 1] == mac(Concat(written)) && y[|y| - 1] == mac(Concat(streamed));
  }

  // ---------------------------------------------------------------------
  // The source's own form.
  // ---------------------------------------------------------------------

  /** One turn of the releasing loop. */
  lemma ReleaseStep(chunks: seq<Bytes>, i: nat, validated: nat, ready: nat,
                                       pushed: seq<Bytes>, kept: seq<Bytes>)
    requires i < |chunks|
    ensures var r := Release(chunks[i..], validated, ready);
            var upTo := validated + |chunks[i]|;
            var rest := Release(chunks[i + 1..], upTo, ready);
            if upTo <= ready then
              pushed + r.pushed == pushed + [chunks[i]] + rest.pushed && kept + r.kept == kept + rest.kept
            else
              && pushed + r.pushed == pushed + [Subarray(chunks[i], 0, -(upTo - ready))] + rest.pushed
              && kept + r.kept == kept + [Subarray(chunks[i], -(upTo - ready), |chunks[i]|)] + rest.kept
  {
    assert chunks[i..][0] == chunks[i] && chunks[i..][1..] == chunks[i + 1..];
  }

  class ValidatingWritable {
    const native: ValidatingMac
    var validatedBytes: nat

    constructor (mac: Bytes -> Bytes, chunkSize: pos, macs: seq<Bytes>)
      ensures native.Valid() && native.State() == Validator([], 0, macs)
      ensures native.mac == mac && native.chunkSize == chunkSize
      ensures fresh(native)
    {
      native := new ValidatingMac(mac, chunkSize, macs);
      validatedBytes := 0;
    }

    method Write(chunk: Bytes) returns (err: Option<Failure>)
      requires native.Valid()
      modifies this, native
      ensures native.Valid()
      ensures var a := UpdateAnswer(native.mac, native.chunkSize, old(native.State()), chunk);
              && native.State() == a.validator
              && err == (if a.value >= 0 then None else Some(CorruptedInput))
              && validatedBytes == old(validatedBytes) + if a.value >= 0 then a.value else 0
    {
      var validBytes := native.Update(chunk);
      if validBytes < 0 {
        return Some(CorruptedInput);
      }
      validatedBytes := validatedBytes + validBytes;
      return None;
    }

    method End() returns (err: Option<Failure>)
      requires native.Valid()
      modifies this
      ensures var a := FinalizeAnswer(native.mac, native.State());
              && err == (if a >= 0 then None else Some(CorruptedAtEnd))
              && validatedBytes == old(validatedBytes) + if a >= 0 then a else 0
    {
      var validBytes := native.Finalize();
      if validBytes < 0 {
        return Some(CorruptedAtEnd);
      }
      validatedBytes := validatedBytes + validBytes;
      return None;
    }
  }

  class ValidatingPassThrough {
    const validator: ValidatingWritable
    var buffer: seq<Bytes>
    // What has been handed to the readable side, in order.
    var pushed: seq<Bytes>
    var status: Status

    ghost predicate Valid()
      reads this, validator, validator.native
    {
      validator.native.Valid()
    }

    ghost function State(): Stream
      reads this, validator, validator.native
      requires Valid()
    {
      Stream(validator.native.State(), Flow(buffer, pushed, status))
    }

    constructor (mac: Bytes -> Bytes, chunkSize: pos, macs: seq<Bytes>)
      ensures Valid() && State() == Start(macs)
      ensures validator.native.mac == mac && validator.native.chunkSize == chunkSize
      ensures fresh(validator) && fresh(validator.native)
    {
      validator := new ValidatingWritable(mac, chunkSize, macs);
      buffer, pushed, status := [], [], Open;
    }

    /** Creation from a digest, refused for a zero chunk size or a digest that
        is not a whole number of MACs. */
    static method Create(mac: Bytes -> Bytes, chunkSize: nat, digest: Bytes)
      returns (r: Option<ValidatingPassThrough>)
      ensures r.None? <==> chunkSize == 0 || |digest| % MAC_SIZE != 0
      ensures r.Some? ==>
                && r.value.Valid() && SplitDigest(digest).Some?
                && r.value.State() == Start(SplitDigest(digest).value)
                && r.value.validator.native.mac == mac
                && r.value.validator.native.chunkSize == chunkSize
    {
      SplitDigestExact(digest);
      if chunkSize == 0 {
        return None;
      }
      var macs := SplitDigest(digest);
      if macs.None? {
        return None;
      }
      var stream := new ValidatingPassThrough(mac, chunkSize, macs.value);
      return Some(stream);
    }

    method TransformData(data: Bytes)
      requires Valid() && status.Open?
      modifies this, validator, validator.native
      ensures Valid()
      ensures State() == Transform(validator.native.mac, validator.native.chunkSize, old(State()), data)
    {
      var start := validator.validatedBytes;
      var err := validator.Write(data);
      if err.Some? {
        status := Failed(err.value);
        return;
      }
      buffer := buffer + [data];
      var end := validator.validatedBytes;
      var readySize := end - start;
      if readySize == 0 {
        return;
      }
      ReleaseReady(readySize);
    }

    /** Hands on the first `readySize` buffered bytes. */
    method ReleaseReady(readySize: nat)
      modifies this`buffer, this`pushed
      ensures var r := Release(old(buffer), 0, readySize);
              buffer == r.kept && pushed == old(pushed) + r.pushed
    {
      var chunks := buffer;
      buffer := [];
      var validated: nat, i: nat := 0, 0;
      ghost var all := Release(chunks, 0, readySize);
      assert chunks[0..] == chunks;
      while i < |chunks|
        invariant i <= |chunks|
        invariant old(pushed) + all.pushed == pushed + Release(chunks[i..], validated, readySize).pushed
        invariant all.kept == buffer + Release(chunks[i..], validated, readySize).kept
      {
        var chunk := chunks[i];
        ReleaseStep(chunks, i, validated, readySize, pushed, buffer);
        validated := validated + |chunk|;
        if validated <= readySize {
          pushed := pushed + [chunk];
        } else {
          var notValidated := validated - readySize;
          pushed := pushed + [Subarray(chunk, 0, -notValidated)];
          buffer := buffer + [Subarray(chunk, -notValidated, |chunk|)];
        }
        i := i + 1;
      }
      assert chunks[i..] == [];
    }

    method FinalData()
      requires Valid() && status.Open?
      modifies this, validator
      ensures Valid()
      ensures State() == Final(validator.native.mac, old(State()))
    {
      var start := validator.validatedBytes;
      var err := validator.End();
      if err.Some? {
        status := Failed(err.value);
        return;
      }
      var readySize := validator.validatedBytes - start;
      var rest := Concat(buffer);
      buffer := [];
      if |rest| != readySize {
        status := Failed(NotFullyProcessed);
        return;
      }
      pushed := pushed + [rest];
      status := Finished;
    }
  }
}
