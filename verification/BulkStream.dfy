/**
  The native side of a wrapped stream (rust/net/chat/src/stream_util.rs): items
  of a fallible stream, collected into chunks; and both sides together.
 */
module BulkStream {
  import opened Wrappers
  import opened Bytes
  import opened PullStream

  /** `ahead` and `end` stand for the wrapped stream: the items it has yet to
      produce and what it ends with. */
  datatype Bulk<T, E> = Bulk(active: bool, pending: seq<T>, ahead: seq<T>, end: Termination<E>, max: nat)

  datatype Chunk<T, E> = Chunk(items: seq<T>, termination: Option<Termination<E>>)

  /** A chunk and the stream left behind. */
  datatype Taken<T, E> = Taken(chunk: Chunk<T, E>, bulk: Bulk<T, E>)

  function Terminated<T, E>(b: Bulk<T, E>): Taken<T, E> {
    Taken(Chunk(b.pending, Some(b.end)), b.(active := false, pending := []))
  }

  function Push<T, E>(b: Bulk<T, E>): Bulk<T, E>
    requires b.ahead != []
  {
    b.(pending := b.pending + [b.ahead[0]], ahead := b.ahead[1..])
  }

  /** Collecting until the chunk is full, the wrapped stream ends, or time is up;
      `budget` is how often the wrapped stream answers before that. */
  function Collected<T, E>(b: Bulk<T, E>, budget: nat): Taken<T, E>
    decreases budget
  {
    if |b.pending| >= b.max || budget == 0 then Taken(Chunk(b.pending, None), b.(pending := []))
    else if b.ahead == [] then Terminated(b)
    else Collected(Push(b), budget - 1)
  }

  function Next<T, E>(b: Bulk<T, E>, budget: nat): Taken<T, E> {
    if !b.active then Taken(Chunk(b.pending, Some(Finished)), b.(pending := []))
    else if b.pending != [] then Collected(b, budget)
    else if b.ahead == [] then Terminated(b)
    else Collected(Push(b), budget)
  }

  ghost predicate BulkInv<T, E>(b: Bulk<T, E>) {
    && |b.pending| < b.max
    && (!b.active ==> b.pending == [] && b.ahead == [])
  }

  /** What a chunk may hold, whatever the timing: it is non-empty or comes with a
      termination, is no longer than the maximum, continues the items where the
      last one stopped, and a termination is the wrapped stream's own and comes
      with its last items. */
  ghost predicate Continues<T, E>(b: Bulk<T, E>, t: Taken<T, E>) {
    && BulkInv(t.bulk) && t.bulk.end == b.end && t.bulk.max == b.max
    && t.chunk.items + t.bulk.pending + t.bulk.ahead == b.pending + b.ahead
    && |t.chunk.items| <= b.max
    && (t.chunk.items != [] || t.chunk.termination.Some?)
    && (t.chunk.termination.Some? <==> !t.bulk.active)
    && (t.chunk.termination.Some? ==> t.chunk.termination == Some(b.end) && t.bulk.ahead == [])
  }

  lemma TerminatedContinues<T, E>(b: Bulk<T, E>)
    requires b.active && b.ahead == [] && |b.pending| < b.max
    ensures Continues(b, Terminated(b))
  {
    var t := Terminated(b);
    assert t.chunk.items + t.bulk.pending + t.bulk.ahead == b.pending + b.ahead;
  }

  lemma {:induction false} CollectedContinues<T, E>(b: Bulk<T, E>, budget: nat)
    requires b.active && 0 < |b.pending| <= b.max
    ensures Continues(b, Collected(b, budget))
    decreases budget
  {
    if |b.pending| >= b.max || budget == 0 {
      var t := Collected(b, budget);
      assert t.chunk.items + t.bulk.pending + t.bulk.ahead == b.pending + b.ahead;
    } else if b.ahead == [] {
      TerminatedContinues(b);
    } else {
      CollectedContinues(Push(b), budget - 1);
      assert Push(b).pending + Push(b).ahead == b.pending + b.ahead;
    }
  }

  /** The contract of `next_chunk`, including that it stays finished after a
      termination. */
  lemma NextContract<T, E>(b: Bulk<T, E>, budget: nat)
    requires BulkInv(b)
    ensures b.active ==> Continues(b, Next(b, budget))
    ensures !b.active ==> Next(b, budget) == Taken(Chunk([], Some(Finished)), b)
  {
    if b.active {
      if b.pending != [] {
        CollectedContinues(b, budget);
      } else if b.ahead == [] {
        TerminatedContinues(b);
      } else {
        CollectedContinues(Push(b), budget);
        assert Push(b).pending + Push(b).ahead == b.pending + b.ahead;
      }
    }
  }

  /** How many items a call may take from the wrapped stream before its time is
      up: the first one is waited for without limit. */
  function Allowance<T, E>(b: Bulk<T, E>, budget: nat): nat {
    if b.pending == [] then budget + 1 else budget
  }

  /** What a call answers: as many items as the maximum, the allowance and the
      wrapped stream have, and the ending exactly if the wrapped stream ended
      while there was still room and time. */
  ghost predicate Answers<T, E>(b: Bulk<T, E>, allowance: nat, t: Taken<T, E>) {
    var all := b.pending + b.ahead;
    var ends := |all| < b.max && |b.ahead| < allowance;
    var size := Min(b.max, |b.pending| + Min(|b.ahead|, allowance));
    && t.chunk == Chunk(all[..size], if ends then Some(b.end) else None)
    && t.bulk == b.(active := !ends, pending := [], ahead := all[size..])
  }

  lemma {:induction false} CollectedExact<T, E>(b: Bulk<T, E>, budget: nat)
    requires b.active && |b.pending| <= b.max
    ensures Answers(b, budget, Collected(b, budget))
    decreases budget
  {
    var all := b.pending + b.ahead;
    if |b.pending| >= b.max || budget == 0 || b.ahead == [] {
      assert all[..|b.pending|] == b.pending && all[|b.pending|..] == b.ahead;
    } else {
      CollectedExact(Push(b), budget - 1);
      assert Push(b).pending + Push(b).ahead == all;
    }
  }

  /** A call is determined by what is pending, what is ahead and the time: it
      stops only for a full chunk, for the end of the wrapped stream, or for want
      of time, and then with everything it took. */
  lemma NextExact<T, E>(b: Bulk<T, E>, budget: nat)
    requires BulkInv(b) && b.active
    ensures Answers(b, Allowance(b, budget), Next(b, budget))
    ensures var c := Next(b, budget).chunk;
            && (c.termination.Some? <==>
                  |b.pending| + |b.ahead| < b.max && |b.ahead| < Allowance(b, budget))
            && (c.termination.None? ==>
                  |c.items| == b.max || |c.items| == |b.pending| + Allowance(b, budget))
  {
    if b.pending != [] {
      CollectedExact(b, budget);
    } else if b.ahead == [] {
      assert b.pending + b.ahead == [];
    } else {
      CollectedExact(Push(b), budget);
      assert Push(b).pending + Push(b).ahead == b.pending + b.ahead;
    }
  }

  // ---------------------------------------------------------------------
  // Dropping a call half way.
  // ---------------------------------------------------------------------

  /** The states of the stream at which the collecting loop awaits. */
  function CollectAwaits<T, E>(b: Bulk<T, E>, budget: nat): seq<Bulk<T, E>>
    decreases budget
  {
    if |b.pending| >= b.max then []
    else [b] + if budget == 0 || b.ahead == [] then [] else CollectAwaits(Push(b), budget - 1)
  }

  /** The states at which a call awaits, and may be dropped. */
  function NextAwaits<T, E>(b: Bulk<T, E>, budget: nat): seq<Bulk<T, E>> {
    if !b.active then []
    else if b.pending != [] then CollectAwaits(b, budget)
    else [b] + if b.ahead == [] then [] else CollectAwaits(Push(b), budget)
  }

  /** The stream with `k` more items pending. */
  function Interrupted<T, E>(b: Bulk<T, E>, k: nat): Bulk<T, E>
    requires k <= |b.ahead|
  {
    b.(pending := b.pending + b.ahead[..k], ahead := b.ahead[k..])
  }

  lemma InterruptedPush<T, E>(b: Bulk<T, E>, k: nat)
    requires 0 < k <= |b.ahead|
    ensures Interrupted(Push(b), k - 1) == Interrupted(b, k)
  {
    assert b.pending + [b.ahead[0]] + b.ahead[1..][..k - 1] == b.pending + b.ahead[..k];
    assert b.ahead[1..][k - 1..] == b.ahead[k..];
  }

  lemma InterruptedNot<T, E>(b: Bulk<T, E>)
    ensures Interrupted(b, 0) == b
  {
    assert b.pending + b.ahead[..0] == b.pending && b.ahead[0..] == b.ahead;
  }

  lemma {:induction false} CollectAwaitsAre<T, E>(b: Bulk<T, E>, budget: nat, i: nat)
    requires i < |CollectAwaits(b, budget)|
    ensures i <= |b.ahead| && |b.pending| + i < b.max && CollectAwaits(b, budget)[i] == Interrupted(b, i)
    decreases budget
  {
    if i == 0 {
      InterruptedNot(b);
    } else {
      var rest := CollectAwaits(Push(b), budget - 1);
      assert CollectAwaits(b, budget) == [b] + rest && CollectAwaits(b, budget)[i] == rest[i - 1];
      CollectAwaitsAre(Push(b), budget - 1, i - 1);
      InterruptedPush(b, i);
    }
  }

  /** At its await number `i` a call has moved exactly the next `i` items to the
      pending ones and nothing else. */
  lemma NextAwaitsAre<T, E>(b: Bulk<T, E>, budget: nat, i: nat)
    requires BulkInv(b) && i < |NextAwaits(b, budget)|
    ensures i <= |b.ahead| && |b.pending| + i < b.max && NextAwaits(b, budget)[i] == Interrupted(b, i)
  {
    if b.pending != [] {
      CollectAwaitsAre(b, budget, i);
    } else if i == 0 {
      InterruptedNot(b);
    } else {
      CollectAwaitsAre(Push(b), budget, i - 1);
      InterruptedPush(b, i);
    }
  }

  lemma {:induction false} CollectAwaitsCount<T, E>(b: Bulk<T, E>, budget: nat, i: nat)
    ensures i < |CollectAwaits(b, budget)| <==> |b.pending| + i < b.max && i <= budget && i <= |b.ahead|
    decreases budget
  {
    if i > 0 && |b.pending| < b.max && budget > 0 && b.ahead != [] {
      CollectAwaitsCount(Push(b), budget - 1, i - 1);
    }
  }

  /** A call awaits once for every item it takes within the maximum and the time,
      and once more if neither has stopped it. */
  lemma NextAwaitsCount<T, E>(b: Bulk<T, E>, budget: nat, i: nat)
    requires BulkInv(b) && b.active
    ensures i < |NextAwaits(b, budget)| <==>
            |b.pending| + i < b.max && i <= Allowance(b, budget) && i <= |b.ahead|
  {
    if b.pending != [] {
      CollectAwaitsCount(b, budget, i);
    } else if i > 0 && b.ahead != [] {
      CollectAwaitsCount(Push(b), budget, i - 1);
    }
  }

  /** A call dropped at any of its awaits loses no item and leaves a stream that
      later calls can go on with. */
  lemma InterruptSafe<T, E>(b: Bulk<T, E>, budget: nat, i: nat)
    requires BulkInv(b) && i < |NextAwaits(b, budget)|
    ensures var d := NextAwaits(b, budget)[i];
            && BulkInv(d) && d.active && b.active && d.end == b.end && d.max == b.max
            && d.pending + d.ahead == b.pending + b.ahead
  {
    NextAwaitsAre(b, budget, i);
    InterruptedKeeps(b, i);
  }

  lemma InterruptedKeeps<T, E>(b: Bulk<T, E>, k: nat)
    requires k <= |b.ahead|
    ensures Interrupted(b, k).pending + Interrupted(b, k).ahead == b.pending + b.ahead
  {
    assert b.ahead[..k] + b.ahead[k..] == b.ahead;
  }

  class BulkPolledStream<T, E> {
    var active: bool
    var pending: seq<T>
    var ahead: seq<T>
    const end: Termination<E>
    const max: nat

    ghost function Snapshot(): Bulk<T, E>
      reads this
    {
      Bulk(active, pending, ahead, end, max)
    }

    constructor (items: seq<T>, end: Termination<E>, max: nat)
      requires 0 < max
      ensures Snapshot() == Bulk(true, [], items, end, max) && BulkInv(Snapshot())
    {
      active, pending, ahead := true, [], items;
      this.end, this.max := end, max;
    }

    /** `awaits` records the states at which the call could be dropped. */
    method NextChunk(budget: nat) returns (chunk: Chunk<T, E>, ghost awaits: seq<Bulk<T, E>>)
      requires BulkInv(Snapshot())
      modifies this
      ensures Taken(chunk, Snapshot()) == Next(old(Snapshot()), budget)
      ensures awaits == NextAwaits(old(Snapshot()), budget)
      ensures BulkInv(Snapshot())
    {
      NextContract(Snapshot(), budget);
      awaits := [];
      if !active {
        chunk := Chunk(pending, Some(Finished));
        pending := [];
        return;
      }
      ghost var all, allAwaits := Next(Snapshot(), budget), NextAwaits(Snapshot(), budget);
      if pending == [] {
        awaits := awaits + [Snapshot()];
        if ahead == [] {
          chunk := Chunk(pending, Some(end));
          active, pending := false, [];
          return;
        }
        pending, ahead := pending + [ahead[0]], ahead[1..];
      }
      chunk, awaits := Collect(budget, awaits, all, allAwaits);
    }

    /** Collects until the chunk is full, the wrapped stream ends or time is up. */
    method Collect(budget: nat, ghost before: seq<Bulk<T, E>>, ghost all: Taken<T, E>, ghost allAwaits: seq<Bulk<T, E>>)
      returns (chunk: Chunk<T, E>, ghost awaits: seq<Bulk<T, E>>)
      requires active && Collected(Snapshot(), budget) == all
      requires before + CollectAwaits(Snapshot(), budget) == allAwaits
      modifies this
      ensures Taken(chunk, Snapshot()) == all && awaits == allAwaits
    {
      awaits := before;
      var left := budget;
      while |pending| < max
        invariant active && Collected(Snapshot(), left) == all
        invariant awaits + CollectAwaits(Snapshot(), left) == allAwaits
        decreases left
      {
        AwaitStep(awaits, Snapshot(), left);
        awaits := awaits + [Snapshot()];
        if left == 0 {
          break;
        }
        if ahead == [] {
          chunk := Chunk(pending, Some(end));
          active, pending := false, [];
          return;
        }
        pending, ahead := pending + [ahead[0]], ahead[1..];
        left := left - 1;
      }
      chunk := Chunk(pending, None);
      pending := [];
    }
  }

  lemma AwaitStep<T, E>(awaits: seq<Bulk<T, E>>, b: Bulk<T, E>, left: nat)
    requires |b.pending| < b.max
    ensures awaits + CollectAwaits(b, left)
         == awaits + [b] + if left == 0 || b.ahead == [] then [] else CollectAwaits(Push(b), left - 1)
  {
  }

  // ---------------------------------------------------------------------
  // Native stream and wrapped stream together.
  // ---------------------------------------------------------------------

  datatype Both<T, E> = Both(native: Bulk<T, E>, wrapped: State<T, E>)

  /** The consumer and the platform move; the native call completes; or it is
      dropped at its await number `i` and its promise is rejected. */
  datatype Move<T, E> =
    | Platform(event: Event<T, E>)
    | Complete(budget: nat)
    | Drop(budget: nat, i: nat, cause: E)

  function Advance<T, E>(p: Both<T, E>, m: Move<T, E>): Both<T, E> {
    match m
    case Platform(ev) =>
      if ev.NativeReturns? || ev.NativeRejects? then p
      else p.(wrapped := Step(p.wrapped, ev))
    case Complete(budget) =>
      if !p.wrapped.phase.Awaiting? then p
      else
        var t := Next(p.native, budget);
        Both(t.bulk, Step(p.wrapped, NativeReturns(t.chunk.items, t.chunk.termination)))
    case Drop(budget, i, cause) =>
      if !p.wrapped.phase.Awaiting? || i >= |NextAwaits(p.native, budget)| then p
      else Both(NextAwaits(p.native, budget)[i], Step(p.wrapped, NativeRejects(cause)))
  }

  function Play<T, E>(p: Both<T, E>, moves: seq<Move<T, E>>): Both<T, E>
    decreases |moves|
  {
    if moves == [] then p else Play(Advance(p, moves[0]), moves[1..])
  }

  ghost predicate BothInv<T, E>(p: Both<T, E>, items: seq<T>, end: Termination<E>) {
    && BulkInv(p.native) && p.native.end == end
    && Inv(p.wrapped) && Served(p.wrapped)
    && p.wrapped.received + p.native.pending + p.native.ahead == items
    && (p.wrapped.termination.Some? <==> !p.native.active)
    && (p.wrapped.termination.Some? ==> p.wrapped.termination == Some(end))
  }

  /** A platform event leaves what the native side has said. */
  lemma PlatformKeeps<T, E>(s: State<T, E>, ev: Event<T, E>)
    requires Inv(s) && !ev.NativeReturns?
    ensures Step(s, ev).received == s.received && Step(s, ev).termination == s.termination
  {
  }

  lemma ReturnKeeps<T, E>(s: State<T, E>, chunk: seq<T>, termination: Option<Termination<E>>)
    requires Inv(s) && s.phase.Awaiting?
    ensures var r := Step(s, NativeReturns(chunk, termination));
            r.received == s.received + chunk
            && r.termination == if termination.Some? then termination else s.termination
  {
    if s.cancelled {
      ResumeAfterCancel(s, chunk, termination);
    } else {
      EnqueueMany(s.(received := s.received + chunk,
                     termination := if termination.Some? then termination else s.termination), chunk);
    }
  }

  lemma CompleteKeeps<T, E>(p: Both<T, E>, budget: nat, items: seq<T>, end: Termination<E>)
    requires BothInv(p, items, end) && p.wrapped.phase.Awaiting?
    ensures BothInv(Advance(p, Complete(budget)), items, end)
  {
    var t := Next(p.native, budget);
    var ev := NativeReturns(t.chunk.items, t.chunk.termination);
    NextContract(p.native, budget);
    ReturnKeeps(p.wrapped, t.chunk.items, t.chunk.termination);
    StepKeepsInv(p.wrapped, ev);
    StepServes(p.wrapped, ev);
    assert p.wrapped.received + t.chunk.items + t.bulk.pending + t.bulk.ahead
        == p.wrapped.received + (t.chunk.items + t.bulk.pending + t.bulk.ahead);
    assert p.wrapped.received + (p.native.pending + p.native.ahead) == items;
  }

  lemma AdvanceKeeps<T, E>(p: Both<T, E>, m: Move<T, E>, items: seq<T>, end: Termination<E>)
    requires BothInv(p, items, end)
    ensures BothInv(Advance(p, m), items, end)
  {
    match m
    case Platform(ev) =>
      if !ev.NativeReturns? && !ev.NativeRejects? {
        PlatformKeeps(p.wrapped, ev);
        StepKeepsInv(p.wrapped, ev);
        StepServes(p.wrapped, ev);
      }
    case Complete(budget) =>
      if p.wrapped.phase.Awaiting? {
        CompleteKeeps(p, budget, items, end);
      }
    case Drop(budget, i, cause) =>
      if p.wrapped.phase.Awaiting? && i < |NextAwaits(p.native, budget)| {
        InterruptSafe(p.native, budget, i);
        PlatformKeeps(p.wrapped, NativeRejects(cause));
        StepKeepsInv(p.wrapped, NativeRejects(cause));
        StepServes(p.wrapped, NativeRejects(cause));
        assert p.wrapped.received + (p.native.pending + p.native.ahead) == items;
        var b := NextAwaits(p.native, budget)[i];
        assert p.wrapped.received + b.pending + b.ahead == p.wrapped.received + (b.pending + b.ahead);
      }
  }

  lemma {:induction false} PlayKeeps<T, E>(p: Both<T, E>, moves: seq<Move<T, E>>, items: seq<T>, end: Termination<E>)
    requires BothInv(p, items, end)
    ensures BothInv(Play(p, moves), items, end)
    decreases |moves|
  {
    if moves != [] {
      AdvanceKeeps(p, moves[0], items, end);
      PlayKeeps(Advance(p, moves[0]), moves[1..], items, end);
    }
  }

  /** From the native source to the consumer, for every chunking, timing and
      interleaving: reads get a prefix of the source's items in order; an
      uncancelled stream closes only after all of them and only if the source
      finished; it surfaces a termination error only after all of them and only
      the source's own; and a waiting read always has a pull in progress. */
  lemma EndToEnd<T, E>(items: seq<T>, end: Termination<E>, max: nat, moves: seq<Move<T, E>>)
    requires 0 < max
    ensures var s := Play(Both(Bulk(true, [], items, end, max), Initial()), moves).wrapped;
            && s.c.delivered <= items
            && (s.c.stream.Closed? && !s.cancelled ==> s.c.delivered == items && end == Finished)
            && (s.c.stream.Errored? && s.c.stream.reason.Native? ==>
                  s.c.delivered == items && end == Error(s.c.stream.reason.error))
            && (s.c.started && s.c.waiting > 0 ==> !s.phase.Idle?)
  {
    var p := Both(Bulk(true, [], items, end, max), Initial());
    InitialInv<T, E>();
    assert p.wrapped.received + p.native.pending + p.native.ahead == items;
    PlayKeeps(p, moves, items, end);
    DeliveredPrefix(Play(p, moves), items, end);
  }

  lemma DeliveredPrefix<T, E>(p: Both<T, E>, items: seq<T>, end: Termination<E>)
    requires BothInv(p, items, end)
    ensures p.wrapped.c.delivered <= p.wrapped.received <= items
    ensures !p.wrapped.cancelled && !p.wrapped.c.stream.Readable? ==> p.wrapped.c.delivered == p.wrapped.received
    ensures p.wrapped.termination.Some? ==> p.wrapped.received == items
  {
    var s := p.wrapped;
    assert s.received + (p.native.pending + p.native.ahead) == items;
    if !s.cancelled {
      assert s.c.delivered + s.c.queue == s.received;
    }
  }

  // ---------------------------------------------------------------------
  // Progress.
  // ---------------------------------------------------------------------

  /** Reads answered so far, with an item or an ending. */
  function Answered<T, E>(s: State<T, E>): nat {
    |s.c.delivered| + |s.c.ended|
  }

  lemma SettleProgress<T, E>(s: State<T, E>)
    requires Inv(s) && Served(s) && s.c.started && s.c.waiting > 0
    ensures var r := Step(s, Settle);
            || Answered(r) > Answered(s)
            || (&& Answered(r) == Answered(s) && r.c.stream.Readable? && r.c.waiting > 0
                && (r.phase.Awaiting? || r.phase.Rejected?))
  {
    if s.phase.Rejected? {
      assert |EndReads(s.c.waiting, Fail(s.phase.reason))| == s.c.waiting;
    }
  }

  lemma SettleKeepsAnswers<T, E>(s: State<T, E>)
    ensures Answered(Step(s, Settle)) >= Answered(s)
    ensures s.c.stream.Readable? && s.phase.Rejected? && s.c.waiting > 0 ==>
              Answered(Step(s, Settle)) > Answered(s)
  {
    if s.phase.Rejected? {
      assert |EndReads(s.c.waiting, Fail(s.phase.reason))| == s.c.waiting;
    }
  }

  /** A completed native call answers a waiting read, or its rejection is about
      to. */
  lemma ReturnProgress<T, E>(s: State<T, E>, chunk: seq<T>, termination: Option<Termination<E>>)
    requires Inv(s) && s.phase.Awaiting? && s.c.waiting > 0 && (chunk != [] || termination.Some?)
    ensures var r := Step(s, NativeReturns(chunk, termination));
            || Answered(r) > Answered(s)
            || (Answered(r) == Answered(s) && r.c.stream.Readable? && r.phase.Rejected? && r.c.waiting > 0)
  {
    var s1 := s.(received := s.received + chunk,
                 termination := if termination.Some? then termination else s.termination);
    EnqueueMany(s1, chunk);
    var c := EnqueueAll(s1, chunk).c;
    if termination == Some(Finished) && c.queue == [] {
      assert |EndReads<E>(c.waiting, Done)| == c.waiting;
    }
  }

  /** In every state of every run a read that waits on a started stream is at most
      three moves of the platform and the native side from an answer: the reaction
      to a settled pull, a completed native call, and the reaction to that. */
  lemma WaitingReadIsAnswered<T, E>(items: seq<T>, end: Termination<E>, max: nat,
      moves: seq<Move<T, E>>)
    requires 0 < max
    requires var s := Play(Both(Bulk(true, [], items, end, max), Initial()), moves).wrapped;
             s.c.started && s.c.waiting > 0
    ensures var p := Play(Both(Bulk(true, [], items, end, max), Initial()), moves);
            var q := Advance(Advance(Advance(p, Platform(Settle)), Complete(0)), Platform(Settle));
            Answered(q.wrapped) > Answered(p.wrapped)
  {
    var start := Both(Bulk(true, [], items, end, max), Initial());
    InitialInv<T, E>();
    assert start.wrapped.received + start.native.pending + start.native.ahead == items;
    PlayKeeps(start, moves, items, end);
    ThreeMovesAnswer(Play(start, moves), items, end);
  }

  lemma ThreeMovesAnswer<T, E>(p: Both<T, E>, items: seq<T>, end: Termination<E>)
    requires BothInv(p, items, end) && p.wrapped.c.started && p.wrapped.c.waiting > 0
    ensures var q := Advance(Advance(Advance(p, Platform(Settle)), Complete(0)), Platform(Settle));
            Answered(q.wrapped) > Answered(p.wrapped)
  {
    var p1 := Advance(p, Platform(Settle));
    SettleProgress(p.wrapped);
    AdvanceKeeps(p, Platform(Settle), items, end);
    var p2 := Advance(p1, Complete(0));
    CompleteProgress(p1, items, end);
    SettleKeepsAnswers(p2.wrapped);
  }

  lemma CompleteProgress<T, E>(p: Both<T, E>, items: seq<T>, end: Termination<E>)
    requires BothInv(p, items, end)
    ensures var s, r := p.wrapped, Advance(p, Complete(0)).wrapped;
            && Answered(r) >= Answered(s)
            && (s.phase.Awaiting? && s.c.waiting > 0 ==>
                  || Answered(r) > Answered(s)
                  || (r.c.stream.Readable? && r.phase.Rejected? && r.c.waiting > 0))
  {
    var s := p.wrapped;
    if s.phase.Awaiting? {
      var t := Next(p.native, 0);
      NextContract(p.native, 0);
      if s.c.waiting > 0 {
        ReturnProgress(s, t.chunk.items, t.chunk.termination);
      } else if s.cancelled {
        ResumeAfterCancel(s, t.chunk.items, t.chunk.termination);
      } else {
        EnqueueMany(s.(received := s.received + t.chunk.items,
                       termination := if t.chunk.termination.Some? then t.chunk.termination else s.termination),
                    t.chunk.items);
      }
    }
  }

  // ---------------------------------------------------------------------
  // Dropped calls.
  // ---------------------------------------------------------------------

  /** In every run, a native call that is dropped at any of its awaits rejects its
      promise: once the reaction has run the stream is errored with that cause,
      every waiting read has failed with it, and no item was lost on either
      side. */
  lemma DropErrorsStream<T, E>(items: seq<T>, end: Termination<E>, max: nat, moves: seq<Move<T, E>>,
      budget: nat, i: nat, cause: E)
    requires 0 < max
    requires var p := Play(Both(Bulk(true, [], items, end, max), Initial()), moves);
             p.wrapped.phase.Awaiting? && !p.wrapped.cancelled && i < |NextAwaits(p.native, budget)|
    ensures var p := Play(Both(Bulk(true, [], items, end, max), Initial()), moves);
            var q := Advance(Advance(p, Drop(budget, i, cause)), Platform(Settle));
            && q.wrapped.c.stream == Errored(Rejection(cause))
            && q.wrapped.c.waiting == 0 && q.wrapped.c.delivered == p.wrapped.c.delivered
            && q.wrapped.c.ended == seq(p.wrapped.c.waiting, _ => Fail(Rejection(cause)))
            && q.wrapped.c.delivered + q.native.pending + q.native.ahead == items
            && |q.native.pending| == |p.native.pending| + i
  {
    var start := Both(Bulk(true, [], items, end, max), Initial());
    InitialInv<T, E>();
    assert start.wrapped.received + start.native.pending + start.native.ahead == items;
    PlayKeeps(start, moves, items, end);
    DropSettles(Play(start, moves), items, end, budget, i, cause);
  }

  lemma DropSettles<T, E>(p: Both<T, E>, items: seq<T>, end: Termination<E>, budget: nat, i: nat, cause: E)
    requires BothInv(p, items, end)
    requires p.wrapped.phase.Awaiting? && !p.wrapped.cancelled && i < |NextAwaits(p.native, budget)|
    ensures var q := Advance(Advance(p, Drop(budget, i, cause)), Platform(Settle));
            && q.wrapped.c.stream == Errored(Rejection(cause))
            && q.wrapped.c.waiting == 0 && q.wrapped.c.delivered == p.wrapped.c.delivered
            && q.wrapped.c.ended == seq(p.wrapped.c.waiting, _ => Fail(Rejection(cause)))
            && q.wrapped.c.delivered + q.native.pending + q.native.ahead == items
            && |q.native.pending| == |p.native.pending| + i
  {
    var p1 := Advance(p, Drop(budget, i, cause));
    NextAwaitsAre(p.native, budget, i);
    AdvanceKeeps(p, Drop(budget, i, cause), items, end);
    RejectionSettles(p1.wrapped, Rejection(cause));
    AdvanceKeeps(p1, Platform(Settle), items, end);
    DeliveredPrefix(Advance(p1, Platform(Settle)), items, end);
  }

  // ---------------------------------------------------------------------
  // Everything arrives.
  // ---------------------------------------------------------------------

  /** Neither cancelled nor hit by a rejected native promise. */
  ghost predicate Unbroken<T, E>(s: State<T, E>) {
    && !s.cancelled
    && (s.phase.Rejected? ==> !s.phase.reason.Rejection?)
    && (s.c.stream.Errored? ==> !s.c.stream.reason.Rejection?)
  }

  /** A start, a read, a reaction or a completed native call. */
  predicate Calm<T, E>(m: Move<T, E>) {
    m.Complete? || (m.Platform? && (m.event.Start? || m.event.ReadItem? || m.event.Settle?))
  }

  lemma CalmStep<T, E>(p: Both<T, E>, m: Move<T, E>, items: seq<T>, end: Termination<E>)
    requires BothInv(p, items, end) && Unbroken(p.wrapped) && Calm(m)
    ensures var q := Advance(p, m);
            BothInv(q, items, end) && Unbroken(q.wrapped) && (p.wrapped.c.started ==> q.wrapped.c.started)
  {
    AdvanceKeeps(p, m, items, end);
    if m.Platform? {
      EventCalm(p.wrapped, m.event);
    } else if p.wrapped.phase.Awaiting? {
      var t := Next(p.native, m.budget);
      ReturnCalm(p.wrapped, t.chunk.items, t.chunk.termination);
    }
  }

  lemma EventCalm<T, E>(s: State<T, E>, ev: Event<T, E>)
    requires Inv(s) && Unbroken(s) && (ev.Start? || ev.ReadItem? || ev.Settle?)
    ensures Unbroken(Step(s, ev)) && (s.c.started ==> Step(s, ev).c.started)
    ensures ev.Start? ==> Step(s, ev).c.started
  {
  }

  lemma ReturnCalm<T, E>(s: State<T, E>, chunk: seq<T>, termination: Option<Termination<E>>)
    requires Inv(s) && s.phase.Awaiting? && Unbroken(s)
    ensures var r := Step(s, NativeReturns(chunk, termination));
            Unbroken(r) && r.c.started == s.c.started
  {
    EnqueueMany(s.(received := s.received + chunk,
                   termination := if termination.Some? then termination else s.termination), chunk);
  }

  /** A read, and the three moves that answer it. */
  function Round<T, E>(): seq<Move<T, E>> {
    [Platform(ReadItem), Platform(Settle), Complete(0), Platform(Settle)]
  }

  lemma PlayRound<T, E>(p: Both<T, E>)
    ensures var asked := Advance(Advance(p, Platform(ReadItem)), Platform(Settle));
            Play(p, Round()) == Advance(Advance(asked, Complete(0)), Platform(Settle))
  {
    var a, b, c, d := Platform(ReadItem), Platform(Settle), Complete(0), Platform(Settle);
    var p1 := Advance(p, a);
    var p2 := Advance(p1, b);
    var p3 := Advance(p2, c);
    assert Round<T, E>()[1..] == [b, c, d];
    assert [b, c, d][1..] == [c, d] && [c, d][1..] == [d] && [d][1..] == [];
    assert Play(p3, [d]) == Play(Advance(p3, d), []);
    assert Play(p2, [c, d]) == Play(p3, [d]);
  }

  lemma ReadOrWait<T, E>(s: State<T, E>)
    requires Inv(s) && s.c.stream.Readable? && s.c.started
    ensures var r := Step(s, ReadItem);
            Answered(r) > Answered(s) || (Answered(r) == Answered(s) && r.c.waiting > 0)
  {
  }

  /** A round answers a read. */
  lemma RoundAnswers<T, E>(p: Both<T, E>, items: seq<T>, end: Termination<E>)
    requires BothInv(p, items, end) && Unbroken(p.wrapped)
    requires p.wrapped.c.started && p.wrapped.c.stream.Readable?
    ensures var q := Play(p, Round());
            && BothInv(q, items, end) && Unbroken(q.wrapped) && q.wrapped.c.started
            && Answered(q.wrapped) > Answered(p.wrapped)
  {
    var p1 := Advance(p, Platform(ReadItem));
    CalmStep(p, Platform(ReadItem), items, end);
    var p2 := Advance(p1, Platform(Settle));
    CalmStep(p1, Platform(Settle), items, end);
    var p3 := Advance(p2, Complete(0));
    CalmStep(p2, Complete(0), items, end);
    CalmStep(p3, Platform(Settle), items, end);
    PlayRound(p);
    ReadOrWait(p.wrapped);
    if p1.wrapped.c.waiting > 0 {
      ThreeMovesAnswer(p1, items, end);
    } else {
      SettleKeepsAnswers(p1.wrapped);
      CompleteProgress(p2, items, end);
      SettleKeepsAnswers(p3.wrapped);
    }
  }

  lemma {:induction false} PlayAppend<T, E>(p: Both<T, E>, a: seq<Move<T, E>>, b: seq<Move<T, E>>)
    ensures Play(p, a + b) == Play(Play(p, a), b)
    decreases |a|
  {
    if a == [] {
      assert a + b == b;
    } else {
      assert (a + b)[1..] == a[1..] + b;
      PlayAppend(Advance(p, a[0]), a[1..], b);
    }
  }

  /** Enough rounds end the stream. */
  lemma {:induction false} RoundsEnd<T, E>(p: Both<T, E>, items: seq<T>, end: Termination<E>)
    returns (moves: seq<Move<T, E>>)
    requires BothInv(p, items, end) && Unbroken(p.wrapped) && p.wrapped.c.started
    ensures forall i :: 0 <= i < |moves| ==> Calm(moves[i])
    ensures var q := Play(p, moves);
            BothInv(q, items, end) && Unbroken(q.wrapped) && !q.wrapped.c.stream.Readable?
    decreases |items| - |p.wrapped.c.delivered|, p.wrapped.c.stream.Readable?
  {
    moves := [];
    if p.wrapped.c.stream.Readable? {
      var q := Play(p, Round());
      RoundAnswers(p, items, end);
      DeliveredPrefix(p, items, end);
      DeliveredPrefix(q, items, end);
      if q.wrapped.c.stream.Readable? {
        var rest := RoundsEnd(q, items, end);
        PlayAppend(p, Round(), rest);
        moves := Round() + rest;
      } else {
        moves := Round();
      }
    }
  }

  /** The ending a source surfaces to reads. */
  function EndingOf<E>(end: Termination<E>): Ending<E> {
    match end
    case Finished => Done
    case Error(e) => Fail(Native(e))
  }

  lemma EndedWithAll<T, E>(p: Both<T, E>, items: seq<T>, end: Termination<E>)
    requires BothInv(p, items, end) && Unbroken(p.wrapped) && !p.wrapped.c.stream.Readable?
    ensures var s := Step(p.wrapped, ReadItem);
            s.c.delivered == items && s.c.ended != [] && s.c.ended[|s.c.ended| - 1] == EndingOf(end)
  {
    DeliveredPrefix(p, items, end);
  }

  /** From every state of every run that is neither cancelled nor hit by a
      rejected promise, reads, completed native calls and reactions can go on so
      that every item of the source is handed out and then the source's own ending
      is given to a read. */
  lemma EverythingArrives<T, E>(items: seq<T>, end: Termination<E>, max: nat, before: seq<Move<T, E>>)
    returns (after: seq<Move<T, E>>)
    requires 0 < max
    requires Unbroken(Play(Both(Bulk(true, [], items, end, max), Initial()), before).wrapped)
    ensures forall i :: 0 <= i < |after| ==> Calm(after[i])
    ensures var s := Play(Play(Both(Bulk(true, [], items, end, max), Initial()), before), after).wrapped;
            s.c.delivered == items && s.c.ended != [] && s.c.ended[|s.c.ended| - 1] == EndingOf(end)
  {
    var origin := Both(Bulk(true, [], items, end, max), Initial());
    InitialInv<T, E>();
    assert origin.wrapped.received + origin.native.pending + origin.native.ahead == items;
    PlayKeeps(origin, before, items, end);
    after := EverythingArrivesFrom(Play(origin, before), items, end);
  }

  lemma EverythingArrivesFrom<T, E>(p: Both<T, E>, items: seq<T>, end: Termination<E>)
    returns (after: seq<Move<T, E>>)
    requires BothInv(p, items, end) && Unbroken(p.wrapped)
    ensures forall i :: 0 <= i < |after| ==> Calm(after[i])
    ensures var s := Play(p, after).wrapped;
            s.c.delivered == items && s.c.ended != [] && s.c.ended[|s.c.ended| - 1] == EndingOf(end)
  {
    var start: Move<T, E>, read: Move<T, E> := Platform(Start), Platform(ReadItem);
    var p1 := Advance(p, start);
    CalmStep(p, start, items, end);
    var rounds := RoundsEnd(p1, items, end);
    EndedWithAll(Play(p1, rounds), items, end);
    after := [start] + rounds + [read];
    PlayAround(p, start, rounds, read);
  }

  lemma PlayAround<T, E>(p: Both<T, E>, start: Move<T, E>, rounds: seq<Move<T, E>>, read: Move<T, E>)
    ensures Play(p, [start] + rounds + [read]) == Advance(Play(Advance(p, start), rounds), read)
  {
    PlayAppend(p, [start] + rounds, [read]);
    PlayAppend(p, [start], rounds);
    PlayOne(p, start);
    PlayOne(Play(Advance(p, start), rounds), read);
  }

  lemma PlayOne<T, E>(p: Both<T, E>, m: Move<T, E>)
    ensures Play(p, [m]) == Advance(p, m)
  {
    assert [m][1..] == [];
    assert Play(Advance(p, m), []) == Advance(p, m);
  }
}
