/**
  The adapter from a bulk-pull native stream to a `ReadableStream`
  (node/ts/internal.ts).

  The controller follows the abstract operations of section 4.9 of the WHATWG
  Streams Standard for a default controller with the default strategy: every
  item counts one and the high-water mark is one.  One event is one piece of
  script that runs without interruption; events interleave in any order.
 */
module PullStream {
  import opened Wrappers

  datatype Termination<E> = Finished | Error(error: E)

  /** Why a stream errored: a termination error, a rejected native promise, or
      the exception of a controller that can no longer be written to. */
  datatype Reason<E> = Native(error: E) | Rejection(cause: E) | TypeError

  datatype StreamState<E> = Readable | Closed | Errored(reason: Reason<E>)

  /** How a read ends when there is no item for it. */
  datatype Ending<E> = Done | Fail(reason: Reason<E>)

  /** The platform's side: the stream with its queue and its pending reads, the
      controller's flags, and the answers given to reads so far. */
  datatype Controller<T, E> = Controller(
    stream: StreamState<E>, queue: seq<T>, waiting: nat,
    started: bool, closeRequested: bool, pulling: bool, pullAgain: bool,
    delivered: seq<T>, ended: seq<Ending<E>>)

  /** Where the adapter's asynchronous `pull` is: not running, waiting for the
      native promise, or settled with its reaction still to run. */
  datatype Phase<E> = Idle | Awaiting | Resolved | Rejected(reason: Reason<E>)

  /** The adapter on its controller, with what the native side has said. */
  datatype State<T, E> = State(
    c: Controller<T, E>, phase: Phase<E>, pendingError: Option<E>,
    received: seq<T>, termination: Option<Termination<E>>, nativePulls: nat, cancelled: bool)

  datatype Event<T, E> =
    | Start
    | ReadItem
    | NativeReturns(chunk: seq<T>, termination: Option<Termination<E>>)
    | NativeRejects(cause: E)
    | Settle
    | Cancel

  // ---------------------------------------------------------------------
  // The controller's operations.
  // ---------------------------------------------------------------------

  predicate CanCloseOrEnqueue<T, E>(c: Controller<T, E>) {
    c.stream.Readable? && !c.closeRequested
  }

  predicate ShouldCallPull<T, E>(c: Controller<T, E>) {
    CanCloseOrEnqueue(c) && c.started && (c.waiting > 0 || 1 - |c.queue| > 0)
  }

  function EndReads<E>(n: nat, e: Ending<E>): seq<Ending<E>> {
    seq(n, _ => e)
  }

  function CloseStream<T, E>(c: Controller<T, E>): Controller<T, E> {
    c.(stream := Closed, waiting := 0, ended := c.ended + EndReads(c.waiting, Done))
  }

  /** `controller.close()` where it does not throw. */
  function CloseController<T, E>(c: Controller<T, E>): Controller<T, E> {
    var c' := c.(closeRequested := true);
    if c.queue == [] then CloseStream(c') else c'
  }

  /** The reaction to a rejected pull; the queue is dropped. */
  function ErrorController<T, E>(c: Controller<T, E>, r: Reason<E>): Controller<T, E> {
    if !c.stream.Readable? then c
    else c.(stream := Errored(r), queue := [], waiting := 0, ended := c.ended + EndReads(c.waiting, Fail(r)))
  }

  // ---------------------------------------------------------------------
  // The adapter's steps.
  // ---------------------------------------------------------------------

  /** The first part of `pull`, up to its `await`. */
  function BeginPull<T, E>(s: State<T, E>): State<T, E> {
    match s.pendingError
    case Some(e) => s.(phase := Rejected(Native(e)))
    case None => s.(phase := Awaiting, nativePulls := s.nativePulls + 1)
  }

  function CallPullIfNeeded<T, E>(s: State<T, E>): State<T, E> {
    if !ShouldCallPull(s.c) then s
    else if s.c.pulling then s.(c := s.c.(pullAgain := true))
    else BeginPull(s.(c := s.c.(pulling := true)))
  }

  /** `controller.enqueue(item)` where it does not throw. */
  function Enqueue<T, E>(s: State<T, E>, item: T): State<T, E> {
    var c := s.c;
    CallPullIfNeeded(s.(c :=
      if c.waiting > 0 then c.(waiting := c.waiting - 1, delivered := c.delivered + [item])
      else c.(queue := c.queue + [item])))
  }

  /** The loop over the chunk; it throws on a controller that cannot take
      items. */
  function EnqueueAll<T, E>(s: State<T, E>, chunk: seq<T>): State<T, E>
    decreases |chunk|
  {
    if chunk == [] then s
    else if !CanCloseOrEnqueue(s.c) then s.(phase := Rejected(TypeError))
    else EnqueueAll(Enqueue(s, chunk[0]), chunk[1..])
  }

  /** The second part of `pull`, once the native promise has resolved. */
  function Resume<T, E>(s: State<T, E>, chunk: seq<T>, termination: Option<Termination<E>>): State<T, E> {
    var s1 := s.(received := s.received + chunk,
                 termination := if termination.Some? then termination else s.termination);
    var s2 := EnqueueAll(s1, chunk);
    if s2.phase.Rejected? then s2
    else
      match termination
      case None => s2.(phase := Resolved)
      case Some(Finished) =>
        if !CanCloseOrEnqueue(s2.c) then s2.(phase := Rejected(TypeError))
        else s2.(phase := Resolved, c := CloseController(s2.c))
      case Some(Error(e)) =>
        if chunk == [] then s2.(phase := Rejected(Native(e)))
        else s2.(phase := Resolved, pendingError := Some(e))
  }

  /** The reaction to the promise of `pull`. */
  function Settled<T, E>(s: State<T, E>): State<T, E> {
    match s.phase
    case Resolved =>
      var s' := s.(phase := Idle, c := s.c.(pulling := false, pullAgain := false));
      if s.c.pullAgain then CallPullIfNeeded(s') else s'
    case Rejected(r) => s.(phase := Idle, c := ErrorController(s.c, r))
    case _ => s
  }

  function ReadNext<T, E>(s: State<T, E>): State<T, E> {
    var c := s.c;
    match c.stream
    case Closed => s.(c := c.(ended := c.ended + [Done]))
    case Errored(r) => s.(c := c.(ended := c.ended + [Fail(r)]))
    case Readable =>
      if c.queue == [] then CallPullIfNeeded(s.(c := c.(waiting := c.waiting + 1)))
      else
        var c' := c.(queue := c.queue[1..], delivered := c.delivered + [c.queue[0]]);
        if c.closeRequested && c'.queue == [] then s.(c := CloseStream(c'))
        else CallPullIfNeeded(s.(c := c'))
  }

  function CancelStream<T, E>(s: State<T, E>): State<T, E> {
    if !s.c.stream.Readable? then s
    else s.(c := CloseStream(s.c).(queue := []), cancelled := true)
  }

  function Step<T, E>(s: State<T, E>, ev: Event<T, E>): State<T, E> {
    match ev
    case Start => if s.c.started then s else CallPullIfNeeded(s.(c := s.c.(started := true)))
    case ReadItem => ReadNext(s)
    case NativeReturns(chunk, termination) =>
      if s.phase.Awaiting? then Resume(s, chunk, termination) else s
    case NativeRejects(cause) =>
      if s.phase.Awaiting? then s.(phase := Rejected(Rejection(cause))) else s
    case Settle => Settled(s)
    case Cancel => CancelStream(s)
  }

  function Run<T, E>(s: State<T, E>, events: seq<Event<T, E>>): State<T, E>
    decreases |events|
  {
    if events == [] then s else Run(Step(s, events[0]), events[1..])
  }

  function Initial<T, E>(): State<T, E> {
    State(Controller(Readable, [], 0, false, false, false, false, [], []),
          Idle, None, [], None, 0, false)
  }

  // ---------------------------------------------------------------------
  // The invariant.
  // ---------------------------------------------------------------------

  /** The controller alone. */
  ghost predicate ControllerInv<T, E>(c: Controller<T, E>) {
    && (c.waiting > 0 ==> c.stream.Readable? && c.queue == [] && !c.closeRequested)
    && (c.stream.Readable? ==> c.ended == [])
    && (c.stream.Closed? ==> c.queue == [] && forall i :: 0 <= i < |c.ended| ==> c.ended[i] == Done)
    && (c.stream.Errored? ==>
        c.queue == [] && forall i :: 0 <= i < |c.ended| ==> c.ended[i] == Fail(c.stream.reason))
    && (c.stream.Readable? && c.closeRequested ==> c.queue != [])
    && (!c.pulling ==> !c.pullAgain)
  }

  /** The pull in progress, if any. */
  ghost predicate PhaseInv<T, E>(s: State<T, E>) {
    && (s.c.stream.Readable? ==> (s.c.pulling <==> !s.phase.Idle?))
    && (!s.phase.Idle? ==> s.c.pulling)
    && (!s.cancelled && s.phase.Awaiting? ==> CanCloseOrEnqueue(s.c))
    && (s.c.stream.Readable? && (s.phase.Awaiting? || s.phase.Rejected?) ==> s.c.queue == [])
    && (!s.cancelled && s.phase.Rejected? ==> s.c.stream.Readable? && s.phase.reason != TypeError)
    && (s.cancelled ==> s.c.stream.Closed?)
  }

  /** What the native side has said so far, and what has become of it. */
  ghost predicate TerminationInv<T, E>(s: State<T, E>) {
    && (s.termination.Some? ==> !s.phase.Awaiting?)
    && (s.pendingError.Some? ==> s.termination == Some(Error(s.pendingError.value)))
    && (s.c.stream.Readable? && s.termination.Some? ==>
          match s.termination.value
          case Finished => s.c.closeRequested
          case Error(e) => s.pendingError == Some(e) || s.phase == Rejected(Native(e)))
    && (s.phase.Rejected? && s.phase.reason.Native? ==> s.termination == Some(Error(s.phase.reason.error)))
    && (s.c.closeRequested ==> s.termination == Some(Finished))
    && (s.c.stream.Closed? && !s.cancelled ==> s.termination == Some(Finished))
    && (s.c.stream.Errored? && s.c.stream.reason.Native? ==>
          s.termination == Some(Error(s.c.stream.reason.error)))
    && (s.c.stream.Errored? ==> s.c.stream.reason != TypeError)
  }

  /** Nothing is lost, invented or reordered, short of cancelling. */
  ghost predicate Conserved<T, E>(s: State<T, E>) {
    if s.cancelled then s.c.delivered <= s.received
    else s.c.delivered + s.c.queue == s.received
  }

  ghost predicate Inv<T, E>(s: State<T, E>) {
    ControllerInv(s.c) && PhaseInv(s) && TerminationInv(s) && Conserved(s)
  }

  // ---------------------------------------------------------------------
  // Every step keeps it.
  // ---------------------------------------------------------------------

  lemma CallPullKeepsInv<T, E>(s: State<T, E>)
    requires Inv(s)
    ensures Inv(CallPullIfNeeded(s))
  {
  }

  lemma ReadKeepsInv<T, E>(s: State<T, E>)
    requires Inv(s)
    ensures Inv(ReadNext(s))
  {
    var c := s.c;
    if c.stream.Readable? {
      if c.queue == [] {
        var s' := s.(c := c.(waiting := c.waiting + 1));
        if !c.closeRequested {
          CallPullKeepsInv(s');
        }
      } else {
        TakeKeepsInv(s);
      }
    }
  }

  lemma TakeKeepsInv<T, E>(s: State<T, E>)
    requires Inv(s) && s.c.stream.Readable? && s.c.queue != []
    ensures Inv(ReadNext(s))
  {
    var c := s.c;
    var c' := c.(queue := c.queue[1..], delivered := c.delivered + [c.queue[0]]);
    assert c'.delivered + c'.queue == c.delivered + c.queue;
    if c.closeRequested && c'.queue == [] {
      assert c'.delivered + [] == c'.delivered;
    } else {
      CallPullKeepsInv(s.(c := c'));
    }
  }

  lemma SettleKeepsInv<T, E>(s: State<T, E>)
    requires Inv(s)
    ensures Inv(Settled(s))
  {
    if s.phase.Resolved? {
      var s' := s.(phase := Idle, c := s.c.(pulling := false, pullAgain := false));
      CallPullKeepsInv(s');
    }
  }

  lemma CancelKeepsInv<T, E>(s: State<T, E>)
    requires Inv(s)
    ensures Inv(CancelStream(s))
  {
  }

  /** While a pull is in progress `enqueue` moves an item to the oldest waiting
      read or to the queue, and asks for another pull if a read still waits. */
  lemma EnqueueOne<T, E>(s: State<T, E>, item: T)
    requires ControllerInv(s.c) && s.c.pulling && CanCloseOrEnqueue(s.c)
    ensures var r := Enqueue(s, item);
            && r == s.(c := r.c) && ControllerInv(r.c) && r.c.pulling && CanCloseOrEnqueue(r.c)
            && r.c.started == s.c.started
            && r.c.delivered + r.c.queue == s.c.delivered + s.c.queue + [item]
            && (r.c.started && r.c.queue == [] ==> r.c.pullAgain)
            && r.c.ended == s.c.ended && |r.c.delivered| + r.c.waiting == |s.c.delivered| + s.c.waiting
            && |r.c.delivered| == |s.c.delivered| + if s.c.waiting > 0 then 1 else 0
  {
    var c := s.c;
    if c.waiting > 0 {
      assert c.delivered + [item] + c.queue == c.delivered + c.queue + [item];
    } else {
      assert c.delivered + (c.queue + [item]) == c.delivered + c.queue + [item];
    }
  }

  lemma {:induction false} EnqueueMany<T, E>(s: State<T, E>, chunk: seq<T>)
    requires ControllerInv(s.c) && s.c.pulling && CanCloseOrEnqueue(s.c)
    ensures var r := EnqueueAll(s, chunk);
            && r == s.(c := r.c) && ControllerInv(r.c) && r.c.pulling && CanCloseOrEnqueue(r.c)
            && r.c.started == s.c.started
            && r.c.delivered + r.c.queue == s.c.delivered + s.c.queue + chunk
            && (chunk != [] && r.c.started && r.c.queue == [] ==> r.c.pullAgain)
            && (chunk == [] ==> r == s)
            && r.c.ended == s.c.ended && |r.c.delivered| + r.c.waiting == |s.c.delivered| + s.c.waiting
            && |r.c.delivered| >= |s.c.delivered| + if chunk != [] && s.c.waiting > 0 then 1 else 0
    decreases |chunk|
  {
    if chunk == [] {
      assert s.c.delivered + s.c.queue + chunk == s.c.delivered + s.c.queue;
    } else {
      EnqueueOne(s, chunk[0]);
      var s' := Enqueue(s, chunk[0]);
      EnqueueMany(s', chunk[1..]);
      assert s.c.delivered + s.c.queue + [chunk[0]] + chunk[1..] == s.c.delivered + s.c.queue + chunk;
      if chunk[1..] == [] {
        assert EnqueueAll(s', chunk[1..]) == s';
      }
    }
  }

  lemma ResumeKeepsInv<T, E>(s: State<T, E>, chunk: seq<T>, termination: Option<Termination<E>>)
    requires Inv(s) && s.phase.Awaiting?
    ensures Inv(Resume(s, chunk, termination))
  {
    if s.cancelled {
      ResumeAfterCancel(s, chunk, termination);
    } else {
      ResumeLive(s, chunk, termination);
    }
  }

  lemma ResumeAfterCancel<T, E>(s: State<T, E>, chunk: seq<T>, termination: Option<Termination<E>>)
    requires Inv(s) && s.phase.Awaiting? && s.cancelled
    ensures Inv(Resume(s, chunk, termination))
    ensures Resume(s, chunk, termination).c == s.c
  {
    assert s.c.delivered <= s.received + chunk;
    assert s.received + [] == s.received;
  }

  lemma ResumeLive<T, E>(s: State<T, E>, chunk: seq<T>, termination: Option<Termination<E>>)
    requires Inv(s) && s.phase.Awaiting? && !s.cancelled
    ensures Inv(Resume(s, chunk, termination))
  {
    var s1 := s.(received := s.received + chunk,
                 termination := if termination.Some? then termination else s.termination);
    EnqueueMany(s1, chunk);
    var s2 := EnqueueAll(s1, chunk);
    var r := Resume(s, chunk, termination);
    assert s2.c.delivered + s2.c.queue == s2.received;
    if termination == Some(Finished) && s2.c.queue == [] {
      assert s2.c.delivered + [] == s2.c.delivered;
    }
  }

  /** One step of any kind keeps the invariant. */
  lemma StepKeepsInv<T, E>(s: State<T, E>, ev: Event<T, E>)
    requires Inv(s)
    ensures Inv(Step(s, ev))
  {
    match ev
    case Start =>
      if !s.c.started {
        CallPullKeepsInv(s.(c := s.c.(started := true)));
      }
    case ReadItem => ReadKeepsInv(s);
    case NativeReturns(chunk, termination) =>
      if s.phase.Awaiting? {
        ResumeKeepsInv(s, chunk, termination);
      }
    case NativeRejects(cause) =>
    case Settle => SettleKeepsInv(s);
    case Cancel => CancelKeepsInv(s);
  }

  lemma {:induction false} RunKeepsInv<T, E>(s: State<T, E>, events: seq<Event<T, E>>)
    requires Inv(s)
    ensures Inv(Run(s, events))
    decreases |events|
  {
    if events != [] {
      StepKeepsInv(s, events[0]);
      RunKeepsInv(Step(s, events[0]), events[1..]);
    }
  }

  // ---------------------------------------------------------------------
  // What holds in every run.
  // ---------------------------------------------------------------------

  lemma InitialInv<T, E>()
    ensures Inv<T, E>(Initial())
  {
    var s := Initial<T, E>();
    assert s.c.delivered + s.c.queue == s.received;
  }

  /** In every interleaving, unless the stream was cancelled, the items handed to
      reads and those still queued are exactly the items received, in order.  When
      the stream has errored or closed, every item received before was handed
      out; an error that came as a termination is the one the native side gave,
      and a close means that it finished.  All later reads get that ending. */
  lemma NoItemLost<T, E>(events: seq<Event<T, E>>)
    ensures var s := Run(Initial<T, E>(), events);
            && (!s.cancelled ==> s.c.delivered + s.c.queue == s.received)
            && (s.cancelled ==> s.c.delivered <= s.received)
            && (!s.cancelled && !s.c.stream.Readable? ==> s.c.delivered == s.received)
            && (s.c.stream.Errored? && s.c.stream.reason.Native? ==>
                  s.termination == Some(Error(s.c.stream.reason.error)))
            && (s.c.stream.Errored? ==>
                  s.c.stream.reason != TypeError && !s.cancelled
                  && forall i :: 0 <= i < |s.c.ended| ==> s.c.ended[i] == Fail(s.c.stream.reason))
            && (s.c.stream.Closed? && !s.cancelled ==> s.termination == Some(Finished))
            && (s.c.stream.Closed? ==> forall i :: 0 <= i < |s.c.ended| ==> s.c.ended[i] == Done)
            && (s.c.stream.Readable? ==> s.c.ended == [])
  {
    InitialInv<T, E>();
    RunKeepsInv(Initial<T, E>(), events);
    var s := Run(Initial<T, E>(), events);
    assert s.c.queue == [] ==> s.c.delivered + s.c.queue == s.c.delivered;
  }

  /** In every run each wait for the native side is one native call, and it starts
      only with nothing queued, nothing terminated, no error pending and no other
      call in progress. */
  lemma PullsWhenDrained<T, E>(events: seq<Event<T, E>>, ev: Event<T, E>)
    ensures var s := Run(Initial<T, E>(), events);
            var r := Step(s, ev);
            && r.nativePulls == s.nativePulls + (if !s.phase.Awaiting? && r.phase.Awaiting? then 1 else 0)
            && (r.nativePulls > s.nativePulls ==>
                  r.c.queue == [] && r.termination.None? && r.pendingError.None?)
  {
    InitialInv<T, E>();
    RunKeepsInv(Initial<T, E>(), events);
    StepPulls(Run(Initial<T, E>(), events), ev);
  }

  lemma StepPulls<T, E>(s: State<T, E>, ev: Event<T, E>)
    requires Inv(s)
    ensures var r := Step(s, ev);
            && r.nativePulls == s.nativePulls + (if !s.phase.Awaiting? && r.phase.Awaiting? then 1 else 0)
            && (r.nativePulls > s.nativePulls ==>
                  r.c.queue == [] && r.termination.None? && r.pendingError.None?)
  {
    StepKeepsInv(s, ev);
    if ev.NativeReturns? && s.phase.Awaiting? {
      ResumePulls(s, ev.chunk, ev.termination);
    }
  }

  lemma ResumePulls<T, E>(s: State<T, E>, chunk: seq<T>, termination: Option<Termination<E>>)
    requires Inv(s) && s.phase.Awaiting?
    ensures Resume(s, chunk, termination).nativePulls == s.nativePulls
    ensures !Resume(s, chunk, termination).phase.Awaiting?
  {
    if !s.cancelled {
      EnqueueMany(s.(received := s.received + chunk,
                     termination := if termination.Some? then termination else s.termination), chunk);
    }
  }

  lemma TerminatedStep<T, E>(s: State<T, E>, ev: Event<T, E>)
    requires Inv(s) && s.termination.Some?
    ensures var r := Step(s, ev);
            r.nativePulls == s.nativePulls && r.termination == s.termination && r.received == s.received
  {
  }

  /** Once the native side has reported a termination it is never asked again,
      however the run goes on, and what it said stands. */
  lemma NoUseAfterTermination<T, E>(before: seq<Event<T, E>>, after: seq<Event<T, E>>)
    requires Run(Initial<T, E>(), before).termination.Some?
    ensures var s := Run(Initial<T, E>(), before);
            var r := Run(s, after);
            r.nativePulls == s.nativePulls && r.termination == s.termination && r.received == s.received
  {
    InitialInv<T, E>();
    RunKeepsInv(Initial<T, E>(), before);
    TerminatedRun(Run(Initial<T, E>(), before), after);
  }

  lemma {:induction false} TerminatedRun<T, E>(s: State<T, E>, events: seq<Event<T, E>>)
    requires Inv(s) && s.termination.Some?
    ensures var r := Run(s, events);
            r.nativePulls == s.nativePulls && r.termination == s.termination && r.received == s.received
    decreases |events|
  {
    if events != [] {
      TerminatedStep(s, events[0]);
      StepKeepsInv(s, events[0]);
      TerminatedRun(Step(s, events[0]), events[1..]);
    }
  }

  lemma EndedStep<T, E>(s: State<T, E>, ev: Event<T, E>)
    requires Inv(s) && !s.c.stream.Readable?
    ensures var r := Step(s, ev);
            && r.c.stream == s.c.stream && r.c.delivered == s.c.delivered
            && r.nativePulls == s.nativePulls && r.cancelled == s.cancelled
            && |r.c.ended| == |s.c.ended| + if ev.ReadItem? then 1 else 0
  {
    if ev.NativeReturns? && s.phase.Awaiting? {
      assert s.cancelled;
      ResumeAfterCancel(s, ev.chunk, ev.termination);
      ResumePulls(s, ev.chunk, ev.termination);
    }
  }

  /** A closed, cancelled or errored stream stays so: it hands out no more items
      and asks for none, also when a pull resolves after the cancellation. */
  lemma EndIsFinal<T, E>(before: seq<Event<T, E>>, after: seq<Event<T, E>>)
    requires !Run(Initial<T, E>(), before).c.stream.Readable?
    ensures var s := Run(Initial<T, E>(), before);
            var r := Run(s, after);
            && r.c.stream == s.c.stream && r.c.delivered == s.c.delivered
            && r.nativePulls == s.nativePulls && r.cancelled == s.cancelled
  {
    InitialInv<T, E>();
    RunKeepsInv(Initial<T, E>(), before);
    EndedRun(Run(Initial<T, E>(), before), after);
  }

  lemma {:induction false} EndedRun<T, E>(s: State<T, E>, events: seq<Event<T, E>>)
    requires Inv(s) && !s.c.stream.Readable?
    ensures var r := Run(s, events);
            && r.c.stream == s.c.stream && r.c.delivered == s.c.delivered
            && r.nativePulls == s.nativePulls && r.cancelled == s.cancelled
    decreases |events|
  {
    if events != [] {
      EndedStep(s, events[0]);
      StepKeepsInv(s, events[0]);
      EndedRun(Step(s, events[0]), events[1..]);
    }
  }

  // ---------------------------------------------------------------------
  // Rejected promises and cancellation.
  // ---------------------------------------------------------------------

  /** Until its reaction has run, a rejected pull stays rejected. */
  lemma RejectedStep<T, E>(s: State<T, E>, ev: Event<T, E>)
    requires Inv(s) && s.phase.Rejected? && !s.cancelled && !ev.Settle? && !ev.Cancel?
    ensures var r := Step(s, ev);
            && r.phase == s.phase && !r.cancelled && r.c.delivered == s.c.delivered
            && r.c.waiting == s.c.waiting + if ev.ReadItem? then 1 else 0
  {
  }

  lemma {:induction false} RejectedRun<T, E>(s: State<T, E>, events: seq<Event<T, E>>)
    requires Inv(s) && s.phase.Rejected? && !s.cancelled
    requires forall i :: 0 <= i < |events| ==> !events[i].Settle? && !events[i].Cancel?
    ensures var r := Run(s, events);
            && Inv(r) && r.phase == s.phase && !r.cancelled && r.c.delivered == s.c.delivered
            && r.c.waiting == s.c.waiting + Reads(events)
    decreases |events|
  {
    if events != [] {
      RejectedStep(s, events[0]);
      StepKeepsInv(s, events[0]);
      RejectedRun(Step(s, events[0]), events[1..]);
    }
  }

  /** A rejected native promise errors the stream: in every run that waits for the
      native side and was not cancelled, the rejection, anything but a
      cancellation before the reaction, and the reaction fail the reads that
      waited and those that came in between, each of them with the rejection. */
  lemma RejectionErrorsStream<T, E>(before: seq<Event<T, E>>, cause: E, between: seq<Event<T, E>>)
    requires var s := Run(Initial<T, E>(), before);
             s.phase.Awaiting? && !s.cancelled
    requires forall i :: 0 <= i < |between| ==> !between[i].Settle? && !between[i].Cancel?
    ensures var s := Run(Initial<T, E>(), before);
            var r := Step(Run(Step(s, NativeRejects(cause)), between), Settle);
            && r.c.stream == Errored(Rejection(cause)) && r.phase.Idle?
            && r.c.waiting == 0 && r.c.delivered == s.c.delivered
            && r.c.ended == seq(s.c.waiting + Reads(between), _ => Fail(Rejection(cause)))
  {
    InitialInv<T, E>();
    RunKeepsInv(Initial<T, E>(), before);
    var s := Run(Initial<T, E>(), before);
    StepKeepsInv(s, NativeRejects(cause));
    RejectedRun(Step(s, NativeRejects(cause)), between);
    RejectionSettles(Run(Step(s, NativeRejects(cause)), between), Rejection(cause));
  }

  lemma RejectionSettles<T, E>(s: State<T, E>, reason: Reason<E>)
    requires Inv(s) && s.phase == Rejected(reason) && !s.cancelled
    ensures var r := Step(s, Settle);
            && r.c.stream == Errored(reason) && r.phase.Idle?
            && r.c.waiting == 0 && r.c.delivered == s.c.delivered
            && r.c.ended == seq(s.c.waiting, _ => Fail(reason))
  {
    assert s.c.ended == [];
  }

  /** Cancelling closes a readable stream at once: every waiting read is done,
      what was queued is dropped, and what was handed out stays.  A stream that has
      ended is left alone. */
  lemma CancelExact<T, E>(before: seq<Event<T, E>>)
    ensures var s := Run(Initial<T, E>(), before);
            var r := Step(s, Cancel);
            if s.c.stream.Readable? then
              && r.cancelled && r.c.stream.Closed? && r.c.queue == [] && r.c.waiting == 0
              && r.c.delivered == s.c.delivered && r.c.ended == seq(s.c.waiting, _ => Done)
            else r == s
  {
    InitialInv<T, E>();
    RunKeepsInv(Initial<T, E>(), before);
    var s := Run(Initial<T, E>(), before);
    assert s.c.stream.Readable? ==> s.c.ended == [];
  }

  /** A native call that resolves after the cancellation finds the controller
      closed: with anything to enqueue, or a close to make, `pull` throws, and
      nothing reaches the consumer. */
  lemma LateReturnIsRefused<T, E>(before: seq<Event<T, E>>, chunk: seq<T>, termination: Option<Termination<E>>)
    requires var s := Run(Initial<T, E>(), before);
             s.phase.Awaiting? && s.cancelled
    ensures var s := Run(Initial<T, E>(), before);
            var r := Step(s, NativeReturns(chunk, termination));
            && r.c == s.c
            && (r.phase == Rejected(TypeError) <==> chunk != [] || termination == Some(Finished))
  {
    InitialInv<T, E>();
    RunKeepsInv(Initial<T, E>(), before);
    ResumeAfterCancel(Run(Initial<T, E>(), before), chunk, termination);
  }

  // ---------------------------------------------------------------------
  // Every read is answered at most once.
  // ---------------------------------------------------------------------

  /** How many reads were made. */
  function Reads<T, E>(events: seq<Event<T, E>>): nat {
    if events == [] then 0 else (if events[0].ReadItem? then 1 else 0) + Reads(events[1..])
  }

  /** Reads answered with an item, answered with an ending, and still waiting. */
  function ReadsSeen<T, E>(s: State<T, E>): nat {
    |s.c.delivered| + |s.c.ended| + s.c.waiting
  }

  lemma ResumeCountsReads<T, E>(s: State<T, E>, chunk: seq<T>, termination: Option<Termination<E>>)
    requires Inv(s) && s.phase.Awaiting?
    ensures ReadsSeen(Resume(s, chunk, termination)) == ReadsSeen(s)
  {
    if s.cancelled {
      ResumeAfterCancel(s, chunk, termination);
    } else {
      EnqueueMany(s.(received := s.received + chunk,
                     termination := if termination.Some? then termination else s.termination), chunk);
    }
  }

  lemma StepCountsReads<T, E>(s: State<T, E>, ev: Event<T, E>)
    requires Inv(s)
    ensures ReadsSeen(Step(s, ev)) == ReadsSeen(s) + if ev.ReadItem? then 1 else 0
  {
    if ev.NativeReturns? && s.phase.Awaiting? {
      ResumeCountsReads(s, ev.chunk, ev.termination);
    }
  }

  lemma {:induction false} RunCountsReads<T, E>(s: State<T, E>, events: seq<Event<T, E>>)
    requires Inv(s)
    ensures ReadsSeen(Run(s, events)) == ReadsSeen(s) + Reads(events)
    decreases |events|
  {
    if events != [] {
      StepCountsReads(s, events[0]);
      StepKeepsInv(s, events[0]);
      RunCountsReads(Step(s, events[0]), events[1..]);
    }
  }

  /** In every run each read has been answered exactly once, with an item or with
      an ending, or is still waiting; so an end answers every waiting read. */
  lemma EveryReadCounted<T, E>(events: seq<Event<T, E>>)
    ensures var s := Run(Initial<T, E>(), events);
            && |s.c.delivered| + |s.c.ended| + s.c.waiting == Reads(events)
            && (!s.c.stream.Readable? ==> |s.c.delivered| + |s.c.ended| == Reads(events))
  {
    InitialInv<T, E>();
    RunCountsReads(Initial<T, E>(), events);
    RunKeepsInv(Initial<T, E>(), events);
  }

  // ---------------------------------------------------------------------
  // Reads are not left hanging.
  // ---------------------------------------------------------------------

  /** The native contract: a chunk without items comes with a termination. */
  ghost predicate KeepsContract<T, E>(ev: Event<T, E>) {
    ev.NativeReturns? ==> ev.chunk != [] || ev.termination.Some?
  }

  /** An open stream with nothing queued has a pull working for it, and if that
      pull is already done another one has been asked for. */
  ghost predicate Served<T, E>(s: State<T, E>) {
    s.c.started && CanCloseOrEnqueue(s.c) && s.c.queue == [] ==>
      s.c.pulling && (s.phase.Resolved? ==> s.c.pullAgain)
  }

  lemma StepServes<T, E>(s: State<T, E>, ev: Event<T, E>)
    requires Inv(s) && Served(s) && KeepsContract(ev)
    ensures Served(Step(s, ev))
  {
    match ev
    case Start =>
    case ReadItem =>
    case NativeReturns(chunk, termination) =>
      if s.phase.Awaiting? && !s.cancelled {
        EnqueueMany(s.(received := s.received + chunk,
                       termination := if termination.Some? then termination else s.termination), chunk);
      } else if s.phase.Awaiting? {
        ResumeAfterCancel(s, chunk, termination);
      }
    case NativeRejects(cause) =>
    case Settle =>
    case Cancel =>
  }

  lemma {:induction false} RunServes<T, E>(s: State<T, E>, events: seq<Event<T, E>>)
    requires Inv(s) && Served(s) && forall i :: 0 <= i < |events| ==> KeepsContract(events[i])
    ensures Served(Run(s, events))
    decreases |events|
  {
    if events != [] {
      StepServes(s, events[0]);
      StepKeepsInv(s, events[0]);
      RunServes(Step(s, events[0]), events[1..]);
    }
  }

  /** With a native side that keeps its contract, a started stream that is open
      and has nothing queued always has a pull in progress, whether or not a read
      waits: one that waits for the native side, or one whose reaction is still to
      run and will end the stream or pull again.  A waiting read is such a case. */
  lemma ReadsAreServed<T, E>(events: seq<Event<T, E>>)
    requires forall i :: 0 <= i < |events| ==> KeepsContract(events[i])
    ensures var s := Run(Initial<T, E>(), events);
            && (s.c.started && s.c.stream.Readable? && !s.c.closeRequested && s.c.queue == [] ==>
                  !s.phase.Idle? && (s.phase.Resolved? ==> !Settled(s).phase.Idle?))
            && (s.c.waiting > 0 ==> s.c.stream.Readable? && !s.c.closeRequested && s.c.queue == [])
  {
    InitialInv<T, E>();
    RunServes(Initial<T, E>(), events);
    RunKeepsInv(Initial<T, E>(), events);
  }

  /** The contract is needed: one empty chunk without a termination can leave a
      read waiting with nothing in progress. */
  lemma EmptyChunkStalls<T, E>()
    ensures var s := Run(Initial<T, E>(), [ReadItem, Start, NativeReturns([], None), Settle]);
            s.c.stream.Readable? && s.c.started && s.c.waiting == 1 && s.phase.Idle? && !s.c.pulling
  {
    var s0 := Initial<T, E>();
    var s1 := Step(s0, ReadItem);
    var s2 := Step(s1, Start);
    var s3 := Step(s2, NativeReturns([], None));
    var s4 := Step(s3, Settle);
    assert s2.phase.Awaiting? && s2.c.waiting == 1;
    assert s4.phase.Idle?;
    RunFour(s0, ReadItem, Start, NativeReturns([], None), Settle);
  }

  lemma RunFour<T, E>(s: State<T, E>, a: Event<T, E>, b: Event<T, E>, c: Event<T, E>, d: Event<T, E>)
    ensures Run(s, [a, b, c, d]) == Step(Step(Step(Step(s, a), b), c), d)
  {
    assert [a, b, c, d][1..] == [b, c, d];
    assert [b, c, d][1..] == [c, d];
    assert [c, d][1..] == [d];
    assert [d][1..] == [];
    assert Run(Step(Step(Step(s, a), b), c), [d]) == Run(Step(Step(Step(Step(s, a), b), c), d), []);
    assert Run(Step(Step(s, a), b), [c, d]) == Run(Step(Step(Step(s, a), b), c), [d]);
  }

  /** Why the error waits for a later pull: surfacing it right after the items
      of its own chunk would drop those that no read has taken yet. */
  lemma UndeferredErrorDropsItems<T, E>(item: T, e: E)
    ensures var s := Step(Initial<T, E>(), Start);
            && s.phase.Awaiting?
            && var early := EnqueueAll(s, [item]).(phase := Rejected(Native(e)));
            && Settled(early).c.stream == Errored(Native(e))
            && Settled(early).c.delivered == [] && Settled(early).c.queue == []
  {
    var s := Step(Initial<T, E>(), Start);
    assert [item][1..] == [];
    assert EnqueueAll(s, [item]) == Enqueue(s, item);
  }

  // ---------------------------------------------------------------------
  // The source's own form: closures over a mutable pending error.
  // ---------------------------------------------------------------------

  class WrappedStream<T, E> {
    var controller: Controller<T, E>
    var phase: Phase<E>
    var pendingError: Option<E>
    ghost var received: seq<T>
    ghost var termination: Option<Termination<E>>
    ghost var nativePulls: nat
    ghost var cancelled: bool

    ghost function Snapshot(): State<T, E>
      reads this
    {
      State(controller, phase, pendingError, received, termination, nativePulls, cancelled)
    }

    constructor ()
      ensures Snapshot() == Initial()
    {
      controller := Controller(Readable, [], 0, false, false, false, false, [], []);
      phase, pendingError := Idle, None;
      received, termination, nativePulls, cancelled := [], None, 0, false;
    }

    /** `pull` up to the native call. */
    method Pull()
      modifies this
      ensures Snapshot() == BeginPull(old(Snapshot()))
    {
      if pendingError.Some? {
        phase := Rejected(Native(pendingError.value));
        return;
      }
      nativePulls := nativePulls + 1;
      phase := Awaiting;
    }

    method CallPull()
      modifies this
      ensures Snapshot() == CallPullIfNeeded(old(Snapshot()))
    {
      if !ShouldCallPull(controller) {
        return;
      }
      if controller.pulling {
        controller := controller.(pullAgain := true);
        return;
      }
      controller := controller.(pulling := true);
      Pull();
    }

    method EnqueueItem(item: T)
      requires CanCloseOrEnqueue(controller)
      modifies this
      ensures Snapshot() == Enqueue(old(Snapshot()), item)
    {
      if controller.waiting > 0 {
        controller := controller.(waiting := controller.waiting - 1,
                                  delivered := controller.delivered + [item]);
      } else {
        controller := controller.(queue := controller.queue + [item]);
      }
      CallPull();
    }

    /** `pull` after the native promise has resolved. */
    method NativeResolved(chunk: seq<T>, last: Option<Termination<E>>)
      requires Inv(Snapshot()) && phase.Awaiting?
      modifies this
      ensures Snapshot() == Resume(old(Snapshot()), chunk, last)
      ensures Inv(Snapshot())
    {
      ResumeKeepsInv(Snapshot(), chunk, last);
      received := received + chunk;
      termination := if last.Some? then last else termination;
      ghost var all := EnqueueAll(Snapshot(), chunk);
      var i: nat := 0;
      assert chunk[0..] == chunk;
      while i < |chunk|
        invariant i <= |chunk| && !phase.Rejected?
        invariant EnqueueAll(Snapshot(), chunk[i..]) == all
        invariant old(!cancelled) ==> ControllerInv(controller) && controller.pulling && CanCloseOrEnqueue(controller)
        invariant old(cancelled) ==> i == 0 && controller == old(controller)
      {
        if !CanCloseOrEnqueue(controller) {
          phase := Rejected(TypeError);
          return;
        }
        assert chunk[i..][1..] == chunk[i + 1..];
        EnqueueOne(Snapshot(), chunk[i]);
        EnqueueItem(chunk[i]);
        i := i + 1;
      }
      assert Snapshot() == all;
      if last.Some? {
        if last.value.Finished? {
          if !CanCloseOrEnqueue(controller) {
            phase := Rejected(TypeError);
            return;
          }
          controller := CloseController(controller);
        } else if |chunk| == 0 {
          phase := Rejected(Native(last.value.error));
          return;
        } else {
          pendingError := Some(last.value.error);
        }
      }
      phase := Resolved;
    }

    /** The native promise was rejected: the `await` throws out of `pull`. */
    method NativeRejected(cause: E)
      requires Inv(Snapshot()) && phase.Awaiting?
      modifies this
      ensures Snapshot() == Step(old(Snapshot()), NativeRejects(cause)) && Inv(Snapshot())
      ensures phase == Rejected(Rejection(cause)) && controller == old(controller)
    {
      StepKeepsInv(Snapshot(), NativeRejects(cause));
      phase := Rejected(Rejection(cause));
    }

    /** The reaction once `pull` has settled. */
    method PullSettled()
      requires Inv(Snapshot())
      modifies this
      ensures Snapshot() == Settled(old(Snapshot())) && Inv(Snapshot())
    {
      SettleKeepsInv(Snapshot());
      match phase {
        case Resolved =>
          var again := controller.pullAgain;
          phase := Idle;
          controller := controller.(pulling := false, pullAgain := false);
          if again {
            CallPull();
          }
        case Rejected(r) =>
          phase := Idle;
          controller := ErrorController(controller, r);
        case _ =>
      }
    }

    /** The platform has started the stream. */
    method Started()
      requires Inv(Snapshot())
      modifies this
      ensures Snapshot() == Step(old(Snapshot()), Start) && Inv(Snapshot())
    {
      StepKeepsInv(Snapshot(), Start);
      if !controller.started {
        controller := controller.(started := true);
        CallPull();
      }
    }

    /** The consumer reads. */
    method Read()
      requires Inv(Snapshot())
      modifies this
      ensures Snapshot() == ReadNext(old(Snapshot())) && Inv(Snapshot())
    {
      ReadKeepsInv(Snapshot());
      match controller.stream {
        case Closed =>
          controller := controller.(ended := controller.ended + [Done]);
        case Errored(r) =>
          controller := controller.(ended := controller.ended + [Fail(r)]);
        case Readable =>
          if |controller.queue| == 0 {
            controller := controller.(waiting := controller.waiting + 1);
            CallPull();
          } else {
            controller := controller.(queue := controller.queue[1..],
                                      delivered := controller.delivered + [controller.queue[0]]);
            if controller.closeRequested && |controller.queue| == 0 {
              controller := CloseStream(controller);
            } else {
              CallPull();
            }
          }
      }
    }

    /** `cancel`: the native side is told, queued items are dropped. */
    method CancelAll()
      requires Inv(Snapshot())
      modifies this
      ensures Snapshot() == CancelStream(old(Snapshot())) && Inv(Snapshot())
    {
      CancelKeepsInv(Snapshot());
      if controller.stream.Readable? {
        controller := CloseStream(controller).(queue := []);
        cancelled := true;
      }
    }
  }
}
