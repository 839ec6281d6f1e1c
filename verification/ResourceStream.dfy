/**
  The plugin resource stream. Two goroutines share an unbuffered channel: the HTTP handler,
  which runs the plugin call and sends, and the flusher, which receives and writes to the
  client. The request context may be cancelled at any moment. Close() is not atomic: it reads
  the `closed` flag, closes the channel and then sets the flag.

  Every step below is one action that the scheduler can interleave with the others.
*/
module ResourceStream {

  datatype Response = Response(hasHeaders: bool, status: int, body: string)

  /** What reaches the client, in order. */
  datatype Output = Status(code: int) | Body(content: string)

  datatype ClosePoint = ReadFlag | CloseChannel | SetFlag

  datatype Handler =
    | Calling                     // inside CallResource, free to send or to return
    | Sending(res: Response)      // past the closed check, at the select in Send
    | Closing(at: ClosePoint)     // the deferred Close
    | Waiting                     // the deferred wg.Wait
    | Returned

  datatype Flusher =
    | Receiving                   // at the select in Recv
    | Holding(res: Response)      // received, headers not handled yet
    | Writing(res: Response)      // headers handled, body not written yet
    | FlusherClosing(at: ClosePoint)
    | Finished

  datatype FlushResult = Pending | Flushed | EmptyResponse | RecvFailed | CloseFailed

  datatype State = State(
    handler: Handler,
    flusher: Flusher,
    cancelled: bool,
    channelClosed: bool,
    closedFlag: bool,
    closes: nat,                  // successful close(s.stream) calls
    panicked: bool,
    sent: seq<Response>,          // responses whose Send returned nil
    output: seq<Output>,
    processed: nat,
    flushResult: FlushResult,     // the flusher's own result
    callFailed: bool,             // CallResource returned an error
    returnedErr: FlushResult      // flushStreamErr as read by the return statement
  )

  const INITIAL := State(Calling, Receiving, false, false, false, 0, false, [], [], 0, Pending, false, Pending)

  datatype Step =
    | Cancel
    | Send(res: Response)         // Send is entered: the closed flag is read
    | SendCancelled               // Send's select takes ctx.Done
    | Exchange                    // Send and Recv meet on the channel
    | SendOnClosed                // Send's select takes a closed channel
    | CallReturns(failed: bool)
    | HandlerClose
    | WaitEnds
    | RecvCancelled               // Recv's select takes ctx.Done
    | RecvEof                     // Recv's select sees the closed channel
    | WriteHeader
    | WriteBody
    | FlusherClose

  predicate Enabled(s: State, step: Step)
  {
    !s.panicked &&
    match step
    case Cancel => true
    case Send(_) => s.handler.Calling?
    case SendCancelled => s.handler.Sending? && s.cancelled
    case Exchange => s.handler.Sending? && s.flusher.Receiving? && !s.channelClosed
    case SendOnClosed => s.handler.Sending? && s.channelClosed
    case CallReturns(_) => s.handler.Calling?
    case HandlerClose => s.handler.Closing?
    case WaitEnds => s.handler.Waiting? && s.flusher.Finished?
    case RecvCancelled => s.flusher.Receiving? && s.cancelled
    case RecvEof => s.flusher.Receiving? && s.channelClosed
    case WriteHeader => s.flusher.Holding?
    case WriteBody => s.flusher.Writing?
    case FlusherClose => s.flusher.FlusherClosing?
  }

  function Next(s: State, step: Step): State
    requires Enabled(s, step)
  {
    match step
    case Cancel => s.(cancelled := true)
    case Send(res) => if s.closedFlag then s else s.(handler := Sending(res))
    case SendCancelled => s.(handler := Calling)
    case Exchange =>
      s.(handler := Calling, flusher := Holding(s.handler.res), sent := s.sent + [s.handler.res])
    case SendOnClosed => s.(panicked := true)
    case CallReturns(failed) =>
      s.(handler := Closing(ReadFlag), callFailed := failed, returnedErr := s.flushResult)
    case HandlerClose =>
      (match s.handler.at
       case ReadFlag => s.(handler := if s.closedFlag then Waiting else Closing(CloseChannel))
       case CloseChannel =>
         if s.channelClosed then s.(panicked := true)
         else s.(channelClosed := true, closes := s.closes + 1, handler := Closing(SetFlag))
       case SetFlag => s.(closedFlag := true, handler := Waiting))
    case WaitEnds => s.(handler := Returned)
    case RecvCancelled =>
      if s.processed == 0 then s.(flusher := Finished, flushResult := RecvFailed)
      else s.(flusher := FlusherClosing(ReadFlag))
    case RecvEof =>
      s.(flusher := Finished, flushResult := if s.processed == 0 then EmptyResponse else Flushed)
    case WriteHeader =>
      var output := if s.processed == 0 && s.flusher.res.hasHeaders
        then s.output + [Status(s.flusher.res.status)] else s.output;
      s.(flusher := Writing(s.flusher.res), output := output)
    case WriteBody =>
      s.(flusher := Receiving, output := s.output + [Body(s.flusher.res.body)], processed := s.processed + 1)
    case FlusherClose =>
      (match s.flusher.at
       case ReadFlag =>
         if s.closedFlag then s.(flusher := Finished, flushResult := CloseFailed)
         else s.(flusher := FlusherClosing(CloseChannel))
       case CloseChannel =>
         if s.channelClosed then s.(panicked := true)
         else s.(channelClosed := true, closes := s.closes + 1, flusher := FlusherClosing(SetFlag))
       case SetFlag => s.(closedFlag := true, flusher := Finished, flushResult := Flushed))
  }

  ghost predicate Moves(run: seq<State>, steps: seq<Step>, i: nat)
    requires i < |steps| < |run|
  {
    Enabled(run[i], steps[i]) && run[i + 1] == Next(run[i], steps[i])
  }

  /** Every interleaving from the moment the flusher is started. */
  ghost predicate IsRun(run: seq<State>, steps: seq<Step>)
  {
    && |run| == |steps| + 1
    && run[0] == INITIAL
    && forall i: nat | i < |steps| :: Moves(run, steps, i)
  }

  // ------------------------------------------------------------------ delivery

  function Bodies(output: seq<Output>): seq<string>
  {
    if output == [] then []
    else
      var rest := Bodies(output[..|output| - 1]);
      var last := output[|output| - 1];
      if last.Body? then rest + [last.content] else rest
  }

  function SentBodies(sent: seq<Response>): (r: seq<string>)
    ensures |r| == |sent|
  {
    if sent == [] then [] else SentBodies(sent[..|sent| - 1]) + [sent[|sent| - 1].body]
  }

  /** What the flusher holds between Recv and Write. */
  function InHand(f: Flusher): (r: seq<string>)
    ensures |r| <= 1
  {
    if f.Holding? || f.Writing? then [f.res.body] else []
  }

  ghost predicate Delivered(s: State)
  {
    && SentBodies(s.sent) == Bodies(s.output) + InHand(s.flusher)
    && s.processed == |Bodies(s.output)|
    && (s.flusher.Holding? || s.flusher.Writing? ==> s.sent != [] && s.flusher.res == s.sent[|s.sent| - 1])
  }

  lemma {:induction false} BodiesSnoc(output: seq<Output>, o: Output)
    ensures Bodies(output + [o]) == Bodies(output) + if o.Body? then [o.content] else []
  {
    assert (output + [o])[..|output|] == output;
  }

  lemma SentSnoc(sent: seq<Response>, r: Response)
    ensures SentBodies(sent + [r]) == SentBodies(sent) + [r.body]
  {
    assert (sent + [r])[..|sent|] == sent;
  }

  /** The three steps that move a response; every other step leaves the data alone. */
  predicate MovesData(step: Step)
  {
    step.Exchange? || step.WriteHeader? || step.WriteBody?
  }

  lemma OtherStepsLeaveData(s: State, step: Step)
    requires Enabled(s, step) && !MovesData(step)
    ensures var s' := Next(s, step);
      && s'.sent == s.sent && s'.output == s.output && s'.processed == s.processed
      && (s'.flusher == s.flusher || (InHand(s.flusher) == [] == InHand(s'.flusher) && !s'.flusher.Receiving?))
  {
  }

  lemma ExchangeDelivers(s: State)
    requires Delivered(s) && Enabled(s, Exchange)
    ensures Delivered(Next(s, Exchange))
  {
    SentSnoc(s.sent, s.handler.res);
  }

  lemma WriteHeaderDelivers(s: State)
    requires Delivered(s) && Enabled(s, WriteHeader)
    ensures Delivered(Next(s, WriteHeader))
  {
    BodiesSnoc(s.output, Status(s.flusher.res.status));
  }

  lemma WriteBodyDelivers(s: State)
    requires Delivered(s) && Enabled(s, WriteBody)
    ensures Delivered(Next(s, WriteBody))
  {
    BodiesSnoc(s.output, Body(s.flusher.res.body));
  }

  lemma StepDelivers(s: State, step: Step)
    requires Delivered(s) && Enabled(s, step)
    ensures Delivered(Next(s, step))
  {
    if step.Exchange? {
      ExchangeDelivers(s);
    } else if step.WriteHeader? {
      WriteHeaderDelivers(s);
    } else if step.WriteBody? {
      WriteBodyDelivers(s);
    } else {
      OtherStepsLeaveData(s, step);
    }
  }

  // ------------------------------------------------------------ response header

  /** A status can only be the very first thing written. */
  ghost predicate StatusFirst(output: seq<Output>)
  {
    forall i | 0 < i < |output| :: output[i].Body?
  }

  /** The output starts with the first response's status exactly when that response has headers. */
  ghost predicate StatusMatches(output: seq<Output>, sent: seq<Response>)
  {
    && output != [] && sent != []
    && (output[0].Status? <==> sent[0].hasHeaders)
    && (output[0].Status? ==> output[0].code == sent[0].status)
  }

  ghost predicate HeaderOk(s: State)
  {
    && StatusFirst(s.output)
    && (s.processed > 0 ==> StatusMatches(s.output, s.sent))
    && (s.processed == 0 && !s.flusher.Writing? ==> s.output == [])
    && (s.processed == 0 && s.flusher.Holding? ==> |s.sent| == 1)
    && (s.processed == 0 && s.flusher.Writing? ==> |s.sent| == 1)
    && (s.processed == 0 && s.flusher.Writing? ==>
          s.output == if s.sent[0].hasHeaders then [Status(s.sent[0].status)] else [])
    && (s.processed == 0 && (s.flusher.Receiving? || s.flusher.Finished?) ==> s.sent == [])
  }

  lemma StepKeepsHeader(s: State, step: Step)
    requires Delivered(s) && HeaderOk(s) && Enabled(s, step)
    ensures HeaderOk(Next(s, step))
  {
    if step.WriteBody? {
      WriteBodyKeepsHeader(s);
    } else if step.WriteHeader? {
    } else if step.Exchange? {
    } else {
      OtherStepsLeaveData(s, step);
    }
  }

  lemma WriteBodyKeepsHeader(s: State)
    requires Delivered(s) && HeaderOk(s) && Enabled(s, WriteBody)
    ensures HeaderOk(Next(s, WriteBody))
  {
    if s.processed == 0 {
      assert s.sent == [s.flusher.res];
    }
  }

  // ----------------------------------------------------------------- shutdown

  predicate BeforeClose(h: Handler)
  {
    h.Calling? || h.Sending? || (h.Closing? && !h.at.SetFlag?)
  }

  /** Nobody but the handler closes as long as the flusher has not met a cancellation mid-stream. */
  predicate Quiet(s: State)
  {
    !(s.cancelled && s.processed > 0)
  }

  ghost predicate QuietInv(s: State)
  {
    && !s.panicked
    && !s.flusher.FlusherClosing?
    && s.channelClosed == !BeforeClose(s.handler)
    && s.closes == (if s.channelClosed then 1 else 0)
    && s.closedFlag == (s.handler.Waiting? || s.handler.Returned?)
    && (s.flusher.Finished? ==> s.flushResult in {EmptyResponse, Flushed, RecvFailed})
  }

  /** Holds in every run, cancelled or not. */
  ghost predicate SafeInv(s: State)
  {
    && (Quiet(s) ==> QuietInv(s))
    && s.closes == (if s.channelClosed then 1 else 0)
    && (s.closedFlag ==> s.channelClosed)
    && (s.handler == Closing(SetFlag) ==> s.channelClosed)
    && (s.flusher == FlusherClosing(SetFlag) ==> s.channelClosed && !s.closedFlag)
    && (s.channelClosed && !s.closedFlag ==> (s.handler == Closing(SetFlag)) != (s.flusher == FlusherClosing(SetFlag)))
    && (s.handler == Closing(SetFlag) ==> !s.closedFlag)
    && (s.handler.Waiting? || s.handler.Returned? ==> s.closedFlag)
    && (s.closedFlag && BeforeClose(s.handler) ==> s.flusher.Finished?)
    && (s.flusher.Finished? ==> s.channelClosed || (s.cancelled && s.processed == 0))
    && (s.flusher.FlusherClosing? ==> s.cancelled && s.processed > 0)
    && (s.handler.Returned? ==> s.flusher.Finished?)
  }

  lemma StepKeepsSafe(s: State, step: Step)
    requires SafeInv(s) && Enabled(s, step)
    ensures SafeInv(Next(s, step))
  {
  }

  /** The flusher's verdict, and what the handler's return statement has read of it. */
  ghost predicate ResultsOk(s: State)
  {
    && (s.flushResult == Pending <==> !s.flusher.Finished?)
    && (s.flusher.Finished? && !s.cancelled ==> s.flushResult == if s.sent == [] then EmptyResponse else Flushed)
    && (s.flusher.Finished? && BeforeReturn(s.handler) ==>
          s.cancelled && s.flushResult == if s.processed == 0 then RecvFailed else Flushed)
    && (s.returnedErr != Pending ==>
          && s.cancelled && s.flusher.Finished? && s.returnedErr == s.flushResult
          && s.returnedErr == if s.processed == 0 then RecvFailed else Flushed)
    && (BeforeReturn(s.handler) ==> s.returnedErr == Pending)
  }

  predicate BeforeReturn(h: Handler)
  {
    h.Calling? || h.Sending?
  }

  lemma StepKeepsResults(s: State, step: Step)
    requires SafeInv(s) && Delivered(s) && ResultsOk(s) && Enabled(s, step)
    ensures ResultsOk(Next(s, step))
  {
    assert |SentBodies(s.sent)| == |Bodies(s.output)| + |InHand(s.flusher)|;
  }

  ghost predicate Inv(s: State)
  {
    Delivered(s) && HeaderOk(s) && SafeInv(s) && ResultsOk(s)
  }

  lemma StepKeepsInv(s: State, step: Step)
    requires Inv(s) && Enabled(s, step)
    ensures Inv(Next(s, step))
  {
    StepDelivers(s, step);
    StepKeepsHeader(s, step);
    StepKeepsSafe(s, step);
    StepKeepsResults(s, step);
  }

  lemma {:induction false} RunKeepsInv(run: seq<State>, steps: seq<Step>, n: nat)
    requires IsRun(run, steps) && n < |run|
    ensures Inv(run[n])
  {
    if n > 0 {
      RunKeepsInv(run, steps, n - 1);
      assert Moves(run, steps, n - 1);
      StepKeepsInv(run[n - 1], steps[n - 1]);
    }
  }

  // -------------------------------------------------------------- main results

  /**
    In every interleaving, with or without cancellation, the bodies written are an in-order
    prefix of the bodies whose Send succeeded and lag by at most one; once the handler has
    returned they are the same sequence.
  */
  lemma Delivery(run: seq<State>, steps: seq<Step>, n: nat)
    requires IsRun(run, steps) && n < |run|
    ensures Bodies(run[n].output) <= SentBodies(run[n].sent)
    ensures |run[n].sent| <= |Bodies(run[n].output)| + 1
    ensures run[n].handler.Returned? ==> Bodies(run[n].output) == SentBodies(run[n].sent)
  {
    RunKeepsInv(run, steps, n);
  }

  /**
    The status line is written at most once and before every body, it is the first response's
    status, and it is there as soon as a body of a response with headers has been written.
  */
  lemma HeaderDiscipline(run: seq<State>, steps: seq<Step>, n: nat)
    requires IsRun(run, steps) && n < |run|
    ensures StatusFirst(run[n].output)
    ensures Bodies(run[n].output) != [] ==> StatusMatches(run[n].output, run[n].sent)
    ensures run[n].output != [] && run[n].output[0].Status? ==>
      run[n].sent != [] && run[n].output[0].code == run[n].sent[0].status
  {
    RunKeepsInv(run, steps, n);
  }

  /**
    In every run the channel is closed at most once, and it is closed by the time the handler
    waits. Unless the request was cancelled after some body had been written, nothing panics, the
    handler is the one who closes, and no Send meets a closed channel. Without cancellation the
    flusher leaves only through the close.
  */
  lemma ClosedExactlyOnce(run: seq<State>, steps: seq<Step>, n: nat)
    requires IsRun(run, steps) && n < |run|
    ensures run[n].closes == if run[n].channelClosed then 1 else 0
    ensures run[n].handler.Waiting? || run[n].handler.Returned? ==> run[n].channelClosed
    ensures Quiet(run[n]) ==>
      && !run[n].panicked
      && (run[n].channelClosed <==> !BeforeClose(run[n].handler))
      && (run[n].handler.Sending? ==> !run[n].channelClosed)
    ensures run[n].flusher.Finished? && !run[n].cancelled ==> run[n].channelClosed
  {
    RunKeepsInv(run, steps, n);
  }

  lemma ClosedStaysClosed(s: State, step: Step)
    requires s.channelClosed && Enabled(s, step)
    ensures Next(s, step).channelClosed && Next(s, step).sent == s.sent
  {
  }

  /** Nothing is sent after the close, in any run: once closed, `sent` never grows. */
  lemma {:induction false} NothingSentAfterClose(run: seq<State>, steps: seq<Step>, i: nat, j: nat)
    requires IsRun(run, steps) && i <= j < |run| && run[i].channelClosed
    ensures run[j].channelClosed && run[j].sent == run[i].sent
    decreases j - i
  {
    if i < j {
      NothingSentAfterClose(run, steps, i, j - 1);
      assert Moves(run, steps, j - 1);
      ClosedStaysClosed(run[j - 1], steps[j - 1]);
    }
  }

  /** An action other than a cancellation is always possible until the handler has returned. */
  predicate CanMove(s: State)
  {
    || Enabled(s, CallReturns(false))
    || Enabled(s, SendCancelled) || Enabled(s, Exchange) || Enabled(s, SendOnClosed)
    || Enabled(s, HandlerClose) || Enabled(s, WaitEnds)
    || Enabled(s, RecvCancelled) || Enabled(s, RecvEof) || Enabled(s, WriteHeader)
    || Enabled(s, WriteBody) || Enabled(s, FlusherClose)
  }

  lemma NoDeadlock(run: seq<State>, steps: seq<Step>, n: nat)
    requires IsRun(run, steps) && n < |run|
    ensures run[n].panicked || run[n].handler.Returned? || CanMove(run[n])
  {
    RunKeepsInv(run, steps, n);
  }

  /** How many more flusher actions the deferred wait can last. */
  function FlusherWork(f: Flusher): nat
  {
    match f
    case Holding(_) => 6
    case Writing(_) => 5
    case Receiving => 4
    case FlusherClosing(at) => if at.ReadFlag? then 3 else if at.CloseChannel? then 2 else 1
    case Finished => 0
  }

  /** While the handler waits, every action except a cancellation brings its return closer. */
  lemma WaitTerminates(run: seq<State>, steps: seq<Step>, n: nat)
    requires IsRun(run, steps) && n < |steps| && run[n].handler.Waiting? && !steps[n].Cancel?
    ensures run[n + 1].panicked || run[n + 1].handler.Returned? ||
      (run[n + 1].handler.Waiting? && FlusherWork(run[n + 1].flusher) < FlusherWork(run[n].flusher))
  {
    RunKeepsInv(run, steps, n);
    assert Moves(run, steps, n);
    WaitStep(run[n], steps[n]);
  }

  lemma WaitStep(s: State, step: Step)
    requires Inv(s) && Enabled(s, step) && s.handler.Waiting? && !step.Cancel?
    ensures
      var s' := Next(s, step);
      s'.panicked || s'.handler.Returned? ||
        (s'.handler.Waiting? && FlusherWork(s'.flusher) < FlusherWork(s.flusher))
  {
  }

  /**
    What the handler reports of the flusher, in every run. The return statement reads the flusher's
    error before the deferred wait, so it mostly reads nil: the only error it can ever see is that
    of a cancellation before the first body. Without cancellation it reads nil always, although the
    flusher then fails exactly when nothing was sent.
  */
  lemma FlushErrorIsNeverReported(run: seq<State>, steps: seq<Step>, n: nat)
    requires IsRun(run, steps) && n < |run|
    ensures run[n].returnedErr != Pending ==>
      run[n].cancelled && run[n].flusher.Finished? && run[n].returnedErr == run[n].flushResult
    ensures run[n].returnedErr in {Pending, Flushed, RecvFailed}
    ensures run[n].returnedErr == RecvFailed ==> run[n].output == []
    ensures run[n].handler.Returned? && !run[n].cancelled ==>
      && run[n].returnedErr == Pending
      && run[n].flushResult == if run[n].sent == [] then EmptyResponse else Flushed
  {
    RunKeepsInv(run, steps, n);
  }

  // ------------------------------------------------------- when a run can panic

  /** A body has been or can still be written, after which a cancellation makes the flusher close. */
  predicate Flows(s: State)
  {
    || s.processed > 0
    || s.flusher.Holding? || s.flusher.Writing?
    || (s.flusher.Receiving? && !s.channelClosed && (s.handler.Calling? || s.handler.Sending?))
  }

  /**
    Somebody is past the last check before touching a channel that is, or will be, closed by the
    other side; or the flag is not up yet and the flusher can still get there.
  */
  predicate AtRisk(s: State)
  {
    || s.panicked
    || s.flusher == FlusherClosing(CloseChannel)
    || (s.channelClosed && (s.handler.Sending? || s.handler == Closing(CloseChannel)))
    || (!s.closedFlag && !s.flusher.Finished? && Flows(s))
  }

  lemma SafetyStays(s: State, step: Step)
    requires SafeInv(s) && !AtRisk(s) && Enabled(s, step)
    ensures !AtRisk(Next(s, step))
  {
  }

  /** The step that brings a state at risk closer to the panic. */
  function Towards(s: State): Step
  {
    if s.channelClosed && s.handler.Sending? then SendOnClosed
    else if s.channelClosed && s.handler == Closing(CloseChannel) then HandlerClose
    else match s.flusher
      case FlusherClosing(at) =>
        if at.ReadFlag? || (at.CloseChannel? && s.channelClosed) then FlusherClose
        else if s.handler.Calling? then CallReturns(false)
        else if s.handler == Closing(ReadFlag) then HandlerClose
        else FlusherClose
      case Holding(_) => WriteHeader
      case Writing(_) => WriteBody
      case _ =>
        if s.processed == 0 then (if s.handler.Calling? then Send(Response(false, 0, "")) else Exchange)
        else if s.cancelled then RecvCancelled
        else Cancel
  }

  function Distance(s: State): nat
  {
    var flusher := if s.flusher.Receiving? && s.processed == 0 then 7 else FlusherWork(s.flusher);
    var handler := match s.handler
      case Calling => 3
      case Sending(_) => 1
      case Closing(at) => if at.ReadFlag? then 2 else if at.CloseChannel? then 1 else 0
      case _ => 0;
    8 * flusher + 2 * handler + if s.cancelled then 0 else 1
  }

  lemma TowardsApproaches(s: State)
    requires SafeInv(s) && AtRisk(s) && !s.panicked
    ensures Enabled(s, Towards(s))
    ensures var s' := Next(s, Towards(s)); AtRisk(s') && (s'.panicked || Distance(s') < Distance(s))
  {
  }

  lemma Extend(run: seq<State>, steps: seq<Step>, step: Step) returns (run': seq<State>, steps': seq<Step>)
    requires IsRun(run, steps) && Enabled(run[|steps|], step)
    ensures IsRun(run', steps') && run < run' && run'[|steps'|] == Next(run[|steps|], step)
  {
    run', steps' := run + [Next(run[|steps|], step)], steps + [step];
    forall i: nat | i < |steps'| ensures Moves(run', steps', i) {
      if i < |steps| {
        assert Moves(run, steps, i);
      }
    }
  }

  lemma {:induction false} RiskCanPanic(run: seq<State>, steps: seq<Step>) returns (run': seq<State>, steps': seq<Step>)
    requires IsRun(run, steps) && AtRisk(run[|steps|])
    ensures IsRun(run', steps') && run <= run' && run'[|steps'|].panicked
    decreases !run[|steps|].panicked, Distance(run[|steps|])
  {
    run', steps' := run, steps;
    if !run[|steps|].panicked {
      RunKeepsInv(run, steps, |steps|);
      TowardsApproaches(run[|steps|]);
      hide Next;
      hide AtRisk;
      hide Towards;
      run', steps' := Extend(run, steps, Towards(run[|steps|]));
      run', steps' := RiskCanPanic(run', steps');
    }
  }

  lemma {:induction false} SafeNeverPanics(run: seq<State>, steps: seq<Step>, n: nat, m: nat)
    requires IsRun(run, steps) && n <= m < |run| && !AtRisk(run[n])
    ensures !AtRisk(run[m])
    decreases m - n
  {
    if n < m {
      SafeNeverPanics(run, steps, n, m - 1);
      RunKeepsInv(run, steps, m - 1);
      assert Moves(run, steps, m - 1);
      SafetyStays(run[m - 1], steps[m - 1]);
    }
  }

  /** Some continuation of the run ends in a panic. */
  ghost predicate CanPanic(run: seq<State>)
  {
    exists run': seq<State>, steps': seq<Step> :: IsRun(run', steps') && run <= run' && run'[|steps'|].panicked
  }

  /**
    Exactly when a request can still bring the process down, by closing the channel a second
    time or by sending on it closed: for every reachable state, some continuation panics if and
    only if the state is at risk.
  */
  lemma PanicsIff(run: seq<State>, steps: seq<Step>)
    requires IsRun(run, steps)
    ensures CanPanic(run) <==> AtRisk(run[|steps|])
  {
    if AtRisk(run[|steps|]) {
      var run', steps' := RiskCanPanic(run, steps);
    }
    if CanPanic(run) {
      var run': seq<State>, steps': seq<Step> :| IsRun(run', steps') && run <= run' && run'[|steps'|].panicked;
      if !AtRisk(run[|steps|]) {
        assert run'[|steps|] == run[|steps|];
        SafeNeverPanics(run', steps', |steps|, |steps'|);
      }
    }
  }

  /** A request can panic from the moment it starts, and no longer once Close has set its flag in time. */
  lemma FlagEndsTheRisk(run: seq<State>, steps: seq<Step>)
    requires IsRun(run, steps)
    ensures steps == [] ==> CanPanic(run)
    ensures run[|steps|].handler.Waiting? && !run[|steps|].panicked ==>
      (CanPanic(run) <==> run[|steps|].flusher == FlusherClosing(CloseChannel))
    ensures run[|steps|].handler.Returned? && !run[|steps|].panicked ==> !CanPanic(run)
  {
    PanicsIff(run, steps);
    RunKeepsInv(run, steps, |steps|);
  }

  /** A concrete one: one response is delivered, the request is cancelled, and the channel is closed twice. */
  lemma LateCancellationPanics(res: Response) returns (run: seq<State>, steps: seq<Step>)
    ensures IsRun(run, steps) && run[|steps|].panicked && run[|steps|].closes == 1
  {
    run, steps := OneBodyDelivered(res);
    run, steps := Extend(run, steps, Cancel);
    run, steps := Extend(run, steps, RecvCancelled);
    run, steps := Extend(run, steps, FlusherClose);
    run, steps := Extend(run, steps, CallReturns(false));
    run, steps := Extend(run, steps, HandlerClose);
    run, steps := Extend(run, steps, FlusherClose);
    run, steps := Extend(run, steps, HandlerClose);
  }

  lemma OneBodyDelivered(res: Response) returns (run: seq<State>, steps: seq<Step>)
    ensures IsRun(run, steps)
    ensures run[|steps|].(sent := [], output := [], processed := 0) == INITIAL && run[|steps|].processed == 1
  {
    run, steps := Extend([INITIAL], [], Send(res));
    run, steps := Extend(run, steps, Exchange);
    run, steps := Extend(run, steps, WriteHeader);
    run, steps := Extend(run, steps, WriteBody);
  }
}
