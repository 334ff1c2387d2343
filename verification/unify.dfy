/** ociunify/unify.go: one read sent to both registries, the first success wins.
    The two senders, the caller's select and the context are the processes of a
    transition system; a send on the unbuffered channel and its receive are one step. */
module Unify {
  import opened Bytes

  datatype Side = Left | Right

  function Other(i: Side): Side {
    if i == Left then Right else Left
  }

  datatype Result = Success(value: string) | Failure(error: string)

  /** Reading: f is running. Offering: at the select between c and done.
      Closing: took done and closed its result. */
  datatype Phase = Reading | Offering | Closing | Finished

  /** closes and cancels count the calls of result.close and of the sender's own
      cancel function, whoever makes them. */
  datatype Sender = Sender(phase: Phase, result: Option<Result>, received: bool, closes: nat, cancels: nat)

  datatype Return = FromSender(side: Side, result: Result) | ContextError

  /** First and Second: at the two selects. Failed: has to cancel the first
      sender received. Returning: before the deferred close of done. */
  datatype Caller =
    | First | Failed(side: Side) | Second(side: Side)
    | Returning(ret: Return) | Returned(ret: Return)

  datatype State = State(left: Sender, right: Sender, caller: Caller, done: bool, ctxDone: bool) {
    function Get(i: Side): Sender {
      if i == Left then left else right
    }

    function Set(i: Side, s: Sender): State {
      if i == Left then this.(left := s) else this.(right := s)
    }

    /** The caller of the read got this sender's cancel function. */
    predicate HandedOver(i: Side) {
      (caller.Returning? || caller.Returned?) && caller.ret.FromSender? && caller.ret.side == i
    }
  }

  const FRESH := Sender(Reading, None, false, 0, 0)
  const START := State(FRESH, FRESH, First, false, false)

  datatype Step =
    | ReadReturns(side: Side, result: Result)
    | Receive(side: Side)
    | CancelFailed
    | SeeContext
    | CloseDone
    | SenderCloses(side: Side)
    | SenderCancels(side: Side)
    | ContextEnds

  predicate Enabled(st: State, step: Step) {
    match step
    case ReadReturns(i, _) => st.Get(i).phase == Reading
    case Receive(i) => st.Get(i).phase == Offering && (st.caller.First? || st.caller.Second?)
    case CancelFailed => st.caller.Failed?
    case SeeContext => st.ctxDone && (st.caller.First? || st.caller.Second?)
    case CloseDone => st.caller.Returning?
    case SenderCloses(i) => st.Get(i).phase == Offering && st.done
    case SenderCancels(i) => st.Get(i).phase == Closing
    case ContextEnds => !st.ctxDone
  }

  function Apply(st: State, step: Step): State
    requires Enabled(st, step)
    requires step.Receive? ==> st.Get(step.side).result.Some?
  {
    match step
    case ReadReturns(i, r) => st.Set(i, st.Get(i).(phase := Offering, result := Some(r)))
    case Receive(i) =>
      var r := st.Get(i).result.value;
      var caller := if st.caller.First? && r.Failure? then Failed(i) else Returning(FromSender(i, r));
      st.Set(i, st.Get(i).(phase := Finished, received := true)).(caller := caller)
    case CancelFailed =>
      var i := st.caller.side;
      st.Set(i, st.Get(i).(cancels := st.Get(i).cancels + 1)).(caller := Second(i))
    case SeeContext => st.(caller := Returning(ContextError))
    case CloseDone => st.(caller := Returned(st.caller.ret), done := true)
    case SenderCloses(i) => st.Set(i, st.Get(i).(phase := Closing, closes := st.Get(i).closes + 1))
    case SenderCancels(i) => st.Set(i, st.Get(i).(phase := Finished, cancels := st.Get(i).cancels + 1))
    case ContextEnds => st.(ctxDone := true)
  }

  /** Where a sender's result and cancel function are. */
  predicate SenderInv(st: State, i: Side) {
    var s := st.Get(i);
    match s.phase
    case Reading => s == FRESH
    case Offering => s.result.Some? && !s.received && s.closes == 0 && s.cancels == 0
    case Closing => s.result.Some? && !s.received && s.closes == 1 && s.cancels == 0 && st.done
    case Finished =>
      s.result.Some? &&
      if s.received then
        s.closes == 0 && s.cancels == if st.HandedOver(i) || st.caller == Failed(i) then 0 else 1
      else s.closes == 1 && s.cancels == 1 && st.done
  }

  predicate ReceivedFailure(s: Sender) {
    s.received && s.result.Some? && s.result.value.Failure?
  }

  /** What the caller knows at each of its points. */
  predicate CallerInv(st: State) {
    && (st.done <==> st.caller.Returned?)
    && match st.caller
       case First => !st.left.received && !st.right.received
       case Failed(i) => ReceivedFailure(st.Get(i)) && !st.Get(Other(i)).received
       case Second(i) => ReceivedFailure(st.Get(i)) && !st.Get(Other(i)).received
       case Returning(ret) => ReturnInv(st, ret)
       case Returned(ret) => ReturnInv(st, ret)
  }

  /** A registry's failure is returned only when both failed, the context's error
      only when the context ended; no success was received and dropped. */
  predicate ReturnInv(st: State, ret: Return) {
    match ret
    case FromSender(i, r) =>
      var other := st.Get(Other(i));
      st.Get(i).received && st.Get(i).result == Some(r) &&
      (other.received ==> ReceivedFailure(other)) &&
      (r.Failure? ==> ReceivedFailure(other))
    case ContextError => st.ctxDone && forall i: Side :: st.Get(i).received ==> ReceivedFailure(st.Get(i))
  }

  predicate Inv(st: State) {
    SenderInv(st, Left) && SenderInv(st, Right) && CallerInv(st)
  }

  lemma ReceiveKeepsInv(st: State, i: Side)
    requires Inv(st) && Enabled(st, Receive(i))
    ensures Inv(Apply(st, Receive(i)))
  {
    assert SenderInv(st, i) && SenderInv(st, Other(i));
    var after := Apply(st, Receive(i));
    assert after.Get(Other(i)) == st.Get(Other(i)) && after.Get(i).received;
    assert SenderInv(after, i);
    assert SenderInv(after, Other(i));
  }

  lemma StepKeepsInv(st: State, step: Step)
    requires Inv(st) && Enabled(st, step)
    ensures Inv(Apply(st, step))
  {
    if step.Receive? {
      ReceiveKeepsInv(st, step.side);
    }
  }

  // Runs.

  function SenderWork(s: Sender): nat {
    match s.phase
    case Reading => 3
    case Offering => 2
    case Closing => 1
    case Finished => 0
  }

  function CallerWork(c: Caller): nat {
    match c
    case First => 4
    case Failed(_) => 3
    case Second(_) => 2
    case Returning(_) => 1
    case Returned(_) => 0
  }

  function Work(st: State): nat {
    SenderWork(st.left) + SenderWork(st.right) + CallerWork(st.caller) + if st.ctxDone then 0 else 1
  }

  lemma StepDecreasesWork(st: State, step: Step)
    requires Inv(st) && Enabled(st, step)
    ensures Work(Apply(st, step)) < Work(st)
  {
  }

  predicate Run(st: State, steps: seq<Step>, end: State)
    requires Inv(st)
    decreases |steps|
  {
    if steps == [] then end == st
    else
      Enabled(st, steps[0]) &&
      (StepKeepsInv(st, steps[0]);
       Run(Apply(st, steps[0]), steps[1..], end))
  }

  lemma {:induction false} RunKeepsInv(st: State, steps: seq<Step>, end: State)
    requires Inv(st) && Run(st, steps, end)
    ensures Inv(end) && |steps| + Work(end) <= Work(st)
    decreases |steps|
  {
    if steps != [] {
      StepKeepsInv(st, steps[0]);
      StepDecreasesWork(st, steps[0]);
      RunKeepsInv(Apply(st, steps[0]), steps[1..], end);
    }
  }

  /** No run goes on for ever, whatever the registries, the context and the
      scheduler do. */
  lemma RunsAreBounded(steps: seq<Step>, end: State)
    requires Run(START, steps, end)
    ensures |steps| <= 11
  {
    RunKeepsInv(START, steps, end);
  }

  /** Nothing but the end of the context can happen any more. */
  ghost predicate Stuck(st: State) {
    forall step :: Enabled(st, step) ==> step.ContextEnds?
  }

  /** A run that can go no further has returned, and no sender is left blocked. */
  lemma StuckMeansFinished(st: State)
    requires Inv(st) && Stuck(st)
    ensures st.caller.Returned? && st.left.phase == Finished && st.right.phase == Finished
  {
    assert !Enabled(st, ReadReturns(Left, Failure(""))) && !Enabled(st, ReadReturns(Right, Failure("")));
    assert !Enabled(st, Receive(Left)) && !Enabled(st, Receive(Right));
    assert !Enabled(st, CancelFailed) && !Enabled(st, CloseDone);
    assert !Enabled(st, SenderCloses(Left)) && !Enabled(st, SenderCloses(Right));
    assert !Enabled(st, SenderCancels(Left)) && !Enabled(st, SenderCancels(Right));
  }

  /** What the read returned, at any moment after it has: this registry's own
      result; a failure only if both registries failed; the context's error only
      if the context ended. So without cancellation it is a success as soon as
      either registry succeeded. */
  lemma SuccessWins(steps: seq<Step>, end: State)
    requires Run(START, steps, end) && end.caller.Returned?
    ensures match end.caller.ret
            case FromSender(i, r) =>
              end.Get(i).result == Some(r) &&
              (r.Failure? ==> end.Get(Other(i)).result.Some? && end.Get(Other(i)).result.value.Failure?)
            case ContextError => end.ctxDone
  {
    RunKeepsInv(START, steps, end);
  }

  /** When everything has come to rest, every successful result was returned or
      closed, exactly one of them and once; and every sender's cancel function
      was called once or handed to the caller, exactly one of them. */
  lemma NothingIsLost(steps: seq<Step>, end: State, i: Side)
    requires Run(START, steps, end) && Stuck(end)
    ensures end.Get(i).result.Some?
    ensures end.Get(i).result.value.Success? ==> end.Get(i).closes == if end.HandedOver(i) then 0 else 1
    ensures end.Get(i).cancels == if end.HandedOver(i) then 0 else 1
    ensures end.HandedOver(i) ==> end.caller.ret.result == end.Get(i).result.value
  {
    RunKeepsInv(START, steps, end);
    StuckMeansFinished(end);
    assert SenderInv(end, i);
  }
}
