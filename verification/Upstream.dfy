/**
  Forwarding a query to several servers (`resolveSerialWithContext`, `resolveWithContext`).  The parallel form is
  a transition system: one goroutine a server, the collecting loop, a response channel of capacity one, an
  error channel with room for every server, two contexts and the wait group.  Every step is one action, and a
  run is any sequence of enabled actions, so the theorems hold for every schedule.
 */
module Upstream {
  import opened Wrappers
  import opened Pigeonhole
  import opened Domain

  datatype QueryError = Cancelled | Failed(code: nat)

  /** What a server's query comes to when nobody cancels it. */
  datatype Reply = Success(answers: seq<Record>) | Failure(error: QueryError)

  datatype ServerError = ServerError(server: nat, error: QueryError)

  // ---------- One after the other ----------

  datatype SerialResult = Answer(answers: seq<Record>) | AllServersFailed(count: nat, last: Option<QueryError>)

  /** The first success, or else the number of servers and the last error. */
  predicate SerialSpec(replies: seq<Reply>, r: SerialResult) {
    match r
    case Answer(answers) =>
      exists i :: 0 <= i < |replies| && replies[i] == Success(answers) && forall j | 0 <= j < i :: replies[j].Failure?
    case AllServersFailed(count, last) =>
      && (forall i | 0 <= i < |replies| :: replies[i].Failure?)
      && count == |replies| && last == if replies == [] then None else Some(replies[|replies| - 1].error)
  }

  method ResolveSerial(replies: seq<Reply>) returns (r: SerialResult)
    ensures SerialSpec(replies, r)
  {
    var lastErr: Option<QueryError> := None;
    for i := 0 to |replies|
      invariant forall j | 0 <= j < i :: replies[j].Failure?
      invariant lastErr == if i == 0 then None else Some(replies[i - 1].error)
    {
      var reply := replies[i];
      if reply.Success? {
        return Answer(reply.answers);
      }
      lastErr := Some(reply.error);
    }
    r := AllServersFailed(|replies|, lastErr);
  }

  // ---------- All at once: the transition system ----------

  /** A goroutine: not started, querying, holding the outcome it will send, past its send, gone. */
  datatype Worker = Unborn | Querying | Holding(reply: Reply) | Leaving | Gone

  datatype Verdict = Answered(answers: seq<Record>) | TimedOut | AllFailed(errors: seq<ServerError>)

  /** The caller: starting goroutines, collecting, about to cancel with an answer or a timeout, waiting, back. */
  datatype Main =
    | Launching(next: nat)
    | Collecting(seen: nat)
    | Answering(answers: seq<Record>)
    | Cancelling
    | Waiting
    | Returned(result: Verdict)

  datatype State = State(
    workers: seq<Worker>,
    main: Main,
    response: Option<seq<Record>>,
    errors: seq<ServerError>,
    collected: seq<ServerError>,
    ctxDone: bool,
    childDone: bool)

  datatype Action =
    | Expire | Propagate
    | Launch | StartCollecting
    | QueryReturns(i: nat) | QueryCancelled(i: nat)
    | SendResponse(i: nat) | DropResponse(i: nat)
    | SendError(i: nat) | DropErrorCancelled(i: nat) | DropErrorFull(i: nat)
    | Leave(i: nat)
    | TakeResponse | TakeError | TakeDone | ReturnAnswer | Cancel | WaitOver | Conclude

  function Init(replies: seq<Reply>): State {
    State(seq(|replies|, _ => Unborn), Launching(0), None, [], [], false, false)
  }

  predicate Holds(s: State, i: nat) {
    i < |s.workers| && s.workers[i].Holding?
  }

  predicate HoldsError(s: State, i: nat) {
    Holds(s, i) && s.workers[i].reply.Failure?
  }

  predicate HoldsResponse(s: State, i: nat) {
    Holds(s, i) && s.workers[i].reply.Success?
  }

  predicate AllGone(s: State) {
    forall i | 0 <= i < |s.workers| :: s.workers[i].Gone?
  }

  predicate StillCollecting(s: State, n: nat) {
    s.main.Collecting? && s.main.seen < n
  }

  /**
    A `select` takes any case that is ready, and its default only when none is: an error is dropped for want of
    room only if the channel is full and the child context is not done.
   */
  predicate Enabled(replies: seq<Reply>, s: State, a: Action) {
    var n := |replies|;
    |s.workers| == n &&
    match a
    case Expire => !s.ctxDone
    case Propagate => s.ctxDone && !s.childDone
    case Launch => s.main.Launching? && s.main.next < n
    case StartCollecting => s.main == Launching(n)
    case QueryReturns(i) => i < n && s.workers[i].Querying?
    case QueryCancelled(i) => i < n && s.workers[i].Querying? && s.childDone
    case SendResponse(i) => HoldsResponse(s, i) && s.response.None?
    case DropResponse(i) => HoldsResponse(s, i) && s.response.Some?
    case SendError(i) => HoldsError(s, i) && |s.errors| < n
    case DropErrorCancelled(i) => HoldsError(s, i) && s.childDone
    case DropErrorFull(i) => HoldsError(s, i) && |s.errors| >= n && !s.childDone
    case Leave(i) => i < n && s.workers[i].Leaving?
    case TakeResponse => StillCollecting(s, n) && s.response.Some?
    case TakeError => StillCollecting(s, n) && s.errors != []
    case TakeDone => StillCollecting(s, n) && s.ctxDone
    case ReturnAnswer => s.main.Answering?
    case Cancel => s.main.Cancelling?
    case WaitOver => s.main.Waiting? && AllGone(s)
    case Conclude => s.main == Collecting(n)
  }

  function Effect(replies: seq<Reply>, s: State, a: Action): State
    requires Enabled(replies, s, a)
  {
    match a
    case Expire => s.(ctxDone := true)
    case Propagate => s.(childDone := true)
    case Launch => s.(workers := s.workers[s.main.next := Querying], main := Launching(s.main.next + 1))
    case StartCollecting => s.(main := Collecting(0))
    case QueryReturns(i) => s.(workers := s.workers[i := Holding(replies[i])])
    case QueryCancelled(i) => s.(workers := s.workers[i := Holding(Failure(Cancelled))])
    case SendResponse(i) => s.(response := Some(s.workers[i].reply.answers), workers := s.workers[i := Leaving])
    case DropResponse(i) => s.(workers := s.workers[i := Leaving])
    case SendError(i) =>
      s.(errors := s.errors + [ServerError(i, s.workers[i].reply.error)], workers := s.workers[i := Leaving])
    case DropErrorCancelled(i) => s.(workers := s.workers[i := Leaving])
    case DropErrorFull(i) => s.(workers := s.workers[i := Leaving])
    case Leave(i) => s.(workers := s.workers[i := Gone])
    case TakeResponse => s.(response := None, main := Answering(s.response.value))
    case TakeError =>
      s.(errors := s.errors[1..], collected := s.collected + [s.errors[0]], main := Collecting(s.main.seen + 1))
    case TakeDone => s.(main := Cancelling)
    case ReturnAnswer => s.(childDone := true, main := Returned(Answered(s.main.answers)))
    case Cancel => s.(childDone := true, main := Waiting)
    case WaitOver => s.(main := Returned(TimedOut))
    case Conclude =>
      if s.ctxDone then s.(main := Cancelling)
      else s.(childDone := true, main := Returned(AllFailed(s.collected)))
  }

  /** The run of these actions from the start, if each is enabled in its turn. */
  predicate IsRun(replies: seq<Reply>, run: seq<Action>)
    decreases |run|, 0
  {
    run == [] ||
    (IsRun(replies, run[..|run| - 1]) && Enabled(replies, After(replies, run[..|run| - 1]), run[|run| - 1]))
  }

  function After(replies: seq<Reply>, run: seq<Action>): State
    requires IsRun(replies, run)
    decreases |run|, 1
  {
    if run == [] then Init(replies)
    else Effect(replies, After(replies, run[..|run| - 1]), run[|run| - 1])
  }

  // ---------- The invariant ----------

  predicate Past(w: Worker) {
    w.Leaving? || w.Gone?
  }

  /** Errors in flight and collected. */
  function AllErrors(s: State): seq<ServerError> {
    s.collected + s.errors
  }

  predicate OnePerServer(errors: seq<ServerError>) {
    forall i, j | 0 <= i < j < |errors| :: errors[i].server != errors[j].server
  }

  predicate Genuine(replies: seq<Reply>, e: ServerError) {
    e.server < |replies| && replies[e.server] == Failure(e.error)
  }

  predicate Succeeds(replies: seq<Reply>, answers: seq<Record>) {
    exists i :: 0 <= i < |replies| && replies[i] == Success(answers)
  }

  predicate Working(m: Main) {
    m.Launching? || m.Collecting?
  }

  /** Who has been started, and what each holds. */
  predicate WorkersOk(replies: seq<Reply>, s: State) {
    && |s.workers| == |replies|
    && (s.main.Launching? ==> s.main.next <= |replies|)
    && (forall i | 0 <= i < |replies| :: s.workers[i].Unborn? <==> s.main.Launching? && s.main.next <= i)
    && (forall i | 0 <= i < |replies| :: s.workers[i].Holding? ==>
          s.workers[i].reply == replies[i] || (s.childDone && s.workers[i].reply == Failure(Cancelled)))
  }

  /** No server reports twice; reports are genuine or cancellations; before cancellation none is missing. */
  predicate ErrorsOk(replies: seq<Reply>, s: State) {
    var all := AllErrors(s);
    && OnePerServer(all)
    && (forall k | 0 <= k < |all| ::
          && all[k].server < |replies| && all[k].server < |s.workers| && Past(s.workers[all[k].server])
          && (Genuine(replies, all[k]) || s.childDone))
    && (!s.childDone ==> forall i | 0 <= i < |replies| && i < |s.workers| ::
          Past(s.workers[i]) && replies[i].Failure? ==> ServerError(i, replies[i].error) in all)
  }

  /** The response channel holds a server's answers, and before cancellation a success is waiting there. */
  predicate ResponseOk(replies: seq<Reply>, s: State) {
    && (s.response.Some? ==> Succeeds(replies, s.response.value))
    && (s.main.Answering? ==> Succeeds(replies, s.main.answers))
    && (!s.childDone && Working(s.main) ==> forall i | 0 <= i < |replies| && i < |s.workers| ::
          Past(s.workers[i]) && replies[i].Success? ==> s.response.Some?)
  }

  predicate MainOk(replies: seq<Reply>, s: State) {
    && (s.main.Collecting? ==> s.main.seen == |s.collected| <= |replies|)
    && (s.main.Launching? ==> s.collected == [])
    && (s.childDone && (Working(s.main) || s.main.Cancelling?) ==> s.ctxDone)
    && (s.main.Cancelling? || s.main.Waiting? ==> s.ctxDone)
    && (s.main.Waiting? || s.main.Returned? ==> s.childDone)
  }

  /** What a result means, for every way it can come about. */
  predicate ResultOk(replies: seq<Reply>, s: State) {
    s.main.Returned? ==>
      match s.main.result
      case Answered(answers) => Succeeds(replies, answers)
      case TimedOut => s.ctxDone && AllGone(s)
      case AllFailed(errors) =>
        && |errors| == |replies| && OnePerServer(errors)
        && forall k | 0 <= k < |errors| :: Genuine(replies, errors[k])
  }

  predicate Inv(replies: seq<Reply>, s: State) {
    && WorkersOk(replies, s) && ErrorsOk(replies, s) && ResponseOk(replies, s)
    && MainOk(replies, s) && ResultOk(replies, s)
  }

  lemma InitInv(replies: seq<Reply>)
    ensures Inv(replies, Init(replies))
  {
  }

  lemma StepWorkers(replies: seq<Reply>, s: State, a: Action)
    requires Inv(replies, s) && Enabled(replies, s, a)
    ensures WorkersOk(replies, Effect(replies, s, a))
  {
  }

  /** The error channel always has room: errors sent, collected or not, are fewer than the servers. */
  lemma RoomForError(replies: seq<Reply>, s: State, i: nat)
    requires WorkersOk(replies, s) && ErrorsOk(replies, s) && HoldsError(s, i)
    ensures |s.errors| + |s.collected| < |replies|
  {
    var all := AllErrors(s);
    var servers: seq<nat> := seq(|all|, k requires 0 <= k < |all| => all[k].server) + [i];
    assert forall k | 0 <= k < |all| :: servers[k] == all[k].server;
    DistinctBelow(servers, |replies|);
  }

  lemma StepErrors(replies: seq<Reply>, s: State, a: Action)
    requires Inv(replies, s) && Enabled(replies, s, a)
    ensures ErrorsOk(replies, Effect(replies, s, a))
  {
    var s' := Effect(replies, s, a);
    hide Effect, ErrorsOk, AllErrors;
    if a.SendError? {
      ErrorSent(replies, s, a.i);
    } else if a.DropErrorFull? {
      RoomForError(replies, s, a.i);
      assert false;
    } else {
      EffectOnErrors(replies, s, a);
      ErrorsStay(replies, s, s');
    }
  }

  /** No other step touches the errors or takes a failing goroutine past its send, unless all was cancelled. */
  lemma EffectOnErrors(replies: seq<Reply>, s: State, a: Action)
    requires WorkersOk(replies, s) && Enabled(replies, s, a) && !a.SendError? && !a.DropErrorFull?
    ensures var s' := Effect(replies, s, a);
            && AllErrors(s') == AllErrors(s) && |s'.workers| == |s.workers|
            && (s.childDone ==> s'.childDone)
            && forall i | 0 <= i < |s.workers| ::
                 && (Past(s.workers[i]) ==> Past(s'.workers[i]))
                 && (!s'.childDone && Past(s'.workers[i]) && replies[i].Failure? ==> Past(s.workers[i]))
  {
  }

  lemma ErrorsStay(replies: seq<Reply>, s: State, s': State)
    requires ErrorsOk(replies, s) && |s.workers| == |replies|
    requires AllErrors(s') == AllErrors(s) && |s'.workers| == |s.workers| && (s.childDone ==> s'.childDone)
    requires forall i | 0 <= i < |s.workers| ::
               && (Past(s.workers[i]) ==> Past(s'.workers[i]))
               && (!s'.childDone && Past(s'.workers[i]) && replies[i].Failure? ==> Past(s.workers[i]))
    ensures ErrorsOk(replies, s')
  {
    hide Past, AllErrors, Genuine;
  }

  lemma ErrorSent(replies: seq<Reply>, s: State, i: nat)
    requires WorkersOk(replies, s) && ErrorsOk(replies, s) && Enabled(replies, s, SendError(i))
    ensures ErrorsOk(replies, Effect(replies, s, SendError(i)))
  {
    var s' := Effect(replies, s, SendError(i));
    var e := ServerError(i, s.workers[i].reply.error);
    assert AllErrors(s') == AllErrors(s) + [e];
    assert forall k | 0 <= k < |AllErrors(s)| :: AllErrors(s')[k] == AllErrors(s)[k];
    assert AllErrors(s')[|AllErrors(s)|] == e;
  }

  lemma StepResponse(replies: seq<Reply>, s: State, a: Action)
    requires Inv(replies, s) && Enabled(replies, s, a)
    ensures ResponseOk(replies, Effect(replies, s, a))
  {
  }

  lemma StepMain(replies: seq<Reply>, s: State, a: Action)
    requires Inv(replies, s) && Enabled(replies, s, a)
    ensures MainOk(replies, Effect(replies, s, a)) && ResultOk(replies, Effect(replies, s, a))
  {
    if a.Conclude? {
      assert forall k | 0 <= k < |s.collected| :: AllErrors(s)[k] == s.collected[k];
    }
  }

  lemma StepInv(replies: seq<Reply>, s: State, a: Action)
    requires Inv(replies, s) && Enabled(replies, s, a)
    ensures Inv(replies, Effect(replies, s, a))
  {
    StepWorkers(replies, s, a);
    StepErrors(replies, s, a);
    StepResponse(replies, s, a);
    StepMain(replies, s, a);
  }

  lemma {:induction false} RunInv(replies: seq<Reply>, run: seq<Action>)
    requires IsRun(replies, run)
    ensures Inv(replies, After(replies, run))
    decreases |run|
  {
    if run == [] {
      InitInv(replies);
    } else {
      RunInv(replies, run[..|run| - 1]);
      StepInv(replies, After(replies, run[..|run| - 1]), run[|run| - 1]);
    }
  }

  // ---------- Safety ----------

  /** Every server failed, and its own error is in the report, once. */
  predicate FullReport(replies: seq<Reply>, errors: seq<ServerError>) {
    && |errors| == |replies|
    && forall i | 0 <= i < |replies| :: replies[i].Failure? && ServerError(i, replies[i].error) in errors
  }

  /**
    Whatever the schedule, an answer is some server's own, a timeout is reported only after the context is done
    and with no goroutine left, and "all failed" only when all failed.
   */
  lemma ResultIsTrue(replies: seq<Reply>, run: seq<Action>)
    requires IsRun(replies, run) && After(replies, run).main.Returned?
    ensures var s := After(replies, run);
            match s.main.result
            case Answered(answers) => Succeeds(replies, answers)
            case TimedOut => s.ctxDone && AllGone(s)
            case AllFailed(errors) => FullReport(replies, errors)
  {
    RunInv(replies, run);
    var result := After(replies, run).main.result;
    if result.AllFailed? {
      ReportIsFull(replies, result.errors);
    }
  }

  lemma ReportIsFull(replies: seq<Reply>, errors: seq<ServerError>)
    requires |errors| == |replies| && OnePerServer(errors)
    requires forall k | 0 <= k < |errors| :: Genuine(replies, errors[k])
    ensures FullReport(replies, errors)
  {
    var servers: seq<nat> := seq(|errors|, k requires 0 <= k < |errors| => errors[k].server);
    DistinctBelow(servers, |replies|);
    forall i | 0 <= i < |replies| ensures replies[i].Failure? && ServerError(i, replies[i].error) in errors {
      assert i in servers;
      var k :| 0 <= k < |servers| && servers[k] == i;
      assert Genuine(replies, errors[k]) && errors[k] == ServerError(i, replies[i].error);
    }
  }

  predicate NeverExpires(run: seq<Action>) {
    forall k | 0 <= k < |run| :: !run[k].Expire?
  }

  lemma {:induction false} NoExpiryNoDeadline(replies: seq<Reply>, run: seq<Action>)
    requires IsRun(replies, run) && NeverExpires(run)
    ensures !After(replies, run).ctxDone
    decreases |run|
  {
    if run != [] {
      NoExpiryNoDeadline(replies, run[..|run| - 1]);
    }
  }

  /** While the context lives, the parallel form fails exactly when the serial form does. */
  lemma ParallelFailsWhenSerialFails(replies: seq<Reply>, run: seq<Action>, serial: SerialResult)
    requires IsRun(replies, run) && NeverExpires(run) && After(replies, run).main.Returned?
    requires SerialSpec(replies, serial)
    ensures var result := After(replies, run).main.result;
            && (result.AllFailed? <==> serial.AllServersFailed?)
            && (result.Answered? <==> serial.Answer?)
  {
    NoExpiryNoDeadline(replies, run);
    ResultIsTrue(replies, run);
  }

  /** After this much of the run every error was collected and the context had not expired. */
  predicate ConcludesAt(replies: seq<Reply>, run: seq<Action>, k: nat, errors: seq<ServerError>)
    requires IsRun(replies, run)
  {
    && k < |run| && IsRun(replies, run[..k])
    && !After(replies, run[..k]).ctxDone
    && After(replies, run[..k]).main == Collecting(|replies|) && After(replies, run[..k]).collected == errors
  }

  /** "All failed" is reported only if all had failed before the context expired: a failure that late is a timeout. */
  lemma {:induction false} FailureIsInTime(replies: seq<Reply>, run: seq<Action>) returns (k: nat)
    requires IsRun(replies, run)
    requires After(replies, run).main.Returned? && After(replies, run).main.result.AllFailed?
    ensures ConcludesAt(replies, run, k, After(replies, run).main.result.errors)
    decreases |run|
  {
    var before := run[..|run| - 1];
    if run[|run| - 1].Conclude? {
      k := |run| - 1;
    } else {
      k := FailureIsInTime(replies, before);
      assert before[..k] == run[..k];
    }
  }

  // ---------- Progress ----------

  /** No goroutine ever waits to send, not even when the caller is gone; no error is dropped for want of room. */
  lemma SendsNeverBlock(replies: seq<Reply>, run: seq<Action>, i: nat)
    requires IsRun(replies, run) && Holds(After(replies, run), i)
    ensures var s := After(replies, run);
            && (HoldsError(s, i) ==> Enabled(replies, s, SendError(i)))
            && (HoldsResponse(s, i) ==> Enabled(replies, s, SendResponse(i)) || Enabled(replies, s, DropResponse(i)))
            && !Enabled(replies, s, DropErrorFull(i))
  {
    RunInv(replies, run);
    if HoldsError(After(replies, run), i) {
      RoomForError(replies, After(replies, run), i);
    }
  }

  predicate Finished(s: State) {
    s.main.Returned? && AllGone(s)
  }

  /** A step of the program, not of its surroundings. */
  predicate OfProgram(a: Action) {
    !a.Expire? && !a.Propagate?
  }

  /** Waiting for messages is never in vain: with nothing in the channels, not all goroutines can be gone. */
  lemma SomethingToCollect(replies: seq<Reply>, s: State)
    requires Inv(replies, s) && StillCollecting(s, |replies|) && !s.ctxDone && AllGone(s)
    ensures s.response.Some? || s.errors != []
  {
    if s.response.None? && s.errors == [] {
      assert AllErrors(s) == s.collected;
      forall i | 0 <= i < |replies| ensures replies[i].Failure? && ServerError(i, replies[i].error) in s.collected {
        assert Past(s.workers[i]);
      }
      var all := seq(|replies|, i requires 0 <= i < |replies| => ServerError(i, replies[i].error));
      CoverIsLonger(all, s.collected);
      assert false;
    }
  }

  lemma WorkerCanStep(replies: seq<Reply>, s: State, i: nat) returns (a: Action)
    requires WorkersOk(replies, s) && i < |replies| && !s.workers[i].Unborn? && !s.workers[i].Gone?
    requires HoldsError(s, i) ==> |s.errors| < |replies|
    ensures Enabled(replies, s, a) && OfProgram(a)
  {
    match s.workers[i]
    case Querying => a := QueryReturns(i);
    case Holding(Failure(_)) => a := SendError(i);
    case Holding(Success(_)) => a := if s.response.None? then SendResponse(i) else DropResponse(i);
    case Leaving => a := Leave(i);
  }

  /** No reachable state is stuck: until the caller is back and every goroutine gone, the program can step. */
  lemma NeverStuck(replies: seq<Reply>, s: State) returns (a: Action)
    requires Inv(replies, s) && !Finished(s)
    ensures Enabled(replies, s, a) && OfProgram(a)
  {
    var n := |replies|;
    if i :| 0 <= i < n && !s.workers[i].Unborn? && !s.workers[i].Gone? {
      if HoldsError(s, i) {
        RoomForError(replies, s, i);
      }
      a := WorkerCanStep(replies, s, i);
      return;
    }
    match s.main
    case Launching(next) => a := if next < n then Launch else StartCollecting;
    case Collecting(seen) =>
      if seen == n {
        a := Conclude;
      } else if s.ctxDone {
        a := TakeDone;
      } else {
        SomethingToCollect(replies, s);
        a := if s.response.Some? then TakeResponse else TakeError;
      }
    case Answering(_) => a := ReturnAnswer;
    case Cancelling => a := Cancel;
    case Waiting => a := WaitOver;
  }

  function Rank(w: Worker): nat {
    match w case Unborn => 4 case Querying => 3 case Holding(_) => 2 case Leaving => 1 case Gone => 0
  }

  function Ranks(ws: seq<Worker>): nat {
    if ws == [] then 0 else Rank(ws[0]) + Ranks(ws[1..])
  }

  function MainRank(n: nat, m: Main): int {
    match m
    case Launching(next) => 2 * n - next + 6
    case Collecting(seen) => n - seen + 5
    case Cancelling => 3
    case Waiting => 2
    case Answering(_) => 1
    case Returned(_) => 0
  }

  /** The steps left, at most. */
  function StepsLeft(replies: seq<Reply>, s: State): int {
    Ranks(s.workers) + MainRank(|replies|, s.main) + (if s.ctxDone then 0 else 1) + (if s.childDone then 0 else 1)
  }

  lemma {:induction false} RanksUpdate(ws: seq<Worker>, i: nat, w: Worker)
    requires i < |ws|
    ensures Ranks(ws[i := w]) == Ranks(ws) - Rank(ws[i]) + Rank(w)
    decreases |ws|
  {
    if i == 0 {
      assert ws[i := w][1..] == ws[1..];
    } else {
      assert ws[i := w][1..] == ws[1..][i - 1 := w];
      RanksUpdate(ws[1..], i - 1, w);
    }
  }

  lemma StepDecreases(replies: seq<Reply>, s: State, a: Action)
    requires Inv(replies, s) && Enabled(replies, s, a)
    ensures 0 <= StepsLeft(replies, Effect(replies, s, a)) < StepsLeft(replies, s)
  {
    hide Ranks, ResponseOk, ErrorsOk, ResultOk;
    var s' := Effect(replies, s, a);
    StepMain(replies, s, a);
    StepWorkers(replies, s, a);
    match a
    case Launch => RanksUpdate(s.workers, s.main.next, Querying);
    case QueryReturns(i) => RanksUpdate(s.workers, i, s'.workers[i]);
    case QueryCancelled(i) => RanksUpdate(s.workers, i, s'.workers[i]);
    case SendResponse(i) => RanksUpdate(s.workers, i, Leaving);
    case DropResponse(i) => RanksUpdate(s.workers, i, Leaving);
    case SendError(i) => RanksUpdate(s.workers, i, Leaving);
    case DropErrorCancelled(i) => RanksUpdate(s.workers, i, Leaving);
    case DropErrorFull(i) => RanksUpdate(s.workers, i, Leaving);
    case Leave(i) => RanksUpdate(s.workers, i, Gone);
    case _ =>
  }

  lemma {:induction false} RanksOfUnborn(n: nat)
    ensures Ranks(seq(n, _ => Unborn)) == 4 * n
  {
    if n > 0 {
      assert seq(n, _ => Unborn)[1..] == seq(n - 1, _ => Unborn);
      RanksOfUnborn(n - 1);
    }
  }

  /** Every run is short: at most six steps a server and eight more. */
  lemma {:induction false} RunsAreBounded(replies: seq<Reply>, run: seq<Action>)
    requires IsRun(replies, run)
    ensures 0 <= StepsLeft(replies, After(replies, run))
    ensures |run| + StepsLeft(replies, After(replies, run)) <= 6 * |replies| + 8
    decreases |run|
  {
    if run == [] {
      RanksOfUnborn(|replies|);
    } else {
      var before := run[..|run| - 1];
      RunsAreBounded(replies, before);
      RunInv(replies, before);
      StepDecreases(replies, After(replies, before), run[|run| - 1]);
    }
  }

  /**
    A run the program cannot extend has ended well: the caller is back and every goroutine gone.  Without expiry
    the caller has the answers of some server if there is one that succeeds, and every error otherwise.
   */
  lemma MaximalRunsReturn(replies: seq<Reply>, run: seq<Action>)
    requires IsRun(replies, run)
    requires forall a | OfProgram(a) :: !Enabled(replies, After(replies, run), a)
    ensures Finished(After(replies, run))
    ensures NeverExpires(run) ==>
              var result := After(replies, run).main.result;
              if exists i :: 0 <= i < |replies| && replies[i].Success?
              then result.Answered? && Succeeds(replies, result.answers)
              else result.AllFailed? && FullReport(replies, result.errors)
  {
    RunInv(replies, run);
    if !Finished(After(replies, run)) {
      var a := NeverStuck(replies, After(replies, run));
      assert false;
    }
    ResultIsTrue(replies, run);
    if NeverExpires(run) {
      NoExpiryNoDeadline(replies, run);
    }
  }
}
