/** The protocol between a monitor and an application over a pair of FIFO channels:
    the support thread, the thread that calls `terminate()` and the monitor, in every
    interleaving, once the monitor has set out to wait for the start. */
module Monitoring {
  datatype Message = Start | SampleReq | SampleRes | Stop(totalTasks: nat) | StopAck

  /** `Working` is the consolidation, which lasts until every thread has stored its sample;
      the answer is sent only if `_supportStop` was clear when looked at, which is a step
      of its own. */
  datatype Support = Loop | Receiving | Working | Deciding | Answering | Ended

  datatype Terminator = Running | Joining | AwaitingAck | Returned

  /** `Unexpected` is the exception of `getSample()`, `Broken` a failed assertion. */
  datatype Monitor = WaitingStart | Free | Asked | Finished | Unexpected

  /** `threads` is the number of worker threads; those in `waiting` have been asked for
      their sample and have not stored it. `asked` and the `got` counters are the calls of
      the monitor and what they received, `served` the requests that the support thread
      received; `acked` is what `terminate()` has taken for the acknowledgement. */
  datatype State = State(
    threads: nat, waiting: set<nat>,
    support: Support, terminator: Terminator, monitor: Monitor,
    started: bool, stop: bool, broken: bool, totalTasks: nat,
    toApp: seq<Message>, toMonitor: seq<Message>,
    asked: nat, served: nat, gotSamples: nat, gotStops: nat, knownTasks: nat, acked: seq<Message>)

  /** With `Stores` a worker stores its sample and clears its flag. */
  datatype Step =
    | BeginStarts | SupportStep | Stores(i: nat) | Terminates(totalTasks: nat) | TerminatorStep | GetSample
    | MonitorReceives

  function All(n: nat): (r: set<nat>)
    ensures forall i: nat :: i in r <==> i < n
    ensures |r| == n
  {
    if n == 0 then {} else All(n - 1) + {n - 1}
  }

  function Init(n: nat): State {
    State(n, {}, Loop, Running, WaitingStart, false, false, false, 0, [], [], 0, 0, 0, 0, 0, [])
  }

  function SupportNext(s: State): State {
    match s.support
    case Loop => s.(support := if s.stop then Ended else Receiving)
    case Receiving =>
      if s.toApp == [] then s
      else
        s.(support := Working, waiting := All(s.threads), toApp := s.toApp[1..], served := s.served + 1,
           broken := s.broken || s.toApp[0] != SampleReq)
    case Working => if s.waiting == {} || s.stop then s.(support := Deciding) else s
    case Deciding => s.(support := if s.stop then Loop else Answering)
    case Answering => s.(support := Loop, toMonitor := s.toMonitor + [SampleRes])
    case Ended => s
  }

  function TerminatorNext(s: State): State {
    match s.terminator
    case Running => s
    case Joining =>
      if s.support.Ended? then s.(terminator := AwaitingAck, toMonitor := s.toMonitor + [Stop(s.totalTasks)]) else s
    case AwaitingAck =>
      if s.toApp == [] then s
      else s.(terminator := Returned, toApp := s.toApp[1..], acked := [s.toApp[0]])
    case Returned => s
  }

  function MonitorNext(s: State): State {
    if s.toMonitor == [] then s
    else
      var m := s.toMonitor[0];
      var r := s.(toMonitor := s.toMonitor[1..]);
      if s.monitor.WaitingStart? then r.(monitor := Free, broken := s.broken || m != Start)
      else if !s.monitor.Asked? then s
      else
        match m
        case SampleRes => r.(monitor := Free, gotSamples := s.gotSamples + 1)
        case Stop(total) =>
          r.(monitor := Finished, gotStops := s.gotStops + 1, knownTasks := total, toApp := s.toApp + [StopAck])
        case _ => r.(monitor := Unexpected)
  }

  predicate Enabled(s: State, step: Step) {
    match step
    case BeginStarts => !s.started
    case SupportStep => true
    case Stores(i) => s.support.Working? && i in s.waiting && !s.stop
    case Terminates(_) => s.started && s.terminator.Running?
    case TerminatorStep => true
    case GetSample => s.monitor.Free?
    case MonitorReceives => true
  }

  function Next(s: State, step: Step): State
    requires Enabled(s, step)
  {
    match step
    case BeginStarts => s.(started := true, toMonitor := s.toMonitor + [Start])
    case SupportStep => SupportNext(s)
    case Stores(i) => s.(waiting := s.waiting - {i})
    case Terminates(total) => s.(terminator := Joining, stop := true, totalTasks := total)
    case TerminatorStep => TerminatorNext(s)
    case GetSample => s.(monitor := Asked, toApp := s.toApp + [SampleReq], asked := s.asked + 1)
    case MonitorReceives => MonitorNext(s)
  }

  // ----- the invariant -----

  predicate Busy(s: State) { s.support.Working? || s.support.Deciding? || s.support.Answering? }

  predicate StopSent(s: State) { s.terminator.AwaitingAck? || s.terminator.Returned? }

  function If(b: bool, m: Message): seq<Message> { if b then [m] else [] }

  /** Where the monitor's request can be. */
  datatype Request = None | InChannel | BeingServed | Answered | Dropped | TakenForAck

  predicate Located(s: State, q: Request) {
    && (s.monitor.Asked? <==> !q.None?)
    && (Busy(s) <==> q.BeingServed?)
    && (q.Dropped? ==> s.stop && (s.support.Loop? || s.support.Ended?))
    && (s.terminator.Returned? <==> s.acked != [])
    && (s.terminator.Returned? && !s.monitor.Finished? ==> q.TakenForAck?)
    && (q.TakenForAck? ==> s.acked == [SampleReq])
  }

  /** What the channel to the application and the thread waiting for the
      acknowledgement have when the monitor has sent it. */
  predicate AckSent(s: State) {
    || (s.acked == [] && (s.toApp == [StopAck] || s.toApp == [SampleReq, StopAck]))
    || (s.acked == [StopAck] && s.toApp == [])
    || (s.acked == [SampleReq] && s.toApp == [StopAck])
  }

  /** The channels, for each place of the request. */
  predicate Queues(s: State, q: Request) {
    && s.toMonitor == If(s.started && s.monitor.WaitingStart?, Start) + If(q.Answered?, SampleRes)
                      + If(StopSent(s) && !s.monitor.Finished?, Stop(s.totalTasks))
    && if s.monitor.Finished? then StopSent(s) && AckSent(s) else s.toApp == If(q.InChannel?, SampleReq)
  }

  predicate Orderly(s: State) {
    && (s.stop <==> !s.terminator.Running?) && (s.stop ==> s.started)
    && (StopSent(s) ==> s.support.Ended?) && (s.support.Ended? ==> s.stop)
    && (!s.monitor.WaitingStart? ==> s.started) && s.waiting <= All(s.threads)
    && !s.broken && !s.monitor.Unexpected?
    && s.asked == s.gotSamples + s.gotStops + (if s.monitor.Asked? then 1 else 0)
    && s.asked == s.served + (if SampleReq in s.toApp then 1 else 0) + (if s.acked == [SampleReq] then 1 else 0)
    && s.gotStops == (if s.monitor.Finished? then 1 else 0)
    && (s.monitor.Finished? ==> s.knownTasks == s.totalTasks)
  }

  predicate ValidAt(s: State, q: Request) { Orderly(s) && Located(s, q) && Queues(s, q) }

  ghost predicate Valid(s: State) { exists q :: ValidAt(s, q) }

  lemma InitValid(n: nat)
    ensures Valid(Init(n))
  {
    assert ValidAt(Init(n), None);
  }

  /** Where a step takes the request. */
  function Move(s: State, q: Request, step: Step): Request {
    match step
    case SupportStep =>
      if s.support.Receiving? && q.InChannel? then BeingServed
      else if s.support.Deciding? && s.stop then Dropped
      else if s.support.Answering? then Answered
      else q
    case TerminatorStep => if s.terminator.AwaitingAck? && q.InChannel? then TakenForAck else q
    case GetSample => InChannel
    case MonitorReceives => if s.monitor.Asked? && s.toMonitor != [] then None else q
    case _ => q
  }

  lemma ReceivingValid(s: State, q: Request)
    requires ValidAt(s, q) && s.support.Receiving?
    ensures ValidAt(SupportNext(s), Move(s, q, SupportStep))
  {
  }

  lemma AnsweringValid(s: State, q: Request)
    requires ValidAt(s, q) && s.support.Answering?
    ensures ValidAt(SupportNext(s), Move(s, q, SupportStep))
  {
  }

  lemma SupportValid(s: State, q: Request)
    requires ValidAt(s, q)
    ensures ValidAt(SupportNext(s), Move(s, q, SupportStep))
  {
    match s.support
    case Receiving => ReceivingValid(s, q);
    case Answering => AnsweringValid(s, q);
    case _ =>
  }

  lemma JoiningValid(s: State, q: Request)
    requires ValidAt(s, q) && s.terminator.Joining?
    ensures ValidAt(TerminatorNext(s), Move(s, q, TerminatorStep))
  {
  }

  lemma AwaitingValid(s: State, q: Request)
    requires ValidAt(s, q) && s.terminator.AwaitingAck?
    ensures ValidAt(TerminatorNext(s), Move(s, q, TerminatorStep))
  {
  }

  lemma TerminatorValid(s: State, q: Request)
    requires ValidAt(s, q)
    ensures ValidAt(TerminatorNext(s), Move(s, q, TerminatorStep))
  {
    match s.terminator
    case Joining => JoiningValid(s, q);
    case AwaitingAck => AwaitingValid(s, q);
    case _ =>
  }

  lemma SampleValid(s: State, q: Request)
    requires ValidAt(s, q) && s.monitor.Asked? && s.toMonitor != [] && s.toMonitor[0].SampleRes?
    ensures ValidAt(MonitorNext(s), Move(s, q, MonitorReceives))
  {
  }

  lemma StopValid(s: State, q: Request)
    requires ValidAt(s, q) && s.monitor.Asked? && s.toMonitor != [] && s.toMonitor[0].Stop?
    ensures ValidAt(MonitorNext(s), Move(s, q, MonitorReceives))
  {
  }

  lemma MonitorValid(s: State, q: Request)
    requires ValidAt(s, q)
    ensures ValidAt(MonitorNext(s), Move(s, q, MonitorReceives))
  {
    if s.monitor.Asked? && s.toMonitor != [] {
      match s.toMonitor[0]
      case SampleRes => SampleValid(s, q);
      case Stop(_) => StopValid(s, q);
      case _ =>
    }
  }

  lemma StepValidAt(s: State, q: Request, step: Step)
    requires ValidAt(s, q) && Enabled(s, step)
    ensures ValidAt(Next(s, step), Move(s, q, step))
  {
    match step
    case SupportStep => SupportValid(s, q);
    case TerminatorStep => TerminatorValid(s, q);
    case MonitorReceives => MonitorValid(s, q);
    case _ =>
  }

  /** Every step of every thread keeps the invariant. */
  lemma StepValid(s: State, step: Step)
    requires Valid(s) && Enabled(s, step)
    ensures Valid(Next(s, step))
  {
    var q :| ValidAt(s, q);
    StepValidAt(s, q, step);
    assert ValidAt(Next(s, step), Move(s, q, step));
  }

  // ----- what follows -----

  predicate Runs(s: State, steps: seq<Step>)
    decreases |steps|
  {
    steps == [] || (Enabled(s, steps[0]) && Runs(Next(s, steps[0]), steps[1..]))
  }

  function Last(s: State, steps: seq<Step>): State
    requires Runs(s, steps)
    decreases |steps|
  {
    if steps == [] then s else Last(Next(s, steps[0]), steps[1..])
  }

  lemma {:induction false} RunValid(s: State, steps: seq<Step>)
    requires Valid(s) && Runs(s, steps)
    ensures Valid(Last(s, steps))
    decreases |steps|
  {
    if steps != [] {
      StepValid(s, steps[0]);
      RunValid(Next(s, steps[0]), steps[1..]);
    }
  }

  predicate Arrives(n: nat, steps: seq<Step>, s: State) {
    n > 0 && Runs(Init(n), steps) && Last(Init(n), steps) == s
  }

  /** A state of some run of an application with some number of threads. */
  ghost predicate Reachable(s: State) { exists n: nat, steps: seq<Step> :: Arrives(n, steps, s) }

  lemma ReachableValid(s: State)
    requires Reachable(s)
    ensures Valid(s)
  {
    var n: nat, steps: seq<Step> :| Arrives(n, steps, s);
    InitValid(n);
    RunValid(Init(n), steps);
  }

  lemma {:induction false} OneMore(s: State, steps: seq<Step>, step: Step)
    requires Runs(s, steps) && Enabled(Last(s, steps), step)
    ensures Runs(s, steps + [step]) && Last(s, steps + [step]) == Next(Last(s, steps), step)
    decreases |steps|
  {
    if steps == [] {
      assert steps + [step] == [step];
    } else {
      assert (steps + [step])[1..] == steps[1..] + [step];
      OneMore(Next(s, steps[0]), steps[1..], step);
    }
  }

  lemma ReachableNext(s: State, step: Step)
    requires Reachable(s) && Enabled(s, step)
    ensures Reachable(Next(s, step))
  {
    var n: nat, steps: seq<Step> :| Arrives(n, steps, s);
    OneMore(Init(n), steps, step);
    assert Arrives(n, steps + [step], Next(s, step));
  }

  lemma ReachableInit(n: nat)
    requires n > 0
    ensures Reachable(Init(n))
  {
    assert Arrives(n, [], Init(n));
  }

  /** In every run no message is unexpected, every call of `getSample()` but the one
      still waiting has received exactly one answer, STOP is received at most once and
      with the right number of tasks, and after it nothing more is asked. */
  lemma RunSafe(s: State)
    requires Reachable(s)
    ensures !s.monitor.Unexpected? && !s.broken
    ensures s.asked == s.gotSamples + s.gotStops + (if s.monitor.Asked? then 1 else 0)
    ensures s.gotStops <= 1
    ensures s.gotStops == 1 ==> s.monitor.Finished? && s.knownTasks == s.totalTasks && s.toMonitor == []
  {
    ReachableValid(s);
  }

  /** STOP is the last message to the monitor: after it nothing is appended. */
  lemma StopIsLast(s: State, step: Step)
    requires Reachable(s) && Enabled(s, step) && StopSent(s)
    ensures var r := Next(s, step); r.toMonitor == s.toMonitor || (s.toMonitor != [] && r.toMonitor == s.toMonitor[1..])
    ensures !s.monitor.Finished? ==> s.toMonitor != [] && s.toMonitor[|s.toMonitor| - 1] == Stop(s.totalTasks)
  {
    ReachableValid(s);
  }

  /** `terminate()` returns with the monitor's acknowledgement if and only if the
      support thread received every request: otherwise it takes the request itself,
      which comes first in the channel, for the acknowledgement. */
  lemma AckExact(s: State)
    requires Reachable(s) && s.terminator.Returned?
    ensures s.acked == [StopAck] <==> s.served == s.asked
    ensures s.acked == [StopAck] ==> s.monitor.Finished?
    ensures s.acked == [SampleReq] <==> s.asked == s.served + 1
  {
    ReachableValid(s);
  }

  /** Then the application can be gone before the monitor has received STOP. */
  lemma EarlyReturnExample() returns (s: State)
    ensures Reachable(s) && s.terminator.Returned? && s.toMonitor == [Stop(7)] && s.gotStops == 0
  {
    ReachableInit(1);
    s := Init(1);
    s := Take(s, BeginStarts);
    s := Take(s, MonitorReceives);
    s := Take(s, Terminates(7));
    s := Take(s, SupportStep);
    s := Take(s, TerminatorStep);
    s := Take(s, GetSample);
    s := Take(s, TerminatorStep);
  }

  lemma Take(s: State, step: Step) returns (r: State)
    requires Reachable(s) && Enabled(s, step)
    ensures Reachable(r) && r == Next(s, step)
  {
    ReachableNext(s, step);
    r := Next(s, step);
  }

  // ----- when a call of `getSample()` is answered -----

  /** How far the application is from answering a request, besides waiting for threads. */
  function Rank(s: State): nat {
    match s.support
    case Loop => if s.stop then 2 else 8
    case Receiving => 7
    case Working => 6
    case Deciding => 5
    case Answering => 4
    case Ended => 1
  }

  /** The threads that have to store a sample before the request is answered. */
  function Awaited(s: State): set<nat> {
    if s.stop then {}
    else
      match s.support
      case Loop => All(s.threads)
      case Receiving => All(s.threads)
      case Working => s.waiting
      case _ => {}
  }

  function Measure(s: State): nat { Rank(s) + |Awaited(s)| }

  /** The call that is waiting in `s` still is. */
  predicate Unanswered(s: State, r: State) { r.monitor.Asked? && r.asked == s.asked && r.toMonitor == [] }

  /** The call with number `n` has been answered, whether or not the answer has arrived. */
  predicate Past(n: nat, r: State) {
    r.asked >= n && (r.asked == n ==> !r.monitor.Asked? || r.toMonitor != [])
  }

  /** A step of the application that brings the answer nearer. */
  predicate Helps(s: State, step: Step) {
    if s.support.Working? && s.waiting != {} && !s.stop then step.Stores? && step.i in s.waiting
    else if s.support.Ended? then step.TerminatorStep?
    else step.SupportStep?
  }

  lemma SmallerSet(a: set<nat>, i: nat)
    requires i in a
    ensures |a - {i}| == |a| - 1
  {
  }

  /** The answer is nearer in `r`, or at least not further away, or the call is answered. */
  predicate Nearer(s: State, r: State, strictly: bool) {
    Past(s.asked, r) || (Unanswered(s, r) && Measure(r) <= Measure(s) && (strictly ==> Measure(r) < Measure(s)))
  }

  lemma SupportNearer(s: State)
    requires Valid(s) && Unanswered(s, s)
    ensures Nearer(s, SupportNext(s), Helps(s, SupportStep))
  {
    match s.support
    case Receiving =>
    case _ =>
  }

  lemma StoresNearer(s: State, i: nat)
    requires Valid(s) && Enabled(s, Stores(i)) && Unanswered(s, s)
    ensures Nearer(s, Next(s, Stores(i)), Helps(s, Stores(i)))
  {
    SmallerSet(s.waiting, i);
  }

  /** No step takes the answer further away, and one that helps brings it nearer. */
  lemma StepNearer(s: State, step: Step)
    requires Valid(s) && Enabled(s, step) && Unanswered(s, s)
    ensures Nearer(s, Next(s, step), Helps(s, step))
  {
    match step
    case SupportStep => SupportNearer(s);
    case Stores(i) => StoresNearer(s, i);
    case _ =>
  }

  lemma PastStays(n: nat, s: State, step: Step)
    requires Past(n, s) && Enabled(s, step)
    ensures Past(n, Next(s, step))
  {
  }

  lemma {:induction false} PastRun(n: nat, s: State, steps: seq<Step>)
    requires Past(n, s) && Runs(s, steps)
    ensures Past(n, Last(s, steps))
    decreases |steps|
  {
    if steps != [] {
      PastStays(n, s, steps[0]);
      PastRun(n, Next(s, steps[0]), steps[1..]);
    }
  }

  /** How many steps of the run help, until the call is answered. */
  ghost function Helpful(s: State, steps: seq<Step>): nat
    requires Runs(s, steps)
    decreases |steps|
  {
    if steps == [] || !Unanswered(s, s) then 0
    else (if Helps(s, steps[0]) then 1 else 0) + Helpful(Next(s, steps[0]), steps[1..])
  }

  lemma {:induction false} RunNearer(s: State, steps: seq<Step>)
    requires Valid(s) && Runs(s, steps) && Unanswered(s, s) && Unanswered(s, Last(s, steps))
    ensures Helpful(s, steps) + Measure(Last(s, steps)) <= Measure(s)
    decreases |steps|
  {
    if steps != [] {
      var r := Next(s, steps[0]);
      StepValid(s, steps[0]);
      StepNearer(s, steps[0]);
      if Past(s.asked, r) {
        PastRun(s.asked, r, steps[1..]);
        assert false;
      }
      RunNearer(r, steps[1..]);
    }
  }

  /** In every run: a call that has not been answered has had fewer helpful steps than
      its distance from the answer says. There is a next one; while threads are awaited
      it is up to one of these threads to take it. */
  lemma AnswerComes(s: State, steps: seq<Step>)
    requires Reachable(s) && Unanswered(s, s) && Runs(s, steps) && Unanswered(s, Last(s, steps))
    ensures Helpful(s, steps) < Measure(s) <= 8 + s.threads
    ensures exists step :: Enabled(Last(s, steps), step) && Helps(Last(s, steps), step)
  {
    ReachableValid(s);
    RunNearer(s, steps);
    RunValid(s, steps);
    MeasureBound(s);
    var step := SomeHelp(Last(s, steps), {});
  }

  lemma MeasureBound(s: State)
    requires Valid(s)
    ensures 0 < Measure(s) <= 8 + s.threads
  {
    Subset(s.waiting, All(s.threads));
  }

  lemma {:induction false} Subset(a: set<nat>, b: set<nat>)
    requires a <= b
    ensures |a| <= |b|
  {
    if a != {} {
      var i :| i in a;
      Subset(a - {i}, b - {i});
    }
  }

  /** A helpful step that none of the threads `gone` takes. */
  lemma SomeHelp(s: State, gone: set<nat>) returns (step: Step)
    requires Valid(s) && Unanswered(s, s) && (s.support.Working? && s.waiting != {} && !s.stop ==> !(s.waiting <= gone))
    ensures Enabled(s, step) && Helps(s, step) && !step.Terminates? && (step.Stores? ==> step.i !in gone)
  {
    if s.support.Working? && s.waiting != {} && !s.stop {
      var i :| i in s.waiting && i !in gone;
      step := Stores(i);
    } else if s.support.Ended? {
      step := TerminatorStep;
    } else {
      step := SupportStep;
    }
  }

  /** The threads `gone` never store a sample again, and nobody calls `terminate()`. */
  predicate Without(gone: set<nat>, steps: seq<Step>) {
    forall k :: 0 <= k < |steps| ==> !steps[k].Terminates? && (steps[k].Stores? ==> steps[k].i !in gone)
  }

  ghost predicate Answers(s: State, gone: set<nat>, steps: seq<Step>) {
    Runs(s, steps) && Without(gone, steps) && !Unanswered(s, Last(s, steps))
  }

  ghost predicate CanBeAnswered(s: State, gone: set<nat>) { exists steps: seq<Step> :: Answers(s, gone, steps) }

  /** A thread that is awaited and does not store keeps the call waiting. */
  lemma StepBlocked(s: State, step: Step, gone: set<nat>)
    requires Valid(s) && Enabled(s, step) && Unanswered(s, s) && Awaited(s) * gone != {}
    requires !step.Terminates? && (step.Stores? ==> step.i !in gone)
    ensures var r := Next(s, step); Unanswered(s, r) && Awaited(r) * gone != {}
  {
    var i :| i in Awaited(s) * gone;
    assert s.waiting <= All(s.threads);
    assert i in Awaited(Next(s, step)) * gone;
  }

  lemma {:induction false} RunBlocked(s: State, steps: seq<Step>, gone: set<nat>)
    requires Valid(s) && Unanswered(s, s) && Awaited(s) * gone != {} && Runs(s, steps) && Without(gone, steps)
    ensures Unanswered(s, Last(s, steps))
    decreases |steps|
  {
    if steps != [] {
      StepValid(s, steps[0]);
      StepBlocked(s, steps[0], gone);
      RunBlocked(Next(s, steps[0]), steps[1..], gone);
    }
  }

  lemma {:induction false} RunAnswers(s: State, gone: set<nat>) returns (steps: seq<Step>)
    requires Valid(s) && Unanswered(s, s) && Awaited(s) !! gone
    ensures Answers(s, gone, steps)
    decreases Measure(s)
  {
    if s.support.Working? && s.waiting != {} && !s.stop { var i :| i in s.waiting; }
    var step := SomeHelp(s, gone);
    StepValid(s, step);
    StepNearer(s, step);
    var r := Next(s, step);
    var rest: seq<Step> := [];
    if Unanswered(s, r) {
      AwaitedFalls(s, step);
      rest := RunAnswers(r, gone);
    }
    steps := [step] + rest;
    assert steps[1..] == rest;
  }

  lemma AwaitedFalls(s: State, step: Step)
    requires Valid(s) && Enabled(s, step) && Unanswered(s, s) && Unanswered(s, Next(s, step))
    ensures Awaited(Next(s, step)) <= Awaited(s)
  {
  }

  /** A waiting call of `getSample()` can still be answered without `terminate()` if and
      only if no thread that will not store a sample any more is awaited, or the
      application is terminating already. */
  lemma AnswerExact(s: State, gone: set<nat>)
    requires Reachable(s) && Unanswered(s, s)
    ensures CanBeAnswered(s, gone) <==> Awaited(s) !! gone
  {
    ReachableValid(s);
    if Awaited(s) !! gone {
      var steps := RunAnswers(s, gone);
    } else {
      forall steps: seq<Step> | Runs(s, steps) && Without(gone, steps) ensures Unanswered(s, Last(s, steps)) {
        RunBlocked(s, steps, gone);
      }
    }
  }

  /** Two threads, one of which has finished: the monitor waits for ever. */
  lemma BlockedExample() returns (s: State)
    ensures Reachable(s) && s.monitor.Asked? && s.waiting == {1} && !CanBeAnswered(s, {1})
  {
    ReachableInit(2);
    s := Init(2);
    s := Take(s, BeginStarts);
    s := Take(s, SupportStep);
    s := Take(s, MonitorReceives);
    s := Take(s, GetSample);
    s := Take(s, SupportStep);
    assert s.waiting == {0, 1};
    s := Take(s, Stores(0));
    assert s.waiting == {1};
    AnswerExact(s, {1});
  }

  // ----- when `terminate()` gets past the join -----

  /** The application by itself, while `terminate()` is waiting. */
  function AppStep(s: State): State { if s.support.Ended? then TerminatorNext(s) else SupportNext(s) }

  function AppRun(s: State, k: nat): State
    decreases k
  {
    if k == 0 then s else AppRun(AppStep(s), k - 1)
  }

  /** How many steps it takes. */
  function JoinSteps(s: State): nat {
    match s.support
    case Ended => 1
    case Loop => 2
    case Deciding => 3
    case Answering => 3
    case Working => 4
    case Receiving => 5
  }

  /** The support thread is in `recv()` and nothing is there for it. */
  predicate InRecv(s: State) { s.support.Receiving? && s.toApp == [] }

  lemma {:induction false} JoinRun(s: State)
    requires s.terminator.Joining? && s.stop && !InRecv(s)
    ensures AppRun(s, JoinSteps(s)).terminator.AwaitingAck?
    decreases JoinSteps(s)
  {
    if s.support.Ended? {
      assert AppRun(AppStep(s), 0) == AppStep(s);
    } else {
      JoinRun(AppStep(s));
    }
  }

  lemma {:induction false} JoinStuck(s: State, k: nat)
    requires InRecv(s)
    ensures AppRun(s, k) == s
    decreases k
  {
    if k > 0 { JoinStuck(s, k - 1); }
  }

  /** Once `terminate()` is waiting for the support thread, the application by itself
      gets past the wait if and only if that thread is not waiting for a request; then
      at most five steps are enough. */
  lemma JoinExact(s: State)
    requires Reachable(s) && s.terminator.Joining?
    ensures (exists k: nat :: AppRun(s, k).terminator.AwaitingAck?) <==> !InRecv(s)
    ensures !InRecv(s) ==> JoinSteps(s) <= 5 && AppRun(s, JoinSteps(s)).terminator.AwaitingAck?
  {
    ReachableValid(s);
    if InRecv(s) {
      forall k: nat ensures AppRun(s, k) == s { JoinStuck(s, k); }
    } else {
      JoinRun(s);
    }
  }

  lemma {:induction false} JoinStays(s: State, steps: seq<Step>)
    requires Valid(s) && s.terminator.Joining? && InRecv(s) && Runs(s, steps) && GetSample !in steps
    ensures Last(s, steps).terminator.Joining? && InRecv(Last(s, steps))
    decreases |steps|
  {
    if steps != [] {
      assert steps[0] in steps && forall step :: step in steps[1..] ==> step in steps;
      StepValid(s, steps[0]);
      JoinStays(Next(s, steps[0]), steps[1..]);
    }
  }

  /** Otherwise `terminate()` waits until the monitor asks once more: in every run
      without a new call of `getSample()` it never gets past the join, and with one the
      application by itself does. */
  lemma JoinBlocks(s: State, steps: seq<Step>)
    requires Reachable(s) && s.terminator.Joining? && InRecv(s) && Runs(s, steps)
    ensures !s.monitor.Asked? || s.toMonitor != []
    ensures GetSample !in steps ==> Last(s, steps).terminator.Joining?
    ensures s.monitor.Free? ==> AppRun(Next(s, GetSample), 5).terminator.AwaitingAck?
  {
    ReachableValid(s);
    if GetSample !in steps { JoinStays(s, steps); }
    if s.monitor.Free? {
      ReachableNext(s, GetSample);
      JoinExact(Next(s, GetSample));
    }
  }
}
