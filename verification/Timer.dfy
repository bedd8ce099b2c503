/** The resend timer: a state machine fed by its owner, by the tasks it has queued at
    the worker thread, and by the worker's set of timeouts. */
module Timer {
  /** The generic machine: `nn_fsm_feed` picks the handler by this state. */
  datatype Fsm = FsmIdle | FsmActive | FsmStopping

  datatype State = Idle | Active | Stopping

  datatype Task = StartTask | StopTask

  /** What is fed to the machine. */
  datatype Input = TaskDone(task: Task) | Due

  /** What the timer raises for its owner. */
  datatype Event = Timeout | Stopped

  /** `tasks` is the part of the worker's queue that belongs to this timer; `armed`
      says whether its handle is in the worker's set of timeouts, `interval` with which
      timeout it was put there last. */
  datatype Timer = Timer(fsm: Fsm, state: State, timeout: int, tasks: seq<Task>, armed: bool, interval: int)

  /** `Bad` stands for a failed assertion or an `nn_fsm_bad_*` branch. */
  datatype Outcome = Ok(timer: Timer, raised: seq<Event>) | Bad

  const INIT := Timer(FsmIdle, Idle, -1, [], false, -1)

  /** Queues a task; an item must not be in a queue already. */
  function Execute(t: Timer, task: Task, raised: seq<Event>): Outcome {
    if task in t.tasks then Bad else Ok(t.(tasks := t.tasks + [task]), raised)
  }

  /** `nn_timer_start`. `stoppedQueued`: the last `Stopped` event waits to be processed. */
  function Start(t: Timer, timeout: int, stoppedQueued: bool): Outcome {
    if timeout < 0 || t.fsm != FsmIdle || stoppedQueued || t.state != Idle then Bad
    else Execute(t.(timeout := timeout, state := Active, fsm := FsmActive), StartTask, [])
  }

  /** `nn_timer_stop`. */
  function Stop(t: Timer): Outcome {
    if t.fsm != FsmActive then Ok(t, [])
    else Execute(t.(fsm := FsmStopping, state := Stopping), StopTask, [])
  }

  function Handler(t: Timer, input: Input): Outcome {
    if t.state != Active then Bad
    else
      match input
      case TaskDone(StartTask) =>
        if t.timeout < 0 || t.armed then Bad else Ok(t.(armed := true, interval := t.timeout, timeout := -1), [])
      case TaskDone(StopTask) => Bad
      case Due => if t.timeout != -1 then Bad else Ok(t, [Timeout])
  }

  function Shutdown(t: Timer, input: Input): Outcome {
    if t.state != Stopping then Bad
    else if input != TaskDone(StopTask) then Ok(t, [])
    else Ok(t.(armed := false, state := Idle, fsm := FsmIdle), [Stopped])
  }

  function Feed(t: Timer, input: Input): Outcome {
    if t.fsm != FsmStopping then Handler(t, input) else Shutdown(t, input)
  }

  /** The worker takes the next task from its queue. */
  function RunTask(t: Timer): Outcome
    requires t.tasks != []
  {
    Feed(t.(tasks := t.tasks[1..]), TaskDone(t.tasks[0]))
  }

  /** The worker finds the timeout due; it takes the handle out of the set first. */
  function Expire(t: Timer): Outcome
    requires t.armed
  {
    Feed(t.(armed := false), Due)
  }

  // ----- what every step keeps -----

  /** The user's view and the worker's view, together. A due timeout leaves the timer
      running with nothing armed. */
  predicate Valid(t: Timer) {
    match t.fsm
    case FsmIdle => t.state == Idle && t.tasks == [] && !t.armed
    case FsmActive =>
      t.state == Active &&
      ((t.tasks == [StartTask] && t.timeout >= 0 && !t.armed) || (t.tasks == [] && t.timeout == -1))
    case FsmStopping =>
      t.state == Stopping && (t.tasks == [StopTask] || (t.tasks == [StartTask, StopTask] && !t.armed))
  }

  // ----- whole runs -----

  datatype Step = DoStart(timeout: nat) | DoStop | DoTask | DoExpire

  /** What the environment may do: the owner starts an idle timer, the worker runs
      tasks there are and reports timeouts there are. */
  predicate Enabled(t: Timer, step: Step) {
    match step
    case DoStart(_) => t.fsm == FsmIdle
    case DoStop => true
    case DoTask => t.tasks != []
    case DoExpire => t.armed
  }

  function Take(t: Timer, step: Step): Outcome
    requires Enabled(t, step)
  {
    match step
    case DoStart(timeout) => Start(t, timeout, false)
    case DoStop => Stop(t)
    case DoTask => RunTask(t)
    case DoExpire => Expire(t)
  }

  lemma StepValid(t: Timer, step: Step)
    requires Valid(t) && Enabled(t, step)
    ensures Take(t, step).Ok? && Valid(Take(t, step).timer)
  {
  }

  /** The story of a run as its owner sees it. */
  datatype Entry = Started | StopAsked | Raised(event: Event)

  function Entries(t: Timer, step: Step, o: Outcome): seq<Entry> {
    (match step
     case DoStart(_) => [Started]
     case DoStop => if t.fsm == FsmActive then [StopAsked] else []
     case _ => [])
    + if o.Ok? then seq(|o.raised|, i requires 0 <= i < |o.raised| => Raised(o.raised[i])) else []
  }

  predicate Legal(t: Timer, steps: seq<Step>)
    decreases |steps|
  {
    steps == [] ||
    (Enabled(t, steps[0]) && (Take(t, steps[0]).Ok? ==> Legal(Take(t, steps[0]).timer, steps[1..])))
  }

  function Story(t: Timer, steps: seq<Step>): seq<Entry>
    requires Legal(t, steps)
    decreases |steps|
  {
    if steps == [] then []
    else
      var o := Take(t, steps[0]);
      Entries(t, steps[0], o) + if o.Ok? then Story(o.timer, steps[1..]) else []
  }

  function Final(t: Timer, steps: seq<Step>): Outcome
    requires Legal(t, steps)
    decreases |steps|
  {
    if steps == [] then Ok(t, [])
    else
      var o := Take(t, steps[0]);
      if o.Ok? then Final(o.timer, steps[1..]) else Bad
  }

  /** The stories an owner can rely on: start, timeouts, one stop, exactly one
      `Stopped`, and nothing else before the next start. */
  function Follow(at: Fsm, story: seq<Entry>): (end: (bool, Fsm))
    decreases |story|
  {
    if story == [] then (true, at)
    else
      match (at, story[0])
      case (FsmIdle, Started) => Follow(FsmActive, story[1..])
      case (FsmActive, Raised(Timeout)) => Follow(FsmActive, story[1..])
      case (FsmActive, StopAsked) => Follow(FsmStopping, story[1..])
      case (FsmStopping, Raised(Stopped)) => Follow(FsmIdle, story[1..])
      case _ => (false, at)
  }

  lemma {:induction false} FollowOne(at: Fsm, e: Entry, rest: seq<Entry>)
    ensures Follow(at, [e] + rest) ==
            var (ok, next) := Follow(at, [e]); if ok then Follow(next, rest) else (false, at)
  {
    assert ([e] + rest)[1..] == rest;
  }

  /** What one step adds to a story leads from the owner's state before it to the one
      after it. When `Stopped` is raised, the handle is out of the set. */
  lemma StepStory(t: Timer, step: Step, rest: seq<Entry>)
    requires Valid(t) && Enabled(t, step)
    ensures Take(t, step).Ok?
    ensures var o := Take(t, step);
            && Follow(t.fsm, Entries(t, step, o) + rest) == Follow(o.timer.fsm, rest)
            && (Stopped in o.raised ==> !o.timer.armed && o.timer.tasks == [])
  {
    var es := Entries(t, step, Take(t, step));
    if es == [] {
      assert es + rest == rest;
    } else {
      assert es == [es[0]];
      FollowOne(t.fsm, es[0], rest);
    }
  }

  /** For every interleaving of starts, stops, worker tasks and timeouts: no assertion
      fails, and the owner is told a story of that kind. In particular no timeout is
      raised between a stop and the next start, and each stop of a running timer is
      answered by exactly one `Stopped`. */
  lemma {:induction false} RunStory(t: Timer, steps: seq<Step>)
    requires Valid(t) && Legal(t, steps)
    ensures Final(t, steps).Ok? && Valid(Final(t, steps).timer)
    ensures Follow(t.fsm, Story(t, steps)) == (true, Final(t, steps).timer.fsm)
    decreases |steps|
  {
    if steps != [] {
      StepValid(t, steps[0]);
      var next := Take(t, steps[0]).timer;
      RunStory(next, steps[1..]);
      StepStory(t, steps[0], Story(next, steps[1..]));
    }
  }
}
