/** The consolidation handshake between the worker threads and the support thread:
    every access to the shared flag and to the shared sample is a step of its own,
    and the steps of all threads interleave freely. */
module Handshake {
  import opened Sampling

  // ----- worker threads -----

  /** The parts of a `begin()` that has seen the flag: store the sample, mark it if the
      times do not add up, reset the running sample, clear the flag. */
  datatype Stage = Copy | Mark | Reset | Clear

  /** `was` is the thread's data when the running `begin()` was entered. */
  datatype Phase = Out | In | Closing(stage: Stage, was: Data, now: nat)

  /** `taken` counts the tasks the support thread has added up for this thread, `ended`
      the calls of `end()`; `first` and `last` are the times of the first `begin()` and of
      the last `end()`, 0 if there was none. */
  datatype Thread = Thread(data: Data, phase: Phase, clock: nat, taken: nat, ended: nat, first: nat, last: nat)

  datatype Action = Begins(at: nat) | Ends(at: nat) | Goes

  /** The data of a thread in the middle of a `begin()`. What only the thread itself
      can see may lag behind. */
  function Midway(cfg: Config, stage: Stage, was: Data, now: nat): Data
    requires ConfigOk(cfg) && now > was.rcvStart && now > was.sampleStart && was.computeStart > 0 && was.sampleStart > 0
    requires Begin(cfg, was, now).Ok?
  {
    var after := Begin(cfg, was, now).data;
    match stage
    case Copy => was
    case Mark => was.(consolidated := Closed(was, now))
    case Reset => was.(consolidated := after.consolidated)
    case Clear => after.(consolidate := true)
  }

  /** What the times kept by the thread mean. */
  predicate TimesOk(d: Data, t: Thread) {
    d.firstBegin == t.first <= t.clock && d.lastEnd <= t.last <= t.clock
  }

  predicate InBegin(cfg: Config, t: Thread) {
    && t.phase.Closing? && Resting(cfg, t.phase.was, t.clock) && t.clock < t.phase.now
    && Closes(t.phase.was) && t.phase.was.consolidate && t.phase.was.consolidated == ZERO
    && Begin(cfg, t.phase.was, t.phase.now).Ok?
    && t.data == Midway(cfg, t.phase.stage, t.phase.was, t.phase.now)
    && Tasks(t.phase.was) == t.ended && TimesOk(t.phase.was, t)
  }

  predicate ThreadOk(cfg: Config, t: Thread) {
    match t.phase
    case Out =>
      Resting(cfg, t.data, t.clock) && Tasks(t.data) == t.ended && TimesOk(t.data, t)
      && (t.data.lastEnd == t.last <==> t.data.current == 0) && (t.first > 0 ==> t.first < t.last)
    case In => Working(cfg, t.data, t.clock) && TasksNext(t.data) == t.ended + 1 && TimesOk(t.data, t)
    case Closing(_, _, _) => InBegin(cfg, t)
  }

  predicate Can(t: Thread, a: Action, stop: bool) {
    match a
    case Begins(at) => t.phase.Out? && at > t.clock && !stop
    case Ends(at) => t.phase.In? && at > t.clock
    case Goes => t.phase.Closing?
  }

  /** One step of a worker. */
  function Work(cfg: Config, t: Thread, a: Action, stop: bool): Thread
    requires ThreadOk(cfg, t) && Can(t, a, stop)
  {
    match a
    case Begins(at) =>
      if Closes(t.data) && t.data.consolidate then t.(phase := Closing(Copy, t.data, at))
      else
        BeginKeeps(cfg, t.data, t.clock, at);
        t.(data := Begin(cfg, t.data, at).data, phase := In, clock := at, first := if t.first == 0 then at else t.first)
    case Ends(at) => t.(data := End(t.data, at), phase := Out, clock := at, ended := t.ended + 1, last := at)
    case Goes =>
      var Closing(stage, was, now) := t.phase;
      match stage
      case Copy => t.(data := t.data.(consolidated := Closed(was, now)), phase := Closing(Mark, was, now))
      case Mark =>
        t.(data := t.data.(consolidated := Begin(cfg, was, now).data.consolidated), phase := Closing(Reset, was, now))
      case Reset => t.(data := Begin(cfg, was, now).data.(consolidate := true), phase := Closing(Clear, was, now))
      case Clear => t.(data := t.data.(consolidate := false), phase := In, clock := now)
  }

  /** What the running sample holds and the stored one does not. */
  function InProgress(t: Thread): nat {
    if t.phase.Closing? && (t.phase.stage.Mark? || t.phase.stage.Reset?) then 0 else t.data.sample.numTasks
  }

  /** No task is lost and none is counted twice. `added` says that the stored sample
      has been added up but not yet zeroed. */
  predicate Balanced(t: Thread, added: bool) {
    t.taken + (if added then 0 else t.data.consolidated.numTasks) + InProgress(t) == t.data.totalTasks
  }

  /** A set flag: nothing of the answer has left the thread yet. */
  predicate Waited(t: Thread) {
    t.data.consolidate && (t.phase.Closing? || t.data.consolidated == ZERO)
  }

  /** The flag cleared by the thread: the answer is there. */
  predicate Stored(t: Thread) {
    !t.data.consolidate && !t.phase.Closing? && t.data.consolidated.numTasks > 0
  }

  /** What every step of a worker keeps: the tasks, and, until the last step of a
      `begin()` that answers, the flag. When the flag is clear the answer is complete. */
  predicate Kept(cfg: Config, t: Thread, u: Thread, added: bool) {
    && ThreadOk(cfg, u) && Balanced(u, added) && u.taken == t.taken
    && (t.data.consolidate ==> Waited(u) || Stored(u))
    && (!t.data.consolidate ==> u.data.consolidated == t.data.consolidated && !u.data.consolidate && !u.phase.Closing?)
  }

  lemma BeginsKeeps(cfg: Config, t: Thread, at: nat, added: bool)
    requires ThreadOk(cfg, t) && Can(t, Begins(at), false) && Balanced(t, added)
    requires t.data.consolidate ==> Waited(t) && !added
    ensures Kept(cfg, t, Work(cfg, t, Begins(at), false), added)
  {
    BeginKeeps(cfg, t.data, t.clock, at);
    BeginStores(cfg, t.data, t.clock, at);
    BeginTimes(cfg, t.data, t.clock, at);
  }

  lemma CopyKeeps(cfg: Config, t: Thread, added: bool)
    requires ThreadOk(cfg, t) && t.phase.Closing? && Balanced(t, added) && t.phase.stage.Copy?
    requires t.data.consolidate ==> Waited(t) && !added
    ensures Kept(cfg, t, Work(cfg, t, Goes, false), added)
  {
    BeginKeeps(cfg, t.phase.was, t.clock, t.phase.now);
    BeginStores(cfg, t.phase.was, t.clock, t.phase.now);
    BeginTimes(cfg, t.phase.was, t.clock, t.phase.now);
  }

  lemma MarkKeeps(cfg: Config, t: Thread, added: bool)
    requires ThreadOk(cfg, t) && t.phase.Closing? && Balanced(t, added) && t.phase.stage.Mark?
    requires t.data.consolidate ==> Waited(t) && !added
    ensures Kept(cfg, t, Work(cfg, t, Goes, false), added)
  {
    BeginKeeps(cfg, t.phase.was, t.clock, t.phase.now);
    BeginStores(cfg, t.phase.was, t.clock, t.phase.now);
    BeginTimes(cfg, t.phase.was, t.clock, t.phase.now);
  }

  lemma ResetKeeps(cfg: Config, t: Thread, added: bool)
    requires ThreadOk(cfg, t) && t.phase.Closing? && Balanced(t, added) && t.phase.stage.Reset?
    requires t.data.consolidate ==> Waited(t) && !added
    ensures Kept(cfg, t, Work(cfg, t, Goes, false), added)
  {
    BeginKeeps(cfg, t.phase.was, t.clock, t.phase.now);
    BeginStores(cfg, t.phase.was, t.clock, t.phase.now);
    BeginTimes(cfg, t.phase.was, t.clock, t.phase.now);
  }

  lemma ClearKeeps(cfg: Config, t: Thread, added: bool)
    requires ThreadOk(cfg, t) && t.phase.Closing? && Balanced(t, added) && t.phase.stage.Clear?
    requires t.data.consolidate ==> Waited(t) && !added
    ensures Kept(cfg, t, Work(cfg, t, Goes, false), added)
  {
    BeginKeeps(cfg, t.phase.was, t.clock, t.phase.now);
    BeginStores(cfg, t.phase.was, t.clock, t.phase.now);
    BeginTimes(cfg, t.phase.was, t.clock, t.phase.now);
  }

  lemma GoesKeeps(cfg: Config, t: Thread, added: bool)
    requires ThreadOk(cfg, t) && t.phase.Closing? && Balanced(t, added)
    requires t.data.consolidate ==> Waited(t) && !added
    ensures Kept(cfg, t, Work(cfg, t, Goes, false), added)
  {
    match t.phase.stage
    case Copy => CopyKeeps(cfg, t, added);
    case Mark => MarkKeeps(cfg, t, added);
    case Reset => ResetKeeps(cfg, t, added);
    case Clear => ClearKeeps(cfg, t, added);
  }

  lemma WorkKeeps(cfg: Config, t: Thread, a: Action, stop: bool, added: bool)
    requires ThreadOk(cfg, t) && Can(t, a, stop) && Balanced(t, added)
    requires t.data.consolidate ==> Waited(t) && !added
    ensures Kept(cfg, t, Work(cfg, t, a, stop), added)
  {
    match a
    case Begins(at) => BeginsKeeps(cfg, t, at, added);
    case Ends(at) => EndKeeps(cfg, t.data, t.clock, at);
    case Goes => GoesKeeps(cfg, t, added);
  }

  /** The steps of a `begin()` that answers come to the same as one atomic `begin()`. */
  lemma StepsAreBegin(cfg: Config, t: Thread, at: nat)
    requires ThreadOk(cfg, t) && Can(t, Begins(at), false) && Waited(t) && Closes(t.data)
    ensures var t0 := Work(cfg, t, Begins(at), false);
            && ThreadOk(cfg, t0) && t0.phase.Closing?
            && var t1 := Work(cfg, t0, Goes, false);
            && ThreadOk(cfg, t1) && t1.phase.Closing?
            && var t2 := Work(cfg, t1, Goes, false);
            && ThreadOk(cfg, t2) && t2.phase.Closing?
            && var t3 := Work(cfg, t2, Goes, false);
            && ThreadOk(cfg, t3) && t3.phase.Closing?
            && var t4 := Work(cfg, t3, Goes, false);
            && Begin(cfg, t.data, at) == Ok(t4.data) && t4.phase == In
  {
    BeginKeeps(cfg, t.data, t.clock, at);
    BeginStores(cfg, t.data, t.clock, at);
  }
}
