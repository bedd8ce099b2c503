/** The support thread, which collects the samples of all the workers for one request
    after another, together with all the workers: every interleaving of their steps. */
module Consolidation {
  import opened Sampling
  import opened Handshake

  // ----- the answer to one request -----

  /** What has been added up so far. `bad` counts the inconsistent samples. */
  datatype Tally = Tally(updated: nat, bad: nat, load: real, latency: real, throughput: real, tasks: nat)

  const EMPTY := Tally(0, 0, 0.0, 0.0, 0.0, 0)

  function Add(t: Tally, s: Sample): Tally
    requires !s.inconsistent ==> s.numTasks > 0
  {
    var t1 := t.(updated := t.updated + 1, throughput := t.throughput + s.throughput, tasks := t.tasks + s.numTasks);
    if s.inconsistent then t1.(bad := t.bad + 1)
    else t1.(load := t.load + s.load, latency := t.latency + s.latency as real / s.numTasks as real)
  }

  predicate Readable(s: Sample) { s.inconsistent || s.numTasks > 0 }

  predicate AllReadable(samples: seq<Sample>) { forall i :: 0 <= i < |samples| ==> Readable(samples[i]) }

  function AddAll(samples: seq<Sample>): Tally
    requires AllReadable(samples)
  {
    if samples == [] then EMPTY
    else
      assert Readable(samples[|samples| - 1]);
      Add(AddAll(samples[..|samples| - 1]), samples[|samples| - 1])
  }

  lemma AddAllOne(samples: seq<Sample>, s: Sample)
    requires AllReadable(samples) && Readable(s)
    ensures AllReadable(samples + [s]) && AddAll(samples + [s]) == Add(AddAll(samples), s)
  {
    assert (samples + [s])[..|samples|] == samples;
  }

  function Sum(f: Sample -> real, samples: seq<Sample>): real {
    if samples == [] then 0.0 else Sum(f, samples[..|samples| - 1]) + f(samples[|samples| - 1])
  }

  function Consistent(samples: seq<Sample>): seq<Sample> {
    if samples == [] then []
    else
      var s := samples[|samples| - 1];
      Consistent(samples[..|samples| - 1]) + if s.inconsistent then [] else [s]
  }

  function ThroughputOf(s: Sample): real { s.throughput }

  function TasksOf(s: Sample): real { s.numTasks as real }

  function LoadOf(s: Sample): real { s.load }

  function LatencyPerTask(s: Sample): real { if s.numTasks == 0 then 0.0 else s.latency as real / s.numTasks as real }

  lemma SumOne(f: Sample -> real, samples: seq<Sample>, s: Sample)
    ensures Sum(f, samples + [s]) == Sum(f, samples) + f(s)
  {
    assert (samples + [s])[..|samples|] == samples;
  }

  /** Throughput and tasks are summed over all samples, load and latency per task over
      the consistent ones. */
  lemma {:induction false} AddAllMeans(samples: seq<Sample>)
    requires AllReadable(samples)
    ensures var t := AddAll(samples);
            && t.updated == |samples| && t.bad == |samples| - |Consistent(samples)|
            && t.throughput == Sum(ThroughputOf, samples) && t.tasks as real == Sum(TasksOf, samples)
            && t.load == Sum(LoadOf, Consistent(samples)) && t.latency == Sum(LatencyPerTask, Consistent(samples))
  {
    if samples != [] {
      var front, last := samples[..|samples| - 1], samples[|samples| - 1];
      AddAllMeans(front);
      assert Readable(last);
      if last.inconsistent {
        assert Consistent(samples) == Consistent(front);
      } else {
        SumOne(LoadOf, Consistent(front), last);
        SumOne(LatencyPerTask, Consistent(front), last);
      }
    }
  }

  datatype Options = Options(adjust: bool, marked: bool)

  datatype Report = Report(inconsistent: bool, load: real, throughput: real, latency: real, tasks: nat)

  /** A support thread that gives up does it with an exception. */
  datatype Answer = Answer(report: Report) | Fatal

  predicate Throws(o: Options, t: Tally, threads: nat, stop: bool) {
    !stop && (t.updated == 0 || (o.adjust && t.updated != threads))
  }

  function Finish(o: Options, t: Tally, threads: nat, stop: bool): Answer
    requires t.bad <= t.updated <= threads
  {
    if Throws(o, t, threads, stop) then Fatal
    else if t.updated == 0 then Answer(Report(false, t.load, t.throughput, t.latency, t.tasks))
    else
      var throughput :=
        if o.adjust && t.updated != threads
        then t.throughput + t.throughput / t.updated as real * (threads - t.updated) as real
        else t.throughput;
      if t.bad == t.updated || o.marked then Answer(Report(true, t.load, throughput, t.latency, t.tasks))
      else
        var n := (t.updated - t.bad) as real;
        Answer(Report(false, t.load / n, throughput, t.latency / n, t.tasks))
  }

  // ----- the joint state -----

  /** Where the support thread is. The thread number is the one it is dealing with. */
  datatype Pc =
    | Loop | Receiving | Setting(i: nat) | Waiting(i: nat) | Checking(i: nat) | Adding(i: nat) | Zeroing(i: nat)
    | Finishing | Halted | Failed

  /** `round` are the samples added up in this round. `sent` and `dropped` count the
      tasks in the answers that were sent, and in the last one, which is not sent once
      the application is terminating. */
  datatype State = State(
    threads: seq<Thread>, pc: Pc, tally: Tally, round: seq<Sample>, stop: bool, sent: nat, dropped: nat)

  datatype Step = Worker(i: nat, action: Action) | Support | Terminate

  function Init(cfg: Config, n: nat): State {
    State(seq(n, _ => Thread(Sampling.Init(cfg), Out, 0, 0, 0, 0, 0)), Loop, EMPTY, [], false, 0, 0)
  }

  predicate InRange(s: State) {
    && (s.pc.Setting? || s.pc.Waiting? ==> s.pc.i <= |s.threads|)
    && (s.pc.Checking? || s.pc.Adding? || s.pc.Zeroing? ==> s.pc.i < |s.threads|)
    && (s.pc.Adding? ==> var c := s.threads[s.pc.i].data.consolidated; c.inconsistent || c.numTasks > 0)
    && s.tally.bad <= s.tally.updated <= |s.threads|
  }

  function SetFlag(t: Thread): Thread { t.(data := t.data.(consolidate := true)) }

  /** One step of the support thread. It can always take one, unless it has ended. */
  function Serve(o: Options, s: State): State
    requires InRange(s)
  {
    var n := |s.threads|;
    match s.pc
    case Loop => s.(pc := if s.stop then Halted else Receiving)
    case Receiving => s.(pc := Setting(0), tally := EMPTY, round := [])
    case Setting(i) =>
      if i == n then s.(pc := Waiting(0))
      else s.(pc := Setting(i + 1), threads := s.threads[i := SetFlag(s.threads[i])])
    case Waiting(i) =>
      if i == n then s.(pc := Finishing)
      else if s.threads[i].data.consolidate && !s.stop then s
      else s.(pc := Checking(i))
    case Checking(i) => s.(pc := if s.threads[i].data.consolidate then Waiting(i + 1) else Adding(i))
    case Adding(i) =>
      var t := s.threads[i];
      s.(pc := Zeroing(i), tally := Add(s.tally, t.data.consolidated), round := s.round + [t.data.consolidated],
         threads := s.threads[i := t.(taken := t.taken + t.data.consolidated.numTasks)])
    case Zeroing(i) =>
      var t := s.threads[i];
      s.(pc := Waiting(i + 1), threads := s.threads[i := t.(data := t.data.(consolidated := ZERO))])
    case Finishing =>
      if Finish(o, s.tally, n, s.stop).Fatal? then s.(pc := Failed)
      else if s.stop then s.(pc := Loop, tally := EMPTY, round := [], dropped := s.dropped + s.tally.tasks)
      else s.(pc := Loop, tally := EMPTY, round := [], sent := s.sent + s.tally.tasks)
    case Halted => s
    case Failed => s
  }

  /** The application may terminate when all its workers have finished. */
  predicate Resigned(s: State) { forall j :: 0 <= j < |s.threads| ==> s.threads[j].phase.Out? }

  predicate Enabled(cfg: Config, s: State, step: Step) {
    match step
    case Worker(i, a) => i < |s.threads| && ThreadOk(cfg, s.threads[i]) && Can(s.threads[i], a, s.stop)
    case Support => InRange(s)
    case Terminate => Resigned(s)
  }

  function Next(cfg: Config, o: Options, s: State, step: Step): State
    requires Enabled(cfg, s, step)
  {
    match step
    case Worker(i, a) => s.(threads := s.threads[i := Work(cfg, s.threads[i], a, s.stop)])
    case Support => Serve(o, s)
    case Terminate => s.(stop := true)
  }

  // ----- the invariant -----

  /** The thread has been asked in this round and not yet dealt with. */
  predicate Pending(pc: Pc, j: nat) {
    match pc
    case Setting(i) => j < i
    case Waiting(i) => i <= j
    case Checking(i) => i <= j
    case Adding(i) => i <= j
    case Zeroing(i) => i < j
    case _ => false
  }

  predicate Added(pc: Pc, j: nat) { pc == Zeroing(j) }

  /** What the flag and the stored sample of thread `j` say in this round. */
  predicate FlagOk(s: State, j: nat)
    requires j < |s.threads|
  {
    var t := s.threads[j];
    if t.data.consolidate then Waited(t) && (Pending(s.pc, j) || s.stop)
    else !t.phase.Closing? && if Pending(s.pc, j) || Added(s.pc, j) then Stored(t) else t.data.consolidated == ZERO
  }

  predicate Mine(cfg: Config, s: State, j: nat)
    requires j < |s.threads|
  {
    ThreadOk(cfg, s.threads[j]) && Balanced(s.threads[j], Added(s.pc, j)) && FlagOk(s, j)
  }

  /** Everyone has answered, unless the application is terminating. */
  predicate TallyOk(s: State) {
    && s.tally.bad <= s.tally.updated && AllReadable(s.round) && s.tally == AddAll(s.round)
    && match s.pc
       case Loop => s.tally == EMPTY
       case Receiving => s.tally == EMPTY
       case Setting(i) => s.tally == EMPTY && i <= |s.threads|
       case Waiting(i) => i <= |s.threads| && Counted(s, i)
       case Checking(i) => i < |s.threads| && Counted(s, i) && (!s.threads[i].data.consolidate || s.stop)
       case Adding(i) => i < |s.threads| && Counted(s, i) && !s.threads[i].data.consolidate
       case Zeroing(i) => i < |s.threads| && Counted(s, i + 1) && !s.threads[i].data.consolidate
       case Finishing => Counted(s, |s.threads|)
       case Halted => s.stop && s.tally == EMPTY
       case Failed => false
  }

  predicate Counted(s: State, i: nat) {
    s.tally.updated <= i && (s.tally.updated == i || s.stop)
  }

  function Taken(threads: seq<Thread>): nat {
    if threads == [] then 0 else threads[0].taken + Taken(threads[1..])
  }

  predicate Valid(cfg: Config, s: State) {
    && |s.threads| > 0
    && (forall j :: 0 <= j < |s.threads| ==> Mine(cfg, s, j))
    && (s.stop ==> Resigned(s))
    && TallyOk(s)
    && Taken(s.threads) == s.sent + s.dropped + s.tally.tasks
    && (s.dropped > 0 ==> s.stop)
  }

  lemma TakenUpdate(threads: seq<Thread>, i: nat, t: Thread)
    requires i < |threads|
    ensures Taken(threads[i := t]) == Taken(threads) - threads[i].taken + t.taken
  {
    if i > 0 {
      assert threads[i := t][1..] == threads[1..][i - 1 := t];
      TakenUpdate(threads[1..], i - 1, t);
    } else {
      assert threads[i := t][1..] == threads[1..];
    }
  }

  lemma TakenNone(threads: seq<Thread>)
    requires forall j :: 0 <= j < |threads| ==> threads[j].taken == 0
    ensures Taken(threads) == 0
  {
  }

  lemma InitValid(cfg: Config, n: nat)
    requires ConfigOk(cfg) && n > 0
    ensures Valid(cfg, Init(cfg, n))
  {
    InitResting(cfg);
    TakenNone(Init(cfg, n).threads);
  }

  lemma WorkerKeeps(cfg: Config, o: Options, s: State, i: nat, a: Action)
    requires Valid(cfg, s) && Enabled(cfg, s, Worker(i, a))
    ensures Valid(cfg, Next(cfg, o, s, Worker(i, a)))
  {
    var t := s.threads[i];
    assert Mine(cfg, s, i);
    WorkKeeps(cfg, t, a, s.stop, Added(s.pc, i));
    var u := Work(cfg, t, a, s.stop);
    TakenUpdate(s.threads, i, u);
    var r := s.(threads := s.threads[i := u]);
    forall j | 0 <= j < |r.threads| ensures Mine(cfg, r, j) {
      assert Mine(cfg, s, j);
    }
  }

  lemma SetFlagOk(cfg: Config, t: Thread, added: bool)
    requires ThreadOk(cfg, t) && Balanced(t, added)
    ensures ThreadOk(cfg, SetFlag(t)) && Balanced(SetFlag(t), added)
  {
    if t.phase.Closing? { assert SetFlag(t) == t; }
  }

  lemma ZeroedOk(cfg: Config, t: Thread)
    requires ThreadOk(cfg, t) && Balanced(t, true) && !t.phase.Closing?
    ensures var u := t.(data := t.data.(consolidated := ZERO)); ThreadOk(cfg, u) && Balanced(u, false)
  {
  }

  lemma ServeSetting(cfg: Config, o: Options, s: State, j: nat)
    requires TallyOk(s) && InRange(s) && j < |s.threads| && Mine(cfg, s, j) && s.pc.Setting?
    ensures Mine(cfg, Serve(o, s), j)
  {
    if s.pc.i == j { SetFlagOk(cfg, s.threads[j], false); }
  }

  lemma ServeAdding(cfg: Config, o: Options, s: State, j: nat)
    requires TallyOk(s) && InRange(s) && j < |s.threads| && Mine(cfg, s, j) && s.pc.Adding?
    ensures Mine(cfg, Serve(o, s), j)
  {
  }

  lemma ServeZeroing(cfg: Config, o: Options, s: State, j: nat)
    requires TallyOk(s) && InRange(s) && j < |s.threads| && Mine(cfg, s, j) && s.pc.Zeroing?
    ensures Mine(cfg, Serve(o, s), j)
  {
    if s.pc.i == j { ZeroedOk(cfg, s.threads[j]); }
  }

  /** A step of the support thread touches at most one thread. */
  lemma ServeThread(cfg: Config, o: Options, s: State, j: nat)
    requires TallyOk(s) && InRange(s) && j < |s.threads| && Mine(cfg, s, j)
    ensures Mine(cfg, Serve(o, s), j)
  {
    match s.pc
    case Setting(_) => ServeSetting(cfg, o, s, j);
    case Adding(_) => ServeAdding(cfg, o, s, j);
    case Zeroing(_) => ServeZeroing(cfg, o, s, j);
    case _ =>
  }

  lemma ServeTaken(cfg: Config, o: Options, s: State)
    requires Valid(cfg, s) && InRange(s)
    ensures var r := Serve(o, s); Taken(r.threads) == r.sent + r.dropped + r.tally.tasks
  {
    match s.pc
    case Setting(i) => if i < |s.threads| { TakenUpdate(s.threads, i, SetFlag(s.threads[i])); }
    case Adding(i) =>
      var t := s.threads[i];
      TakenUpdate(s.threads, i, t.(taken := t.taken + t.data.consolidated.numTasks));
    case Zeroing(i) =>
      var t := s.threads[i];
      TakenUpdate(s.threads, i, t.(data := t.data.(consolidated := ZERO)));
    case _ =>
  }

  lemma ServeRange(cfg: Config, s: State)
    requires Valid(cfg, s)
    ensures InRange(s)
  {
    if s.pc.Adding? { assert Mine(cfg, s, s.pc.i); }
  }

  lemma AddingTally(o: Options, s: State, more: seq<Sample>)
    requires TallyOk(s) && InRange(s) && s.pc.Adding? && more == s.round + [s.threads[s.pc.i].data.consolidated]
    requires AllReadable(more) && AddAll(more) == Add(s.tally, s.threads[s.pc.i].data.consolidated)
    ensures TallyOk(Serve(o, s))
  {
  }

  lemma CheckingTally(cfg: Config, o: Options, s: State)
    requires TallyOk(s) && InRange(s) && s.pc.Checking? && Mine(cfg, s, s.pc.i)
    ensures TallyOk(Serve(o, s))
  {
  }

  lemma ServeTally(cfg: Config, o: Options, s: State)
    requires Valid(cfg, s) && InRange(s)
    ensures TallyOk(Serve(o, s))
  {
    match s.pc
    case Checking(i) => CheckingTally(cfg, o, s);
    case Adding(i) =>
      AddAllOne(s.round, s.threads[i].data.consolidated);
      AddingTally(o, s, s.round + [s.threads[i].data.consolidated]);
    case _ =>
  }

  lemma ServeKeeps(cfg: Config, o: Options, s: State)
    requires Valid(cfg, s)
    ensures InRange(s) && Valid(cfg, Serve(o, s))
  {
    ServeRange(cfg, s);
    var r := Serve(o, s);
    forall j | 0 <= j < |s.threads| ensures Mine(cfg, r, j) { ServeThread(cfg, o, s, j); }
    ServeTaken(cfg, o, s);
    ServeTally(cfg, o, s);
    assert |r.threads| == |s.threads| && r.stop == s.stop && (s.stop ==> Resigned(r));
  }

  /** Every step of every thread keeps the invariant. */
  lemma StepValid(cfg: Config, o: Options, s: State, step: Step)
    requires Valid(cfg, s) && Enabled(cfg, s, step)
    ensures Valid(cfg, Next(cfg, o, s, step))
  {
    match step
    case Worker(i, a) => WorkerKeeps(cfg, o, s, i, a);
    case Support => ServeKeeps(cfg, o, s);
    case Terminate =>
      var r := s.(stop := true);
      forall j | 0 <= j < |r.threads| ensures Mine(cfg, r, j) { assert Mine(cfg, s, j); }
  }

  // ----- runs -----

  predicate Runs(cfg: Config, o: Options, s: State, steps: seq<Step>)
    decreases |steps|
  {
    steps == [] || (Enabled(cfg, s, steps[0]) && Runs(cfg, o, Next(cfg, o, s, steps[0]), steps[1..]))
  }

  function Last(cfg: Config, o: Options, s: State, steps: seq<Step>): State
    requires Runs(cfg, o, s, steps)
    decreases |steps|
  {
    if steps == [] then s else Last(cfg, o, Next(cfg, o, s, steps[0]), steps[1..])
  }

  lemma {:induction false} RunValid(cfg: Config, o: Options, s: State, steps: seq<Step>)
    requires Valid(cfg, s) && Runs(cfg, o, s, steps)
    ensures Valid(cfg, Last(cfg, o, s, steps))
    decreases |steps|
  {
    if steps != [] {
      StepValid(cfg, o, s, steps[0]);
      RunValid(cfg, o, Next(cfg, o, s, steps[0]), steps[1..]);
    }
  }

  /** A state of some run of some number of threads. */
  ghost predicate Reachable(cfg: Config, o: Options, s: State) {
    ConfigOk(cfg) && exists n: nat, steps: seq<Step> :: Arrives(cfg, o, n, steps, s)
  }

  predicate Arrives(cfg: Config, o: Options, n: nat, steps: seq<Step>, s: State) {
    n > 0 && Runs(cfg, o, Init(cfg, n), steps) && Last(cfg, o, Init(cfg, n), steps) == s
  }

  lemma ReachableValid(cfg: Config, o: Options, s: State)
    requires Reachable(cfg, o, s)
    ensures Valid(cfg, s)
  {
    var n: nat, steps: seq<Step> :| Arrives(cfg, o, n, steps, s);
    InitValid(cfg, n);
    RunValid(cfg, o, Init(cfg, n), steps);
  }

  lemma {:induction false} OneMore(cfg: Config, o: Options, s: State, steps: seq<Step>, step: Step)
    requires Runs(cfg, o, s, steps) && Enabled(cfg, Last(cfg, o, s, steps), step)
    ensures Runs(cfg, o, s, steps + [step])
    ensures Last(cfg, o, s, steps + [step]) == Next(cfg, o, Last(cfg, o, s, steps), step)
    decreases |steps|
  {
    if steps == [] {
      assert steps + [step] == [step];
    } else {
      assert (steps + [step])[1..] == steps[1..] + [step];
      OneMore(cfg, o, Next(cfg, o, s, steps[0]), steps[1..], step);
    }
  }

  lemma ReachableNext(cfg: Config, o: Options, s: State, step: Step)
    requires Reachable(cfg, o, s) && Enabled(cfg, s, step)
    ensures Reachable(cfg, o, Next(cfg, o, s, step))
  {
    var n: nat, steps: seq<Step> :| Arrives(cfg, o, n, steps, s);
    OneMore(cfg, o, Init(cfg, n), steps, step);
    assert Arrives(cfg, o, n, steps + [step], Next(cfg, o, s, step));
  }

  lemma ReachableInit(cfg: Config, o: Options, n: nat)
    requires ConfigOk(cfg) && n > 0
    ensures Reachable(cfg, o, Init(cfg, n))
  {
    assert Arrives(cfg, o, n, [], Init(cfg, n));
  }

  // ----- what holds in every run -----

  /** The next step of thread `i` writes its stored sample. */
  predicate WorkerWrites(s: State, i: nat)
    requires i < |s.threads|
  {
    s.threads[i].phase.Closing? && (s.threads[i].phase.stage.Copy? || s.threads[i].phase.stage.Mark?)
  }

  /** The next step of the support thread reads or zeroes the stored sample of thread `i`. */
  predicate SupportTouches(s: State, i: nat) { s.pc == Adding(i) || s.pc == Zeroing(i) }

  /** The flag says whose the stored sample is: no step of the one thread is ever next
      to a conflicting step of the other. */
  lemma NoRace(cfg: Config, o: Options, s: State, i: nat)
    requires Reachable(cfg, o, s) && i < |s.threads|
    ensures WorkerWrites(s, i) ==> s.threads[i].data.consolidate
    ensures SupportTouches(s, i) ==> !s.threads[i].data.consolidate
    ensures !(WorkerWrites(s, i) && SupportTouches(s, i))
  {
    ReachableValid(cfg, o, s);
    assert Mine(cfg, s, i);
  }

  function Recorded(threads: seq<Thread>): nat {
    if threads == [] then 0 else threads[0].data.totalTasks + Recorded(threads[1..])
  }

  /** The tasks that are still with the threads. */
  function Held(pc: Pc, threads: seq<Thread>, from: nat): nat {
    if threads == [] then 0
    else (if Added(pc, from) then 0 else threads[0].data.consolidated.numTasks) + InProgress(threads[0])
         + Held(pc, threads[1..], from + 1)
  }

  lemma RecordedSplits(pc: Pc, threads: seq<Thread>, from: nat)
    requires forall j :: 0 <= j < |threads| ==> Balanced(threads[j], Added(pc, from + j))
    ensures Recorded(threads) == Taken(threads) + Held(pc, threads, from)
  {
    if threads != [] {
      assert Balanced(threads[0], Added(pc, from + 0));
      forall j | 0 <= j < |threads[1..]| ensures Balanced(threads[1..][j], Added(pc, from + 1 + j)) {
        assert Balanced(threads[j + 1], Added(pc, from + (j + 1)));
      }
      RecordedSplits(pc, threads[1..], from + 1);
    }
  }

  /** Every task that was recorded is in exactly one place: in an answer that was sent
      (or, once, dropped on termination), in the answer in the making, or still in a
      stored or running sample. */
  lemma Conserved(cfg: Config, o: Options, s: State)
    requires Reachable(cfg, o, s)
    ensures Recorded(s.threads) == s.sent + s.dropped + s.tally.tasks + Held(s.pc, s.threads, 0)
    ensures !s.stop ==> s.dropped == 0
  {
    ReachableValid(cfg, o, s);
    forall j | 0 <= j < |s.threads| ensures Balanced(s.threads[j], Added(s.pc, 0 + j)) { assert Mine(cfg, s, j); }
    RecordedSplits(s.pc, s.threads, 0);
  }

  /** What the last step makes of a tally with `good` consistent samples. */
  ghost predicate Averages(a: Answer, o: Options, t: Tally, good: nat) {
    && a.Answer? && a.report.tasks == t.tasks && a.report.throughput == t.throughput
    && (a.report.inconsistent <==> good == 0 || o.marked)
    && (!a.report.inconsistent ==> a.report.load * good as real == t.load)
    && (!a.report.inconsistent ==> a.report.latency * good as real == t.latency)
  }

  lemma FinishAll(o: Options, t: Tally, threads: nat, good: nat)
    requires t.bad + good == t.updated == threads && threads > 0
    ensures Averages(Finish(o, t, threads, false), o, t, good)
  {
    if good > 0 {
      Quotient(t.load, good as real);
      Quotient(t.latency, good as real);
    }
  }

  lemma Quotient(x: real, y: real)
    requires y != 0.0
    ensures x / y * y == x
  {
  }

  /** An answer from the samples of all threads: tasks and throughput are sums over all
      of them, and load and latency averages over those that are consistent, if there
      is one. */
  ghost predicate AnswerMeans(a: Answer, o: Options, samples: seq<Sample>) {
    var good := Consistent(samples);
    && a.Answer? && a.report.tasks as real == Sum(TasksOf, samples) && a.report.throughput == Sum(ThroughputOf, samples)
    && (a.report.inconsistent <==> good == [] || o.marked)
    && (!a.report.inconsistent ==> a.report.load * |good| as real == Sum(LoadOf, good))
    && (!a.report.inconsistent ==> a.report.latency * |good| as real == Sum(LatencyPerTask, good))
  }

  lemma AnswerFromTally(a: Answer, o: Options, t: Tally, samples: seq<Sample>)
    requires AllReadable(samples) && t == AddAll(samples) && Averages(a, o, t, |Consistent(samples)|)
    ensures AnswerMeans(a, o, samples)
  {
    AddAllMeans(samples);
  }

  lemma AnswerFromAll(o: Options, t: Tally, samples: seq<Sample>)
    requires AllReadable(samples) && t == AddAll(samples) && samples != []
    ensures t.bad <= t.updated == |samples| && AnswerMeans(Finish(o, t, |samples|, false), o, samples)
  {
    Counts(samples);
    FinishAll(o, t, |samples|, |Consistent(samples)|);
    AnswerFromTally(Finish(o, t, |samples|, false), o, t, samples);
  }

  lemma Counts(samples: seq<Sample>)
    requires AllReadable(samples)
    ensures AddAll(samples).updated == |samples| == AddAll(samples).bad + |Consistent(samples)|
  {
    AddAllMeans(samples);
  }

  lemma AllAnswered(cfg: Config, o: Options, s: State)
    requires Reachable(cfg, o, s) && s.pc.Finishing? && !s.stop
    ensures AllReadable(s.round) && s.tally == AddAll(s.round) && s.tally.updated == |s.threads| > 0
  {
    ReachableValid(cfg, o, s);
  }

  /** An answer that is sent is made of exactly as many samples as there are threads, and
      nothing in it is extrapolated. */
  lemma SentAnswer(cfg: Config, o: Options, s: State)
    requires Reachable(cfg, o, s) && s.pc.Finishing? && !s.stop
    ensures |s.round| == |s.threads| && s.tally.bad <= s.tally.updated <= |s.threads|
    ensures AnswerMeans(Finish(o, s.tally, |s.threads|, false), o, s.round)
  {
    AllAnswered(cfg, o, s);
    Counts(s.round);
    AnswerFromAll(o, s.tally, s.round);
  }

  lemma Extended(x: real, y: real, k: real, n: real)
    requires k > 0.0 && y == x + x / k * (n - k)
    ensures y * k == x * n
  {
    var each := x / k;
    assert each * k == x;
    assert y * k == (x + each * (n - k)) * k;
    assert each * (n - k) * k == each * k * (n - k);
  }

  /** An adjusted answer: throughput and threads are in the proportion in which throughput
      and answering threads were. Where all of them answer nothing changes. */
  lemma AdjustedThroughput(o: Options, t: Tally, threads: nat, stop: bool)
    requires t.bad <= t.updated <= threads && t.updated > 0
    ensures var a := Finish(o, t, threads, stop); a.Answer? && o.adjust ==>
            a.report.throughput * t.updated as real == t.throughput * threads as real
  {
    var a := Finish(o, t, threads, stop);
    if a.Answer? && o.adjust && t.updated != threads {
      Extended(t.throughput, a.report.throughput, t.updated as real, threads as real);
    }
  }

  function Ended(threads: seq<Thread>): nat { if threads == [] then 0 else threads[0].ended + Ended(threads[1..]) }

  /** What `terminate()` adds up. */
  function Total(threads: seq<Thread>): nat {
    if threads == [] then 0 else Tasks(threads[0].data) + Total(threads[1..])
  }

  lemma TotalIsEnded(cfg: Config, threads: seq<Thread>)
    requires forall j :: 0 <= j < |threads| ==> threads[j].phase.Out? && ThreadOk(cfg, threads[j])
    ensures Total(threads) == Ended(threads)
  {
    if threads != [] {
      assert threads[0].phase.Out?;
      forall j | 0 <= j < |threads[1..]| ensures threads[1..][j].phase.Out? && ThreadOk(cfg, threads[1..][j]) {
        assert threads[j + 1].phase.Out?;
      }
      TotalIsEnded(cfg, threads[1..]);
    }
  }

  /** Whatever the interleaving and the sampling lengths: the total that `terminate()`
      reports is the number of times `end()` was called, on all threads together. */
  lemma TerminateTotal(cfg: Config, o: Options, s: State)
    requires Reachable(cfg, o, s) && s.stop
    ensures Total(s.threads) == Ended(s.threads)
  {
    ReachableValid(cfg, o, s);
    forall j | 0 <= j < |s.threads| ensures s.threads[j].phase.Out? && ThreadOk(cfg, s.threads[j]) {
      assert Mine(cfg, s, j);
    }
    TotalIsEnded(cfg, s.threads);
  }

  /** How many steps the support thread is from the top of its loop. */
  function Left(n: nat, pc: Pc): int {
    match pc
    case Setting(i) => 5 * n - i + 3
    case Waiting(i) => 4 * (n - i) + 2
    case Checking(i) => 4 * (n - i) + 1
    case Adding(i) => 4 * (n - i)
    case Zeroing(i) => 4 * (n - i) - 1
    case Finishing => 1
    case _ => 0
  }

  /** The support thread waits for a thread that has not stored its sample, and not
      when the application is terminating. */
  predicate Stuck(s: State) {
    s.pc.Waiting? && s.pc.i < |s.threads| && s.threads[s.pc.i].data.consolidate && !s.stop
  }

  predicate InRound(s: State) { !s.pc.Loop? && !s.pc.Receiving? && !s.pc.Halted? && !s.pc.Failed? }

  /** The threads that have not stored their sample for this request. */
  ghost function Awaited(s: State): set<nat> {
    set j: nat | j < |s.threads| && (s.threads[j].data.consolidate || (s.pc.Setting? && s.pc.i <= j))
  }

  lemma ServeRound(cfg: Config, o: Options, s: State)
    requires Valid(cfg, s) && InRange(s) && InRound(s)
    ensures Left(|s.threads|, s.pc) > 0
    ensures Stuck(s) ==> Serve(o, s) == s
    ensures !Stuck(s) ==> Serve(o, s).pc.Loop? || InRound(Serve(o, s))
    ensures !Stuck(s) ==> 0 <= Left(|s.threads|, Serve(o, s).pc) < Left(|s.threads|, s.pc)
  {
  }

  /** Only the workers take threads out of those awaited, and the round does not end
      before all of them have. */
  lemma ServeAwaited(cfg: Config, o: Options, s: State)
    requires Valid(cfg, s) && InRange(s) && InRound(s) && !s.stop
    ensures Awaited(Serve(o, s)) == Awaited(s)
    ensures Stuck(s) ==> Awaited(s) != {}
    ensures Serve(o, s).pc.Loop? ==> Awaited(s) == {}
  {
    if Stuck(s) { assert s.pc.i in Awaited(s); }
    if s.pc.Finishing? {
      forall j: nat | j < |s.threads| ensures !s.threads[j].data.consolidate { assert Mine(cfg, s, j); }
    }
  }

  lemma WorkerAwaited(cfg: Config, o: Options, s: State, i: nat, a: Action)
    requires Valid(cfg, s) && Enabled(cfg, s, Worker(i, a))
    ensures var r := Next(cfg, o, s, Worker(i, a)); Awaited(s) - {i} <= Awaited(r) <= Awaited(s)
  {
    assert Mine(cfg, s, i);
    WorkKeeps(cfg, s.threads[i], a, s.stop, Added(s.pc, i));
  }

  /** A request makes all threads awaited; then each step of a worker takes out at most
      that thread, and no other step changes anything before all have stored. */
  lemma AwaitedFalls(cfg: Config, o: Options, s: State, step: Step)
    requires Reachable(cfg, o, s) && Enabled(cfg, s, step) && !s.stop && (s.pc.Receiving? || InRound(s))
    ensures var r := Next(cfg, o, s, step);
            match step
            case Worker(i, _) => r.pc == s.pc && Awaited(s) - {i} <= Awaited(r) <= Awaited(s)
            case Terminate => Awaited(r) == Awaited(s)
            case Support =>
              if s.pc.Receiving? then forall j: nat :: j < |s.threads| ==> j in Awaited(r)
              else Awaited(r) == Awaited(s) && (r.pc.Loop? ==> Awaited(s) == {})
  {
    ReachableValid(cfg, o, s);
    match step
    case Worker(i, a) => WorkerAwaited(cfg, o, s, i, a);
    case Terminate =>
    case Support => if InRound(s) { ServeAwaited(cfg, o, s); }
  }

  /** After `k` steps of the support thread with nobody else doing anything. */
  ghost function Served(cfg: Config, o: Options, s: State, k: nat): (r: State)
    requires Valid(cfg, s)
    ensures Valid(cfg, r)
    decreases k
  {
    if k == 0 then s
    else
      ServeKeeps(cfg, o, s);
      Served(cfg, o, Serve(o, s), k - 1)
  }

  lemma {:induction false} ServedEnds(cfg: Config, o: Options, s: State) returns (k: nat)
    requires Valid(cfg, s) && InRound(s) && (s.stop || Awaited(s) == {})
    ensures k <= Left(|s.threads|, s.pc) && Served(cfg, o, s, k).pc.Loop?
    decreases Left(|s.threads|, s.pc)
  {
    ServeKeeps(cfg, o, s);
    ServeRound(cfg, o, s);
    if !s.stop { ServeAwaited(cfg, o, s); }
    var r := Serve(o, s);
    if r.pc.Loop? {
      assert Served(cfg, o, r, 0) == r;
      k := 1;
    } else {
      var n := ServedEnds(cfg, o, r);
      k := n + 1;
    }
  }

  lemma {:induction false} ServedStays(cfg: Config, o: Options, s: State, k: nat)
    requires Valid(cfg, s) && InRound(s) && !s.stop && Awaited(s) != {}
    ensures InRound(Served(cfg, o, s, k))
    decreases k
  {
    if k > 0 {
      ServeKeeps(cfg, o, s);
      ServeRound(cfg, o, s);
      ServeAwaited(cfg, o, s);
      ServedStays(cfg, o, Serve(o, s), k - 1);
    }
  }

  /** The support thread comes to the end of a round by itself, and within `Left` steps,
      if and only if the application is terminating or every thread has stored. */
  lemma Progress(cfg: Config, o: Options, s: State)
    requires Reachable(cfg, o, s) && InRound(s)
    ensures Valid(cfg, s)
    ensures (exists k: nat :: Served(cfg, o, s, k).pc.Loop?) <==> s.stop || Awaited(s) == {}
    ensures s.stop || Awaited(s) == {} ==>
              exists k: nat :: k <= Left(|s.threads|, s.pc) && Served(cfg, o, s, k).pc.Loop?
  {
    ReachableValid(cfg, o, s);
    if s.stop || Awaited(s) == {} {
      var k := ServedEnds(cfg, o, s);
    } else {
      forall k: nat ensures !Served(cfg, o, s, k).pc.Loop? { ServedStays(cfg, o, s, k); }
    }
  }

  lemma ServeStops(cfg: Config, o: Options, s: State)
    requires Valid(cfg, s) && (InRound(s) || s.pc.Loop?) && s.stop
    ensures InRange(s)
    ensures var r := Serve(o, s); Valid(cfg, r) && r.stop && |r.threads| == |s.threads|
    ensures s.pc.Loop? ==> Serve(o, s).pc.Halted?
    ensures !s.pc.Loop? ==> InRound(Serve(o, s)) || Serve(o, s).pc.Loop?
    ensures !s.pc.Loop? ==> 0 <= Left(|s.threads|, Serve(o, s).pc) < Left(|s.threads|, s.pc)
  {
    ServeKeeps(cfg, o, s);
    if !s.pc.Loop? { ServeRound(cfg, o, s); }
  }

  lemma ServedOne(cfg: Config, o: Options, s: State, r: State, k: nat)
    requires Valid(cfg, s) && InRange(s) && r == Serve(o, s) && Valid(cfg, r)
    ensures Served(cfg, o, s, k + 1) == Served(cfg, o, r, k)
  {
  }

  lemma {:induction false} ServedHalts(cfg: Config, o: Options, s: State) returns (k: nat)
    requires Valid(cfg, s) && (InRound(s) || s.pc.Loop?) && s.stop
    ensures k <= Left(|s.threads|, s.pc) + 1 && Served(cfg, o, s, k).pc.Halted?
    decreases Left(|s.threads|, s.pc) + 1
  {
    ServeStops(cfg, o, s);
    var r, n := Serve(o, s), 0;
    if !s.pc.Loop? { n := ServedHalts(cfg, o, r); }
    ServedOne(cfg, o, s, r, n);
    k := n + 1;
  }

  /** Once the application is terminating, the support thread can be joined within `Left`
      steps and one more, whoever has not stored a sample. */
  lemma Halts(cfg: Config, o: Options, s: State)
    requires Reachable(cfg, o, s) && s.stop && (InRound(s) || s.pc.Loop?)
    ensures Valid(cfg, s)
    ensures exists k: nat :: k <= Left(|s.threads|, s.pc) + 1 && Served(cfg, o, s, k).pc.Halted?
  {
    ReachableValid(cfg, o, s);
    var k := ServedHalts(cfg, o, s);
  }

  /** The steps of the support thread, other than those of its waiting loop that find
      the flag set. */
  ghost function Advances(cfg: Config, o: Options, s: State, steps: seq<Step>): nat
    requires Runs(cfg, o, s, steps)
    decreases |steps|
  {
    if steps == [] then 0
    else (if steps[0].Support? && !Stuck(s) then 1 else 0) + Advances(cfg, o, Next(cfg, o, s, steps[0]), steps[1..])
  }

  /** The run comes to the end of the round. */
  ghost predicate Ends(cfg: Config, o: Options, s: State, steps: seq<Step>)
    requires Runs(cfg, o, s, steps)
    decreases |steps|
  {
    s.pc.Loop? || (steps != [] && Ends(cfg, o, Next(cfg, o, s, steps[0]), steps[1..]))
  }

  lemma {:induction false} AdvancesEnd(cfg: Config, o: Options, s: State, steps: seq<Step>)
    requires Valid(cfg, s) && InRound(s) && Runs(cfg, o, s, steps)
    requires Advances(cfg, o, s, steps) >= Left(|s.threads|, s.pc)
    ensures Ends(cfg, o, s, steps)
    decreases |steps|
  {
    ServeRange(cfg, s);
    ServeRound(cfg, o, s);
    var r := Next(cfg, o, s, steps[0]);
    StepValid(cfg, o, s, steps[0]);
    if r.pc.Loop? {
      assert Ends(cfg, o, r, steps[1..]);
    } else {
      AdvancesEnd(cfg, o, r, steps[1..]);
    }
  }

  /** In every interleaving: once the support thread has taken `Left` steps besides
      waiting, the round is over. */
  lemma RoundEnds(cfg: Config, o: Options, s: State, steps: seq<Step>)
    requires Reachable(cfg, o, s) && InRound(s) && Runs(cfg, o, s, steps)
    requires Advances(cfg, o, s, steps) >= Left(|s.threads|, s.pc)
    ensures Ends(cfg, o, s, steps)
  {
    ReachableValid(cfg, o, s);
    AdvancesEnd(cfg, o, s, steps);
  }

  predicate Idle(steps: seq<Step>, j: nat) {
    forall k :: 0 <= k < |steps| ==> !steps[k].Terminate? && !(steps[k].Worker? && steps[k].i == j)
  }

  lemma {:induction false} RoundStays(cfg: Config, o: Options, s: State, steps: seq<Step>, j: nat)
    requires Valid(cfg, s) && InRound(s) && !s.stop && j in Awaited(s) && Runs(cfg, o, s, steps) && Idle(steps, j)
    ensures var r := Last(cfg, o, s, steps); InRound(r) && j in Awaited(r) && r.sent == s.sent && !r.stop
    decreases |steps|
  {
    if steps != [] {
      StepValid(cfg, o, s, steps[0]);
      match steps[0] {
        case Worker(i, a) => WorkerAwaited(cfg, o, s, i, a);
        case Support =>
          ServeRound(cfg, o, s);
          ServeAwaited(cfg, o, s);
        case Terminate =>
      }
      RoundStays(cfg, o, Next(cfg, o, s, steps[0]), steps[1..], j);
    }
  }

  /** A thread that is awaited and has finished its work blocks the answer: without a
      step of that thread and without `terminate()` the round never ends, whatever the
      others do. */
  lemma RoundBlocked(cfg: Config, o: Options, s: State, steps: seq<Step>, j: nat)
    requires Reachable(cfg, o, s) && InRound(s) && !s.stop && j in Awaited(s)
    requires Runs(cfg, o, s, steps) && Idle(steps, j)
    ensures InRound(Last(cfg, o, s, steps)) && Last(cfg, o, s, steps).sent == s.sent
  {
    ReachableValid(cfg, o, s);
    RoundStays(cfg, o, s, steps, j);
  }

  ghost predicate FailsFrom(cfg: Config, o: Options, s: State) {
    exists steps: seq<Step> :: Runs(cfg, o, s, steps) && Last(cfg, o, s, steps).pc == Failed
  }

  ghost predicate CanFail(cfg: Config, o: Options, n: nat) { FailsFrom(cfg, o, Init(cfg, n)) }

  /** The two fatal errors cannot happen in any run of any number of threads but
      zero; with no thread at all the first request is fatal. */
  lemma FailsExact(cfg: Config, o: Options, n: nat)
    requires ConfigOk(cfg)
    ensures CanFail(cfg, o, n) <==> n == 0
  {
    if n > 0 {
      InitValid(cfg, n);
      forall steps | Runs(cfg, o, Init(cfg, n), steps) ensures Last(cfg, o, Init(cfg, n), steps).pc != Failed {
        RunValid(cfg, o, Init(cfg, n), steps);
      }
    } else {
      EmptyFails(cfg, o);
    }
  }

  lemma EmptyFails(cfg: Config, o: Options)
    requires ConfigOk(cfg)
    ensures CanFail(cfg, o, 0)
  {
    var s := Init(cfg, 0);
    assert Runs(cfg, o, s.(pc := Failed), []) && Last(cfg, o, s.(pc := Failed), []).pc == Failed;
    FailsBefore(cfg, o, s.(pc := Finishing), s.(pc := Failed));
    FailsBefore(cfg, o, s.(pc := Waiting(0)), s.(pc := Finishing));
    FailsBefore(cfg, o, s.(pc := Setting(0)), s.(pc := Waiting(0)));
    FailsBefore(cfg, o, s.(pc := Receiving), s.(pc := Setting(0)));
    FailsBefore(cfg, o, s, s.(pc := Receiving));
  }

  lemma FailsBefore(cfg: Config, o: Options, s: State, r: State)
    requires InRange(s) && Serve(o, s) == r && FailsFrom(cfg, o, r)
    ensures FailsFrom(cfg, o, s)
  {
    var steps: seq<Step> :| Runs(cfg, o, r, steps) && Last(cfg, o, r, steps).pc == Failed;
    assert ([Support] + steps)[1..] == steps;
    assert Runs(cfg, o, s, [Support] + steps) && Last(cfg, o, s, [Support] + steps).pc == Failed;
  }
}
