/** The support thread of `Monitoring`, whose rounds are one state with a set of awaited
    threads, is that of `Consolidation`: every step there is no step, one step or a few
    steps of the protocol. */
module Rounds {
  import opened Sampling
  import opened Handshake
  import C = Consolidation
  import M = Monitoring

  /** What both show: where the support thread is, who is awaited in a round, and whether
      the application is terminating. */
  datatype View = View(support: M.Support, awaited: set<nat>, stop: bool, threads: nat)

  /** The last step of a round decides about the answer and sends it. */
  function Place(pc: C.Pc): M.Support {
    match pc
    case Loop => M.Loop
    case Receiving => M.Receiving
    case Finishing => M.Deciding
    case Halted => M.Ended
    case _ => M.Working
  }

  ghost function ViewOf(c: C.State): View {
    View(Place(c.pc), if Place(c.pc).Working? then C.Awaited(c) else {}, c.stop, |c.threads|)
  }

  function Shown(m: M.State): View { View(m.support, if m.support.Working? then m.waiting else {}, m.stop, m.threads) }

  /** The steps of the protocol that a step of the threads stands for. */
  ghost function Shadow(c: C.State, step: C.Step, c': C.State): seq<M.Step> {
    match step
    case Worker(i, _) => if i in C.Awaited(c) && i !in C.Awaited(c') then [M.Stores(i)] else []
    case Support =>
      if Place(c.pc) == Place(c'.pc) then []
      else if c.pc.Finishing? && !c.stop then [M.SupportStep, M.SupportStep]
      else [M.SupportStep]
    case Terminate => if c.stop then [] else [M.Terminates(C.Total(c.threads))]
  }

  /** What the step needs from the rest of the protocol: a request to receive, and
      `terminate()` called once, after the start. */
  predicate Ready(m: M.State, c: C.State, step: C.Step) {
    && (step.Support? && c.pc.Receiving? ==> m.toApp != [])
    && (step.Terminate? && !c.stop ==> m.started && m.terminator.Running?)
  }

  lemma InRoundAwaited(cfg: Config, o: C.Options, c: C.State)
    requires C.Valid(cfg, c) && C.InRange(c) && Place(c.pc).Working?
    ensures C.Awaited(C.Serve(o, c)) == C.Awaited(c)
    ensures C.Serve(o, c).pc.Finishing? && !c.stop ==> C.Awaited(c) == {}
  {
    if C.Serve(o, c).pc.Finishing? {
      forall j: nat | j < |c.threads| ensures c.threads[j].data.consolidate ==> c.stop { assert C.Mine(cfg, c, j); }
    }
  }

  /** The steps are a run of the protocol, and lead to what the threads show then. They
      send an answer if and only if a round ends without `terminate()`. */
  ghost predicate Shadowed(c: C.State, step: C.Step, c': C.State, m: M.State) {
    var steps := Shadow(c, step, c');
    && M.Runs(m, steps) && Shown(M.Last(m, steps)) == ViewOf(c')
    && M.Last(m, steps).toMonitor
       == m.toMonitor + if step.Support? && c.pc.Finishing? && !c.stop then [M.SampleRes] else []
  }

  lemma OneStep(m: M.State, step: M.Step)
    requires M.Enabled(m, step)
    ensures M.Runs(m, [step]) && M.Last(m, [step]) == M.Next(m, step)
  {
    assert [step][1..] == [];
  }

  lemma TwoSteps(m: M.State, a: M.Step, b: M.Step)
    requires M.Enabled(m, a) && M.Enabled(M.Next(m, a), b)
    ensures M.Runs(m, [a, b]) && M.Last(m, [a, b]) == M.Next(M.Next(m, a), b)
  {
    assert [a, b][1..] == [b];
    OneStep(M.Next(m, a), b);
  }

  lemma NoStep(c: C.State, step: C.Step, c': C.State, m: M.State)
    requires Shadow(c, step, c') == [] && Shown(m) == ViewOf(c')
    requires !(step.Support? && c.pc.Finishing? && !c.stop)
    ensures Shadowed(c, step, c', m)
  {
    assert m.toMonitor + [] == m.toMonitor;
  }

  lemma InRoundShadowed(cfg: Config, o: C.Options, c: C.State, m: M.State)
    requires C.Valid(cfg, c) && C.InRange(c) && Shown(m) == ViewOf(c) && Place(c.pc).Working?
    ensures Shadowed(c, C.Support, C.Serve(o, c), m)
  {
    var c' := C.Serve(o, c);
    InRoundAwaited(cfg, o, c);
    if c'.pc.Finishing? { OneStep(m, M.SupportStep); } else { NoStep(c, C.Support, c', m); }
  }

  lemma FinishShadowed(cfg: Config, o: C.Options, c: C.State, m: M.State)
    requires C.Valid(cfg, c) && C.InRange(c) && Shown(m) == ViewOf(c) && c.pc.Finishing?
    ensures Shadowed(c, C.Support, C.Serve(o, c), m)
  {
    C.ServeKeeps(cfg, o, c);
    if c.stop { OneStep(m, M.SupportStep); } else { TwoSteps(m, M.SupportStep, M.SupportStep); }
  }

  lemma AllAwaited(c: C.State)
    requires c.pc == C.Setting(0)
    ensures C.Awaited(c) == M.All(|c.threads|)
  {
  }

  lemma StartShadowed(o: C.Options, c: C.State, m: M.State)
    requires C.InRange(c) && Shown(m) == ViewOf(c) && c.pc.Receiving? && m.toApp != []
    ensures Shadowed(c, C.Support, C.Serve(o, c), m)
  {
    AllAwaited(C.Serve(o, c));
    OneStep(m, M.SupportStep);
  }

  lemma SupportShadowed(cfg: Config, o: C.Options, c: C.State, m: M.State)
    requires C.Valid(cfg, c) && C.InRange(c) && Shown(m) == ViewOf(c) && Ready(m, c, C.Support)
    ensures Shadowed(c, C.Support, C.Serve(o, c), m)
  {
    match c.pc
    case Loop => OneStep(m, M.SupportStep);
    case Receiving => StartShadowed(o, c, m);
    case Finishing => FinishShadowed(cfg, o, c, m);
    case Halted => NoStep(c, C.Support, c, m);
    case Failed =>
    case _ => InRoundShadowed(cfg, o, c, m);
  }

  lemma WorkerShadowed(cfg: Config, o: C.Options, c: C.State, m: M.State, i: nat, a: Action)
    requires C.Valid(cfg, c) && C.Enabled(cfg, c, C.Worker(i, a)) && Shown(m) == ViewOf(c)
    ensures Shadowed(c, C.Worker(i, a), C.Next(cfg, o, c, C.Worker(i, a)), m)
  {
    var c' := C.Next(cfg, o, c, C.Worker(i, a));
    C.WorkerAwaited(cfg, o, c, i, a);
    assert C.Mine(cfg, c, i);
    if i in C.Awaited(c) && i !in C.Awaited(c') {
      assert C.Awaited(c') == C.Awaited(c) - {i};
      OneStep(m, M.Stores(i));
    } else {
      assert C.Awaited(c') == C.Awaited(c);
      NoStep(c, C.Worker(i, a), c', m);
    }
  }

  /** Every step of every thread is a run of the protocol. */
  lemma StepShadowed(cfg: Config, o: C.Options, c: C.State, m: M.State, step: C.Step)
    requires C.Reachable(cfg, o, c) && C.Enabled(cfg, c, step) && Shown(m) == ViewOf(c) && Ready(m, c, step)
    ensures Shadowed(c, step, C.Next(cfg, o, c, step), m)
  {
    C.ReachableValid(cfg, o, c);
    match step
    case Worker(i, a) => WorkerShadowed(cfg, o, c, m, i, a);
    case Support => SupportShadowed(cfg, o, c, m);
    case Terminate =>
      if c.stop { NoStep(c, step, c, m); } else { OneStep(m, M.Terminates(C.Total(c.threads))); }
  }
}
