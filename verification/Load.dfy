/** The load in an answer, in every interleaving and with whatever sampling lengths. */
module Load {
  import opened Sampling
  import opened Handshake
  import opened C = Consolidation

  /** The stored sample of a thread, except while it has been copied and not yet marked. */
  predicate StoredOk(cfg: Config, t: Thread) {
    (t.phase.Closing? && t.phase.stage.Mark?) || LoadOk(cfg, t.data.consolidated)
  }

  predicate AllOk(cfg: Config, samples: seq<Sample>) { forall i :: 0 <= i < |samples| ==> LoadOk(cfg, samples[i]) }

  predicate Bounded(cfg: Config, s: State) {
    (forall j :: 0 <= j < |s.threads| ==> StoredOk(cfg, s.threads[j])) && AllOk(cfg, s.round)
  }

  lemma WorkBounded(cfg: Config, t: Thread, a: Action, stop: bool)
    requires ThreadOk(cfg, t) && Can(t, a, stop) && StoredOk(cfg, t)
    ensures StoredOk(cfg, Work(cfg, t, a, stop))
  {
    match a
    case Begins(at) => if !(Closes(t.data) && t.data.consolidate) { BeginStores(cfg, t.data, t.clock, at); }
    case Ends(_) =>
    case Goes => GoesBounded(cfg, t);
  }

  lemma GoesBounded(cfg: Config, t: Thread)
    requires ThreadOk(cfg, t) && t.phase.Closing? && StoredOk(cfg, t)
    ensures StoredOk(cfg, Work(cfg, t, Goes, false))
  {
    StoredLoad(cfg, t.phase.was, t.clock, t.phase.now);
  }

  lemma ServeBounded(cfg: Config, o: Options, s: State)
    requires Valid(cfg, s) && InRange(s) && Bounded(cfg, s)
    ensures Bounded(cfg, Serve(o, s))
  {
    match s.pc
    case Adding(i) => assert Mine(cfg, s, i) && StoredOk(cfg, s.threads[i]);
    case Zeroing(i) => assert Mine(cfg, s, i) && LoadOk(cfg, ZERO);
    case Setting(i) => if i < |s.threads| { assert StoredOk(cfg, SetFlag(s.threads[i])); }
    case _ =>
  }

  lemma StepBounded(cfg: Config, o: Options, s: State, step: Step)
    requires Valid(cfg, s) && Enabled(cfg, s, step) && Bounded(cfg, s)
    ensures Bounded(cfg, Next(cfg, o, s, step))
  {
    match step
    case Worker(i, a) => WorkBounded(cfg, s.threads[i], a, s.stop);
    case Support => ServeBounded(cfg, o, s);
    case Terminate =>
  }

  lemma {:induction false} RunBounded(cfg: Config, o: Options, s: State, steps: seq<Step>)
    requires Valid(cfg, s) && Bounded(cfg, s) && Runs(cfg, o, s, steps)
    ensures Bounded(cfg, Last(cfg, o, s, steps))
    decreases |steps|
  {
    if steps != [] {
      StepValid(cfg, o, s, steps[0]);
      StepBounded(cfg, o, s, steps[0]);
      RunBounded(cfg, o, Next(cfg, o, s, steps[0]), steps[1..]);
    }
  }

  lemma ReachableBounded(cfg: Config, o: Options, s: State)
    requires Reachable(cfg, o, s)
    ensures Bounded(cfg, s)
  {
    var n: nat, steps: seq<Step> :| Arrives(cfg, o, n, steps, s);
    C.InitValid(cfg, n);
    RunBounded(cfg, o, C.Init(cfg, n), steps);
  }

  lemma {:induction false} LoadSum(cfg: Config, samples: seq<Sample>)
    requires AllOk(cfg, samples) && cfg.threshold >= 0.0
    ensures 0.0 <= Sum(LoadOf, Consistent(samples)) <= |Consistent(samples)| as real * (100.0 + cfg.threshold)
  {
    if samples != [] {
      var front, last := samples[..|samples| - 1], samples[|samples| - 1];
      LoadSum(cfg, front);
      if last.inconsistent {
        assert Consistent(samples) == Consistent(front);
      } else {
        SumOne(LoadOf, Consistent(front), last);
        OneMoreLoad(|Consistent(front)|, 100.0 + cfg.threshold);
      }
    }
  }

  lemma OneMoreLoad(n: nat, most: real)
    ensures (n + 1) as real * most == n as real * most + most
  {
  }

  lemma Smaller(x: real, y: real, d: real)
    requires d > 0.0 && x * d <= y * d
    ensures x <= y
  {
    assert (y - x) * d == y * d - x * d;
  }

  lemma Average(load: real, n: nat, most: real)
    requires n > 0 && 0.0 <= load * n as real <= n as real * most
    ensures 0.0 <= load <= most
  {
    Smaller(0.0, load, n as real);
    Smaller(load, most, n as real);
  }

  lemma MeansLoad(cfg: Config, o: Options, a: Answer, samples: seq<Sample>)
    requires AnswerMeans(a, o, samples) && AllOk(cfg, samples) && cfg.threshold >= 0.0
    ensures !a.report.inconsistent ==> 0.0 <= a.report.load <= 100.0 + cfg.threshold
  {
    LoadSum(cfg, samples);
    if !a.report.inconsistent { Average(a.report.load, |Consistent(samples)|, 100.0 + cfg.threshold); }
  }

  /** In every interleaving the load in an answer that is sent and not marked inconsistent
      is a percentage, up to the threshold for inconsistent samples. */
  lemma AnswerLoad(cfg: Config, o: Options, s: State)
    requires Reachable(cfg, o, s) && s.pc.Finishing? && !s.stop
    ensures s.tally.bad <= s.tally.updated <= |s.threads|
    ensures var a := Finish(o, s.tally, |s.threads|, false);
            a.Answer? && (!a.report.inconsistent ==> 0.0 <= a.report.load <= 100.0 + cfg.threshold)
  {
    SentAnswer(cfg, o, s);
    ReachableBounded(cfg, o, s);
    MeansLoad(cfg, o, Finish(o, s.tally, |s.threads|, false), s.round);
  }
}
