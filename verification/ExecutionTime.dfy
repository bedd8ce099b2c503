/** What the reported execution time has to do with the documented one, which is from the
    first call of `begin()` to the last call of `end()`, on whatever threads. */
module ExecutionTime {
  import opened Sampling
  import opened Handshake
  import C = Consolidation
  import A = Application

  ghost function Fields(threads: seq<Thread>): seq<Data> {
    if threads == [] then [] else Fields(threads[..|threads| - 1]) + [threads[|threads| - 1].data]
  }

  /** From where to where `terminate()` measures. */
  ghost function From(threads: seq<Thread>): int {
    if threads == [] then A.MAX else A.Min(threads[|threads| - 1].data.firstBegin, From(threads[..|threads| - 1]))
  }

  ghost function To(threads: seq<Thread>): nat {
    if threads == [] then 0 else A.Max(threads[|threads| - 1].data.lastEnd, To(threads[..|threads| - 1]))
  }

  ghost function Reported(threads: seq<Thread>): nat { (To(threads) - From(threads)) % (A.MAX + 1) / 1000000 }

  /** It is what `Application.Summary` works out from the fields of the threads. */
  lemma {:induction false} ReportedIs(threads: seq<Thread>)
    ensures A.Earliest(Fields(threads)) == From(threads) && A.Latest(Fields(threads)) == To(threads)
    ensures A.TimeOf(Fields(threads)) == Reported(threads)
  {
    if threads != [] {
      var front := threads[..|threads| - 1];
      ReportedIs(front);
      assert Fields(threads)[..|Fields(threads)| - 1] == Fields(front);
    }
  }

  /** The first call of `begin()` of all, beyond all times if there was none. */
  ghost function FirstBegin(threads: seq<Thread>): int {
    if threads == [] then A.MAX
    else
      var t, before := threads[|threads| - 1], FirstBegin(threads[..|threads| - 1]);
      if t.first == 0 then before else A.Min(t.first, before)
  }

  /** The last call of `end()` of all. */
  ghost function LastEnd(threads: seq<Thread>): nat {
    if threads == [] then 0 else A.Max(threads[|threads| - 1].last, LastEnd(threads[..|threads| - 1]))
  }

  ghost predicate AllBegan(threads: seq<Thread>) { forall i :: 0 <= i < |threads| ==> threads[i].first > 0 }

  ghost predicate SomeBegan(threads: seq<Thread>) { exists i :: 0 <= i < |threads| && threads[i].first > 0 }

  /** The last call of `end()` was timed: the thread that made it is not between samples. */
  ghost predicate LastTimed(threads: seq<Thread>) {
    exists i :: 0 <= i < |threads| && threads[i].last == LastEnd(threads) && threads[i].data.current == 0
  }

  /** What is known of threads that have all come to rest, on a clock of 64 bits. */
  ghost predicate Rested(t: Thread) {
    && t.data.firstBegin == t.first <= A.MAX && t.data.lastEnd <= t.last <= A.MAX
    && (t.data.lastEnd == t.last <==> t.data.current == 0) && (t.first > 0 ==> t.first < t.last)
  }

  ghost predicate AllRested(threads: seq<Thread>) { forall i :: 0 <= i < |threads| ==> Rested(threads[i]) }

  /** The earliest `firstBegin` is the first begin if and only if every thread has begun;
      a thread that never did has the zero of the clock there. */
  lemma {:induction false} EarliestIs(threads: seq<Thread>)
    requires AllRested(threads)
    ensures From(threads) == if AllBegan(threads) then FirstBegin(threads) else 0
    ensures 0 < FirstBegin(threads) <= A.MAX
  {
    if threads != [] {
      var n := |threads| - 1;
      EarliestIs(threads[..n]);
      assert Rested(threads[n]);
      assert AllBegan(threads) <==> AllBegan(threads[..n]) && threads[n].first > 0;
    }
  }

  lemma {:induction false} LastEndBounds(threads: seq<Thread>)
    ensures forall i :: 0 <= i < |threads| ==> threads[i].last <= LastEnd(threads)
    ensures threads != [] ==> exists i :: 0 <= i < |threads| && threads[i].last == LastEnd(threads)
  {
    if threads != [] {
      var n := |threads| - 1;
      LastEndBounds(threads[..n]);
      assert forall i :: 0 <= i < n ==> threads[..n][i] == threads[i];
      if n > 0 && threads[n].last < LastEnd(threads[..n]) {
        var i :| 0 <= i < n && threads[..n][i].last == LastEnd(threads[..n]);
        assert threads[i].last == LastEnd(threads);
      } else {
        assert threads[n].last == LastEnd(threads);
      }
    }
  }

  lemma {:induction false} LatestBounds(threads: seq<Thread>)
    ensures forall i :: 0 <= i < |threads| ==> threads[i].data.lastEnd <= To(threads)
    ensures threads != [] ==> exists i :: 0 <= i < |threads| && threads[i].data.lastEnd == To(threads)
  {
    if threads != [] {
      var n := |threads| - 1;
      LatestBounds(threads[..n]);
      assert forall i :: 0 <= i < n ==> threads[..n][i] == threads[i];
      if n > 0 && threads[n].data.lastEnd < To(threads[..n]) {
        var i :| 0 <= i < n && threads[..n][i].data.lastEnd == To(threads[..n]);
        assert threads[i].data.lastEnd == To(threads);
      } else {
        assert threads[n].data.lastEnd == To(threads);
      }
    }
  }

  /** The latest `lastEnd` is the last end if and only if that call was timed; otherwise it
      is earlier. */
  lemma LatestIs(threads: seq<Thread>)
    requires AllRested(threads) && threads != []
    ensures To(threads) <= LastEnd(threads) <= A.MAX
    ensures To(threads) == LastEnd(threads) <==> LastTimed(threads)
  {
    LastEndBounds(threads);
    LatestBounds(threads);
    var j :| 0 <= j < |threads| && threads[j].last == LastEnd(threads);
    var k :| 0 <= k < |threads| && threads[k].data.lastEnd == To(threads);
    assert Rested(threads[j]) && Rested(threads[k]);
    if i :| 0 <= i < |threads| && threads[i].last == LastEnd(threads) && threads[i].data.current == 0 {
      assert Rested(threads[i]);
    }
  }

  lemma SomeInterval(threads: seq<Thread>)
    requires AllRested(threads) && SomeBegan(threads)
    ensures FirstBegin(threads) < LastEnd(threads)
  {
    var i :| 0 <= i < |threads| && threads[i].first > 0;
    assert Rested(threads[i]);
    LastEndBounds(threads);
    FirstBeginBelow(threads, i);
  }

  lemma {:induction false} FirstBeginBelow(threads: seq<Thread>, i: nat)
    requires i < |threads| && threads[i].first > 0
    ensures FirstBegin(threads) <= threads[i].first
    decreases |threads|
  {
    if i < |threads| - 1 { FirstBeginBelow(threads[..|threads| - 1], i); }
  }

  lemma StoppedRested(cfg: Config, o: C.Options, s: C.State)
    requires C.Reachable(cfg, o, s) && s.stop && forall i :: 0 <= i < |s.threads| ==> s.threads[i].clock <= A.MAX
    ensures AllRested(s.threads) && s.threads != []
  {
    C.ReachableValid(cfg, o, s);
    forall i | 0 <= i < |s.threads| ensures Rested(s.threads[i]) {
      assert C.Mine(cfg, s, i) && s.threads[i].phase.Out?;
    }
  }

  /** In every interleaving: `terminate()` measures from the first `begin()` to the last
      `end()` if and only if every thread has begun and the last `end()` was timed. */
  lemma IntervalExact(cfg: Config, o: C.Options, s: C.State)
    requires C.Reachable(cfg, o, s) && s.stop && forall i :: 0 <= i < |s.threads| ==> s.threads[i].clock <= A.MAX
    ensures From(s.threads) == FirstBegin(s.threads) && To(s.threads) == LastEnd(s.threads)
       <==> AllBegan(s.threads) && LastTimed(s.threads)
  {
    StoppedRested(cfg, o, s);
    EarliestIs(s.threads);
    LatestIs(s.threads);
  }

  /** What is measured too much because of a thread that never began. */
  ghost function Before(threads: seq<Thread>): int { if AllBegan(threads) then 0 else FirstBegin(threads) }

  /** What is not measured because the last `end()` was not timed. */
  ghost function Missing(threads: seq<Thread>): int { LastEnd(threads) - To(threads) }

  ghost function Documented(threads: seq<Thread>): int { (LastEnd(threads) - FirstBegin(threads)) / 1000000 }

  /** `ns` nanoseconds more or less `shift` are as many ms, on a clock that wraps. */
  predicate SameMs(ns: nat, shift: int) {
    if ns + shift >= 0 then 0 <= ns % 1000000 + shift < 1000000 else 0 <= ns % 1000000 + shift + (A.MAX + 1) < 1000000
  }

  lemma SameQuotient(a: nat, b: nat)
    ensures a / 1000000 == b / 1000000 <==> 0 <= a % 1000000 + (b - a) < 1000000
  {
  }

  /** In every interleaving: the reported time in ms is the documented one if and only if
      what is measured too much and what is missing do not lead out of the same ms. They
      are nothing if every thread has begun and the last `end()` was timed. */
  lemma TimeExact(cfg: Config, o: C.Options, s: C.State)
    requires C.Reachable(cfg, o, s) && s.stop && forall i :: 0 <= i < |s.threads| ==> s.threads[i].clock <= A.MAX
    requires SomeBegan(s.threads)
    ensures FirstBegin(s.threads) < LastEnd(s.threads)
    ensures Reported(s.threads) == Documented(s.threads)
       <==> SameMs(LastEnd(s.threads) - FirstBegin(s.threads), Before(s.threads) - Missing(s.threads))
    ensures Before(s.threads) == 0 <==> AllBegan(s.threads)
    ensures Missing(s.threads) == 0 <==> LastTimed(s.threads)
    ensures AllBegan(s.threads) && LastTimed(s.threads) ==> Reported(s.threads) == Documented(s.threads)
  {
    StoppedRested(cfg, o, s);
    TimeOfRested(s.threads);
  }

  lemma TimeOfRested(threads: seq<Thread>)
    requires AllRested(threads) && threads != [] && SomeBegan(threads)
    ensures FirstBegin(threads) < LastEnd(threads)
    ensures Reported(threads) == Documented(threads)
       <==> SameMs(LastEnd(threads) - FirstBegin(threads), Before(threads) - Missing(threads))
    ensures Before(threads) == 0 <==> AllBegan(threads)
    ensures Missing(threads) == 0 <==> LastTimed(threads)
    ensures AllBegan(threads) && LastTimed(threads) ==> Reported(threads) == Documented(threads)
  {
    EarliestIs(threads);
    LatestIs(threads);
    SomeInterval(threads);
    Wrapped(LastEnd(threads) - FirstBegin(threads), Before(threads) - Missing(threads), To(threads) - From(threads));
  }

  lemma Wrapped(ns: nat, shift: int, measured: int)
    requires measured == ns + shift && -A.MAX <= measured <= A.MAX
    ensures measured % (A.MAX + 1) / 1000000 == ns / 1000000 <==> SameMs(ns, shift)
  {
    if measured >= 0 {
      assert measured % (A.MAX + 1) == measured;
      SameQuotient(ns, measured);
    } else {
      assert measured % (A.MAX + 1) == measured + A.MAX + 1;
      SameQuotient(ns, measured + A.MAX + 1);
    }
  }

  // ----- two applications whose time is reported wrong -----

  /** One task of thread `i`. */
  lemma OneTask(cfg: Config, o: C.Options, s: C.State, i: nat, from: nat, to: nat) returns (r: C.State)
    requires C.Reachable(cfg, o, s) && i < |s.threads| && s.threads[i].phase.Out? && !s.stop
    requires s.threads[i].clock < from < to && !s.threads[i].data.consolidate
    ensures C.Reachable(cfg, o, r) && |r.threads| == |s.threads| && !r.stop
    ensures forall j :: 0 <= j < |s.threads| && j != i ==> r.threads[j] == s.threads[j]
    ensures var t, u := s.threads[i], r.threads[i];
            && ThreadOk(cfg, t) && ThreadOk(cfg, u) && u.phase.Out? && u.clock == u.last == to && !u.data.consolidate
            && u.first == (if t.first == 0 then from else t.first)
            && Begin(cfg, t.data, from).Ok? && u.data == End(Begin(cfg, t.data, from).data, to)
  {
    C.ReachableValid(cfg, o, s);
    assert C.Mine(cfg, s, i);
    var t := s.threads[i];
    BeginKeeps(cfg, t.data, t.clock, from);
    BeginStores(cfg, t.data, t.clock, from);
    C.ReachableNext(cfg, o, s, C.Worker(i, Begins(from)));
    var s1 := C.Next(cfg, o, s, C.Worker(i, Begins(from)));
    C.ReachableValid(cfg, o, s1);
    assert C.Mine(cfg, s1, i);
    C.ReachableNext(cfg, o, s1, C.Worker(i, Ends(to)));
    r := C.Next(cfg, o, s1, C.Worker(i, Ends(to)));
    C.ReachableValid(cfg, o, r);
    assert C.Mine(cfg, r, i);
  }

  lemma Stopped(cfg: Config, o: C.Options, s: C.State) returns (r: C.State)
    requires C.Reachable(cfg, o, s) && C.Resigned(s)
    ensures C.Reachable(cfg, o, r) && r == s.(stop := true)
  {
    C.ReachableNext(cfg, o, s, C.Terminate);
    r := s.(stop := true);
  }

  const ADAPTIVE := Config(10.0, 5.0, 1)

  /** After a first task of 1 ns. */
  const TIMED := Data(Sample(false, 0.0, 0.0, 1, 1), ZERO, 2, 1, 0, 1, 2, 1, 1, false, 1, 0)

  lemma FirstTask()
    ensures Leads(ADAPTIVE, Sampling.Init(ADAPTIVE), 1, 2, TIMED)
  {
  }

  /** The next `begin()` closes the sample; the new length is five million tasks. */
  lemma SecondTask(end: nat)
    requires end > 3
    ensures Begin(ADAPTIVE, TIMED, 3).Ok?
    ensures var d := End(Begin(ADAPTIVE, TIMED, 3).data, end); d.current == 1 && d.firstBegin == 1 && d.lastEnd == 2
  {
    assert 10.0 / (2 as real / 1000000.0) == 5000000.0;
    assert NextLength(ADAPTIVE, 1, 2) == 5000000;
  }

  lemma AfterOne(cfg: Config, o: C.Options, from: nat, to: nat, d: Data) returns (s: C.State)
    requires 0 < from < to && Leads(cfg, Sampling.Init(cfg), from, to, d)
    ensures C.Reachable(cfg, o, s) && |s.threads| == 1 && !s.stop && !d.consolidate
    ensures var t := s.threads[0]; t.data == d && t.phase.Out? && t.clock == t.last == to && t.first == from
  {
    C.ReachableInit(cfg, o, 1);
    s := OneTask(cfg, o, C.Init(cfg, 1), 0, from, to);
  }

  lemma AfterFirst(o: C.Options) returns (s: C.State)
    ensures C.Reachable(ADAPTIVE, o, s) && |s.threads| == 1 && !s.stop
    ensures var t := s.threads[0]; t.data == TIMED && t.phase.Out? && t.clock == t.last == 2 && t.first == 1
  {
    FirstTask();
    s := AfterOne(ADAPTIVE, o, 1, 2, TIMED);
  }

  lemma AfterSecond(o: C.Options, end: nat) returns (s: C.State)
    requires end > 3
    ensures C.Reachable(ADAPTIVE, o, s) && |s.threads| == 1 && s.threads[0].phase.Out?
    ensures var t := s.threads[0]; t.first == t.data.firstBegin == 1 && t.last == end && t.data.lastEnd == 2
  {
    var s1 := AfterFirst(o);
    SecondTask(end);
    s := OneTask(ADAPTIVE, o, s1, 0, 3, end);
  }

  /** Two tasks, the second of almost five seconds: it begins between two samples, its end
      is not timed, and no time at all is reported. */
  lemma UntimedEndExample(o: C.Options) returns (s: C.State)
    ensures C.Reachable(ADAPTIVE, o, s) && s.stop && AllBegan(s.threads)
    ensures Reported(s.threads) == 0 && Documented(s.threads) == 4999
  {
    var s2 := AfterSecond(o, 5000000000);
    s := Stopped(ADAPTIVE, o, s2);
    OneThread(s.threads, 1, 5000000000);
  }

  lemma OneThread(threads: seq<Thread>, first: nat, last: nat)
    requires |threads| == 1 && threads[0].first == first > 0 && threads[0].last == last && first <= A.MAX
    ensures FirstBegin(threads) == first && LastEnd(threads) == last
    ensures From(threads) == A.Min(threads[0].data.firstBegin, A.MAX) && To(threads) == threads[0].data.lastEnd
  {
    assert threads[..0] == [];
  }

  lemma TwoThreads(threads: seq<Thread>, first: nat, last: nat)
    requires |threads| == 2 && 0 < first <= A.MAX
    requires threads[0].first == threads[0].data.firstBegin == first
    requires threads[0].last == threads[0].data.lastEnd == last
    requires threads[1].first == threads[1].data.firstBegin == 0 && threads[1].last == threads[1].data.lastEnd == 0
    ensures FirstBegin(threads) == first && LastEnd(threads) == last && From(threads) == 0 && To(threads) == last
  {
    OneThread(threads[..1], first, last);
  }

  /** The state after one task of the first of two threads. */
  lemma OneOfTwo(cfg: Config, o: C.Options, from: nat, to: nat) returns (s: C.State)
    requires cfg == Config(0.0, 5.0, 1) && 0 < from < to
    ensures C.Reachable(cfg, o, s) && s.stop && |s.threads| == 2
    ensures var t := s.threads[0];
            t.first == t.data.firstBegin == from && t.last == t.data.lastEnd == to && t.data.current == 0
    ensures var t := s.threads[1]; t.first == t.data.firstBegin == 0 && t.last == t.data.lastEnd == 0
  {
    C.ReachableInit(cfg, o, 2);
    var s0 := C.Init(cfg, 2);
    var s1 := OneTask(cfg, o, s0, 0, from, to);
    assert s1.threads[1] == s0.threads[1];
    s := Stopped(cfg, o, s1);
  }

  /** One thread works for a second, the other one never begins: two seconds are reported,
      from the zero of the clock. */
  lemma NeverBeganExample(o: C.Options) returns (cfg: Config, s: C.State)
    ensures C.Reachable(cfg, o, s) && s.stop && LastTimed(s.threads)
    ensures Reported(s.threads) == 2000 && Documented(s.threads) == 1000
  {
    cfg := Config(0.0, 5.0, 1);
    s := OneOfTwo(cfg, o, 1000000000, 2000000000);
    TwoThreads(s.threads, 1000000000, 2000000000);
    assert s.threads[0].last == LastEnd(s.threads);
  }
}
