/** What a thread makes of its times: the estimate, the mark of a sample whose times do not
    add up, and the next sampling length. */
module Timing {
  import opened Sampling

  // ----- the mark -----

  lemma RatioIs(x: real, e: real, t: real)
    requires e > 0.0
    ensures x / e * 100.0 > t <==> x > e * (t / 100.0)
  {
    var r, q := x / e, t / 100.0;
    assert r * e == x;
    if r > q { Times(q, r, e); } else { TimesEq(r, q, e); }
  }

  lemma Times(a: real, b: real, e: real)
    requires a < b && e > 0.0
    ensures a * e < b * e
  {
  }

  lemma TimesEq(a: real, b: real, e: real)
    requires a <= b && e > 0.0
    ensures a * e <= b * e
  {
  }

  /** An estimate of `m` is further from the elapsed time `e` than the threshold, a
      percentage, on one side or the other. */
  predicate Off(e: real, m: real, threshold: real) {
    m < e * (1.0 - threshold / 100.0) || m > e * (1.0 + threshold / 100.0)
  }

  lemma Around(e: real, q: real)
    ensures e * (1.0 - q) == e - e * q && e * (1.0 + q) == e + e * q
  {
  }

  lemma InconsistentIs(cfg: Config, elapsed: nat, estimated: nat)
    requires elapsed > 0 && cfg.threshold >= 0.0
    ensures Inconsistent(cfg, elapsed, estimated) <==> Off(elapsed as real, estimated as real, cfg.threshold)
  {
    var e, m, q := elapsed as real, estimated as real, cfg.threshold / 100.0;
    var off := if elapsed > estimated then e - m else m - e;
    assert AbsDiff(elapsed, estimated) as real == off;
    RatioIs(off, e, cfg.threshold);
    Around(e, q);
    TimesEq(0.0, q, e);
  }

  /** The time that the timed tasks and gaps stand for, at a `begin()` that closes a sample. */
  function Estimated(d: Data, now: nat): int { d.sample.latency + d.idleTime + (now - d.rcvStart) * d.length }

  /** A stored sample is marked if and only if that time is off. */
  lemma MarkExact(cfg: Config, d: Data, clock: nat, now: nat)
    requires Resting(cfg, d, clock) && clock < now && Begin(cfg, d, now).Ok? && Closes(d) && d.consolidate
    ensures Begin(cfg, d, now).data.consolidated.inconsistent
       <==> Off((now - d.sampleStart) as real, Estimated(d, now) as real, cfg.threshold)
  {
    StoredIs(cfg, d, clock, now);
    MarkIs(cfg, d, now);
  }

  lemma MarkIs(cfg: Config, d: Data, now: nat)
    requires ConfigOk(cfg) && now > d.rcvStart && now > d.sampleStart && Plausible(d)
    ensures !Closed(d, now).inconsistent
    ensures Inconsistent(cfg, now - d.sampleStart, d.sample.latency + IdleTime(d, now))
       <==> Off((now - d.sampleStart) as real, Estimated(d, now) as real, cfg.threshold)
  {
    Product(now - d.rcvStart, d.length);
    assert d.sample.latency + IdleTime(d, now) == Estimated(d, now);
    InconsistentIs(cfg, now - d.sampleStart, Estimated(d, now));
  }

  // ----- the next sampling length -----

  /** The least number of tasks that take the sampling period, at the average time per task
      of the last sample; the default if that time is nothing. */
  predicate Fits(cfg: Config, numTasks: nat, sampleTime: nat, n: nat)
    requires numTasks > 0
  {
    var each := (sampleTime / numTasks) as real;
    if each == 0.0 then n == cfg.base
    else (n as real - 1.0) * each < cfg.samplingLengthMs * 1000000.0 <= n as real * each
  }

  lemma CeilIs(x: real)
    ensures Ceil(x) as real - 1.0 < x <= Ceil(x) as real
  {
  }

  lemma ScaledIs(ms: real, each: real)
    requires each > 0.0
    ensures ms / (each / 1000000.0) * each == ms * 1000000.0
  {
    var q := each / 1000000.0;
    var r := ms / q;
    assert r * q == ms;
    assert each == q * 1000000.0;
    assert r * (q * 1000000.0) == r * q * 1000000.0;
  }

  lemma CeilFits(ms: real, each: real, n: int)
    requires each > 0.0 && n == Ceil(ms / (each / 1000000.0))
    ensures (n as real - 1.0) * each < ms * 1000000.0 <= n as real * each
  {
    var x, most := ms / (each / 1000000.0), n as real;
    CeilIs(x);
    assert x * each == ms * 1000000.0 by { ScaledIs(ms, each); }
    Times(most - 1.0, x, each);
    TimesEq(x, most, each);
    assert most * each >= x * each;
  }

  lemma LengthExact(cfg: Config, numTasks: nat, sampleTime: nat)
    requires ConfigOk(cfg) && cfg.samplingLengthMs > 0.0 && numTasks > 0
    ensures Fits(cfg, numTasks, sampleTime, NextLength(cfg, numTasks, sampleTime))
  {
    var latencyNs := sampleTime / numTasks;
    if latencyNs != 0 { CeilFits(cfg.samplingLengthMs, latencyNs as real, NextLength(cfg, numTasks, sampleTime)); }
  }

  /** The length that a `begin()` leaves behind: with a sampling period, one that fits the
      sample it has closed; otherwise the one before. */
  lemma BeginLength(cfg: Config, d: Data, clock: nat, now: nat)
    requires Resting(cfg, d, clock) && clock < now && Begin(cfg, d, now).Ok?
    ensures var e := Begin(cfg, d, now).data;
            if Closes(d) && cfg.samplingLengthMs > 0.0
            then d.sample.numTasks > 0 && Fits(cfg, d.sample.numTasks, now - d.sampleStart, e.length)
            else e.length == d.length
  {
    if Closes(d) && cfg.samplingLengthMs > 0.0 { LengthExact(cfg, d.sample.numTasks, now - d.sampleStart); }
  }

  // ----- the estimate, over runs -----

  /** A time that was measured, and the number of tasks it stands for. */
  datatype Span = Span(time: nat, length: nat)

  /** The gaps before a task and the tasks that were timed since the last sample was stored. */
  datatype Log = Log(gaps: seq<Span>, tasks: seq<Span>)

  function Sum(spans: seq<Span>): nat {
    if spans == [] then 0 else Sum(spans[..|spans| - 1]) + spans[|spans| - 1].time * spans[|spans| - 1].length
  }

  function Number(spans: seq<Span>): nat {
    if spans == [] then 0 else Number(spans[..|spans| - 1]) + spans[|spans| - 1].length
  }

  lemma OneMore(spans: seq<Span>, s: Span)
    ensures Sum(spans + [s]) == Sum(spans) + s.time * s.length && Number(spans + [s]) == Number(spans) + s.length
  {
    assert (spans + [s])[..|spans|] == spans;
  }

  /** The log after a `begin()` at `from`, the last `end()` having been at `clock`. */
  function LogBegin(d: Data, clock: nat, from: nat, log: Log): Log
    requires clock < from
  {
    if !Closes(d) then log
    else if d.consolidate then Log([], [])
    else log.(gaps := log.gaps + [Span(from - clock, d.length)])
  }

  /** And after the `end()` of that task. */
  function LogEnd(d: Data, from: nat, to: nat, log: Log): Log
    requires from < to
  {
    if d.current == 0 then log.(tasks := log.tasks + [Span(to - from, d.length)]) else log
  }

  /** What one task adds to the log. */
  function LogRound(cfg: Config, d: Data, clock: nat, r: Round, log: Log): Log
    requires Resting(cfg, d, clock) && clock < r.from < r.to
  {
    BeginKeeps(cfg, d, clock, r.from);
    LogEnd(Begin(cfg, d, r.from).data, r.from, r.to, LogBegin(d, clock, r.from, log))
  }

  function Record(cfg: Config, d: Data, clock: nat, rounds: seq<Round>, log: Log): Log
    requires Resting(cfg, d, clock) && Clocked(rounds, clock)
    decreases |rounds|
  {
    if rounds == [] then log
    else
      var r, asked := rounds[0], d.(consolidate := d.consolidate || rounds[0].ask);
      BeginKeeps(cfg, asked, clock, r.from);
      var working := Begin(cfg, asked, r.from).data;
      EndKeeps(cfg, working, r.from, r.to);
      Record(cfg, End(working, r.to), r.to, rounds[1..], LogRound(cfg, asked, clock, r, log))
  }

  /** The fields are the sums over the log; a thread that is about to time a gap has timed
      the last `end()`. */
  predicate Logged(d: Data, clock: nat, log: Log) {
    && d.sample.latency == Sum(log.tasks) && d.sample.numTasks == Number(log.tasks) && d.idleTime == Sum(log.gaps)
    && (d.computeStart > 0 && d.current == 0 ==> d.rcvStart == clock)
  }

  lemma BeginLogged(cfg: Config, d: Data, clock: nat, now: nat, log: Log)
    requires Resting(cfg, d, clock) && clock < now && Begin(cfg, d, now).Ok? && Logged(d, clock, log)
    ensures var e, log' := Begin(cfg, d, now).data, LogBegin(d, clock, now, log);
            && e.sample.latency == Sum(log'.tasks) && e.sample.numTasks == Number(log'.tasks)
            && e.idleTime == Sum(log'.gaps) && (e.current == 0 ==> e.computeStart == now)
  {
    OneMore(log.gaps, Span(now - clock, d.length));
  }

  lemma EndLogged(d: Data, from: nat, to: nat, log: Log)
    requires d.sample.latency == Sum(log.tasks) && d.sample.numTasks == Number(log.tasks) && d.idleTime == Sum(log.gaps)
    requires from < to && d.computeStart < to && (d.current == 0 ==> d.computeStart == from)
    ensures Logged(End(d, to), to, LogEnd(d, from, to, log))
  {
    OneMore(log.tasks, Span(to - from, d.length));
  }

  lemma RoundLogged(cfg: Config, d: Data, clock: nat, r: Round, log: Log) returns (end: Data, more: Log)
    requires Resting(cfg, d, clock) && clock < r.from < r.to && Logged(d, clock, log)
    ensures Begin(cfg, d, r.from).Ok?
    ensures end == End(Begin(cfg, d, r.from).data, r.to) && more == LogRound(cfg, d, clock, r, log)
    ensures Resting(cfg, end, r.to) && Logged(end, r.to, more)
  {
    BeginKeeps(cfg, d, clock, r.from);
    var e := Begin(cfg, d, r.from).data;
    EndKeeps(cfg, e, r.from, r.to);
    BeginLogged(cfg, d, clock, r.from, log);
    EndLogged(e, r.from, r.to, LogBegin(d, clock, r.from, log));
    end, more := End(e, r.to), LogRound(cfg, d, clock, r, log);
  }

  lemma AskedLogged(cfg: Config, d: Data, clock: nat, ask: bool, log: Log)
    requires Resting(cfg, d, clock) && Logged(d, clock, log)
    ensures var asked := d.(consolidate := d.consolidate || ask);
            Resting(cfg, asked, clock) && Logged(asked, clock, log)
  {
  }

  lemma UnfoldFirst(cfg: Config, d: Data, clock: nat, rounds: seq<Round>, log: Log, asked: Data, end: Data)
    requires Resting(cfg, d, clock) && Clocked(rounds, clock) && rounds != []
    requires asked == d.(consolidate := d.consolidate || rounds[0].ask)
    requires Resting(cfg, asked, clock) && Begin(cfg, asked, rounds[0].from).Ok?
    requires end == End(Begin(cfg, asked, rounds[0].from).data, rounds[0].to) && Resting(cfg, end, rounds[0].to)
    ensures Run(cfg, d, clock, rounds) == Run(cfg, end, rounds[0].to, rounds[1..])
    ensures var more := LogRound(cfg, asked, clock, rounds[0], log);
            Record(cfg, d, clock, rounds, log) == Record(cfg, end, rounds[0].to, rounds[1..], more)
    ensures LastTick(clock, rounds) == LastTick(rounds[0].to, rounds[1..])
  {
  }

  /** In every run: the latency is the sum of the timed tasks and the idle time the sum of
      the timed gaps since the last sample was stored, each as often as the sampling
      length then said, and the tasks of the sample are those lengths. */
  lemma {:induction false} EstimateExact(cfg: Config, d: Data, clock: nat, rounds: seq<Round>, log: Log)
    requires Resting(cfg, d, clock) && Clocked(rounds, clock) && Logged(d, clock, log)
    ensures Logged(Run(cfg, d, clock, rounds), LastTick(clock, rounds), Record(cfg, d, clock, rounds, log))
    decreases |rounds|
  {
    if rounds != [] {
      var r, asked := rounds[0], d.(consolidate := d.consolidate || rounds[0].ask);
      AskedLogged(cfg, d, clock, r.ask, log);
      var end, more := RoundLogged(cfg, asked, clock, r, log);
      UnfoldFirst(cfg, d, clock, rounds, log, asked, end);
      EstimateExact(cfg, end, r.to, rounds[1..], more);
    }
  }

  /** What a fresh thread has at a `begin()` that closes a sample: the estimate is the sum
      of everything timed since the last sample was stored, this gap included. */
  lemma EstimateFresh(cfg: Config, rounds: seq<Round>, now: nat)
    requires ConfigOk(cfg) && Clocked(rounds, 0) && LastTick(0, rounds) < now
    ensures Resting(cfg, Init(cfg), 0)
    ensures var d, log := Run(cfg, Init(cfg), 0, rounds), Record(cfg, Init(cfg), 0, rounds, Log([], []));
            Closes(d) ==>
              Estimated(d, now) == Sum(log.tasks) + Sum(log.gaps + [Span(now - LastTick(0, rounds), d.length)])
  {
    InitResting(cfg);
    EstimateExact(cfg, Init(cfg), 0, rounds, Log([], []));
    var d, log := Run(cfg, Init(cfg), 0, rounds), Record(cfg, Init(cfg), 0, rounds, Log([], []));
    if Closes(d) { OneMore(log.gaps, Span(now - LastTick(0, rounds), d.length)); }
  }
}
