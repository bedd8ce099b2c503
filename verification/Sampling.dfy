/** What one worker thread records about its tasks: the adaptive sampling of
    `begin()` and `end()`. Arithmetic is exact. */
module Sampling {
  /** `numTasks` and the times are whole numbers; the quotients are not. */
  datatype Sample = Sample(inconsistent: bool, load: real, throughput: real, latency: int, numTasks: nat)

  const ZERO := Sample(false, 0.0, 0.0, 0, 0)

  /** `base` is the sampling length a thread starts with. */
  datatype Config = Config(samplingLengthMs: real, threshold: real, base: nat)

  predicate ConfigOk(cfg: Config) {
    cfg.samplingLengthMs >= 0.0 && cfg.threshold >= 0.0 && cfg.base >= 1
  }

  datatype Data = Data(
    sample: Sample, consolidated: Sample,
    rcvStart: nat, computeStart: nat, idleTime: int, firstBegin: nat, lastEnd: nat, sampleStart: nat,
    totalTasks: nat, consolidate: bool, length: nat, current: nat)

  /** A call either returns or throws. */
  datatype Outcome = Ok(data: Data) | Threw

  function Init(cfg: Config): Data {
    Data(ZERO, ZERO, 0, 0, 0, 0, 0, 0, 0, false, cfg.base, 0)
  }

  function Ceil(x: real): int {
    if x.Floor as real == x then x.Floor else x.Floor + 1
  }

  lemma Positive(a: real, b: real)
    requires a > 0.0 && b > 0.0
    ensures a / b > 0.0
  {
  }

  /** `updateSamplingLength`, for at least one task. */
  function NextLength(cfg: Config, numTasks: nat, sampleTime: nat): (n: nat)
    requires ConfigOk(cfg) && cfg.samplingLengthMs > 0.0 && numTasks > 0
    ensures n >= 1
  {
    var latencyNs := sampleTime / numTasks;
    if latencyNs == 0 then cfg.base
    else
      Positive(cfg.samplingLengthMs, latencyNs as real / 1000000.0);
      Ceil(cfg.samplingLengthMs / (latencyNs as real / 1000000.0))
  }

  function AbsDiff(x: int, y: int): int { if x > y then x - y else y - x }

  /** The latency and the idle time do not add up to the time that has passed. */
  predicate Inconsistent(cfg: Config, sampleTime: nat, estimated: int)
    requires sampleTime > 0
  {
    AbsDiff(sampleTime, estimated) as real / sampleTime as real * 100.0 > cfg.threshold
  }

  /** The sample as it stands when the thread closes it at `now`. */
  function Closed(d: Data, now: nat): Sample
    requires now > d.sampleStart
  {
    var sampleTime := now - d.sampleStart;
    d.sample.(
      throughput := d.sample.numTasks as real / (sampleTime as real / 1000000000.0),
      load := d.sample.latency as real / sampleTime as real * 100.0)
  }

  function IdleTime(d: Data, now: nat): int
    requires now > d.rcvStart
  {
    d.idleTime + (now - d.rcvStart) * d.length
  }

  /** The second half of a sampled `begin()`: a sample is complete. */
  function Sampled(cfg: Config, d: Data, now: nat): Outcome
    requires ConfigOk(cfg) && now > d.rcvStart && now > d.sampleStart
  {
    var idle := IdleTime(d, now);
    var sampleTime := now - d.sampleStart;
    var sample := Closed(d, now);
    if cfg.samplingLengthMs != 0.0 && sample.numTasks == 0 then Threw
    else
      var newLength := if cfg.samplingLengthMs != 0.0 then NextLength(cfg, sample.numTasks, sampleTime) else d.length;
      var wrong := Inconsistent(cfg, sampleTime, sample.latency + idle);
      if d.consolidate && wrong && cfg.samplingLengthMs == 0.0 && cfg.base == 1 then Threw
      else
        var d1 :=
          if d.consolidate then
            d.(consolidated := sample.(inconsistent := sample.inconsistent || wrong),
               sample := ZERO, idleTime := 0, sampleStart := now, consolidate := false)
          else d.(sample := sample, idleTime := idle);
        Ok(d1.(length := newLength,
               current := if d.length == 1 && newLength > 1 then 1
                          else if d.length > 1 && newLength == 1 then 0
                          else d.current))
  }

  /** Whether this `begin()` closes a sample. */
  predicate Closes(d: Data) {
    d.computeStart != 0 && (d.length == 1 || d.current == 0)
  }

  /** `begin()`. */
  function Begin(cfg: Config, d: Data, now: nat): Outcome
    requires ConfigOk(cfg) && now > d.rcvStart && now > d.sampleStart
    requires d.computeStart > 0 ==> d.sampleStart > 0
  {
    var current := if d.current + 1 >= d.length then 0 else d.current + 1;
    var d1 := d.(current := current);
    if current > 1 then Ok(d1)
    else
      var d2 := d1.(firstBegin := if d1.firstBegin == 0 then now else d1.firstBegin,
                    sampleStart := if d1.sampleStart == 0 then now else d1.sampleStart);
      if d2.computeStart != 0 && (current == 1 || d2.length == 1) then
        match Sampled(cfg, d2, now)
        case Threw => Threw
        case Ok(d3) => Ok(d3.(computeStart := now))
      else Ok(d2.(computeStart := now))
  }

  /** `end()`. */
  function End(d: Data, now: nat): Data
    requires now > d.computeStart
  {
    if d.current != 0 then d
    else
      d.(rcvStart := now,
         sample := d.sample.(latency := d.sample.latency + (now - d.computeStart) * d.length,
                             numTasks := d.sample.numTasks + d.length),
         totalTasks := d.totalTasks + d.length, lastEnd := now)
  }

  // ----- what every call keeps -----

  /** The tasks completed so far, including those not yet written down. */
  function Tasks(d: Data): nat { d.totalTasks + d.current }

  /** Every task is timed, so that the estimated time is the real one. */
  predicate Telescoping(cfg: Config) { cfg.samplingLengthMs == 0.0 && cfg.base == 1 }

  predicate Sane(cfg: Config, d: Data, clock: nat) {
    && ConfigOk(cfg) && d.current < d.length
    && d.rcvStart <= clock && d.sampleStart <= d.computeStart <= clock
    && (d.computeStart > 0 ==> d.sampleStart > 0)
    && (d.computeStart > 0 <==> d.firstBegin > 0) && d.lastEnd == d.rcvStart
    && (cfg.samplingLengthMs == 0.0 ==> d.length == cfg.base)
  }

  predicate Plausible(d: Data) { d.sample.latency >= 0 && d.idleTime >= 0 && !d.sample.inconsistent }

  /** Between an `end()` and the next `begin()`. If that one will be sampled, there
      are tasks in the sample. */
  predicate Resting(cfg: Config, d: Data, clock: nat) { RestingOk(cfg, d, clock) && Plausible(d) }

  predicate RestingOk(cfg: Config, d: Data, clock: nat) {
    && Sane(cfg, d, clock)
    && (d.computeStart == 0 ==> d == Init(cfg).(consolidate := d.consolidate, consolidated := d.consolidated))
    && (d.computeStart > 0 && d.current == 0 ==> d.sample.numTasks > 0)
    && (Telescoping(cfg) && d.computeStart > 0 ==> d.sample.latency + d.idleTime == d.rcvStart - d.sampleStart)
  }

  /** Between a `begin()` and its `end()`. */
  predicate Working(cfg: Config, d: Data, clock: nat) { WorkingOk(cfg, d, clock) && Plausible(d) }

  predicate WorkingOk(cfg: Config, d: Data, clock: nat) {
    && Sane(cfg, d, clock) && d.computeStart > 0
    && (Telescoping(cfg) ==> d.sample.latency + d.idleTime == d.computeStart - d.sampleStart)
  }

  /** What `Tasks` will be once the running task is done. */
  function TasksNext(d: Data): nat {
    if d.current == 0 then d.totalTasks + d.length else d.totalTasks + d.current
  }

  lemma InitResting(cfg: Config)
    requires ConfigOk(cfg)
    ensures Resting(cfg, Init(cfg), 0) && Tasks(Init(cfg)) == 0
  {
  }

  lemma Product(a: nat, b: nat)
    ensures a * b >= 0
  {
  }

  lemma BeginOk(cfg: Config, d: Data, clock: nat, now: nat)
    requires RestingOk(cfg, d, clock) && clock < now
    ensures var o := Begin(cfg, d, now);
            && o.Ok? && WorkingOk(cfg, o.data, now)
            && TasksNext(o.data) == Tasks(d) + 1 && o.data.totalTasks == d.totalTasks
  {
  }

  lemma BeginPlausible(cfg: Config, d: Data, clock: nat, now: nat)
    requires RestingOk(cfg, d, clock) && clock < now && Plausible(d) && Begin(cfg, d, now).Ok?
    ensures Plausible(Begin(cfg, d, now).data)
  {
    Product(now - d.rcvStart, d.length);
  }

  /** `begin()` never throws, whatever the new sampling length, and claims one task more. */
  lemma BeginKeeps(cfg: Config, d: Data, clock: nat, now: nat)
    requires Resting(cfg, d, clock) && clock < now
    ensures var o := Begin(cfg, d, now);
            o.Ok? && Working(cfg, o.data, now) && TasksNext(o.data) == Tasks(d) + 1 && o.data.totalTasks == d.totalTasks
  {
    BeginOk(cfg, d, clock, now);
    BeginPlausible(cfg, d, clock, now);
  }

  /** `firstBegin` is set by the first `begin()` of all and by no other; `lastEnd` is set
      by exactly those calls of `end()` that are timed. */
  lemma BeginTimes(cfg: Config, d: Data, clock: nat, now: nat)
    requires Resting(cfg, d, clock) && clock < now && Begin(cfg, d, now).Ok?
    ensures var e := Begin(cfg, d, now).data;
            e.firstBegin == (if d.computeStart == 0 then now else d.firstBegin) && e.lastEnd == d.lastEnd
  {
  }

  /** A `begin()` that closes a sample when one is asked for hands over all the tasks
      of the sample, and there is at least one; any other `begin()` hands over nothing. */
  lemma BeginStores(cfg: Config, d: Data, clock: nat, now: nat)
    requires Resting(cfg, d, clock) && clock < now && Begin(cfg, d, now).Ok?
    ensures var e := Begin(cfg, d, now).data;
            if Closes(d) && d.consolidate
            then e.consolidated.numTasks == d.sample.numTasks > 0 && e.sample == ZERO && !e.consolidate
            else
              && e.consolidated == d.consolidated && e.sample.numTasks == d.sample.numTasks
              && e.consolidate == d.consolidate
  {
  }

  lemma EndOk(cfg: Config, d: Data, clock: nat, now: nat)
    requires WorkingOk(cfg, d, clock) && clock < now
    ensures RestingOk(cfg, End(d, now), now) && Tasks(End(d, now)) == TasksNext(d)
  {
  }

  lemma EndPlausible(cfg: Config, d: Data, clock: nat, now: nat)
    requires WorkingOk(cfg, d, clock) && clock < now && Plausible(d)
    ensures Plausible(End(d, now))
  {
    Product(now - d.computeStart, d.length);
  }

  lemma EndKeeps(cfg: Config, d: Data, clock: nat, now: nat)
    requires Working(cfg, d, clock) && clock < now
    ensures Resting(cfg, End(d, now), now) && Tasks(End(d, now)) == TasksNext(d)
  {
    EndOk(cfg, d, clock, now);
    EndPlausible(cfg, d, clock, now);
  }

  /** When everything is timed, latency and idle time are the elapsed time, to the
      nanosecond: the sample is consistent. */
  lemma TimesTelescope(cfg: Config, d: Data, clock: nat, now: nat)
    requires Resting(cfg, d, clock) && clock < now && Telescoping(cfg) && d.computeStart > 0
    ensures d.sample.latency + (d.idleTime + (now - d.rcvStart) * d.length) == now - d.sampleStart
    ensures !Inconsistent(cfg, now - d.sampleStart, d.sample.latency + (d.idleTime + (now - d.rcvStart) * d.length))
  {
  }

  /** What a sample says: the throughput is the number of tasks by the elapsed seconds,
      the load the share of the elapsed time that was spent in tasks, in percent. It is
      above 100 if and only if the latency, which is extrapolated from the timed tasks,
      exceeds the elapsed time, and never when everything is timed. */
  lemma ClosedMeans(cfg: Config, d: Data, clock: nat, now: nat)
    requires Resting(cfg, d, clock) && clock < now && d.computeStart > 0
    ensures var s, elapsed := Closed(d, now), (now - d.sampleStart) as real;
            && s.throughput * elapsed == s.numTasks as real * 1000000000.0
            && s.load * elapsed == s.latency as real * 100.0 && s.load >= 0.0
    ensures Closed(d, now).load <= 100.0 <==> d.sample.latency <= now - d.sampleStart
    ensures Telescoping(cfg) ==> Closed(d, now).load <= 100.0
  {
    var busy, elapsed := d.sample.latency as real, (now - d.sampleStart) as real;
    Monotone(0.0, busy, elapsed);
    if Telescoping(cfg) { TimesTelescope(cfg, d, clock, now); }
    Share(busy, elapsed);
  }

  lemma Share(part: real, whole: real)
    requires 0.0 <= part && whole > 0.0
    ensures part / whole <= 1.0 <==> part <= whole
  {
    if part <= whole { Monotone(part, whole, whole); }
    assert part / whole * whole == part;
  }

  /** With whatever sampling lengths, the load of a sample that is not marked inconsistent
      is not negative, and above 100 by at most the threshold. */
  predicate LoadOk(cfg: Config, s: Sample) {
    !s.inconsistent ==> 0.0 <= s.load <= 100.0 + cfg.threshold
  }

  lemma LoadBound(busy: nat, idle: nat, elapsed: nat, threshold: real)
    requires elapsed > 0 && threshold >= 0.0
    requires AbsDiff(elapsed, busy + idle) as real / elapsed as real * 100.0 <= threshold
    ensures 0.0 <= busy as real / elapsed as real * 100.0 <= 100.0 + threshold
  {
    var off, whole := AbsDiff(elapsed, busy + idle) as real, elapsed as real;
    assert busy as real <= whole + off;
    Monotone(busy as real, whole + off, whole);
    OnePlus(off, whole);
  }

  lemma Monotone(x: real, y: real, d: real)
    requires 0.0 <= x <= y && d > 0.0
    ensures 0.0 <= x / d <= y / d
  {
  }

  lemma QuotientIs(x: real, q: real, d: real)
    requires d > 0.0 && x == q * d
    ensures x / d == q
  {
  }

  lemma OnePlus(off: real, whole: real)
    requires whole > 0.0
    ensures (whole + off) / whole == 1.0 + off / whole
  {
    var r := off / whole;
    assert r * whole == off;
    QuotientIs(whole + off, 1.0 + r, whole);
  }

  lemma StoredIs(cfg: Config, d: Data, clock: nat, now: nat)
    requires Resting(cfg, d, clock) && clock < now && Begin(cfg, d, now).Ok? && Closes(d) && d.consolidate
    ensures d.computeStart > 0 && now > d.rcvStart && now > d.sampleStart
    ensures var s, wrong := Closed(d, now), Inconsistent(cfg, now - d.sampleStart, d.sample.latency + IdleTime(d, now));
            Begin(cfg, d, now).data.consolidated == s.(inconsistent := s.inconsistent || wrong)
  {
  }

  lemma StoredLoad(cfg: Config, d: Data, clock: nat, now: nat)
    requires Resting(cfg, d, clock) && clock < now && Begin(cfg, d, now).Ok? && Closes(d) && d.consolidate
    ensures LoadOk(cfg, Begin(cfg, d, now).data.consolidated)
  {
    StoredIs(cfg, d, clock, now);
    LoadOfClosed(cfg, d, now);
  }

  lemma LoadOfClosed(cfg: Config, d: Data, now: nat)
    requires ConfigOk(cfg) && now > d.rcvStart && now > d.sampleStart && Plausible(d)
    ensures var s := Closed(d, now);
            !Inconsistent(cfg, now - d.sampleStart, d.sample.latency + IdleTime(d, now)) ==>
              0.0 <= s.load <= 100.0 + cfg.threshold
  {
    var idle, elapsed := IdleTime(d, now), now - d.sampleStart;
    Product(now - d.rcvStart, d.length);
    if !Inconsistent(cfg, elapsed, d.sample.latency + idle) {
      LoadBound(d.sample.latency, idle, elapsed, cfg.threshold);
    }
  }

  // ----- whole runs of one thread -----

  /** One task: whether the support thread asks for a sample before it, and its times. */
  datatype Round = Round(ask: bool, from: nat, to: nat)

  predicate Clocked(rounds: seq<Round>, clock: nat) {
    rounds == [] || (clock < rounds[0].from < rounds[0].to && Clocked(rounds[1..], rounds[0].to))
  }

  function Run(cfg: Config, d: Data, clock: nat, rounds: seq<Round>): (end: Data)
    requires Resting(cfg, d, clock) && Clocked(rounds, clock)
    ensures Resting(cfg, end, LastTick(clock, rounds)) && Tasks(end) == Tasks(d) + |rounds|
    decreases |rounds|
  {
    if rounds == [] then d
    else
      var asked := d.(consolidate := d.consolidate || rounds[0].ask);
      BeginKeeps(cfg, asked, clock, rounds[0].from);
      var working := Begin(cfg, asked, rounds[0].from).data;
      EndKeeps(cfg, working, rounds[0].from, rounds[0].to);
      Run(cfg, End(working, rounds[0].to), rounds[0].to, rounds[1..])
  }

  function LastTick(clock: nat, rounds: seq<Round>): nat {
    if rounds == [] then clock else rounds[|rounds| - 1].to
  }

  /** After any tasks at all: `firstBegin` is the time of the first `begin()`, and `lastEnd`
      the time of the last `end()` if and only if that call was timed. */
  lemma {:induction false} TimesExact(cfg: Config, d: Data, clock: nat, rounds: seq<Round>)
    requires Resting(cfg, d, clock) && Clocked(rounds, clock) && rounds != []
    ensures var end := Run(cfg, d, clock, rounds);
            && end.firstBegin == (if d.computeStart == 0 then rounds[0].from else d.firstBegin)
            && end.lastEnd <= LastTick(clock, rounds)
            && (end.lastEnd == LastTick(clock, rounds) <==> end.current == 0)
    decreases |rounds|
  {
    var asked := d.(consolidate := d.consolidate || rounds[0].ask);
    BeginKeeps(cfg, asked, clock, rounds[0].from);
    BeginTimes(cfg, asked, clock, rounds[0].from);
    var working := Begin(cfg, asked, rounds[0].from).data;
    EndKeeps(cfg, working, rounds[0].from, rounds[0].to);
    if |rounds| > 1 {
      TimesExact(cfg, End(working, rounds[0].to), rounds[0].to, rounds[1..]);
    }
  }

  predicate Unasked(rounds: seq<Round>) { forall i :: 0 <= i < |rounds| ==> !rounds[i].ask }

  /** How many tasks a thread that has been asked for a sample takes to begin until it has
      stored one. */
  function Due(d: Data): int { if Closes(d) then 1 else d.length - d.current + 1 }

  lemma DueFalls(cfg: Config, d: Data, clock: nat, from: nat, to: nat)
    requires Resting(cfg, d, clock) && clock < from < to && d.consolidate
    requires Begin(cfg, d, from).Ok? && to > Begin(cfg, d, from).data.computeStart
    ensures var e := End(Begin(cfg, d, from).data, to);
            Due(d) >= 1 && (e.consolidate <==> Due(d) > 1) && (e.consolidate ==> Due(e) == Due(d) - 1)
  {
  }

  /** A thread that goes on working answers: it has cleared its flag after `Due` tasks and
      not before. */
  lemma {:induction false} StoresExact(cfg: Config, d: Data, clock: nat, rounds: seq<Round>)
    requires Resting(cfg, d, clock) && Clocked(rounds, clock) && Unasked(rounds) && d.consolidate
    ensures !Run(cfg, d, clock, rounds).consolidate <==> |rounds| >= Due(d)
    decreases |rounds|
  {
    if rounds != [] {
      var working, to := Begin(cfg, d, rounds[0].from), rounds[0].to;
      BeginKeeps(cfg, d, clock, rounds[0].from);
      EndKeeps(cfg, working.data, rounds[0].from, to);
      DueFalls(cfg, d, clock, rounds[0].from, to);
      assert d.(consolidate := true) == d;
      var e := End(working.data, to);
      assert Unasked(rounds[1..]) by { assert forall i :: 0 <= i < |rounds| - 1 ==> rounds[1..][i] == rounds[i + 1]; }
      if e.consolidate { StoresExact(cfg, e, to, rounds[1..]); } else { StaysClear(cfg, e, to, rounds[1..]); }
    }
  }

  lemma {:induction false} StaysClear(cfg: Config, d: Data, clock: nat, rounds: seq<Round>)
    requires Resting(cfg, d, clock) && Clocked(rounds, clock) && Unasked(rounds) && !d.consolidate
    ensures !Run(cfg, d, clock, rounds).consolidate
    decreases |rounds|
  {
    if rounds != [] {
      BeginKeeps(cfg, d, clock, rounds[0].from);
      BeginStores(cfg, d, clock, rounds[0].from);
      var working := Begin(cfg, d, rounds[0].from).data;
      EndKeeps(cfg, working, rounds[0].from, rounds[0].to);
      assert d.(consolidate := d.consolidate || rounds[0].ask) == d;
      assert Unasked(rounds[1..]) by { assert forall i :: 0 <= i < |rounds| - 1 ==> rounds[1..][i] == rounds[i + 1]; }
      StaysClear(cfg, End(working, rounds[0].to), rounds[0].to, rounds[1..]);
    }
  }

  /** What a task makes of the data of a thread. */
  predicate Leads(cfg: Config, d: Data, from: nat, to: nat, e: Data) {
    && ConfigOk(cfg) && from > d.rcvStart && from > d.sampleStart && (d.computeStart > 0 ==> d.sampleStart > 0)
    && Begin(cfg, d, from).Ok?
    && to > Begin(cfg, d, from).data.computeStart && e == End(Begin(cfg, d, from).data, to)
  }

  const PAIRS := Config(10.0, 5.0, 2)

  /** Every second of the first two tasks is timed: the one of 52 ns after one of 48 ns. */
  const UNTIMED := Data(ZERO, ZERO, 0, 1, 0, 1, 0, 1, 0, false, 2, 1)
  const PAIR := Data(Sample(false, 0.0, 0.0, 104, 2), ZERO, 102, 50, 0, 1, 102, 1, 2, false, 2, 0)

  lemma PairsFirst()
    ensures Leads(PAIRS, Init(PAIRS), 1, 49, UNTIMED)
  {
  }

  lemma PairsSecond()
    ensures Leads(PAIRS, UNTIMED, 50, 102, PAIR)
  {
  }

  lemma PairsLoad(d: Data)
    requires d == PAIR.(consolidate := true)
    ensures Closed(d, 103).load > 100.0 && !Inconsistent(PAIRS, 102, d.sample.latency + IdleTime(d, 103))
  {
  }

  /** The `begin()` at `now` stores a load of more than 100 and does not mark the sample. */
  predicate StoresAbove(cfg: Config, d: Data, clock: nat, now: nat) {
    && Resting(cfg, d, clock) && clock < now && Begin(cfg, d, now).Ok?
    && !Begin(cfg, d, now).data.consolidated.inconsistent && Begin(cfg, d, now).data.consolidated.load > 100.0
  }

  lemma LoadAbove(cfg: Config, d: Data, clock: nat, now: nat)
    requires Resting(cfg, d, clock) && clock < now && d.consolidate && Closes(d) && !d.sample.inconsistent
    requires now > d.rcvStart && now > d.sampleStart && Closed(d, now).load > 100.0
    requires !Inconsistent(cfg, now - d.sampleStart, d.sample.latency + IdleTime(d, now))
    ensures StoresAbove(cfg, d, clock, now)
  {
    BeginKeeps(cfg, d, clock, now);
    StoredIs(cfg, d, clock, now);
  }

  lemma PairRests()
    ensures Resting(PAIRS, PAIR.(consolidate := true), 102)
  {
  }

  /** Two tasks of a fresh thread, of which the second is timed and a little longer than
      the first, and a request in between. */
  lemma LoadAboveExample()
    ensures Leads(PAIRS, Init(PAIRS), 1, 49, UNTIMED) && Leads(PAIRS, UNTIMED, 50, 102, PAIR)
    ensures StoresAbove(PAIRS, PAIR.(consolidate := true), 102, 103)
  {
    PairsFirst();
    PairsSecond();
    PairRests();
    var d := PAIR.(consolidate := true);
    PairsLoad(d);
    LoadAbove(PAIRS, d, 102, 103);
  }

  /** For every run of n tasks and every sequence of adaptive sampling lengths, what
      `terminate()` adds up for the thread is n. */
  lemma CountIsExact(cfg: Config, rounds: seq<Round>)
    requires ConfigOk(cfg) && Clocked(rounds, 0)
    ensures Resting(cfg, Init(cfg), 0)
    ensures var end := Run(cfg, Init(cfg), 0, rounds);
            end.totalTasks + end.current == |rounds| && end.current < end.length
  {
    InitResting(cfg);
  }
}
