/** The objects of the instrumented application: what `begin()`, `end()`, the support
    thread and `terminate()` do to their fields. */
module Application {
  import S = Sampling
  import C = Consolidation

  class ThreadData {
    var sample: S.Sample
    var consolidatedSample: S.Sample
    var rcvStart: nat
    var computeStart: nat
    var idleTime: int
    var firstBegin: nat
    var lastEnd: nat
    var sampleStartTime: nat
    var totalTasks: nat
    var consolidate: bool
    var samplingLength: nat
    var currentSample: nat

    ghost function Data(): S.Data
      reads this
    {
      S.Data(sample, consolidatedSample, rcvStart, computeStart, idleTime, firstBegin, lastEnd, sampleStartTime,
             totalTasks, consolidate, samplingLength, currentSample)
    }

    constructor (cfg: S.Config)
      ensures Data() == S.Init(cfg)
    {
      sample, consolidatedSample := S.ZERO, S.ZERO;
      rcvStart, computeStart, idleTime, firstBegin, lastEnd := 0, 0, 0, 0, 0;
      sampleStartTime, totalTasks, consolidate, samplingLength, currentSample := 0, 0, false, cfg.base, 0;
    }

    /** `now` is the clock, should it be read. */
    method Begin(cfg: S.Config, now: nat) returns (threw: bool)
      requires S.ConfigOk(cfg) && now > rcvStart && now > sampleStartTime
      requires computeStart > 0 ==> sampleStartTime > 0
      modifies this
      ensures threw <==> S.Begin(cfg, old(Data()), now).Threw?
      ensures !threw ==> Data() == S.Begin(cfg, old(Data()), now).data
    {
      threw := false;
      currentSample := if currentSample + 1 >= samplingLength then 0 else currentSample + 1;
      if currentSample > 1 {
        return;
      }
      if firstBegin == 0 {
        firstBegin := now;
      }
      if sampleStartTime == 0 {
        sampleStartTime := now;
      }
      if computeStart != 0 {
        if currentSample == 1 || samplingLength == 1 {
          threw := CloseSample(cfg, now);
          if threw {
            return;
          }
        }
      }
      computeStart := now;
    }

    method Account(now: nat)
      requires now > rcvStart && now > sampleStartTime
      modifies `idleTime, `sample
      ensures sample == S.Closed(old(Data()), now) && idleTime == S.IdleTime(old(Data()), now)
    {
      idleTime := idleTime + (now - rcvStart) * samplingLength;
      var sampleTime := now - sampleStartTime;
      sample := sample.(throughput := sample.numTasks as real / (sampleTime as real / 1000000000.0));
      sample := sample.(load := sample.latency as real / sampleTime as real * 100.0);
    }

    method CloseSample(cfg: S.Config, now: nat) returns (threw: bool)
      requires S.ConfigOk(cfg) && now > rcvStart && now > sampleStartTime
      modifies this
      ensures threw <==> S.Sampled(cfg, old(Data()), now).Threw?
      ensures !threw ==> Data() == S.Sampled(cfg, old(Data()), now).data
    {
      threw := false;
      Account(now);
      var sampleTime := now - sampleStartTime;
      var estimated := sample.latency + idleTime;
      var oldLength, newLength := samplingLength, samplingLength;
      if cfg.samplingLengthMs != 0.0 {
        if sample.numTasks == 0 {
          return true;
        }
        newLength := S.NextLength(cfg, sample.numTasks, sampleTime);
      }
      if consolidate {
        consolidatedSample := sample;
        if S.Inconsistent(cfg, sampleTime, estimated) {
          if cfg.samplingLengthMs == 0.0 && cfg.base == 1 {
            return true;
          }
          consolidatedSample := consolidatedSample.(inconsistent := true);
        }
        sample := S.ZERO;
        idleTime := 0;
        sampleStartTime := now;
        consolidate := false;
      }
      samplingLength := newLength;
      if oldLength == 1 && samplingLength > 1 {
        currentSample := 1;
      }
      if oldLength > 1 && samplingLength == 1 {
        currentSample := 0;
      }
    }

    method End(now: nat)
      requires now > computeStart
      modifies this
      ensures Data() == S.End(old(Data()), now)
    {
      if currentSample != 0 {
        return;
      }
      rcvStart := now;
      var newLatency := rcvStart - computeStart;
      sample := sample.(latency := sample.latency + newLatency * samplingLength);
      sample := sample.(numTasks := sample.numTasks + samplingLength);
      totalTasks := totalTasks + samplingLength;
      lastEnd := now;
    }
  }

  // ----- the support thread's round, once it need not wait any more -----

  /** The samples that the threads have stored. */
  ghost function Samples(data: seq<S.Data>): seq<S.Sample> {
    if data == [] then []
    else
      var d := data[|data| - 1];
      Samples(data[..|data| - 1]) + if d.consolidate then [] else [d.consolidated]
  }

  lemma SamplesOne(data: seq<S.Data>, i: nat)
    requires i < |data|
    ensures Samples(data[..i + 1])
         == if data[i].consolidate then Samples(data[..i]) else Samples(data[..i]) + [data[i].consolidated]
  {
    assert data[..i + 1][..i] == data[..i];
  }

  /** The data once the sample, if there is one, has been taken. */
  ghost function Taken(d: S.Data): S.Data { if d.consolidate then d else d.(consolidated := S.ZERO) }

  /** A stored sample can be averaged. */
  ghost predicate Fit(d: S.Data) { d.consolidate || C.Readable(d.consolidated) }

  ghost function DataOf(threads: seq<ThreadData>): seq<S.Data>
    reads threads
  {
    seq(|threads|, i requires 0 <= i < |threads| reads threads => threads[i].Data())
  }

  ghost predicate Distinct(threads: seq<ThreadData>) {
    forall i, j :: 0 <= i < j < |threads| ==> threads[i] != threads[j]
  }

  lemma CollectOne(data: seq<S.Data>, i: nat, samples: seq<S.Sample>, t: C.Tally, t': C.Tally)
    returns (more: seq<S.Sample>)
    requires i < |data| && Fit(data[i])
    requires samples == Samples(data[..i]) && C.AllReadable(samples) && t == C.AddAll(samples)
    requires t' == if data[i].consolidate then t else C.Add(t, data[i].consolidated)
    ensures more == Samples(data[..i + 1]) && C.AllReadable(more) && t' == C.AddAll(more)
  {
    SamplesOne(data, i);
    more := samples;
    if !data[i].consolidate {
      C.AddAllOne(samples, data[i].consolidated);
      more := samples + [data[i].consolidated];
    }
  }

  method TakeSample(toAdd: ThreadData, t: C.Tally) returns (t': C.Tally)
    requires Fit(toAdd.Data())
    modifies toAdd
    ensures toAdd.Data() == Taken(old(toAdd.Data()))
    ensures var was := old(toAdd.Data());
            if was.consolidate then t' == t else C.Readable(was.consolidated) && t' == C.Add(t, was.consolidated)
  {
    t' := t;
    if !toAdd.consolidate {
      t' := C.Add(t, toAdd.consolidatedSample);
      toAdd.consolidatedSample := S.ZERO;
    }
  }

  /** The samples that have been stored are added up and zeroed; a thread that still
      has its flag set is left as it is. */
  method Collect(threads: seq<ThreadData>) returns (t: C.Tally)
    requires Distinct(threads) && forall i :: 0 <= i < |threads| ==> Fit(threads[i].Data())
    modifies threads
    ensures C.AllReadable(Samples(old(DataOf(threads)))) && t == C.AddAll(Samples(old(DataOf(threads))))
    ensures forall i :: 0 <= i < |threads| ==> threads[i].Data() == Taken(old(threads[i].Data()))
  {
    ghost var before := DataOf(threads);
    ghost var samples: seq<S.Sample> := [];
    t := C.EMPTY;
    var i := 0;
    while i < |threads|
      invariant 0 <= i <= |threads|
      invariant samples == Samples(before[..i]) && C.AllReadable(samples) && t == C.AddAll(samples)
      invariant forall j :: i <= j < |threads| ==> threads[j].Data() == before[j]
      invariant forall j :: 0 <= j < i ==> threads[j].Data() == Taken(before[j])
    {
      var toAdd := threads[i];
      assert before[i] == toAdd.Data();
      assert Fit(before[i]);
      ghost var t0 := t;
      t := TakeSample(toAdd, t);
      samples := CollectOne(before, i, samples, t0, t);
      i := i + 1;
    }
    assert before[..i] == before;
  }

  // ----- the end of the application -----

  const MAX := 0xFFFF_FFFF_FFFF_FFFF

  function Min(x: int, y: int): int { if x < y then x else y }

  function Max(x: int, y: int): int { if x > y then x else y }

  ghost function TasksOf(data: seq<S.Data>): nat {
    if data == [] then 0 else TasksOf(data[..|data| - 1]) + S.Tasks(data[|data| - 1])
  }

  ghost function Earliest(data: seq<S.Data>): int {
    if data == [] then MAX else Min(data[|data| - 1].firstBegin, Earliest(data[..|data| - 1]))
  }

  ghost function Latest(data: seq<S.Data>): nat {
    if data == [] then 0 else Max(data[|data| - 1].lastEnd, Latest(data[..|data| - 1]))
  }

  /** The execution time that `terminate()` works out, in ms: an unsigned difference of 64 bits. */
  ghost function TimeOf(data: seq<S.Data>): nat { (Latest(data) - Earliest(data)) % (MAX + 1) / 1000000 }

  /** The tasks between two samples are written down. */
  ghost function Concluded(d: S.Data): S.Data { d.(totalTasks := S.Tasks(d)) }

  /** The share of one thread. */
  method Conclude(td: ThreadData, tasks: nat, first: int, last: nat)
    returns (totalTasks: nat, firstBegin: int, lastEnd: nat)
    modifies td
    ensures td.Data() == Concluded(old(td.Data()))
    ensures totalTasks == tasks + td.totalTasks
    ensures firstBegin == Min(td.firstBegin, first) && lastEnd == Max(td.lastEnd, last)
  {
    totalTasks, firstBegin, lastEnd := tasks, first, last;
    td.totalTasks := td.totalTasks + td.currentSample;
    totalTasks := totalTasks + td.totalTasks;
    if td.firstBegin < firstBegin {
      firstBegin := td.firstBegin;
    }
    if td.lastEnd > lastEnd {
      lastEnd := td.lastEnd;
    }
  }

  /** What `terminate()` reports: all tasks, those between two samples included, and the
      time from the earliest `firstBegin` to the latest `lastEnd` of all threads. */
  method Summary(threads: seq<ThreadData>) returns (executionTime: nat, totalTasks: nat)
    requires Distinct(threads)
    modifies threads
    ensures totalTasks == TasksOf(old(DataOf(threads)))
    ensures executionTime == TimeOf(old(DataOf(threads)))
    ensures forall i :: 0 <= i < |threads| ==> threads[i].Data() == Concluded(old(threads[i].Data()))
  {
    ghost var before := DataOf(threads);
    var lastEnd, firstBegin := 0, MAX;
    totalTasks := 0;
    var i := 0;
    while i < |threads|
      invariant 0 <= i <= |threads|
      invariant totalTasks == TasksOf(before[..i])
      invariant firstBegin == Earliest(before[..i]) && lastEnd == Latest(before[..i])
      invariant forall j :: i <= j < |threads| ==> threads[j].Data() == before[j]
      invariant forall j :: 0 <= j < i ==> threads[j].Data() == Concluded(before[j])
    {
      var td := threads[i];
      assert before[i] == td.Data();
      assert before[..i + 1][..i] == before[..i];
      totalTasks, firstBegin, lastEnd := Conclude(td, totalTasks, firstBegin, lastEnd);
      i := i + 1;
    }
    assert before[..i] == before;
    executionTime := (lastEnd - firstBegin) % (MAX + 1) / 1000000;
  }
}
