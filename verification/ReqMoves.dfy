/** What each entry into the REQ socket does, in terms of what the user and the network see:
    when a request goes out, over which pipe, and when it is given up. */
module ReqMoves {
  import opened Bytes
  import opened Wire
  import opened Wrappers
  import opened Req
  import T = Timer
  import R = ReqRuns

  /** Nothing is sent, and no pipe becomes busy. */
  predicate Quiet(s: Socket, s': Socket) { s'.sent == s.sent && s'.ready == s.ready }

  /** The request on record goes out over the pipe that the load balancer picks from `ready`,
      and the timer is started with the resend interval; without a ready pipe it is
      delayed. */
  predicate Tries(s: Socket, ready: set<Pipe>, via: Via, s': Socket) {
    if ready == {} then s'.state == Delayed && s'.sentTo == None && s'.sent == s.sent && s'.ready == {}
    else
      && s'.state == Active && s'.sentTo == Some(via.pipe) && s'.sent == s.sent + [Sent(via.pipe, s'.request)]
      && s'.ready == (if via.release then ready - {via.pipe} else ready)
      && s'.timer.tasks == [T.StartTask] && s'.timer.timeout == s.ivl
  }

  predicate Stopping(s': Socket, next: State) { s'.state == next && s'.sentTo == None && T.StopTask in s'.timer.tasks }

  /** A submission is sent at once if no request is under way that has to be cancelled first. */
  lemma SubmitMoves(s: Socket, body: Buf, via: Via)
    requires Valid(s) && Enabled(s, Submit(body), via) && Csend(s, body, via).Ok?
    ensures var s' := Csend(s, body, via).req;
            && s'.pipes == s.pipes && s'.reply == s.reply
            && match s.state
               case Passive => Tries(s, s.ready, via, s')
               case Done => Tries(s, s.ready, via, s')
               case Delayed => s'.state == Delayed && Quiet(s, s')
               case _ => Stopping(s', Cancelling) && Quiet(s, s')
  {
  }

  /** The worker's task that ends a stop sends the request again after a timeout, or the
      new one after a cancellation; after an answer it leads to DONE. The task that starts
      the timer changes nothing else. */
  lemma TaskMoves(s: Socket, via: Via)
    requires Valid(s) && Enabled(s, WorkerTask, via) && Take(s, WorkerTask, via).Ok?
    ensures var s' := Take(s, WorkerTask, via).req;
            && s'.pipes == s.pipes && s'.request == s.request
            && if s.timer.tasks[0] == T.StartTask then s'.state == s.state && Quiet(s, s') && s'.sentTo == s.sentTo
               else if s.state == StoppingTimer then s'.state == Done && Quiet(s, s')
               else s.state in {TimedOut, Cancelling} && Tries(s, s.ready, via, s')
  {
    TaskValid(s, via);
    var s1 := Absorb(s, T.RunTask(s.timer)).req;
    if s.timer.tasks == [T.StopTask] {
      assert s1.events == [T.Stopped];
      DrainOne(s1, T.Stopped, via);
    }
  }

  lemma DueMoves(s: Socket, via: Via)
    requires Valid(s) && Enabled(s, WorkerDue, via) && Take(s, WorkerDue, via).Ok?
    ensures var s' := Take(s, WorkerDue, via).req;
            && s'.pipes == s.pipes && s'.request == s.request && Quiet(s, s')
            && if s.state == Active then Stopping(s', TimedOut) else s'.state == s.state
  {
    DueValid(s, via);
    var s1 := Absorb(s, T.Expire(s.timer)).req;
    if s.state == Active {
      assert s1.events == [T.Timeout];
      DrainOne(s1, T.Timeout, via);
    }
  }

  /** A pipe that becomes writable gets a delayed request. */
  lemma WritableMoves(s: Socket, p: Pipe, via: Via)
    requires Valid(s) && Enabled(s, Input.Writable(p), via) && PipeOut(s, p, via).Ok?
    ensures var s' := PipeOut(s, p, via).req;
            && s'.pipes == s.pipes && s'.request == s.request
            && if s.state == Delayed then Tries(s, {p}, via, s')
               else s'.state == s.state && s'.sent == s.sent && s'.ready == s.ready + {p} && s'.sentTo == s.sentTo
  {
    assert s.state == Delayed ==> s.ready + {p} == {p};
  }

  /** A pipe that goes takes with it the request that was sent to it. */
  lemma DetachMoves(s: Socket, p: Pipe, via: Via)
    requires Valid(s) && Enabled(s, Detach(p), via) && PipeGone(s, p, via).Ok?
    ensures var s' := PipeGone(s, p, via).req;
            && s'.pipes == s.pipes - {p} && s'.ready == s.ready - {p} && s'.sent == s.sent && s'.request == s.request
            && if s.sentTo == Some(p) then Stopping(s', TimedOut) else s'.state == s.state && s'.sentTo == s.sentTo
  {
  }

  lemma {:induction false} ArriveMoves(s: Socket, inbox: seq<Raw>, via: Via)
    requires Valid(s) && Arrive(s, inbox, via).Ok?
    ensures var s' := Arrive(s, inbox, via).req;
            && s'.pipes == s.pipes && s'.request == s.request && Quiet(s, s')
            && if s'.state == s.state then s'.sentTo == s.sentTo else Stopping(s', StoppingTimer)
    decreases |inbox|
  {
    if inbox != [] && Skipped(s, inbox[0]) { ArriveMoves(s.(reply := Dead), inbox[1..], via); }
  }

  /** The reply is handed over once. Neither error changes anything. */
  lemma FetchMoves(s: Socket, via: Via)
    requires Valid(s) && Crecv(s, via).0.Ok?
    ensures var (o, r) := Crecv(s, via);
            if s.state == Done then o.req == s.(state := Passive, reply := Blank) && r == Message(s.reply)
            else o.req == s && !r.Message?
  {
  }

  /** A request in progress ends by a fetch in DONE and in no other way, and only a
      submission begins one. */
  lemma EndsByFetch(s: Socket, input: Input, via: Via)
    requires Valid(s) && Enabled(s, input, via)
    ensures Take(s, input, via).Ok?
    ensures InProgress(Take(s, input, via).req)
       <==> input.Submit? || (InProgress(s) && !(input.Fetch? && s.state == Done))
  {
    StepValid(s, input, via);
    match input
    case Submit(body) => SubmitMoves(s, body, via);
    case Fetch => FetchMoves(s, via);
    case Incoming(inbox) => ArriveMoves(s, inbox, via);
    case Attach(_) =>
    case Writable(p) => WritableMoves(s, p, via);
    case Detach(p) => DetachMoves(s, p, via);
    case WorkerTask => TaskMoves(s, via);
    case WorkerDue => DueMoves(s, via);
  }

  // ----- over runs -----

  /** Whether a submission lies after the last fetch that delivered a reply; `open` says
      so for what was before the run. */
  ghost predicate Outstanding(s: Socket, open: bool, steps: seq<R.Step>)
    requires R.Legal(s, steps)
    decreases |steps|
  {
    if steps == [] then open
    else
      var step := steps[0];
      var o := Take(s, step.input, step.via);
      var now := if step.input.Submit? then true
                 else if step.input.Fetch? && Crecv(s, step.via).1.Message? then false
                 else open;
      if o.Ok? then Outstanding(o.req, now, steps[1..]) else now
  }

  lemma {:induction false} RunOutstanding(s: Socket, steps: seq<R.Step>)
    requires Valid(s) && R.Legal(s, steps)
    ensures R.Run(s, steps).Ok? && Valid(R.Run(s, steps).req)
    ensures InProgress(R.Run(s, steps).req) <==> Outstanding(s, InProgress(s), steps)
    decreases |steps|
  {
    if steps != [] {
      var step := steps[0];
      StepValid(s, step.input, step.via);
      EndsByFetch(s, step.input, step.via);
      if step.input.Fetch? { FetchMoves(s, step.via); }
      RunOutstanding(Take(s, step.input, step.via).req, steps[1..]);
    }
  }

  /** In every run: receiving fails with EFSM if and only if every submission has been
      answered and fetched, with EAGAIN if and only if one has not and its reply is not
      ready, and delivers a message otherwise. */
  lemma FetchCode(first: uint32, ivl: nat, steps: seq<R.Step>, via: Via)
    requires R.Legal(Init(first, ivl), steps)
    ensures R.Run(Init(first, ivl), steps).Ok?
    ensures var s, open := R.Run(Init(first, ivl), steps).req, Outstanding(Init(first, ivl), false, steps);
            var (o, r) := Crecv(s, via);
            && (r == Efsm <==> !open) && (r == Eagain <==> open && s.state != Done) && (r.Message? <==> s.state == Done)
            && (r.Message? ==> open) && (!r.Message? ==> o == Ok(s))
  {
    InitValid(first, ivl);
    RunOutstanding(Init(first, ivl), steps);
    FetchMoves(R.Run(Init(first, ivl), steps).req, via);
  }

  function Tasks(n: nat, via: Via): seq<R.Step> { seq(n, _ => R.Step(WorkerTask, via)) }

  lemma LastTask(s: Socket, via: Via)
    requires Valid(s) && s.state in {TimedOut, Cancelling} && s.timer.tasks == [T.StopTask]
    requires s.ready != {} ==> via.pipe in s.ready
    ensures R.Legal(s, Tasks(1, via)) && R.Run(s, Tasks(1, via)).Ok?
    ensures Tries(s, s.ready, via, R.Run(s, Tasks(1, via)).req)
  {
    StepValid(s, WorkerTask, via);
    TaskMoves(s, via);
    assert Tasks(1, via) == [R.Step(WorkerTask, via)] && Tasks(1, via)[1..] == [];
  }

  /** Once the worker has run the tasks queued for the timer, a request that has timed out,
      or that waits for another one to be cancelled, has been sent, or waits for a pipe. */
  lemma Resends(s: Socket, via: Via)
    requires Valid(s) && s.state in {TimedOut, Cancelling} && (s.ready != {} ==> via.pipe in s.ready)
    ensures var steps := Tasks(|s.timer.tasks|, via);
            R.Legal(s, steps) && R.Run(s, steps).Ok? && Tries(s, s.ready, via, R.Run(s, steps).req)
  {
    if s.timer.tasks == [T.StopTask] {
      LastTask(s, via);
    } else {
      StepValid(s, WorkerTask, via);
      TaskMoves(s, via);
      var s1 := Take(s, WorkerTask, via).req;
      assert s1.timer.tasks == [T.StopTask];
      LastTask(s1, via);
      assert Tasks(2, via)[1..] == Tasks(1, via);
    }
  }

  /** A request whose pipe has gone is sent again, over another pipe if there is one. */
  lemma SentElsewhere(s: Socket, p: Pipe, via: Via)
    requires Valid(s) && Enabled(s, Detach(p), via) && s.sentTo == Some(p)
    requires s.ready - {p} != {} ==> via.pipe in s.ready - {p}
    ensures PipeGone(s, p, via).Ok?
    ensures var s1 := PipeGone(s, p, via).req; var steps := Tasks(|s1.timer.tasks|, via);
            && R.Legal(s1, steps) && R.Run(s1, steps).Ok?
            && var s' := R.Run(s1, steps).req;
            && s'.request == s.request && Tries(s, s.ready - {p}, via, s') && (s'.state == Active ==> via.pipe != p)
  {
    StepValid(s, Detach(p), via);
    DetachMoves(s, p, via);
    var s1 := PipeGone(s, p, via).req;
    Resends(s1, via);
    SameRequestRun(s1, Tasks(|s1.timer.tasks|, via));
  }

  lemma {:induction false} SameRequestRun(s: Socket, steps: seq<R.Step>)
    requires Valid(s) && R.Legal(s, steps) && forall i :: 0 <= i < |steps| ==> !steps[i].input.Submit?
    ensures R.Run(s, steps).Ok? && R.Run(s, steps).req.request == s.request
    decreases |steps|
  {
    if steps != [] {
      StepValid(s, steps[0].input, steps[0].via);
      SameRequestRun(Take(s, steps[0].input, steps[0].via).req, steps[1..]);
    }
  }
}
