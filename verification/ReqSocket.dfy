/** The REQ socket and its timer as objects that change step by step. Each method does
    what the function of the same name in `Req` or `Timer` says; every assertion of
    the source is an assertion here. */
module ReqSocket {
  import opened Bytes
  import opened Wire
  import opened Wrappers
  import opened P = Req
  import T = Timer

  class ResendTimer {
    var fsm: T.Fsm
    var state: T.State
    var timeout: int
    var tasks: seq<T.Task>
    var armed: bool
    var interval: int

    constructor ()
      ensures Value() == T.INIT
    {
      fsm, state, timeout, tasks, armed, interval := T.FsmIdle, T.Idle, -1, [], false, -1;
    }

    function Value(): T.Timer
      reads this
    {
      T.Timer(fsm, state, timeout, tasks, armed, interval)
    }

    method Execute(task: T.Task)
      requires task !in tasks
      modifies `tasks
      ensures tasks == old(tasks) + [task]
    {
      tasks := tasks + [task];
    }

    method Start(after: int)
      requires T.Start(Value(), after, false).Ok?
      modifies this
      ensures T.Ok(Value(), []) == T.Start(old(Value()), after, false)
    {
      assert after >= 0;
      timeout := after;
      assert fsm == T.FsmIdle;
      assert state == T.Idle;
      state := T.Active;
      Execute(T.StartTask);
      fsm := T.FsmActive;
    }

    method Stop()
      requires T.Stop(Value()).Ok?
      modifies this
      ensures T.Ok(Value(), []) == T.Stop(old(Value()))
    {
      if fsm != T.FsmActive { return; }
      fsm := T.FsmStopping;
      state := T.Stopping;
      Execute(T.StopTask);
    }

    method Feed(input: T.Input) returns (raised: seq<T.Event>)
      requires T.Feed(Value(), input).Ok?
      modifies this
      ensures T.Ok(Value(), raised) == T.Feed(old(Value()), input)
    {
      if fsm != T.FsmStopping {
        raised := Handler(input);
      } else {
        raised := Shutdown(input);
      }
    }

    method Handler(input: T.Input) returns (raised: seq<T.Event>)
      requires T.Handler(Value(), input).Ok?
      modifies this
      ensures T.Ok(Value(), raised) == T.Handler(old(Value()), input)
    {
      assert state == T.Active;
      match input
      case TaskDone(task) =>
        assert task == T.StartTask;
        assert timeout >= 0;
        armed, interval, timeout, raised := true, timeout, -1, [];
      case Due =>
        assert timeout == -1;
        raised := [T.Timeout];
    }

    method Shutdown(input: T.Input) returns (raised: seq<T.Event>)
      requires T.Shutdown(Value(), input).Ok?
      modifies this
      ensures T.Ok(Value(), raised) == T.Shutdown(old(Value()), input)
    {
      assert state == T.Stopping;
      if input != T.TaskDone(T.StopTask) { return []; }
      armed := false;
      state := T.Idle;
      raised := [T.Stopped];
      fsm := T.FsmIdle;
    }

    method RunTask() returns (raised: seq<T.Event>)
      requires tasks != [] && T.RunTask(Value()).Ok?
      modifies this
      ensures T.Ok(Value(), raised) == T.RunTask(old(Value()))
    {
      var task := tasks[0];
      tasks := tasks[1..];
      raised := Feed(T.TaskDone(task));
    }

    method Expire() returns (raised: seq<T.Event>)
      requires armed && T.Expire(Value()).Ok?
      modifies this
      ensures T.Ok(Value(), raised) == T.Expire(old(Value()))
    {
      armed := false;
      raised := Feed(T.Due);
    }
  }

  class ReqSocket {
    var state: State
    var id: uint32
    var ivl: int
    var request: Msg
    var reply: Reply
    var sentTo: Option<Pipe>
    const timer: ResendTimer
    var events: seq<T.Event>
    var pipes: set<Pipe>
    var ready: set<Pipe>
    var sent: seq<Sent>

    constructor (first: uint32, interval: nat)
      ensures Value() == Init(first, interval) && Valid(Value()) && fresh(timer)
    {
      state, id, ivl, request, reply, sentTo := Passive, first, interval, Msg([], []), Blank, None;
      events, pipes, ready, sent := [], {}, {}, [];
      timer := new ResendTimer();
    }

    function Value(): Socket
      reads this, timer
    {
      Socket(state, id, ivl, request, reply, sentTo, timer.Value(), events, pipes, ready, sent)
    }

    method ActionSend(allowDelay: bool, via: Via)
      requires P.ActionSend(Value(), allowDelay, via).Ok?
      modifies this, timer
      ensures Ok(Value()) == P.ActionSend(old(Value()), allowDelay, via)
    {
      if ready == {} {
        assert allowDelay;
        state := Delayed;
        return;
      }
      sent := sent + [Sent(via.pipe, request)];
      if via.release { ready := ready - {via.pipe}; }
      timer.Start(ivl);
      sentTo := Some(via.pipe);
      state := Active;
    }

    /** The way out of ACTIVE: the timer is asked to stop. */
    method Leave(next: State)
      requires P.Leave(Value(), next).Ok?
      modifies this, timer
      ensures Ok(Value()) == P.Leave(old(Value()), next)
    {
      timer.Stop();
      sentTo := None;
      state := next;
    }

    method Handler(src: Source, via: Via)
      requires Handle(Value(), src, via).Ok?
      modifies this, timer
      ensures Ok(Value()) == Handle(old(Value()), src, via)
    {
      match state {
        case Passive =>
          assert src == Act(SentNew);
          ActionSend(true, via);
        case Delayed =>
          if src == Act(Out) { ActionSend(false, via); } else { assert src == Act(SentNew); }
        case Active =>
          if src == Act(In) { Leave(StoppingTimer); }
          else if src == Act(SentNew) { Leave(Cancelling); }
          else {
            assert src == Act(PipeRm) || src == FromTimer(T.Timeout);
            Leave(TimedOut);
          }
        case TimedOut =>
          if src == FromTimer(T.Stopped) { ActionSend(true, via); }
          else { assert src == Act(SentNew); state := Cancelling; }
        case Cancelling =>
          if src == FromTimer(T.Stopped) { ActionSend(true, via); } else { assert src == Act(SentNew); }
        case StoppingTimer =>
          if src == FromTimer(T.Stopped) { state := Done; }
          else { assert src == Act(SentNew); state := Cancelling; }
        case Done =>
          if src == Act(Received) { state := Passive; }
          else { assert src == Act(SentNew); ActionSend(true, via); }
      }
    }

    /** `nn_ctx_leave`. */
    method LeaveContext(via: Via)
      requires Drain(Value(), via).Ok?
      modifies this, timer
      ensures Ok(Value()) == Drain(old(Value()), via)
    {
      while events != []
        invariant Drain(Value(), via) == Drain(old(Value()), via)
        decreases |events|
      {
        var event := events[0];
        ghost var before := Value();
        events := events[1..];
        assert Value() == before.(events := before.events[1..]);
        Handler(FromTimer(event), via);
      }
    }

    /** One step of the state machine and the end of the call. */
    method Feed(src: Source, via: Via)
      requires Session(Handle(Value(), src, via), via).Ok?
      modifies this, timer
      ensures Ok(Value()) == Session(Handle(old(Value()), src, via), via)
    {
      Handler(src, via);
      LeaveContext(via);
    }

    method Csend(body: Buf, via: Via)
      requires Valid(Value()) && Enabled(Value(), Submit(body), via)
      modifies this, timer
      ensures Ok(Value()) == P.Csend(old(Value()), body, via) && Valid(Value())
    {
      StepValid(Value(), Submit(body), via);
      id := (id + 1) % U32;
      request := RequestFor(id, body);
      Feed(Act(SentNew), via);
    }

    method Crecv(via: Via) returns (r: Recv)
      requires Valid(Value()) && Enabled(Value(), Fetch, via)
      modifies this, timer
      ensures (Ok(Value()), r) == P.Crecv(old(Value()), via) && Valid(Value())
      ensures r == if !old(InProgress(Value())) then Efsm
                   else if old(state) != Done then Eagain
                   else Message(old(reply))
      ensures Value() == if r.Message? then old(Value()).(state := Passive, reply := Blank) else old(Value())
    {
      StepValid(Value(), Fetch, via);
      if state == Passive { return Efsm; }
      if state != Done { return Eagain; }
      r := Message(reply);
      reply := Blank;
      Feed(Act(Received), via);
    }

    /** One turn of the loop in `nn_req_in`. */
    method ReceiveOne(raw: Raw, via: Via) returns (more: bool)
      requires Valid(Value()) && (Skipped(Value(), raw) || ArriveLast(Value(), raw, via).Ok?)
      modifies this, timer
      ensures more == Skipped(old(Value()), raw)
      ensures more ==> Value() == old(Value()).(reply := Dead)
      ensures !more ==> Ok(Value()) == ArriveLast(old(Value()), raw, via)
    {
      reply := Dead;
      if Short(raw) { return false; }
      if !InProgress(Value()) { return true; }
      if |HeaderOf(raw)| != 4 { return true; }
      var reqid := Getl(HeaderOf(raw));
      if !HasTopBit(reqid) { return true; }
      if reqid != SetTopBit(id) { return true; }
      reply := Got(BodyOf(raw));
      if state == Active { Feed(Act(In), via); }
      more := false;
    }

    /** `nn_req_in`: reads what the pipes have until there is an answer or nothing left. */
    method Receive(inbox: seq<Raw>, via: Via)
      requires Valid(Value())
      modifies this, timer
      ensures Ok(Value()) == Arrive(old(Value()), inbox, via) && Valid(Value())
    {
      ArriveValid(Value(), inbox, via);
      ghost var goal := Arrive(Value(), inbox, via);
      var i := 0;
      while i < |inbox|
        invariant i <= |inbox| && Valid(Value()) && Arrive(Value(), inbox[i..], via) == goal
      {
        assert inbox[i..][1..] == inbox[i + 1..];
        var more := ReceiveOne(inbox[i], via);
        i := i + 1;
        if !more { return; }
      }
    }

    method Writable(p: Pipe, via: Via)
      requires Valid(Value()) && Enabled(Value(), Input.Writable(p), via)
      modifies this, timer
      ensures Ok(Value()) == PipeOut(old(Value()), p, via) && Valid(Value())
    {
      StepValid(Value(), Input.Writable(p), via);
      ready := ready + {p};
      if state == Delayed { Feed(Act(Out), via); }
    }

    method Add(p: Pipe, via: Via)
      requires Valid(Value()) && Enabled(Value(), Attach(p), via)
      modifies this`pipes
      ensures Value() == old(Value()).(pipes := old(pipes) + {p}) && Valid(Value())
    {
      pipes := pipes + {p};
    }

    method Remove(p: Pipe, via: Via)
      requires Valid(Value()) && Enabled(Value(), Detach(p), via)
      modifies this, timer
      ensures Ok(Value()) == PipeGone(old(Value()), p, via) && Valid(Value())
    {
      StepValid(Value(), Detach(p), via);
      pipes := pipes - {p};
      ready := ready - {p};
      if sentTo == Some(p) { Feed(Act(PipeRm), via); }
    }

    /** The worker thread runs the next task queued for the timer. */
    method WorkerRuns(via: Via)
      requires Valid(Value()) && Enabled(Value(), WorkerTask, via)
      modifies this, timer
      ensures Ok(Value()) == Take(old(Value()), WorkerTask, via) && Valid(Value())
    {
      StepValid(Value(), WorkerTask, via);
      var raised := timer.RunTask();
      events := events + raised;
      LeaveContext(via);
    }

    method WorkerExpires(via: Via)
      requires Valid(Value()) && Enabled(Value(), WorkerDue, via)
      modifies this, timer
      ensures Ok(Value()) == Take(old(Value()), WorkerDue, via) && Valid(Value())
    {
      StepValid(Value(), WorkerDue, via);
      var raised := timer.Expire();
      events := events + raised;
      LeaveContext(via);
    }
  }
}
