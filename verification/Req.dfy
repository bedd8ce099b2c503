/** The REQ socket: the request state machine together with its resend timer, the
    worker thread's task queue and the set of pipes that can take a message.

    A step is one entry into the socket's context: one call or one worker event,
    followed by draining the queue of events it has raised. */
module Req {
  import opened Bytes
  import opened Wire
  import opened Wrappers
  import T = Timer

  type Pipe = nat

  datatype State = Passive | Delayed | Active | TimedOut | Cancelling | StoppingTimer | Done

  datatype Msg = Msg(header: Buf, body: Buf)

  /** A message as a pipe delivers it: the header still in the body, or split off. */
  datatype Raw = Unparsed(bytes: Buf) | Parsed(sphdr: Buf, rest: Buf)

  /** The reply field: empty, holding a terminated message, or holding an accepted reply. */
  datatype Reply = Blank | Dead | Got(body: Buf)

  datatype Sent = Sent(to: Pipe, msg: Msg)

  /** `ready` are the pipes of the load balancer that can take a message; `sent` is
      everything handed to pipes so far. */
  datatype Socket = Socket(
    state: State, id: uint32, ivl: int, request: Msg, reply: Reply, sentTo: Option<Pipe>,
    timer: T.Timer, events: seq<T.Event>,
    pipes: set<Pipe>, ready: set<Pipe>, sent: seq<Sent>)

  /** `Bad` stands for a failed assertion or an `nn_fsm_bad_*` branch. */
  datatype Outcome = Ok(req: Socket) | Bad

  /** The load balancer's choice, and whether the pipe is then busy. */
  datatype Via = Via(pipe: Pipe, release: bool)

  datatype Action = In | Out | SentNew | Received | PipeRm

  datatype Source = Act(action: Action) | FromTimer(event: T.Event)

  // ----- the timer's doings -----

  /** Events raised are queued; an event must not be queued already. */
  function Absorb(s: Socket, o: T.Outcome): Outcome {
    match o
    case Bad => Bad
    case Ok(t, raised) =>
      if exists e | e in raised :: e in s.events then Bad
      else Ok(s.(timer := t, events := s.events + raised))
  }

  function StopTimer(s: Socket): Outcome { Absorb(s, T.Stop(s.timer)) }

  // ----- the state machine -----

  /** `nn_req_action_send`. */
  function ActionSend(s: Socket, allowDelay: bool, via: Via): Outcome {
    if s.ready == {} then (if allowDelay then Ok(s.(state := Delayed)) else Bad)
    else
      var ready := if via.release then s.ready - {via.pipe} else s.ready;
      var s1 := s.(ready := ready, sent := s.sent + [Sent(via.pipe, s.request)]);
      match Absorb(s1, T.Start(s1.timer, s1.ivl, T.Stopped in s1.events))
      case Bad => Bad
      case Ok(s2) => Ok(s2.(sentTo := Some(via.pipe), state := Active))
  }

  function Leave(s: Socket, next: State): Outcome {
    match StopTimer(s)
    case Bad => Bad
    case Ok(s1) => Ok(s1.(sentTo := None, state := next))
  }

  /** `nn_req_handler`. */
  function Handle(s: Socket, src: Source, via: Via): Outcome {
    match s.state
    case Passive =>
      (match src
       case Act(SentNew) => ActionSend(s, true, via)
       case _ => Bad)
    case Delayed =>
      (match src
       case Act(Out) => ActionSend(s, false, via)
       case Act(SentNew) => Ok(s)
       case _ => Bad)
    case Active =>
      (match src
       case Act(In) => Leave(s, StoppingTimer)
       case Act(SentNew) => Leave(s, Cancelling)
       case Act(PipeRm) => Leave(s, TimedOut)
       case FromTimer(Timeout) => Leave(s, TimedOut)
       case _ => Bad)
    case TimedOut =>
      (match src
       case FromTimer(Stopped) => ActionSend(s, true, via)
       case Act(SentNew) => Ok(s.(state := Cancelling))
       case _ => Bad)
    case Cancelling =>
      (match src
       case FromTimer(Stopped) => ActionSend(s, true, via)
       case Act(SentNew) => Ok(s)
       case _ => Bad)
    case StoppingTimer =>
      (match src
       case FromTimer(Stopped) => Ok(s.(state := Done))
       case Act(SentNew) => Ok(s.(state := Cancelling))
       case _ => Bad)
    case Done =>
      (match src
       case Act(Received) => Ok(s.(state := Passive))
       case Act(SentNew) => ActionSend(s, true, via)
       case _ => Bad)
  }

  /** `nn_ctx_leave`: the queued events are processed one by one. Handling one never
      queues another. */
  function Drain(s: Socket, via: Via): Outcome
    decreases |s.events|
  {
    if s.events == [] then Ok(s)
    else
      match Handle(s.(events := s.events[1..]), FromTimer(s.events[0]), via)
      case Bad => Bad
      case Ok(s') => if |s'.events| < |s.events| then Drain(s', via) else Bad
  }

  function Session(o: Outcome, via: Via): Outcome {
    match o
    case Bad => Bad
    case Ok(s) => Drain(s, via)
  }

  // ----- the socket's operations -----

  function InProgress(s: Socket): bool { s.state != Passive }

  function RequestFor(id: uint32, body: Buf): Msg { Msg(Putl(SetTopBit(id)), body) }

  /** `nn_req_csend`. */
  function Csend(s: Socket, body: Buf, via: Via): Outcome {
    var id := (s.id + 1) % U32;
    Session(Handle(s.(id := id, request := RequestFor(id, body)), Act(SentNew), via), via)
  }

  datatype Recv = Efsm | Eagain | Message(reply: Reply)

  /** `nn_req_crecv`. */
  function Crecv(s: Socket, via: Via): (Outcome, Recv) {
    if !InProgress(s) then (Ok(s), Efsm)
    else if s.state != Done then (Ok(s), Eagain)
    else (Session(Handle(s.(reply := Blank), Act(Received), via), via), Message(s.reply))
  }

  /** Too short to hold a header; receiving it looks like an empty queue. */
  predicate Short(raw: Raw) { raw.Unparsed? && |raw.bytes| < 4 }

  function HeaderOf(raw: Raw): Buf
    requires !Short(raw)
  {
    match raw
    case Unparsed(bytes) => bytes[..4]
    case Parsed(sphdr, _) => sphdr
  }

  function BodyOf(raw: Raw): Buf
    requires !Short(raw)
  {
    match raw
    case Unparsed(bytes) => bytes[4..]
    case Parsed(_, rest) => rest
  }

  /** The three checks of `nn_req_in`. */
  predicate Answers(raw: Raw, id: uint32) {
    !Short(raw) && |HeaderOf(raw)| == 4 &&
    HasTopBit(Getl(HeaderOf(raw))) && Getl(HeaderOf(raw)) == SetTopBit(id)
  }

  /** The message is dropped, and the next one is read. */
  predicate Skipped(s: Socket, raw: Raw) { !Short(raw) && (!InProgress(s) || !Answers(raw, s.id)) }

  /** The message is the last one read. */
  function ArriveLast(s: Socket, raw: Raw, via: Via): Outcome {
    if Short(raw) then Ok(s.(reply := Dead))
    else
      var s1 := s.(reply := Got(BodyOf(raw)));
      if s.state == Active then Session(Handle(s1, Act(In), via), via) else Ok(s1)
  }

  /** `nn_req_in`, for the messages that the pipes have ready. */
  function Arrive(s: Socket, inbox: seq<Raw>, via: Via): Outcome
    decreases |inbox|
  {
    if inbox == [] then Ok(s)
    else if Skipped(s, inbox[0]) then Arrive(s.(reply := Dead), inbox[1..], via)
    else ArriveLast(s, inbox[0], via)
  }

  /** `nn_req_out`. A pipe becomes ready only when it is not. */
  function PipeOut(s: Socket, p: Pipe, via: Via): Outcome {
    if p in s.ready then Bad
    else
      var s1 := s.(ready := s.ready + {p});
      if s.state == Delayed then Session(Handle(s1, Act(Out), via), via) else Ok(s1)
  }

  /** `nn_req_rm`. */
  function PipeGone(s: Socket, p: Pipe, via: Via): Outcome {
    var s1 := s.(pipes := s.pipes - {p}, ready := s.ready - {p});
    if s.sentTo == Some(p) then Session(Handle(s1, Act(PipeRm), via), via) else Ok(s1)
  }

  datatype Input =
    | Submit(body: Buf) | Fetch | Incoming(inbox: seq<Raw>)
    | Attach(pipe: Pipe) | Writable(pipe: Pipe) | Detach(pipe: Pipe)
    | WorkerTask | WorkerDue

  function Take(s: Socket, input: Input, via: Via): Outcome
    requires Enabled(s, input, via)
  {
    match input
    case Submit(body) => Csend(s, body, via)
    case Fetch => Crecv(s, via).0
    case Incoming(inbox) => Arrive(s, inbox, via)
    case Attach(p) => Ok(s.(pipes := s.pipes + {p}))
    case Writable(p) => PipeOut(s, p, via)
    case Detach(p) => PipeGone(s, p, via)
    case WorkerTask => Session(Absorb(s, T.RunTask(s.timer)), via)
    case WorkerDue => Session(Absorb(s, T.Expire(s.timer)), via)
  }

  /** What the world may do: pipes come before they are writable and go once; the
      worker runs tasks there are; the load balancer picks a ready pipe. */
  predicate Enabled(s: Socket, input: Input, via: Via) {
    var ready := if input.Writable? then s.ready + {input.pipe} else s.ready;
    && (ready != {} ==> via.pipe in ready)
    && match input
       case Attach(p) => p !in s.pipes
       case Writable(p) => p in s.pipes && p !in s.ready
       case Detach(p) => p in s.pipes
       case WorkerTask => s.timer.tasks != []
       case WorkerDue => s.timer.armed
       case _ => true
  }

  function Init(id: uint32, ivl: nat): Socket {
    Socket(Passive, id, ivl, Msg([], []), Blank, None, T.INIT, [], {}, {}, [])
  }

  // ----- what every step keeps -----

  /** The request machine, the timer and the load balancer agree. */
  predicate Valid(s: Socket) {
    && s.events == [] && s.ivl >= 0 && T.Valid(s.timer) && s.ready <= s.pipes
    && (s.state == Active <==> s.timer.fsm == T.FsmActive)
    && (s.state in {TimedOut, Cancelling, StoppingTimer} <==> s.timer.fsm == T.FsmStopping)
    && (s.state == Active <==> s.sentTo.Some?)
    && (s.sentTo.Some? ==> s.sentTo.value in s.pipes)
    && (s.state == Active && s.timer.tasks == [] ==> s.timer.armed && s.timer.interval == s.ivl)
    && (s.state == Active && s.timer.tasks != [] ==> s.timer.timeout == s.ivl)
    && (s.state == Delayed ==> s.ready == {})
    && (InProgress(s) ==> s.request.header == Putl(SetTopBit(s.id)))
    && (s.state == Active ==> s.sent != [] && s.sent[|s.sent| - 1] == Sent(s.sentTo.value, s.request))
  }

  lemma InitValid(id: uint32, ivl: nat)
    ensures Valid(Init(id, ivl))
  {
  }

  /** A message goes out exactly when the machine enters ACTIVE, and it is the request
      on record. */
  predicate SendsOnEntry(s: Socket, s': Socket) {
    if s'.state == Active && (s.state != Active || s'.sent != s.sent) then
      s'.sentTo.Some? && s'.sent == s.sent + [Sent(s'.sentTo.value, s'.request)]
    else s'.sent == s.sent
  }

  /** Only a new submission changes the request on record. */
  predicate SameRequest(s: Socket, s': Socket) {
    s'.id == s.id && s'.request == s.request && (InProgress(s') ==> InProgress(s))
  }

  lemma StepValid(s: Socket, input: Input, via: Via)
    requires Valid(s) && Enabled(s, input, via)
    ensures var o := Take(s, input, via); o.Ok? && Valid(o.req) && SendsOnEntry(s, o.req)
    ensures var s' := Take(s, input, via).req;
            if input.Submit? then s'.id == (s.id + 1) % U32 && s'.request == RequestFor(s'.id, input.body)
            else SameRequest(s, s')
  {
    match input
    case Submit(body) => SubmitValid(s, body, via);
    case Fetch =>
    case Incoming(inbox) => ArriveValid(s, inbox, via);
    case Attach(p) =>
    case Writable(p) =>
    case Detach(p) =>
    case WorkerTask => TaskValid(s, via);
    case WorkerDue => DueValid(s, via);
  }

  lemma SubmitValid(s: Socket, body: Buf, via: Via)
    requires Valid(s) && (s.ready != {} ==> via.pipe in s.ready)
    ensures var o := Csend(s, body, via); o.Ok? && Valid(o.req) && SendsOnEntry(s, o.req)
    ensures var s' := Csend(s, body, via).req; s'.id == (s.id + 1) % U32 && s'.request == RequestFor(s'.id, body)
  {
  }

  lemma DrainOne(s: Socket, e: T.Event, via: Via)
    requires s.events == [e]
    ensures var h := Handle(s.(events := []), FromTimer(e), via);
            h.Ok? && h.req.events == [] ==> Drain(s, via) == h
  {
    assert s.events[1..] == [];
  }

  lemma TaskValid(s: Socket, via: Via)
    requires Valid(s) && Enabled(s, WorkerTask, via)
    ensures var o := Take(s, WorkerTask, via); o.Ok? && Valid(o.req) && SendsOnEntry(s, o.req) && SameRequest(s, o.req)
    ensures var s' := Take(s, WorkerTask, via).req;
            s'.reply == s.reply && (s'.state in {StoppingTimer, Done} ==> s.state == StoppingTimer)
  {
    var s1 := Absorb(s, T.RunTask(s.timer)).req;
    if s.timer.tasks == [T.StopTask] {
      assert s1.events == [T.Stopped];
      DrainOne(s1, T.Stopped, via);
    }
  }

  lemma DueValid(s: Socket, via: Via)
    requires Valid(s) && Enabled(s, WorkerDue, via)
    ensures var o := Take(s, WorkerDue, via); o.Ok? && Valid(o.req) && SendsOnEntry(s, o.req) && SameRequest(s, o.req)
    ensures var s' := Take(s, WorkerDue, via).req;
            s'.reply == s.reply && s'.state == if s.state == Active then TimedOut else s.state
  {
    var s1 := Absorb(s, T.Expire(s.timer)).req;
    if s.state == Active {
      assert s1.events == [T.Timeout];
      DrainOne(s1, T.Timeout, via);
    }
  }

  lemma {:induction false} ArriveValid(s: Socket, inbox: seq<Raw>, via: Via)
    requires Valid(s)
    ensures var o := Arrive(s, inbox, via); o.Ok? && Valid(o.req) && SendsOnEntry(s, o.req) && SameRequest(s, o.req)
    decreases |inbox|
  {
    if inbox != [] && Skipped(s, inbox[0]) {
      ArriveValid(s.(reply := Dead), inbox[1..], via);
    }
  }
}
