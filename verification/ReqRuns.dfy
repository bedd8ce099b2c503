/** What the REQ socket promises over whole runs, and about replies. */
module ReqRuns {
  import opened Bytes
  import opened Wire
  import opened Wrappers
  import opened Req
  import T = Timer

  datatype Step = Step(input: Input, via: Via)

  predicate Legal(s: Socket, steps: seq<Step>)
    decreases |steps|
  {
    steps == [] ||
    (Enabled(s, steps[0].input, steps[0].via) &&
     (Take(s, steps[0].input, steps[0].via).Ok? ==> Legal(Take(s, steps[0].input, steps[0].via).req, steps[1..])))
  }

  function Run(s: Socket, steps: seq<Step>): Outcome
    requires Legal(s, steps)
    decreases |steps|
  {
    if steps == [] then Ok(s)
    else
      match Take(s, steps[0].input, steps[0].via)
      case Bad => Bad
      case Ok(s') => Run(s', steps[1..])
  }

  /** The bodies the user has submitted, in order. */
  function Bodies(steps: seq<Step>): seq<Buf> {
    if steps == [] then []
    else (if steps[0].input.Submit? then [steps[0].input.body] else []) + Bodies(steps[1..])
  }

  /** The `j`th request of a socket whose identifiers start after `first`. */
  function Nth(first: uint32, bodies: seq<Buf>, j: nat): Msg
    requires j < |bodies|
  {
    RequestFor((first + j + 1) % U32, bodies[j])
  }

  /** The history behind a state: the request on record is the latest one submitted,
      and whatever was sent had been submitted, and was sent in that order. */
  ghost predicate Recorded(s: Socket, first: uint32, bodies: seq<Buf>) {
    && Valid(s)
    && s.id == (first + |bodies|) % U32
    && (InProgress(s) ==> bodies != [] && s.request == Nth(first, bodies, |bodies| - 1))
    && exists order: seq<nat> :: InOrder(s.sent, first, bodies, order)
  }

  ghost predicate InOrder(sent: seq<Sent>, first: uint32, bodies: seq<Buf>, order: seq<nat>) {
    && |order| == |sent|
    && (forall i :: 0 <= i < |sent| ==> order[i] < |bodies| && sent[i].msg == Nth(first, bodies, order[i]))
    && (forall i, j :: 0 <= i < j < |sent| ==> order[i] <= order[j])
  }

  lemma StepRecorded(s: Socket, first: uint32, bodies: seq<Buf>, step: Step)
    requires Recorded(s, first, bodies) && Enabled(s, step.input, step.via)
    ensures Take(s, step.input, step.via).Ok?
    ensures Recorded(Take(s, step.input, step.via).req, first, bodies + Bodies([step]))
  {
    StepValid(s, step.input, step.via);
    assert Bodies([step]) == if step.input.Submit? then [step.input.body] else [];
    HistoryGrows(s, Take(s, step.input, step.via).req, first, bodies, Bodies([step]));
  }

  lemma HistoryGrows(s: Socket, s': Socket, first: uint32, bodies: seq<Buf>, new': seq<Buf>)
    requires Recorded(s, first, bodies) && Valid(s') && SendsOnEntry(s, s')
    requires if new' == [] then SameRequest(s, s')
             else |new'| == 1 && s'.id == (s.id + 1) % U32 && s'.request == RequestFor(s'.id, new'[0])
    ensures Recorded(s', first, bodies + new')
  {
    var all := bodies + new';
    NextId(first, |bodies|);
    assert s'.id == (first + |all|) % U32;
    assert InProgress(s') ==> all != [] && s'.request == Nth(first, all, |all| - 1);
    if s'.sent == s.sent {
      OrderGrows(s.sent, first, bodies, new', []);
    } else {
      OrderGrows(s.sent, first, bodies, new', [Sent(s'.sentTo.value, s'.request)]);
    }
    assert s.sent + [] == s.sent;
  }

  lemma NextId(first: uint32, n: nat)
    ensures ((first + n) % U32 + 1) % U32 == (first + n + 1) % U32
  {
  }

  lemma OrderGrows(sent: seq<Sent>, first: uint32, bodies: seq<Buf>, new': seq<Buf>, more: seq<Sent>)
    requires exists order: seq<nat> :: InOrder(sent, first, bodies, order)
    requires |more| <= 1
    requires forall m | m in more :: bodies + new' != [] && m.msg == Nth(first, bodies + new', |bodies + new'| - 1)
    ensures exists order: seq<nat> :: InOrder(sent + more, first, bodies + new', order)
  {
    var all := bodies + new';
    var order: seq<nat> :| InOrder(sent, first, bodies, order);
    forall i | 0 <= i < |sent| ensures order[i] < |all| && sent[i].msg == Nth(first, all, order[i]) {
      assert all[order[i]] == bodies[order[i]];
    }
    if more == [] {
      assert sent + more == sent;
      assert InOrder(sent + more, first, all, order);
    } else {
      assert more == [more[0]] && more[0] in more;
      assert InOrder(sent + more, first, all, order + [|all| - 1]);
    }
  }

  /** For every run: no assertion fails and no `nn_fsm_bad_*` branch is taken; and in
      ACTIVE the last message sent is the request the user submitted last. */
  lemma {:induction false} RunRecorded(s: Socket, first: uint32, bodies: seq<Buf>, steps: seq<Step>)
    requires Recorded(s, first, bodies) && Legal(s, steps)
    ensures Run(s, steps).Ok? && Recorded(Run(s, steps).req, first, bodies + Bodies(steps))
    decreases |steps|
  {
    if steps == [] {
      assert bodies + Bodies(steps) == bodies;
    } else {
      StepRecorded(s, first, bodies, steps[0]);
      var s' := Take(s, steps[0].input, steps[0].via).req;
      RunRecorded(s', first, bodies + Bodies([steps[0]]), steps[1..]);
      assert Bodies(steps) == Bodies([steps[0]]) + Bodies(steps[1..]);
      assert bodies + Bodies([steps[0]]) + Bodies(steps[1..]) == bodies + Bodies(steps);
    }
  }

  lemma InitRecorded(first: uint32, ivl: nat)
    ensures Recorded(Init(first, ivl), first, [])
  {
    InitValid(first, ivl);
    assert InOrder(Init(first, ivl).sent, first, [], []);
  }

  /** In ACTIVE the last message sent is the request submitted last. */
  ghost predicate LastSent(s: Socket, first: uint32, bodies: seq<Buf>) {
    s.state == Active ==>
      && bodies != [] && s.sentTo.Some? && s.sentTo.value in s.pipes
      && s.sent != [] && s.sent[|s.sent| - 1] == Sent(s.sentTo.value, Nth(first, bodies, |bodies| - 1))
  }

  lemma RecordedSent(s: Socket, first: uint32, bodies: seq<Buf>)
    requires Recorded(s, first, bodies)
    ensures Valid(s) && LastSent(s, first, bodies)
  {
  }

  lemma RunSafe(first: uint32, ivl: nat, steps: seq<Step>)
    requires Legal(Init(first, ivl), steps)
    ensures Run(Init(first, ivl), steps).Ok? && Valid(Run(Init(first, ivl), steps).req)
    ensures LastSent(Run(Init(first, ivl), steps).req, first, Bodies(steps))
  {
    var s := Init(first, ivl);
    InitRecorded(first, ivl);
    RunRecorded(s, first, [], steps);
    assert [] + Bodies(steps) == Bodies(steps);
    RecordedSent(Run(s, steps).req, first, Bodies(steps));
  }

  // ----- replies -----

  /** Reading stops at the first answer, or at a message too short to have a header. */
  predicate Accepts(id: uint32, inbox: seq<Raw>) {
    inbox != [] && !Short(inbox[0]) && (Answers(inbox[0], id) || Accepts(id, inbox[1..]))
  }

  function Accepted(id: uint32, inbox: seq<Raw>): (raw: Raw)
    requires Accepts(id, inbox)
    ensures raw in inbox && Answers(raw, id)
  {
    if Answers(inbox[0], id) then inbox[0] else Accepted(id, inbox[1..])
  }

  /** Everything `nn_req_in` does. The machine moves only from ACTIVE, only on an
      answer to the request on record; the reply field is overwritten whenever a
      message is read, whatever the state. */
  lemma {:induction false} ArriveExact(s: Socket, inbox: seq<Raw>, via: Via)
    requires Valid(s)
    ensures var o := Arrive(s, inbox, via);
            && o.Ok?
            && o.req.state == (if s.state == Active && Accepts(s.id, inbox) then StoppingTimer else s.state)
            && o.req.reply ==
                 (if inbox == [] then s.reply
                  else if InProgress(s) && Accepts(s.id, inbox) then Got(BodyOf(Accepted(s.id, inbox)))
                  else Dead)
    decreases |inbox|
  {
    if inbox != [] && Skipped(s, inbox[0]) {
      ArriveExact(s.(reply := Dead), inbox[1..], via);
    }
  }

  /** The stored reply is one that has been accepted and not lost again. */
  predicate ReplyGood(s: Socket) {
    s.state in {StoppingTimer, Done} ==> s.reply.Got?
  }

  /** Exactly when a step spoils a good reply that waits for the user: a message is
      read in the meantime, and none of the messages read answers the request. */
  lemma ReplyKeptExact(s: Socket, input: Input, via: Via)
    requires Valid(s) && ReplyGood(s) && Enabled(s, input, via)
    ensures Take(s, input, via).Ok?
    ensures ReplyGood(Take(s, input, via).req)
       <==> !(input.Incoming? && s.state in {StoppingTimer, Done} && input.inbox != [] && !Accepts(s.id, input.inbox))
  {
    StepValid(s, input, via);
    match input
    case Incoming(inbox) => ArriveExact(s, inbox, via);
    case WorkerTask => TaskValid(s, via);
    case WorkerDue => DueValid(s, via);
    case _ =>
  }

  /** The messages read last since the latest submission. */
  function Heard(steps: seq<Step>): seq<Raw> {
    if steps == [] then []
    else
      match steps[|steps| - 1].input
      case Submit(_) => []
      case Incoming(inbox) => if inbox == [] then Heard(steps[..|steps| - 1]) else inbox
      case _ => Heard(steps[..|steps| - 1])
  }

  /** What the user is told if those are the messages. */
  function Told(id: uint32, inbox: seq<Raw>): Reply {
    if Accepts(id, inbox) then Got(BodyOf(Accepted(id, inbox))) else Dead
  }

  predicate Tells(s: Socket, past: seq<Step>) {
    Valid(s) && (s.state in {StoppingTimer, Done} ==> Heard(past) != [] && s.reply == Told(s.id, Heard(past)))
  }

  lemma HeardOneMore(past: seq<Step>, step: Step)
    ensures Heard(past + [step]) ==
            match step.input
            case Submit(_) => []
            case Incoming(inbox) => if inbox == [] then Heard(past) else inbox
            case _ => Heard(past)
  {
    assert (past + [step])[..|past|] == past;
  }

  lemma SubmitForgets(s: Socket, body: Buf, via: Via)
    requires Valid(s) && Enabled(s, Submit(body), via) && Csend(s, body, via).Ok?
    ensures Csend(s, body, via).req.state !in {StoppingTimer, Done}
  {
  }

  lemma StepTells(s: Socket, past: seq<Step>, step: Step)
    requires Tells(s, past) && Enabled(s, step.input, step.via)
    ensures Take(s, step.input, step.via).Ok? && Tells(Take(s, step.input, step.via).req, past + [step])
  {
    StepValid(s, step.input, step.via);
    HeardOneMore(past, step);
    match step.input
    case Submit(body) => SubmitForgets(s, body, step.via);
    case Incoming(inbox) => ArriveExact(s, inbox, step.via);
    case WorkerTask => TaskValid(s, step.via);
    case WorkerDue => DueValid(s, step.via);
    case _ =>
  }

  lemma {:induction false} RunTells(s: Socket, past: seq<Step>, steps: seq<Step>)
    requires Tells(s, past) && Legal(s, steps)
    ensures Run(s, steps).Ok? && Tells(Run(s, steps).req, past + steps)
    decreases |steps|
  {
    if steps == [] {
      assert past + steps == past;
    } else {
      StepTells(s, past, steps[0]);
      RunTells(Take(s, steps[0].input, steps[0].via).req, past + [steps[0]], steps[1..]);
      assert past + [steps[0]] + steps[1..] == past + steps;
    }
  }

  /** In every run: whoever fetches a reply gets the body of a message that answers the
      current request if the messages read last hold one, and otherwise a message that
      has been terminated. */
  lemma FetchExact(first: uint32, ivl: nat, steps: seq<Step>, via: Via)
    requires Legal(Init(first, ivl), steps)
    ensures Run(Init(first, ivl), steps).Ok?
    ensures var s := Run(Init(first, ivl), steps).req;
            s.state == Done ==> Heard(steps) != [] && Crecv(s, via).1 == Message(Told(s.id, Heard(steps)))
  {
    InitValid(first, ivl);
    RunTells(Init(first, ivl), [], steps);
    assert [] + steps == steps;
  }

  lemma {:induction false} RunOneMore(s: Socket, steps: seq<Step>, step: Step)
    requires Legal(s, steps) && Run(s, steps).Ok? && Enabled(Run(s, steps).req, step.input, step.via)
    ensures Legal(s, steps + [step]) && Run(s, steps + [step]) == Take(Run(s, steps).req, step.input, step.via)
    decreases |steps|
  {
    if steps == [] {
      assert steps + [step] == [step];
    } else {
      assert (steps + [step])[1..] == steps[1..] + [step];
      RunOneMore(Take(s, steps[0].input, steps[0].via).req, steps[1..], step);
    }
  }

  predicate Arrives(s0: Socket, steps: seq<Step>, s: Socket) { Legal(s0, steps) && Run(s0, steps) == Ok(s) }

  /** A state of some run of a fresh socket. */
  ghost predicate Reachable(first: uint32, ivl: nat, s: Socket) {
    exists steps: seq<Step> :: Arrives(Init(first, ivl), steps, s)
  }

  lemma Then(first: uint32, ivl: nat, s: Socket, input: Input, via: Via) returns (s': Socket)
    requires Reachable(first, ivl, s) && Enabled(s, input, via) && Valid(s)
    ensures Reachable(first, ivl, s') && Valid(s') && Take(s, input, via) == Ok(s')
  {
    StepValid(s, input, via);
    var steps :| Arrives(Init(first, ivl), steps, s);
    RunOneMore(Init(first, ivl), steps, Step(input, via));
    s' := Take(s, input, via).req;
    assert Arrives(Init(first, ivl), steps + [Step(input, via)], s');
  }

  const TO: Via := Via(7, false)

  lemma Fresh(first: uint32, ivl: nat) returns (s: Socket)
    ensures Reachable(first, ivl, s) && Valid(s) && s.state == Passive && s.pipes == {} && s.id == first
  {
    s := Init(first, ivl);
    InitValid(first, ivl);
    assert Arrives(s, [], s);
  }

  /** One pipe, and one request sent to it. */
  lemma Asking(first: uint32, ivl: nat) returns (s: Socket)
    ensures Reachable(first, ivl, s) && Valid(s) && s.state == Active && s.ready == {7}
    ensures s.timer.tasks == [T.StartTask]
  {
    s := Fresh(first, ivl);
    s := Then(first, ivl, s, Attach(7), TO);
    s := Then(first, ivl, s, Input.Writable(7), TO);
    s := Then(first, ivl, s, Submit([5]), TO);
  }

  function AnswerTo(id: uint32): Raw { Unparsed(Putl(SetTopBit(id)) + [1]) }

  lemma AnswerAnswers(id: uint32)
    ensures Answers(AnswerTo(id), id) && BodyOf(AnswerTo(id)) == [1]
  {
    GetlPutl(SetTopBit(id), []);
    assert (Putl(SetTopBit(id)) + [1])[..4] == Putl(SetTopBit(id)) + [] == Putl(SetTopBit(id));
  }

  /** The timer has been started and the answer has arrived. */
  lemma Answering(first: uint32, ivl: nat) returns (s: Socket)
    ensures Reachable(first, ivl, s) && Valid(s) && s.state == StoppingTimer && s.ready == {7}
    ensures s.reply == Got([1]) && s.timer.tasks == [T.StopTask]
  {
    var s1 := Asking(first, ivl);
    var s2 := Then(first, ivl, s1, WorkerTask, TO);
    TimerRuns(s1);
    AnswerAnswers(s2.id);
    s := Then(first, ivl, s2, Incoming([AnswerTo(s2.id)]), TO);
  }

  lemma TimerRuns(s: Socket)
    requires Valid(s) && s.state == Active && s.ready == {7} && s.timer.tasks == [T.StartTask]
    ensures var o := Take(s, WorkerTask, TO);
            o.Ok? && o.req.state == Active && o.req.timer.tasks == [] && o.req.ready == s.ready
  {
    assert s.timer.tasks[1..] == [];
    StepValid(s, WorkerTask, TO);
  }

  lemma TimerStops(s: Socket)
    requires Valid(s) && s.state == StoppingTimer && s.ready == {7} && s.timer.tasks == [T.StopTask]
    ensures var o := Take(s, WorkerTask, TO);
            o.Ok? && o.req.state == Done && o.req.reply == s.reply && o.req.ready == s.ready
  {
    var s1 := Absorb(s, T.RunTask(s.timer)).req;
    assert s.timer.tasks[1..] == [];
    assert s1.events == [T.Stopped];
    DrainOne(s1, T.Stopped, TO);
  }

  /** A reply ready to be fetched; then a stray message of four zero bytes is read, and
      takes its place. */
  lemma ReplyLostExample(first: uint32, ivl: nat) returns (s: Socket, s': Socket)
    ensures Reachable(first, ivl, s) && Crecv(s, TO).1 == Message(Got([1]))
    ensures Enabled(s, Incoming([Unparsed([0, 0, 0, 0])]), TO)
    ensures Take(s, Incoming([Unparsed([0, 0, 0, 0])]), TO) == Ok(s')
    ensures Reachable(first, ivl, s') && Crecv(s', TO).1 == Message(Dead)
  {
    var s1 := Answering(first, ivl);
    TimerStops(s1);
    s := Then(first, ivl, s1, WorkerTask, TO);
    var stray := Unparsed([0, 0, 0, 0]);
    assert !Answers(stray, s.id);
    ArriveExact(s, [stray], TO);
    s' := Then(first, ivl, s, Incoming([stray]), TO);
  }

  /** Exactly which messages pass for an answer: those that the other side makes by putting
      the header of the request in front of a body. */
  lemma AnswersExact(raw: Raw, id: uint32)
    ensures Answers(raw, id)
       <==> match raw
            case Unparsed(bytes) => |bytes| >= 4 && bytes[..4] == RequestFor(id, []).header
            case Parsed(sphdr, _) => sphdr == RequestFor(id, []).header
    ensures forall body: Buf :: BodyOf(Unparsed(RequestFor(id, body).header + body)) == body
  {
    var word := SetTopBit(id);
    GetlPutl(word, []);
    assert Putl(word) + [] == Putl(word);
    if !Short(raw) && |HeaderOf(raw)| == 4 {
      PutlGetl(HeaderOf(raw));
      assert HeaderOf(raw)[..4] == HeaderOf(raw);
    }
  }

  /** Exactly when a reply to the `j`th request passes for one to the `n`th: the
      identifiers wrap after 2^31 requests. */
  lemma StaleExact(first: uint32, j: nat, n: nat, raw: Raw)
    requires j <= n && Answers(raw, (first + j) % U32)
    ensures Answers(raw, (first + n) % U32) <==> (n - j) % TOP_BIT == 0
  {
    HalfWrap(first + j);
    HalfWrap(first + n);
    SameResidue(first + j, first + n);
  }

  lemma HalfWrap(x: nat)
    ensures x % U32 % TOP_BIT == x % TOP_BIT
  {
  }

  lemma SameResidue(a: nat, b: nat)
    requires a <= b
    ensures a % TOP_BIT == b % TOP_BIT <==> (b - a) % TOP_BIT == 0
  {
  }

  lemma NotStale(first: uint32, j: nat, n: nat, raw: Raw)
    requires j < n < j + TOP_BIT && Answers(raw, (first + j) % U32)
    ensures !Answers(raw, (first + n) % U32)
  {
    StaleExact(first, j, n, raw);
  }
}
