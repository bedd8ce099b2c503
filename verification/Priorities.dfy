/** All the slots together: which pipe is served, over whole runs. */
module Priorities {
  import opened Priolist

  predicate Empty(slots: seq<Slot>, i: nat)
    requires i < |slots|
  {
    slots[i].pipes == []
  }

  ghost predicate SlotAtOk(slots: seq<Slot>, i: nat)
    requires i < |slots|
  {
    SlotOk(slots[i]) && forall e <- slots[i].pipes :: e.priority == i + 1
  }

  /** `current` is the highest priority with a pipe, or -1 if there is no pipe at all. */
  predicate TopIs(slots: seq<Slot>, current: int) {
    if current == -1 then forall j :: 0 <= j < |slots| ==> Empty(slots, j)
    else 1 <= current <= |slots| && !Empty(slots, current - 1) && forall j :: 0 <= j < current - 1 ==> Empty(slots, j)
  }

  ghost predicate SlotsOk(slots: seq<Slot>) {
    |slots| == SLOTS && forall i :: 0 <= i < |slots| ==> SlotAtOk(slots, i)
  }

  ghost predicate Valid(v: Prio) { SlotsOk(v.slots) && TopIs(v.slots, v.current) }

  /** The first priority from `c` on that has a pipe. */
  function Seek(slots: seq<Slot>, c: nat): int
    requires c >= 1
    decreases |slots| + 1 - c
  {
    if c > |slots| then -1 else if slots[c - 1].pipes != [] then c else Seek(slots, c + 1)
  }

  predicate HasPriority(e: Entry) { 1 <= e.priority <= SLOTS }

  predicate Active(v: Prio, e: Entry) {
    1 <= e.priority <= |v.slots| && e in v.slots[e.priority - 1].pipes
  }

  /** `nn_priolist_activate`. */
  function Activate(v: Prio, e: Entry): Prio
    requires |v.slots| == SLOTS && HasPriority(e)
  {
    var s := v.slots[e.priority - 1];
    Prio(v.slots[e.priority - 1 := Joined(s, e)],
         if s.pipes == [] && (v.current == -1 || v.current > e.priority) then e.priority else v.current)
  }

  /** `nn_priolist_rm`, for a pipe that may not be active. */
  function Rm(v: Prio, e: Entry): Prio
    requires |v.slots| == SLOTS && HasPriority(e)
  {
    var s := v.slots[e.priority - 1];
    var slots := v.slots[e.priority - 1 := Removed(s, e)];
    Prio(slots,
         if e in s.pipes && s.current == Serving(e) && v.current == e.priority then Seek(slots, e.priority)
         else v.current)
  }

  /** `nn_priolist_getpipe`. */
  function Served(v: Prio): Current
    requires v.current == -1 || 1 <= v.current <= |v.slots|
  {
    if v.current == -1 then Nobody else v.slots[v.current - 1].current
  }

  /** `nn_priolist_advance`. */
  function Advance(v: Prio, release: bool): Prio
    requires Valid(v) && v.current > 0
  {
    assert SlotAtOk(v.slots, v.current - 1);
    var slots := v.slots[v.current - 1 := Passed(v.slots[v.current - 1], release)];
    Prio(slots, Seek(slots, v.current))
  }

  lemma SeekTop(slots: seq<Slot>, c: nat)
    requires 1 <= c <= |slots| + 1 && forall j :: 0 <= j < c - 1 ==> Empty(slots, j)
    ensures TopIs(slots, Seek(slots, c))
    decreases |slots| + 1 - c
  {
    if c <= |slots| && slots[c - 1].pipes == [] {
      assert Empty(slots, c - 1);
      SeekTop(slots, c + 1);
    }
  }

  /** A slot replaced; the others are as they were. */
  lemma ReplacedOk(slots: seq<Slot>, i: nat, s: Slot)
    requires SlotsOk(slots) && i < |slots| && SlotOk(s) && forall e <- s.pipes :: e.priority == i + 1
    ensures SlotsOk(slots[i := s])
  {
    var r := slots[i := s];
    forall j | 0 <= j < |r| ensures SlotAtOk(r, j) { assert SlotAtOk(slots, j); }
  }

  lemma ReplacedTop(slots: seq<Slot>, i: nat, s: Slot, current: int)
    requires i < |slots| && TopIs(slots, current) && (s.pipes == [] <==> slots[i].pipes == [])
    ensures TopIs(slots[i := s], current)
  {
    var r := slots[i := s];
    forall j | 0 <= j < |r| ensures Empty(r, j) <==> Empty(slots, j) { }
  }

  lemma ActivateValid(v: Prio, e: Entry)
    requires Valid(v) && HasPriority(e) && !Active(v, e)
    ensures Valid(Activate(v, e)) && Active(Activate(v, e), e)
  {
    var i := e.priority - 1;
    var s, r := v.slots[i], Activate(v, e);
    assert SlotAtOk(v.slots, i);
    var m := JoinedTurns(s, e);
    ReplacedOk(v.slots, i, Joined(s, e));
    if s.pipes != [] {
      ReplacedTop(v.slots, i, Joined(s, e), v.current);
    } else {
      assert Empty(v.slots, i) && !Empty(r.slots, i);
      forall j | 0 <= j < |r.slots| && j != i ensures Empty(r.slots, j) <==> Empty(v.slots, j) { }
    }
  }

  lemma RmValid(v: Prio, e: Entry)
    requires Valid(v) && HasPriority(e)
    ensures Valid(Rm(v, e)) && !Active(Rm(v, e), e)
  {
    var i := e.priority - 1;
    var s, s' := v.slots[i], Removed(v.slots[i], e);
    assert SlotAtOk(v.slots, i);
    if e !in s.pipes {
      assert v.slots[i := s'] == v.slots;
    } else {
      RemovedTurns(s, e);
      RemovedMembers(s, e);
      ReplacedOk(v.slots, i, s');
      RmTop(v, e, s');
    }
  }

  lemma RmTop(v: Prio, e: Entry, s': Slot)
    requires Valid(v) && HasPriority(e) && Active(v, e) && s' == Removed(v.slots[e.priority - 1], e)
    requires v.slots[e.priority - 1].current != Serving(e) ==> s'.pipes != []
    ensures TopIs(Rm(v, e).slots, Rm(v, e).current)
  {
    var i := e.priority - 1;
    var slots := v.slots[i := s'];
    assert !Empty(v.slots, i);
    if v.slots[i].current != Serving(e) {
      ReplacedTop(v.slots, i, s', v.current);
    } else if v.current == e.priority {
      forall j | 0 <= j < i ensures Empty(slots, j) { assert Empty(v.slots, j); }
      SeekTop(slots, e.priority);
    } else {
      assert v.current - 1 < i;
      assert !Empty(slots, v.current - 1);
      forall j | 0 <= j < v.current - 1 ensures Empty(slots, j) { assert Empty(v.slots, j); }
    }
  }

  lemma RemovedMembers(s: Slot, e: Entry)
    requires SlotOk(s) && e in s.pipes
    ensures e !in Removed(s, e).pipes && forall x <- Removed(s, e).pipes :: x in s.pipes
    ensures s.current != Serving(e) ==> Removed(s, e).pipes != []
  {
    var i := IndexOf(s.pipes, e);
    CutDistinct(s.pipes, i);
    forall x | x in Cut(s.pipes, i) ensures x in s.pipes { CutMembers(s.pipes, i, x); }
    if s.current != Serving(e) { CutMembers(s.pipes, i, s.current.entry); }
  }

  lemma AdvanceValid(v: Prio, release: bool)
    requires Valid(v) && v.current > 0
    ensures Valid(Advance(v, release))
  {
    var i, r := v.current - 1, Advance(v, release);
    var s := v.slots[i];
    assert SlotAtOk(v.slots, i);
    PassedTurns(s, release);
    if release { RemovedMembers(s, s.current.entry); }
    ReplacedOk(v.slots, i, Passed(s, release));
    forall j | 0 <= j < i ensures Empty(r.slots, j) { assert Empty(v.slots, j); }
    SeekTop(r.slots, v.current);
  }

  /** The pipe that is served is one of the active ones, and none of them has a higher
      priority. Nobody is served if and only if no pipe is active. */
  lemma ServesTheHighest(v: Prio, e: Entry)
    requires Valid(v)
    ensures v.current == -1 || 1 <= v.current <= SLOTS
    ensures Served(v) == Nobody ==> !Active(v, e)
    ensures Served(v).Serving? ==> Active(v, Served(v).entry)
    ensures Served(v).Serving? && Active(v, e) ==> Served(v).entry.priority <= e.priority
  {
    if v.current > 0 { assert SlotAtOk(v.slots, v.current - 1); }
    if Active(v, e) { assert !Empty(v.slots, e.priority - 1); }
  }

  // ----- fairness within a priority -----

  datatype Op = Activates(e: Entry) | Removes(e: Entry) | Advances(release: bool)

  predicate Enabled(v: Prio, op: Op) {
    match op
    case Activates(e) => HasPriority(e) && !Active(v, e)
    case Removes(e) => HasPriority(e)
    case Advances(_) => v.current > 0
  }

  function Apply(v: Prio, op: Op): Prio
    requires Valid(v) && Enabled(v, op)
  {
    match op
    case Activates(e) => Activate(v, e)
    case Removes(e) => Rm(v, e)
    case Advances(release) => Advance(v, release)
  }

  lemma ApplyValid(v: Prio, op: Op)
    requires Valid(v) && Enabled(v, op)
    ensures Valid(Apply(v, op))
  {
    match op
    case Activates(e) => ActivateValid(v, e);
    case Removes(e) => RmValid(v, e);
    case Advances(release) => AdvanceValid(v, release);
  }

  /** How many pipes of its own priority are before the active pipe `e`. */
  function Waits(v: Prio, e: Entry): nat
    requires Valid(v) && Active(v, e)
  {
    assert SlotAtOk(v.slots, e.priority - 1);
    Distance(v.slots[e.priority - 1], e)
  }

  /** In this run `e` is neither served nor removed. */
  ghost predicate Passes(v: Prio, ops: seq<Op>, e: Entry)
    requires Valid(v)
    decreases |ops|
  {
    ops == [] ||
    (Enabled(v, ops[0]) && ops[0] != Removes(e) && (ops[0].Advances? ==> Served(v) != Serving(e)) &&
     (ApplyValid(v, ops[0]); Passes(Apply(v, ops[0]), ops[1..], e)))
  }

  /** The turns of priority `p` in the run, and the activations in it. */
  ghost function TurnsOf(v: Prio, ops: seq<Op>, e: Entry): nat
    requires Valid(v) && Passes(v, ops, e)
    decreases |ops|
  {
    if ops == [] then 0
    else
      ApplyValid(v, ops[0]);
      (if ops[0].Advances? && v.current == e.priority then 1 else 0) + TurnsOf(Apply(v, ops[0]), ops[1..], e)
  }

  function Joins(ops: seq<Op>, p: nat): nat {
    if ops == [] then 0
    else (if ops[0].Activates? && ops[0].e.priority == p then 1 else 0) + Joins(ops[1..], p)
  }

  lemma WaitActivate(v: Prio, x: Entry, e: Entry)
    requires Valid(v) && Active(v, e) && HasPriority(x) && !Active(v, x)
    ensures Valid(Activate(v, x)) && Active(Activate(v, x), e)
    ensures Waits(Activate(v, x), e) <= Waits(v, e) + if x.priority == e.priority then 1 else 0
  {
    ActivateValid(v, x);
    assert SlotAtOk(v.slots, e.priority - 1);
    if x.priority == e.priority { LittleFartherByJoin(v.slots[e.priority - 1], e, x); }
  }

  lemma WaitRm(v: Prio, x: Entry, e: Entry)
    requires Valid(v) && Active(v, e) && HasPriority(x) && x != e
    ensures Valid(Rm(v, x)) && Active(Rm(v, x), e) && Waits(Rm(v, x), e) <= Waits(v, e)
  {
    var s, r := v.slots[e.priority - 1], Rm(v, x).slots[e.priority - 1];
    assert SlotAtOk(v.slots, e.priority - 1);
    if x.priority == e.priority && x in s.pipes {
      assert r == Removed(s, x);
      NoFartherByRemoval(s, e, x);
    } else {
      assert r == s;
    }
    RmValid(v, x);
  }

  lemma WaitAdvance(v: Prio, release: bool, e: Entry)
    requires Valid(v) && Active(v, e) && v.current > 0 && Served(v) != Serving(e)
    ensures Valid(Advance(v, release)) && Active(Advance(v, release), e)
    ensures Waits(v, e) == Waits(Advance(v, release), e) + if v.current == e.priority then 1 else 0
  {
    AdvanceValid(v, release);
    assert SlotAtOk(v.slots, e.priority - 1);
    if v.current == e.priority { NearerByTurn(v.slots[e.priority - 1], e, release); }
  }

  lemma WaitStep(v: Prio, op: Op, e: Entry)
    requires Valid(v) && Enabled(v, op) && Active(v, e) && op != Removes(e)
    requires op.Advances? ==> Served(v) != Serving(e)
    ensures Valid(Apply(v, op)) && Active(Apply(v, op), e)
    ensures Waits(Apply(v, op), e) + (if op.Advances? && v.current == e.priority then 1 else 0)
         <= Waits(v, e) + if op.Activates? && op.e.priority == e.priority then 1 else 0
  {
    match op
    case Activates(x) => WaitActivate(v, x, e);
    case Removes(x) => WaitRm(v, x, e);
    case Advances(release) => WaitAdvance(v, release, e);
  }

  lemma WaitsWithin(v: Prio, e: Entry)
    requires Valid(v) && Active(v, e)
    ensures Waits(v, e) < |v.slots[e.priority - 1].pipes|
  {
    assert SlotAtOk(v.slots, e.priority - 1);
    TurnsOk(v.slots[e.priority - 1]);
  }

  /** Bounded waiting, in every run: an active pipe that is neither served nor removed
      has seen no more turns of its priority than there were pipes before it and
      activations since. Without activations it is served within as many turns as
      there are pipes. */
  lemma {:induction false} BoundedWait(v: Prio, ops: seq<Op>, e: Entry)
    requires Valid(v) && Active(v, e) && Passes(v, ops, e)
    ensures TurnsOf(v, ops, e) <= Waits(v, e) + Joins(ops, e.priority)
    ensures Waits(v, e) < |v.slots[e.priority - 1].pipes|
    decreases |ops|
  {
    WaitsWithin(v, e);
    if ops != [] {
      WaitStep(v, ops[0], e);
      BoundedWait(Apply(v, ops[0]), ops[1..], e);
    }
  }

  /** The pipes of the current priority in the order of their turns. */
  function TurnsNow(v: Prio): (turns: seq<Entry>)
    requires Valid(v) && v.current > 0
    ensures |turns| == |v.slots[v.current - 1].pipes|
  {
    assert SlotAtOk(v.slots, v.current - 1);
    TurnsOk(v.slots[v.current - 1]);
    Turns(v.slots[v.current - 1])
  }

  lemma OneTurn(v: Prio)
    requires Valid(v) && v.current > 0
    ensures var w, t := Advance(v, false), TurnsNow(v);
            && Valid(w) && w.current == v.current && t != [] && Served(v) == Serving(t[0])
            && TurnsNow(w) == t[1..] + [t[0]]
  {
    AdvanceValid(v, false);
    assert SlotAtOk(v.slots, v.current - 1);
    PassedTurns(v.slots[v.current - 1], false);
    TurnsOk(v.slots[v.current - 1]);
  }

  /** `k` turns without a release, and who is served in them. */
  function Round(v: Prio, k: nat): (r: (Prio, seq<Current>))
    requires Valid(v) && v.current > 0
    ensures Valid(r.0) && r.0.current == v.current
    decreases k
  {
    if k == 0 then (v, [])
    else
      OneTurn(v);
      var (w, rest) := Round(Advance(v, false), k - 1);
      (w, [Served(v)] + rest)
  }

  function AsServed(turns: seq<Entry>): seq<Current> {
    seq(|turns|, i requires 0 <= i < |turns| => Serving(turns[i]))
  }

  /** The first `k` turns go to the first `k` pipes; as many turns as there are pipes
      serve each exactly once, and then the order is the same again. */
  lemma {:induction false} FullRound(v: Prio, k: nat)
    requires Valid(v) && v.current > 0 && k <= |v.slots[v.current - 1].pipes|
    ensures Round(v, k).1 == AsServed(TurnsNow(v)[..k])
    ensures TurnsNow(Round(v, k).0) == Rotated(TurnsNow(v), k)
    decreases k
  {
    if k > 0 {
      OneTurn(v);
      var w := Advance(v, false);
      FullRound(w, k - 1);
      RoundOn(TurnsNow(v), TurnsNow(w), k);
    }
  }

  lemma RoundOn(t: seq<Entry>, u: seq<Entry>, k: nat)
    requires 0 < k <= |t| && u == t[1..] + [t[0]]
    ensures [Serving(t[0])] + AsServed(u[..k - 1]) == AsServed(t[..k])
    ensures Rotated(u, k - 1) == Rotated(t, k)
  {
    assert u[..k - 1] == t[1..k];
    assert u[k - 1..] == t[k..] + [t[0]];
    assert t[..k] == [t[0]] + t[1..k];
  }
}
