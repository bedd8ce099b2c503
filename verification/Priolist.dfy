/** The prioritised round-robin list of pipes that the load balancer and the fair queue
    stand on. */
module Priolist {
  const SLOTS := 16

  /** A pipe, with the priority it was added with: 1 is the highest. */
  datatype Entry = Entry(pipe: nat, priority: nat)

  datatype Current = Nobody | Serving(entry: Entry)

  datatype Slot = Slot(pipes: seq<Entry>, current: Current)

  datatype Prio = Prio(slots: seq<Slot>, current: int)

  const EMPTY := Slot([], Nobody)

  ghost predicate Distinct(s: seq<Entry>) { forall e :: multiset(s)[e] <= 1 }

  function IndexOf(s: seq<Entry>, e: Entry): (i: nat)
    ensures i <= |s| && (i < |s| <==> e in s)
    ensures i < |s| ==> s[i] == e
  {
    if s == [] || s[0] == e then 0 else 1 + IndexOf(s[1..], e)
  }

  ghost predicate SlotOk(s: Slot) {
    && Distinct(s.pipes)
    && match s.current
       case Nobody => s.pipes == []
       case Serving(e) => e in s.pipes
  }

  /** The entry at `i`, or the first one if `i` is past the end. */
  function Wrapped(pipes: seq<Entry>, i: nat): Current {
    if i < |pipes| then Serving(pipes[i]) else if pipes != [] then Serving(pipes[0]) else Nobody
  }

  function Cut(s: seq<Entry>, i: nat): seq<Entry>
    requires i < |s|
  {
    s[..i] + s[i + 1..]
  }

  function Removed(s: Slot, e: Entry): Slot {
    var i := IndexOf(s.pipes, e);
    if e !in s.pipes then s
    else if s.current != Serving(e) then s.(pipes := Cut(s.pipes, i))
    else Slot(Cut(s.pipes, i), Wrapped(Cut(s.pipes, i), i))
  }

  function Joined(s: Slot, e: Entry): Slot {
    Slot(s.pipes + [e], if s.pipes == [] then Serving(e) else s.current)
  }

  /** The current entry has been served: the turn passes, and with `release` it leaves. */
  function Passed(s: Slot, release: bool): Slot
    requires SlotOk(s) && s.pipes != []
  {
    if release then Removed(s, s.current.entry)
    else s.(current := Wrapped(s.pipes, IndexOf(s.pipes, s.current.entry) + 1))
  }

  // ----- the order in which a slot serves -----

  function Rotated(s: seq<Entry>, i: nat): seq<Entry>
    requires i <= |s|
  {
    s[i..] + s[..i]
  }

  /** The entries of a slot in the order in which they will be served. */
  function Turns(s: Slot): seq<Entry>
    requires SlotOk(s)
  {
    if s.pipes == [] then [] else Rotated(s.pipes, IndexOf(s.pipes, s.current.entry))
  }

  lemma Twice(s: seq<Entry>, i: nat, j: nat)
    requires i < j < |s| && s[i] == s[j]
    ensures multiset(s)[s[i]] >= 2
  {
    assert s == s[..j] + s[j..];
    assert s[..j][i] == s[j..][0] == s[i];
  }

  lemma IndexAt(s: seq<Entry>, i: nat)
    requires Distinct(s) && i < |s|
    ensures IndexOf(s, s[i]) == i
  {
    var j := IndexOf(s, s[i]);
    if j < i { Twice(s, j, i); } else if i < j { Twice(s, i, j); }
  }

  lemma SameMembers(a: seq<Entry>, b: seq<Entry>)
    ensures multiset(a + b) == multiset(b + a)
    ensures forall e :: e in a + b <==> e in b + a
  {
  }

  /** Before the current entry, and from it on. */
  lemma Parts(s: Slot) returns (a: seq<Entry>, b: seq<Entry>)
    requires SlotOk(s) && s.pipes != []
    ensures s.pipes == a + b && b != [] && s.current == Serving(b[0])
    ensures Turns(s) == b + a && IndexOf(s.pipes, b[0]) == |a|
  {
    var i := IndexOf(s.pipes, s.current.entry);
    a, b := s.pipes[..i], s.pipes[i..];
  }

  lemma TurnsAre(s: Slot, a: seq<Entry>, b: seq<Entry>)
    requires s.pipes == a + b && Distinct(a + b) && b != [] && s.current == Serving(b[0])
    ensures SlotOk(s) && Turns(s) == b + a
  {
    assert (a + b)[|a|] == b[0];
    IndexAt(a + b, |a|);
    assert (a + b)[|a|..] == b && (a + b)[..|a|] == a;
  }

  lemma WrappedTurns(s: Slot, a: seq<Entry>, b: seq<Entry>)
    requires s.pipes == a + b && Distinct(a + b) && s.current == Wrapped(a + b, |a|)
    ensures SlotOk(s) && Turns(s) == b + a
  {
    if b != [] {
      TurnsAre(s, a, b);
    } else if a != [] {
      assert a + b == [] + a && b + a == a + [];
      TurnsAre(s, [], a);
    }
  }

  lemma CutParts(a: seq<Entry>, b: seq<Entry>, i: nat)
    requires i < |a| + |b|
    ensures Cut(a + b, i) == if i < |a| then Cut(a, i) + b else a + Cut(b, i - |a|)
  {
  }

  lemma CutDistinct(s: seq<Entry>, i: nat)
    requires Distinct(s) && i < |s|
    ensures Distinct(Cut(s, i)) && s[i] !in Cut(s, i)
    ensures multiset(s) == multiset(Cut(s, i)) + multiset{s[i]}
  {
    var x, a, b := s[i], s[..i], s[i + 1..];
    assert s == a + ([x] + b);
    assert multiset(s) == multiset(a) + (multiset{x} + multiset(b));
    assert multiset(Cut(s, i)) == multiset(a) + multiset(b);
    forall e ensures multiset(Cut(s, i))[e] <= 1 { assert multiset(s)[e] <= 1; }
    assert multiset(s)[x] <= 1;
  }

  lemma CutMembers(s: seq<Entry>, i: nat, e: Entry)
    requires Distinct(s) && i < |s|
    ensures e in Cut(s, i) <==> e in s && e != s[i]
  {
    CutDistinct(s, i);
    assert e in Cut(s, i) <==> e in multiset(Cut(s, i));
    assert e in s <==> e in multiset(s);
  }

  lemma TurnsOk(s: Slot)
    requires SlotOk(s)
    ensures Distinct(Turns(s)) && |Turns(s)| == |s.pipes|
    ensures forall e :: e in Turns(s) <==> e in s.pipes
    ensures s.pipes != [] ==> s.current == Serving(Turns(s)[0])
  {
    if s.pipes != [] {
      var a, b := Parts(s);
      SameMembers(a, b);
    }
  }

  lemma DropFirst(b: seq<Entry>, a: seq<Entry>)
    requires b != []
    ensures (b + a)[1..] == b[1..] + a && (b + a)[0] == b[0]
  {
  }

  lemma ReleasedParts(s: Slot, a: seq<Entry>, b: seq<Entry>)
    requires SlotOk(s) && s.pipes == a + b && b != [] && s.current == Serving(b[0]) && IndexOf(s.pipes, b[0]) == |a|
    ensures Passed(s, true) == Slot(a + b[1..], Wrapped(a + b[1..], |a|)) && Distinct(a + b[1..])
  {
    CutParts(a, b, |a|);
    assert Cut(b, 0) == b[1..];
    CutDistinct(s.pipes, |a|);
  }

  lemma ReleasedTurns(s: Slot)
    requires SlotOk(s) && s.pipes != []
    ensures SlotOk(Passed(s, true)) && Turns(Passed(s, true)) == Turns(s)[1..]
  {
    var a, b := Parts(s);
    ReleasedParts(s, a, b);
    WrappedTurns(Passed(s, true), a, b[1..]);
    DropFirst(b, a);
  }

  lemma TurnedParts(a: seq<Entry>, b: seq<Entry>)
    requires b != []
    ensures a + b == (a + [b[0]]) + b[1..]
    ensures (b[1..] + a) + [b[0]] == b[1..] + (a + [b[0]])
  {
  }

  lemma TurnedTurns(s: Slot)
    requires SlotOk(s) && s.pipes != []
    ensures SlotOk(Passed(s, false)) && Turns(Passed(s, false)) == Turns(s)[1..] + [Turns(s)[0]]
  {
    var a, b := Parts(s);
    TurnedParts(a, b);
    WrappedTurns(Passed(s, false), a + [b[0]], b[1..]);
    DropFirst(b, a);
  }

  /** The one who has been served goes to the back, or leaves; everyone else moves up. */
  lemma PassedTurns(s: Slot, release: bool)
    requires SlotOk(s) && s.pipes != []
    ensures SlotOk(Passed(s, release))
    ensures var t := Turns(s); Turns(Passed(s, release)) == t[1..] + if release then [] else [t[0]]
  {
    if release {
      ReleasedTurns(s);
      assert Turns(s)[1..] + [] == Turns(s)[1..];
    } else {
      TurnedTurns(s);
    }
  }

  /** Removing an entry leaves the order of the others as it is. */
  lemma RemovedTurns(s: Slot, e: Entry)
    requires SlotOk(s) && e in s.pipes
    ensures SlotOk(Removed(s, e))
    ensures e in Turns(s) && Turns(Removed(s, e)) == Cut(Turns(s), IndexOf(Turns(s), e))
  {
    var a, b := Parts(s);
    var i := IndexOf(s.pipes, e);
    TurnsOk(s);
    if e == b[0] {
      ReleasedTurns(s);
      IndexAt(Turns(s), 0);
      assert Cut(Turns(s), 0) == Turns(s)[1..];
    } else if i < |a| {
      assert a[i] == e;
      RemovedBefore(s, a, b, i, e);
      CutLater(b, a, i);
    } else {
      assert b[i - |a|] == e;
      RemovedAfter(s, a, b, i - |a|, e);
      CutSooner(b, a, i - |a|);
    }
  }

  lemma CutLater(b: seq<Entry>, a: seq<Entry>, i: nat)
    requires Distinct(b + a) && i < |a|
    ensures a[i] in b + a && Cut(b + a, IndexOf(b + a, a[i])) == b + Cut(a, i)
  {
    assert (b + a)[|b| + i] == a[i];
    IndexAt(b + a, |b| + i);
    CutParts(b, a, |b| + i);
  }

  lemma CutSooner(b: seq<Entry>, a: seq<Entry>, i: nat)
    requires Distinct(b + a) && i < |b|
    ensures b[i] in b + a && Cut(b + a, IndexOf(b + a, b[i])) == Cut(b, i) + a
  {
    assert (b + a)[i] == b[i];
    IndexAt(b + a, i);
    CutParts(b, a, i);
  }

  lemma RemovedBefore(s: Slot, a: seq<Entry>, b: seq<Entry>, i: nat, e: Entry)
    requires SlotOk(s) && s.pipes == a + b && b != [] && s.current == Serving(b[0])
    requires i < |a| && e == a[i] && IndexOf(s.pipes, e) == i && e != b[0]
    ensures var r := Removed(s, e); SlotOk(r) && Turns(r) == b + Cut(a, i)
  {
    CutDistinct(s.pipes, i);
    CutParts(a, b, i);
    TurnsAre(Removed(s, e), Cut(a, i), b);
  }

  lemma RemovedAfter(s: Slot, a: seq<Entry>, b: seq<Entry>, i: nat, e: Entry)
    requires SlotOk(s) && s.pipes == a + b && b != [] && s.current == Serving(b[0])
    requires 0 < i < |b| && e == b[i] && IndexOf(s.pipes, e) == |a| + i && e != b[0]
    ensures var r := Removed(s, e); SlotOk(r) && Turns(r) == Cut(b, i) + a
  {
    CutDistinct(s.pipes, |a| + i);
    CutParts(a, b, |a| + i);
    var c := Cut(b, i);
    assert c[0] == b[0];
    TurnsAre(Removed(s, e), a, c);
  }

  lemma AppendDistinct(s: seq<Entry>, e: Entry)
    requires Distinct(s) && e !in s
    ensures Distinct(s + [e])
  {
    assert multiset(s)[e] == 0;
    assert multiset(s + [e]) == multiset(s) + multiset{e};
  }

  /** A new entry is put behind those at the end of the list, which is somewhere in the
      order of turns, not at its end. */
  lemma JoinedTurns(s: Slot, e: Entry) returns (m: nat)
    requires SlotOk(s) && e !in s.pipes
    ensures SlotOk(Joined(s, e))
    ensures m <= |Turns(s)| && Turns(Joined(s, e)) == Turns(s)[..m] + [e] + Turns(s)[m..]
    ensures s.pipes != [] ==> m > 0
  {
    AppendDistinct(s.pipes, e);
    if s.pipes == [] {
      m := 0;
      TurnsAre(Joined(s, e), [], [e]);
    } else {
      var a, b := Parts(s);
      m := |b|;
      assert s.pipes + [e] == a + (b + [e]);
      TurnsAre(Joined(s, e), a, b + [e]);
      assert (b + a)[..m] == b && (b + a)[m..] == a;
    }
  }

  /** The entries `es` join one after another, with no turn in between. */
  function JoinedAll(s: Slot, es: seq<Entry>): Slot {
    if es == [] then s else Joined(JoinedAll(s, es[..|es| - 1]), es[|es| - 1])
  }

  lemma {:induction false} JoinedAllIs(s: Slot, es: seq<Entry>)
    ensures var current := if s.pipes == [] && es != [] then Serving(es[0]) else s.current;
            JoinedAll(s, es) == Slot(s.pipes + es, current)
  {
    if es == [] {
      assert s.pipes + es == s.pipes;
    } else {
      JoinedAllIs(s, es[..|es| - 1]);
      assert s.pipes + es == s.pipes + es[..|es| - 1] + [es[|es| - 1]];
    }
  }

  /** They are served in the order in which they joined, one right after the other: after
      all those that were there from the current one to the end of the list, and before
      those in front of it. */
  lemma JoinedInOrder(s: Slot, es: seq<Entry>) returns (m: nat)
    requires SlotOk(s) && Distinct(s.pipes + es)
    ensures SlotOk(JoinedAll(s, es)) && m <= |Turns(s)|
    ensures Turns(JoinedAll(s, es)) == Turns(s)[..m] + es + Turns(s)[m..]
    ensures s.pipes != [] ==> m > 0 && Turns(s)[..m] == s.pipes[|s.pipes| - m..]
  {
    JoinedAllIs(s, es);
    if s.pipes == [] {
      m := 0;
      assert s.pipes + es == [] + es && es + [] == es;
      if es != [] { TurnsAre(JoinedAll(s, es), [], es); }
    } else {
      var a, b := Parts(s);
      m := |b|;
      assert s.pipes + es == a + (b + es);
      TurnsAre(JoinedAll(s, es), a, b + es);
      assert (b + a)[..m] == b && (b + a)[m..] == a;
    }
  }

  /** How many others are served before `e`. */
  function Distance(s: Slot, e: Entry): nat
    requires SlotOk(s)
  {
    IndexOf(Turns(s), e)
  }

  lemma DistanceAt(s: Slot, e: Entry, i: nat)
    requires SlotOk(s) && i < |Turns(s)| && Turns(s)[i] == e
    ensures Distance(s, e) == i
  {
    TurnsOk(s);
    IndexAt(Turns(s), i);
  }

  /** Every turn brings every other entry nearer by exactly one. */
  lemma NearerByTurn(s: Slot, e: Entry, release: bool)
    requires SlotOk(s) && e in s.pipes && s.current != Serving(e)
    ensures SlotOk(Passed(s, release)) && Distance(s, e) == Distance(Passed(s, release), e) + 1
    ensures e in Passed(s, release).pipes
  {
    TurnsOk(s);
    PassedTurns(s, release);
    TurnsOk(Passed(s, release));
    var d := Distance(s, e);
    assert Turns(s)[1..][d - 1] == e;
    DistanceAt(Passed(s, release), e, d - 1);
  }

  /** What is at `d` after the entry at `j` has been cut out. */
  lemma CutKeeps(t: seq<Entry>, j: nat, d: nat)
    requires j < |t| && d < |t| && d != j
    ensures var d' := if d < j then d else d - 1; d' < |Cut(t, j)| && Cut(t, j)[d'] == t[d]
  {
  }

  /** The removal of another entry takes it no further away. */
  lemma NoFartherByRemoval(s: Slot, e: Entry, other: Entry)
    requires SlotOk(s) && e in s.pipes && e != other && other in s.pipes
    ensures SlotOk(Removed(s, other)) && Distance(Removed(s, other), e) <= Distance(s, e)
    ensures e in Removed(s, other).pipes
  {
    TurnsOk(s);
    RemovedTurns(s, other);
    TurnsOk(Removed(s, other));
    var d, j := Distance(s, e), IndexOf(Turns(s), other);
    CutKeeps(Turns(s), j, d);
    DistanceAt(Removed(s, other), e, if d < j then d else d - 1);
  }

  /** The activation of another entry takes it further away by at most one. */
  lemma LittleFartherByJoin(s: Slot, e: Entry, other: Entry)
    requires SlotOk(s) && e in s.pipes && other !in s.pipes
    ensures SlotOk(Joined(s, other)) && Distance(s, e) <= Distance(Joined(s, other), e) <= Distance(s, e) + 1
    ensures e in Joined(s, other).pipes
  {
    TurnsOk(s);
    var m := JoinedTurns(s, other);
    TurnsOk(Joined(s, other));
    var d := Distance(s, e);
    DistanceAt(Joined(s, other), e, if d < m then d else d + 1);
  }
}
