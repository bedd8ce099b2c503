/** The object that the load balancer and the fair queue work with: sixteen slots, each
    with its list of pipes, updated in place. */
module PriorityList {
  import opened Priolist
  import opened Priorities

  class PriorityList {
    const slots: array<Slot>
    var current: int

    ghost function Value(): Prio
      reads this, slots
    {
      Prio(slots[..], current)
    }

    constructor ()
      ensures Valid(Value()) && forall e :: !Active(Value(), e)
      ensures fresh(slots)
    {
      slots := new Slot[SLOTS];
      current := -1;
      new;
      for i := 0 to SLOTS
        invariant slots.Length == SLOTS && current == -1
        invariant forall j :: 0 <= j < i ==> slots[j] == EMPTY
      {
        slots[i] := Slot([], Nobody);
      }
      forall i | 0 <= i < |slots[..]| ensures SlotAtOk(slots[..], i) && Empty(slots[..], i) {
        assert slots[..][i] == EMPTY;
      }
    }

    /** Takes `e` out of a slot's list; the result is the entry that followed. */
    method Erase(i: nat, e: Entry) returns (next: Current)
      requires i < slots.Length && e in slots[i].pipes
      modifies slots
      ensures var k, s := IndexOf(old(slots[i].pipes), e), old(slots[i]);
              && slots[..] == old(slots[..])[i := s.(pipes := Cut(s.pipes, k))]
              && next == if k < |slots[i].pipes| then Serving(slots[i].pipes[k]) else Nobody
    {
      var pipes := slots[i].pipes;
      var k := IndexOf(pipes, e);
      slots[i] := slots[i].(pipes := pipes[..k] + pipes[k + 1..]);
      next := if k < |slots[i].pipes| then Serving(slots[i].pipes[k]) else Nobody;
    }

    method First(i: nat) returns (first: Current)
      requires i < slots.Length
      ensures first == if slots[i].pipes == [] then Nobody else Serving(slots[i].pipes[0])
    {
      first := if slots[i].pipes == [] then Nobody else Serving(slots[i].pipes[0]);
    }

    /** Goes on to the next slot that has a pipe. */
    method SkipEmpty()
      requires slots.Length == SLOTS && 1 <= current <= SLOTS
      modifies `current
      ensures current == Seek(slots[..], old(current))
    {
      while slots[current - 1].pipes == []
        invariant 1 <= current <= SLOTS && Seek(slots[..], current) == Seek(slots[..], old(current))
        decreases SLOTS - current
      {
        current := current + 1;
        if current > SLOTS {
          current := -1;
          return;
        }
      }
    }

    method Activate(e: Entry)
      requires Valid(Value()) && HasPriority(e) && !Active(Value(), e)
      modifies this, slots
      ensures Value() == Priorities.Activate(old(Value()), e) && Valid(Value())
    {
      ActivateValid(Value(), e);
      ghost var was := Value();
      var i := e.priority - 1;
      if slots[i].pipes != [] {
        slots[i] := slots[i].(pipes := slots[i].pipes + [e]);
        assert Value() == Priorities.Activate(was, e);
        return;
      }
      slots[i] := slots[i].(pipes := slots[i].pipes + [e]);
      slots[i] := slots[i].(current := Serving(e));
      if current == -1 {
        current := e.priority;
      } else if current > e.priority {
        current := e.priority;
      }
      assert Value() == Priorities.Activate(was, e);
    }

    method Rm(e: Entry)
      requires Valid(Value()) && HasPriority(e)
      modifies this, slots
      ensures Value() == Priorities.Rm(old(Value()), e) && Valid(Value())
    {
      RmValid(Value(), e);
      ghost var was := Value();
      var i := e.priority - 1;
      if e !in slots[i].pipes {
        assert slots[..][i := slots[i]] == slots[..];
        return;
      }
      if slots[i].current != Serving(e) {
        var _ := Erase(i, e);
        assert Value() == Priorities.Rm(was, e);
        return;
      }
      var it := Erase(i, e);
      if it == Nobody {
        it := First(i);
      }
      slots[i] := slots[i].(current := it);
      assert slots[..] == was.slots[i := Removed(was.slots[i], e)];
      if current != e.priority {
        return;
      }
      SkipEmpty();
    }

    method GetPipe() returns (pipe: Current)
      requires Valid(Value())
      ensures pipe == Served(Value())
    {
      ServesTheHighest(Value(), Entry(0, 0));
      if current == -1 {
        return Nobody;
      }
      return slots[current - 1].current;
    }

    method Advance(release: bool)
      requires Valid(Value()) && current > 0
      modifies this, slots
      ensures Value() == Priorities.Advance(old(Value()), release) && Valid(Value())
    {
      AdvanceValid(Value(), release);
      ghost var was := Value();
      var i := current - 1;
      assert SlotAtOk(slots[..], i);
      var e := slots[i].current.entry;
      var it;
      if release {
        it := Erase(i, e);
      } else {
        var k := IndexOf(slots[i].pipes, e) + 1;
        it := if k < |slots[i].pipes| then Serving(slots[i].pipes[k]) else Nobody;
      }
      if it == Nobody {
        it := First(i);
      }
      slots[i] := slots[i].(current := it);
      assert slots[..] == was.slots[i := Passed(was.slots[i], release)];
      SkipEmpty();
    }
  }
}
