/** Matching a message against the subscriptions. The walk reads memory, of which
    the message is only the beginning: nothing stops it at a node that has no
    subscriber when the message is used up. */
module TrieMatch {
  import opened Bytes
  import opened Trie
  import opened TrieCounts

  type Memory = nat -> byte

  /** `n` bytes of memory from address `at`. */
  function Reads(mem: Memory, at: nat, n: nat): (s: Str)
    ensures |s| == n
    ensures forall i :: 0 <= i < n ==> s[i] == mem(at + i)
  {
    seq(n, i requires 0 <= i < n => mem(at + i))
  }

  /** The whole prefix matches. `left` counts the unread bytes of the message; like
      the unsigned size it stands for, it is 0 once only and then no limit any more. */
  predicate PrefixMatches(p: Str, mem: Memory, at: nat, left: int) {
    (0 <= left ==> |p| <= left) && Reads(mem, at, |p|) == p
  }

  /** What one node says to the message. */
  datatype Verdict = Yes | No | GoTo(slot: nat)

  function Look<T>(n: Cell<T>, mem: Memory, at: nat, left: int): (v: Verdict)
    ensures v.GoTo? ==> v.slot < |n.kids|
  {
    if !PrefixMatches(n.prefix, mem, at, left) then No
    else if n.refcount > 0 then Yes
    else if HasSlot(n, mem(at + |n.prefix|)) then GoTo(SlotOf(n.layout, mem(at + |n.prefix|)))
    else No
  }

  predicate MatchFrom(t: Tree, mem: Memory, at: nat, left: int) {
    t.Node? &&
    match Look(t.cell, mem, at, left)
    case Yes => true
    case No => false
    case GoTo(i) => MatchFrom(t.cell.kids[i], mem, at + |t.cell.prefix| + 1, left - |t.cell.prefix| - 1)
  }

  predicate Match(t: Tree, mem: Memory, size: nat) {
    MatchFrom(t, mem, 0, size)
  }

  /** The message ends exactly at a node that nobody subscribes to. */
  predicate EndsBare(t: Tree, msg: Str)
    decreases |msg|
  {
    t.Node? && t.cell.prefix <= msg &&
    var rest := msg[|t.cell.prefix|..];
    if rest == [] then t.cell.refcount == 0 else EndsBare(Child(t.cell, rest[0], Null), rest[1..])
  }

  lemma ReadsSplit(mem: Memory, at: nat, p: Str, b: nat)
    requires Reads(mem, at, |p|) == p
    ensures Reads(mem, at, |p| + 1 + b) == p + [mem(at + |p|)] + Reads(mem, at + |p| + 1, b)
  {
  }

  lemma EndsBareStep(n: Cell<Tree>, c: byte, q: Str)
    ensures EndsBare(Node(n), n.prefix + [c] + q) <==> EndsBare(Child(n, c, Null), q)
  {
    var k := n.prefix + [c] + q;
    assert n.prefix <= k && k[|n.prefix|..] == [c] + q && ([c] + q)[1..] == q;
  }

  /** The tree says of `k` what its subtree says of `q`. */
  predicate Continues(t: Tree, k: Str, ch: Tree, q: Str) {
    Count(t, k) == Count(ch, q) && (EndsBare(t, k) <==> EndsBare(ch, q))
  }

  lemma StepAt(n: Cell<Tree>, c: byte, q: Str, k: Str)
    requires k == n.prefix + [c] + q
    ensures Continues(Node(n), k, Child(n, c, Null), q)
  {
    CountStep(n, c, q);
    EndsBareStep(n, c, q);
  }

  /** One step of the walk, in terms of what memory holds. */
  lemma StepReads(n: Cell<Tree>, mem: Memory, at: nat, b: nat)
    requires Reads(mem, at, |n.prefix|) == n.prefix
    ensures var next := at + |n.prefix|;
            Continues(Node(n), Reads(mem, at, |n.prefix| + 1 + b),
                      Child(n, mem(next), Null), Reads(mem, next + 1, b))
  {
    var next := at + |n.prefix|;
    var c, q, k := mem(next), Reads(mem, next + 1, b), Reads(mem, at, |n.prefix| + 1 + b);
    assert k == n.prefix + [c] + q by { ReadsSplit(mem, at, n.prefix, b); }
    StepAt(n, c, q, k);
  }

  lemma ReadsPrefix(mem: Memory, at: nat, p: Str, m: nat)
    ensures p <= Reads(mem, at, m) <==> |p| <= m && Reads(mem, at, |p|) == p
  {
    if |p| <= m { assert Reads(mem, at, m)[..|p|] == Reads(mem, at, |p|); }
  }

  /** The walk may still see `m` bytes: the message is that long, or used up
      already, or it ends at a bare node. */
  predicate InReach(t: Tree, mem: Memory, at: nat, left: int, m: nat) {
    left < 0 || m <= left || EndsBare(t, Reads(mem, at, left))
  }

  lemma StepInReach(n: Cell<Tree>, mem: Memory, at: nat, left: int, b: nat)
    requires PrefixMatches(n.prefix, mem, at, left) && n.refcount == 0
    ensures InReach(Node(n), mem, at, left, |n.prefix| + 1 + b)
       <==> InReach(Child(n, mem(at + |n.prefix|), Null), mem, at + |n.prefix| + 1, left - |n.prefix| - 1, b)
  {
    if left > |n.prefix| { StepReads(n, mem, at, left - |n.prefix| - 1); }
  }

  lemma FirstStep(n: Cell<Tree>, mem: Memory, at: nat, left: int, m: nat)
    requires Count(Node(n), Reads(mem, at, m)) > 0 && InReach(Node(n), mem, at, left, m)
    ensures PrefixMatches(n.prefix, mem, at, left) && |n.prefix| <= m
    ensures n.refcount == 0 ==> |n.prefix| < m
  {
    ReadsPrefix(mem, at, n.prefix, m);
    if left >= 0 { ReadsPrefix(mem, at, n.prefix, left); }
    CountHere(n);
  }

  /** A match is always owed to a subscription within reach. */
  lemma {:induction false} MatchSound(t: Tree, mem: Memory, at: nat, left: int) returns (m: nat)
    requires MatchFrom(t, mem, at, left)
    ensures Count(t, Reads(mem, at, m)) > 0 && InReach(t, mem, at, left, m)
  {
    var n := t.cell;
    match Look(n, mem, at, left)
    case Yes =>
      m := |n.prefix|;
      CountHere(n);
    case GoTo(i) =>
      var b := MatchSound(n.kids[i], mem, at + |n.prefix| + 1, left - |n.prefix| - 1);
      m := |n.prefix| + 1 + b;
      SoundAbove(n, mem, at, left, b);
  }

  lemma SoundAbove(n: Cell<Tree>, mem: Memory, at: nat, left: int, b: nat)
    requires Look(n, mem, at, left).GoTo?
    requires var next, ch := at + |n.prefix| + 1, n.kids[Look(n, mem, at, left).slot];
             Count(ch, Reads(mem, next, b)) > 0 && InReach(ch, mem, next, left - |n.prefix| - 1, b)
    ensures var m := |n.prefix| + 1 + b;
            Count(Node(n), Reads(mem, at, m)) > 0 && InReach(Node(n), mem, at, left, m)
  {
    StepReads(n, mem, at, b);
    StepInReach(n, mem, at, left, b);
  }

  /** A subscription within reach is found. */
  lemma {:induction false} MatchComplete(t: Tree, mem: Memory, at: nat, left: int, m: nat)
    requires Count(t, Reads(mem, at, m)) > 0 && InReach(t, mem, at, left, m)
    ensures MatchFrom(t, mem, at, left)
    decreases m
  {
    var n := t.cell;
    var p := |n.prefix|;
    FirstStep(n, mem, at, left, m);
    if n.refcount == 0 {
      StepReads(n, mem, at, m - p - 1);
      StepInReach(n, mem, at, left, m - p - 1);
      MatchComplete(Child(n, mem(at + p), Null), mem, at + p + 1, left - p - 1, m - p - 1);
    }
  }

  /** The promise: 1 exactly for messages that begin with a subscribed string. */
  ghost predicate Wanted(t: Tree, msg: Str) {
    exists n | 0 <= n <= |msg| :: Count(t, msg[..n]) > 0
  }

  /** The walk uses up the message at a node without subscriber, past none that has one. */
  predicate EndsUnmatched(t: Tree, msg: Str)
    decreases |msg|
  {
    t.Node? && t.cell.prefix <= msg && t.cell.refcount == 0 &&
    var rest := msg[|t.cell.prefix|..];
    rest == [] || EndsUnmatched(Child(t.cell, rest[0], Null), rest[1..])
  }

  lemma WantedStep(n: Cell<Tree>, c: byte, q: Str)
    ensures Wanted(Node(n), n.prefix + [c] + q) <==> n.refcount > 0 || Wanted(Child(n, c, Null), q)
  {
    var msg, p := n.prefix + [c] + q, |n.prefix|;
    CountHere(n);
    assert msg[..p] == n.prefix;
    if m :| 0 <= m <= |msg| && Count(Node(n), msg[..m]) > 0 && m != p {
      assert n.prefix <= msg[..m];
      assert msg[..m] == n.prefix + [c] + q[..m - p - 1];
      CountStep(n, c, q[..m - p - 1]);
    }
    if m :| 0 <= m <= |q| && Count(Child(n, c, Null), q[..m]) > 0 {
      assert msg[..p + 1 + m] == n.prefix + [c] + q[..m];
      CountStep(n, c, q[..m]);
    }
  }

  lemma WantedHere(n: Cell<Tree>)
    ensures Wanted(Node(n), n.prefix) <==> n.refcount > 0
  {
    CountHere(n);
    assert n.prefix[..|n.prefix|] == n.prefix;
    if m :| 0 <= m <= |n.prefix| && Count(Node(n), n.prefix[..m]) > 0 {
      assert n.prefix <= n.prefix[..m];
      assert n.prefix[..m] == n.prefix;
    }
  }

  lemma {:induction false} EndsUnmatchedIs(t: Tree, msg: Str)
    ensures EndsUnmatched(t, msg) <==> EndsBare(t, msg) && !Wanted(t, msg)
    decreases |msg|
  {
    if t.Node? && t.cell.prefix <= msg {
      var n := t.cell;
      if n.prefix == msg {
        WantedHere(n);
      } else {
        var c, q := msg[|n.prefix|], msg[|n.prefix| + 1..];
        assert msg == n.prefix + [c] + q && msg[|n.prefix|..][1..] == q;
        EndsBareStep(n, c, q);
        WantedStep(n, c, q);
        EndsUnmatchedIs(Child(n, c, Null), q);
      }
    }
  }

  lemma MatchRight(t: Tree, mem: Memory, size: nat)
    requires !EndsUnmatched(t, Reads(mem, 0, size))
    ensures Match(t, mem, size) <==> Wanted(t, Reads(mem, 0, size))
  {
    var msg := Reads(mem, 0, size);
    EndsUnmatchedIs(t, msg);
    if Match(t, mem, size) && !EndsBare(t, msg) {
      var m := MatchSound(t, mem, 0, size);
      assert msg[..m] == Reads(mem, 0, m);
    }
    if Wanted(t, msg) { WantedMatches(t, mem, msg); }
  }

  lemma {:induction false} SomeKey(t: Tree) returns (k: Str)
    requires WellFormed(t) && t.Node?
    ensures Count(t, k) > 0
  {
    var n := t.cell;
    if n.refcount > 0 {
      k := n.prefix;
      CountHere(n);
    } else {
      var c := if n.layout.Sparse? then n.layout.keys[0] else n.layout.min;
      assert n.kids[0] in n.kids;
      var q := SomeKey(n.kids[0]);
      k := n.prefix + [c] + q;
      CountStep(n, c, q);
    }
  }

  /** Below a bare node there is always a subscription. */
  lemma {:induction false} BareGoesOn(t: Tree, msg: Str) returns (more: Str)
    requires WellFormed(t) && EndsBare(t, msg)
    ensures Count(t, msg + more) > 0
    decreases |msg|
  {
    var n := t.cell;
    if n.prefix == msg {
      var k := SomeKey(t);
      more := k[|msg|..];
      assert k == msg + more;
    } else {
      var c, q := msg[|n.prefix|], msg[|n.prefix| + 1..];
      assert msg == n.prefix + [c] + q;
      EndsBareStep(n, c, q);
      ChildWellFormed(n, c);
      more := BareGoesOn(Child(n, c, Null), q);
      BareGoesOnAbove(n, c, q, more);
    }
  }

  lemma BareGoesOnAbove(n: Cell<Tree>, c: byte, q: Str, more: Str)
    ensures Count(Node(n), n.prefix + [c] + q + more) == Count(Child(n, c, Null), q + more)
  {
    CountStep(n, c, q + more);
    assert n.prefix + [c] + q + more == n.prefix + [c] + (q + more);
  }

  lemma WantedMatches(t: Tree, mem: Memory, msg: Str)
    requires Reads(mem, 0, |msg|) == msg && Wanted(t, msg)
    ensures Match(t, mem, |msg|)
  {
    var m :| 0 <= m <= |msg| && Count(t, msg[..m]) > 0;
    assert msg[..m] == Reads(mem, 0, m);
    MatchComplete(t, mem, 0, |msg|, m);
  }

  /** What may follow a message that ends at a bare node to make it match. */
  lemma BareMatches(t: Tree, msg: Str) returns (mem: Memory)
    requires WellFormed(t) && EndsBare(t, msg)
    ensures Reads(mem, 0, |msg|) == msg && Match(t, mem, |msg|)
  {
    var more := BareGoesOn(t, msg);
    var k := msg + more;
    mem := (i: nat) => if i < |k| then k[i] else 0;
    assert Reads(mem, 0, |k|) == k;
    assert Reads(mem, 0, |msg|) == msg;
    MatchComplete(t, mem, 0, |msg|, |k|);
  }

  /** The answer is right whatever follows the message in memory. */
  ghost predicate AlwaysRight(t: Tree, msg: Str) {
    forall mem: Memory | Reads(mem, 0, |msg|) == msg :: Match(t, mem, |msg|) <==> Wanted(t, msg)
  }

  lemma MatchExact(t: Tree, msg: Str)
    requires WellFormed(t)
    ensures AlwaysRight(t, msg) <==> !EndsUnmatched(t, msg)
  {
    EndsUnmatchedIs(t, msg);
    if EndsUnmatched(t, msg) {
      var mem := BareMatches(t, msg);
      assert !AlwaysRight(t, msg);
    } else {
      forall mem: Memory | Reads(mem, 0, |msg|) == msg ensures Match(t, mem, |msg|) <==> Wanted(t, msg) {
        MatchRight(t, mem, |msg|);
      }
    }
  }
}
