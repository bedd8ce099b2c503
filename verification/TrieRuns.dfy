/** Whole runs of subscriptions and unsubscriptions, against the plain multiset of
    strings that a trie stands for. */
module TrieRuns {
  import opened Bytes
  import opened Trie
  import opened TrieCounts
  import S = TrieSubscribe
  import U = TrieUnsubscribe
  import M = TrieMatch

  datatype Op = Sub(s: Str) | Unsub(s: Str)

  /** The guard of the two operations that break the shape of the trie: the last count of
      a childless node wraps to 0, or the walk follows an empty slot. */
  predicate Shapely(t: Tree, op: Op) {
    match op
    case Sub(s) => !(LeafAt(t, s) && Count(t, s) == U32 - 1)
    case Unsub(s) => !HoleHit(t, s)
  }

  function Result(t: Tree, op: Op): Outcome
    requires WellFormed(t)
  {
    match op
    case Sub(s) => Done(Subscribe(t, s), 0)
    case Unsub(s) => Unsubscribe(t, s)
  }

  /** Exactly when one operation keeps the shape. */
  lemma ShapeExact(t: Tree, op: Op)
    requires WellFormed(t)
    ensures Result(t, op).Done? && WellFormed(Result(t, op).tree) <==> Shapely(t, op)
  {
    match op
    case Sub(s) => S.SubscribeWellFormed(t, s);
    case Unsub(s) => U.UnsubscribeWellFormed(t, s);
  }

  /** Besides, no count wraps, and the operation does not take another string for `s`. */
  predicate Sound(t: Tree, op: Op) {
    match op
    case Sub(s) => Count(t, s) < U32 - 1
    case Unsub(s) => !WrongHit(t, s) && !HoleHit(t, s)
  }

  /** Nor does it rebuild a subscribed node in the other layout. */
  predicate Clean(t: Tree, op: Op) {
    Sound(t, op) &&
    match op
    case Sub(s) => !SubscribeLoses(t, s)
    case Unsub(s) => !UnsubscribeLoses(t, s)
  }

  function Apply(t: Tree, op: Op): (t': Tree)
    requires WellFormed(t) && Shapely(t, op)
    ensures WellFormed(t')
  {
    ShapeExact(t, op);
    Result(t, op).tree
  }

  predicate ShapelyRun(t: Tree, ops: seq<Op>)
    requires WellFormed(t)
    decreases |ops|
  {
    ops == [] || (Shapely(t, ops[0]) && ShapelyRun(Apply(t, ops[0]), ops[1..]))
  }

  predicate CleanRun(t: Tree, ops: seq<Op>)
    requires WellFormed(t)
    decreases |ops|
  {
    ops == [] || (Clean(t, ops[0]) && CleanRun(Apply(t, ops[0]), ops[1..]))
  }

  /** The shape survives every run in which no operation breaks it, whatever else goes
      wrong with the counts. */
  function Run(t: Tree, ops: seq<Op>): (t': Tree)
    requires WellFormed(t) && ShapelyRun(t, ops)
    ensures WellFormed(t')
    decreases |ops|
  {
    if ops == [] then t else Run(Apply(t, ops[0]), ops[1..])
  }

  /** The reference: a bag of strings. Taking out what is not there changes nothing. */
  function Step(bag: multiset<Str>, op: Op): multiset<Str> {
    match op
    case Sub(s) => bag + multiset{s}
    case Unsub(s) => bag - multiset{s}
  }

  function Tally(bag: multiset<Str>, ops: seq<Op>): multiset<Str>
    decreases |ops|
  {
    if ops == [] then bag else Tally(Step(bag, ops[0]), ops[1..])
  }

  ghost predicate Records(t: Tree, bag: multiset<Str>) {
    forall k: Str :: Count(t, k) as int == bag[k]
  }

  /** Without lossy conversions the trie and the bag stay in step, run after run. */
  lemma {:induction false} RunAgrees(t: Tree, bag: multiset<Str>, ops: seq<Op>)
    requires WellFormed(t) && CleanRun(t, ops) && Records(t, bag)
    ensures ShapelyRun(t, ops) && Records(Run(t, ops), Tally(bag, ops))
    decreases |ops|
  {
    if ops != [] {
      forall k: Str ensures Count(Apply(t, ops[0]), k) as int == Step(bag, ops[0])[k] {
        ApplyCount(t, ops[0], k);
      }
      RunAgrees(Apply(t, ops[0]), Step(bag, ops[0]), ops[1..]);
    }
  }

  lemma SubCount(t: Tree, s: Str, k: Str)
    requires WellFormed(t) && Count(t, s) < U32 - 1 && !SubscribeLoses(t, s)
    ensures Count(Subscribe(t, s), k) as int == Count(t, k) + if k == s then 1 else 0
  {
    S.SubscribeCount(t, s, k);
    S.Wraps(Count(t, s));
  }

  lemma UnsubCount(t: Tree, s: Str, k: Str)
    requires WellFormed(t) && !WrongHit(t, s) && !HoleHit(t, s) && !UnsubscribeLoses(t, s)
    ensures Unsubscribe(t, s).Done?
    ensures Count(Unsubscribe(t, s).tree, k) as int == Count(t, k) - if k == s && Count(t, k) > 0 then 1 else 0
  {
    U.UnsubscribeCount(t, s, k);
  }

  lemma ApplyCount(t: Tree, op: Op, k: Str)
    requires WellFormed(t) && Clean(t, op)
    ensures Count(Apply(t, op), k) as int
         == if op == Sub(k) then Count(t, k) + 1
            else if op == Unsub(k) && Count(t, k) > 0 then Count(t, k) - 1
            else Count(t, k)
  {
    match op
    case Sub(s) => SubCount(t, s, k);
    case Unsub(s) => UnsubCount(t, s, k);
  }

  /** After any such run, matching is a linear scan of the bag. */
  lemma RunMatches(ops: seq<Op>, mem: M.Memory, size: nat)
    requires CleanRun(Null, ops)
    ensures ShapelyRun(Null, ops)
    ensures var msg := M.Reads(mem, 0, size);
            !M.EndsUnmatched(Run(Null, ops), msg) ==>
              (M.Match(Run(Null, ops), mem, size) <==> exists s | s in Tally(multiset{}, ops) :: s <= msg)
  {
    RunAgrees(Null, multiset{}, ops);
    var t, bag, msg := Run(Null, ops), Tally(multiset{}, ops), M.Reads(mem, 0, size);
    if !M.EndsUnmatched(t, msg) {
      M.MatchRight(t, mem, size);
      WantedIsScan(t, bag, msg);
    }
  }

  lemma WantedIsScan(t: Tree, bag: multiset<Str>, msg: Str)
    requires Records(t, bag)
    ensures M.Wanted(t, msg) <==> exists s | s in bag :: s <= msg
  {
    if M.Wanted(t, msg) {
      var n :| 0 <= n <= |msg| && Count(t, msg[..n]) > 0;
      assert msg[..n] in bag;
    }
    if s :| s in bag && s <= msg {
      assert msg[..|s|] == s;
      assert Count(t, s) > 0;
    }
  }

  /** A subscription and its withdrawal cancel out, string by string. */
  lemma UndoneExactly(t: Tree, s: Str, k: Str)
    requires WellFormed(t) && Clean(t, Sub(s)) && Clean(Apply(t, Sub(s)), Unsub(s))
    ensures Count(Apply(Apply(t, Sub(s)), Unsub(s)), k) == Count(t, k)
  {
    ApplyCount(t, Sub(s), k);
    ApplyCount(t, Sub(s), s);
    ApplyCount(Apply(t, Sub(s)), Unsub(s), k);
  }

  // ----- the accidents do happen -----

  const LEAF: Tree := Node(Cell(1, [], Sparse([]), []))

  lemma {:induction false} RunOneMore(t: Tree, ops: seq<Op>, op: Op)
    requires WellFormed(t) && ShapelyRun(t, ops) && Shapely(Run(t, ops), op)
    ensures ShapelyRun(t, ops + [op]) && Run(t, ops + [op]) == Apply(Run(t, ops), op)
    decreases |ops|
  {
    if ops == [] {
      assert ops + [op] == [op];
    } else {
      assert (ops + [op])[1..] == ops[1..] + [op];
      RunOneMore(Apply(t, ops[0]), ops[1..], op);
    }
  }

  /** The empty string and the bytes below `k` subscribed. */
  function Fan(k: nat): Cell<Tree>
    requires k <= SPARSE_MAX
  {
    Cell(1, [], Sparse(seq(k, i requires 0 <= i < k => i)), seq(k, i requires 0 <= i < k => LEAF))
  }

  function FanOps(k: nat): seq<Op>
    requires k <= SPARSE_MAX
  {
    if k == 0 then [Sub([])] else FanOps(k - 1) + [Sub([k - 1])]
  }

  lemma FanWellFormed(k: nat)
    requires k <= SPARSE_MAX
    ensures WellFormed(Node(Fan(k)))
  {
    assert WellFormed(LEAF);
    assert forall kid | kid in Fan(k).kids :: kid == LEAF;
    assert Distinct(Fan(k).layout.keys);
  }

  lemma FanStep(k: nat)
    requires k < SPARSE_MAX
    ensures WellFormed(Node(Fan(k))) && Shapely(Node(Fan(k)), Sub([k]))
    ensures Apply(Node(Fan(k)), Sub([k])) == Node(Fan(k + 1))
  {
    FanWellFormed(k);
    var n := Fan(k);
    assert k !in n.layout.keys;
    assert Chain([k][1..]) == LEAF;
    assert n.layout.keys + [k] == Fan(k + 1).layout.keys && n.kids + [LEAF] == Fan(k + 1).kids;
  }

  lemma {:induction false} FanRun(k: nat)
    requires k <= SPARSE_MAX
    ensures ShapelyRun(Null, FanOps(k)) && Run(Null, FanOps(k)) == Node(Fan(k))
  {
    if k == 0 {
      assert Fan(0).layout.keys == [] && Fan(0).kids == [];
      assert Subscribe(Null, []) == LEAF;
    } else {
      FanRun(k - 1);
      FanStep(k - 1);
      RunOneMore(Null, FanOps(k - 1), Sub([k - 1]));
    }
  }

  /** The empty string and the bytes 0 to 7 subscribed: subscribing to 8 wipes out
      the count of the empty string. */
  lemma SubscribeLossExample() returns (t: Tree)
    ensures ShapelyRun(Null, FanOps(8)) && t == Run(Null, FanOps(8))
    ensures Count(t, []) == 1 && Count(Subscribe(t, [8]), []) == 0
  {
    FanRun(8);
    FanWellFormed(8);
    var n := Fan(8);
    t := Node(n);
    assert 8 !in n.layout.keys;
    FullNodeLoses(n, 8);
    assert n.prefix + [8] == [8];
  }

  lemma FullNodeLoses(n: Cell<Tree>, c: byte)
    requires WellFormed(Node(n)) && S.Full(n) && n.refcount > 0 && Child(n, c, Null) == Null
    ensures Count(Node(n), n.prefix) == n.refcount
    ensures Count(Subscribe(Node(n), n.prefix + [c]), n.prefix) == 0
  {
    CountHere(n);
    var s := n.prefix + [c];
    assert n.prefix < s && s[|n.prefix|..] == [c];
    S.SubscribeCount(Node(n), s, n.prefix);
    assert S.SubscribeMeets(Node(n), s, n.prefix);
  }

  /** The nine bytes from 0 to 8 and the empty string. */
  function Wide(refcount: uint32): Cell<Tree> {
    Cell(refcount, [], Dense(0, 8, 9), seq(9, i requires 0 <= i < 9 => LEAF))
  }

  lemma WideStep()
    ensures WellFormed(Node(Fan(8))) && Subscribe(Node(Fan(8)), [8]) == Node(Wide(0))
  {
    FanWellFormed(8);
    var n := Fan(8);
    assert 8 !in n.layout.keys;
    assert Chain([8][1..]) == LEAF;
    FanEnds(8);
    forall i | 0 <= i < 8 ensures Child(n, i, Null) == LEAF {
      assert n.layout.keys[i] == i && n.layout.keys[IndexOf(n.layout.keys, i)] == i;
    }
    assert AddChild(n, 8, LEAF, Null).kids == Wide(0).kids;
  }

  lemma {:induction false} FanEnds(k: nat)
    requires 0 < k <= SPARSE_MAX
    ensures MinOf(Fan(k).layout.keys) == 0 && MaxOf(Fan(k).layout.keys) == k - 1
  {
    assert Fan(k).layout.keys[..k - 1] == Fan(k - 1).layout.keys;
    if k > 1 { FanEnds(k - 1); }
  }

  lemma WideWellFormed(refcount: uint32)
    ensures WellFormed(Node(Wide(refcount)))
  {
    assert WellFormed(LEAF);
    assert forall k | k in Wide(refcount).kids :: k == LEAF;
    AllOccupied(Wide(refcount).kids);
  }

  const WIDE_OPS: seq<Op> := FanOps(8) + [Sub([8])] + [Sub([])]

  lemma WideRun()
    ensures ShapelyRun(Null, WIDE_OPS) && Run(Null, WIDE_OPS) == Node(Wide(1))
  {
    FanRun(8);
    WideStep();
    WideWellFormed(0);
    assert Shapely(Node(Fan(8)), Sub([8]));
    RunOneMore(Null, FanOps(8), Sub([8]));
    assert Subscribe(Node(Wide(0)), []) == Node(Wide(1));
    RunOneMore(Null, FanOps(8) + [Sub([8])], Sub([]));
  }

  /** The same on the way back: withdrawing one of nine children of a dense node. */
  lemma UnsubscribeLossExample() returns (t: Tree)
    ensures ShapelyRun(Null, WIDE_OPS) && t == Run(Null, WIDE_OPS) && Count(t, []) == 1 && Count(t, [0]) == 1
    ensures Unsubscribe(t, [0]).Done? && Count(Unsubscribe(t, [0]).tree, []) == 0
  {
    WideRun();
    WideWellFormed(1);
    var n := Wide(1);
    t := Node(n);
    CountHere(n);
    CountStep(n, 0, []);
    assert n.prefix + [0] + [] == [0];
    U.LosesStep(n, 0, []);
    U.SubscribedIsSafe(t, [0]);
    U.UnsubscribeCount(t, [0], []);
    assert U.UnsubscribeMeets(t, [0], []);
  }

  lemma AllOccupied(kids: seq<Tree>)
    requires Null !in kids
    ensures Occupied(kids, Null) == |kids|
  {
  }

  /** With nothing subscribed, withdrawing a string dereferences the null root. */
  lemma HoleHitExample()
    ensures HoleHit(Null, [0]) && Unsubscribe(Null, [0]) == Fault
  {
  }

  /** With "ABC" subscribed, withdrawing the empty string removes "ABC". */
  lemma WrongHitExample()
    ensures var t := Subscribe(Null, [65, 66, 67]);
            Count(t, []) == 0 && Count(t, [65, 66, 67]) == 1 && Unsubscribe(t, []) == Done(Null, 1)
  {
    var n: Cell<Tree> := Cell(1, [65, 66, 67], Sparse([]), []);
    assert Subscribe(Null, [65, 66, 67]) == Node(n);
    CountHere(n);
  }

  const FORK: Cell<Tree> := Cell(0, [65], Sparse([66, 67]), [LEAF, LEAF])

  lemma ForkRun()
    ensures ShapelyRun(Null, [Sub([65, 66]), Sub([65, 67])]) && Run(Null, [Sub([65, 66]), Sub([65, 67])]) == Node(FORK)
  {
    var n: Cell<Tree> := Cell(1, [65, 66], Sparse([]), []);
    assert Apply(Null, Sub([65, 66])) == Node(n);
    ForkStep(n);
    assert Apply(Node(n), Sub([65, 67])) == Node(FORK);
    assert [Sub([65, 66]), Sub([65, 67])][1..] == [Sub([65, 67])];
  }

  lemma ForkStep(n: Cell<Tree>)
    requires n == Cell(1, [65, 66], Sparse([]), [])
    ensures WellFormed(Node(n)) && Subscribe(Node(n), [65, 67]) == Node(FORK) && !LeafAt(Node(n), [65, 67])
  {
    assert PrefixLen(n.prefix, [65, 67]) == 1;
    assert n.prefix[..1] == [65] && n.prefix[2..] == [] && [65, 67][1..] == [67] && [67][1..] == [];
    assert Compact(n.(prefix := [])) == LEAF && Chain([]) == LEAF;
    var m: Cell<Tree> := Cell(0, [65], Sparse([66]), [LEAF]);
    assert Split(n, 1) == m;
    assert m.layout.keys + [67] == FORK.layout.keys && m.kids + [LEAF] == FORK.kids;
    assert AddChild(m, 67, LEAF, Null) == FORK;
  }

  /** With "AB" and "AC" subscribed, the message "A" matches if a 'B' happens to follow it. */
  lemma BareMatchExample() returns (t: Tree)
    ensures ShapelyRun(Null, [Sub([65, 66]), Sub([65, 67])]) && t == Run(Null, [Sub([65, 66]), Sub([65, 67])])
    ensures !M.Wanted(t, [65]) && exists mem: M.Memory :: M.Reads(mem, 0, 1) == [65] && M.Match(t, mem, 1)
  {
    ForkRun();
    t := Node(FORK);
    assert M.EndsBare(t, [65]);
    forall i: nat | i <= 1 ensures Count(t, [65][..i]) == 0 {
      if i == 1 { assert [65][..1] == FORK.prefix; CountHere(FORK); }
    }
    var mem := M.BareMatches(t, [65]);
  }
}
