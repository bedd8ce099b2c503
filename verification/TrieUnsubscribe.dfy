/** Unsubscribing: for every tree and every string, what happens, and exactly
    when that is what a subscriber expects. */
module TrieUnsubscribe {
  import opened Bytes
  import opened Trie
  import opened TrieNodes
  import opened TrieCounts

  // ----- one step of the walk -----

  lemma UnsubscribeStep(n: Cell<Tree>, c: byte, q: Str)
    requires WellFormed(Node(n)) && HasSlot(n, c)
    ensures WellFormed(Child(n, c, Null))
    ensures var t, d, ch := Node(n), n.prefix + [c] + q, Child(n, c, Null);
            && Unsubscribe(t, d) == After(n, c, Unsubscribe(ch, q))
            && (WrongHit(t, d) <==> WrongHit(ch, q))
            && (HoleHit(t, d) <==> ch.Null? || HoleHit(ch, q))
            && (BareHit(t, d) <==> BareHit(ch, q))
            && (Vanishes(t, d) <==> n.refcount == 0 && |n.kids| == 1 && Vanishes(ch, q))
            && Count(t, d) == Count(ch, q)
  {
    var d := n.prefix + [c] + q;
    ChildWellFormed(n, c);
    assert n.prefix < d && d[|n.prefix|] == c;
    assert d[|n.prefix|..] == [c] + q && ([c] + q)[1..] == q;
    assert d[|n.prefix| + 1..] == q;
    CountStep(n, c, q);
  }

  /** What a node becomes once its child has been dealt with. */
  function After(n: Cell<Tree>, c: byte, o: Outcome): Outcome
    requires Rangy(n) && HasSlot(n, c)
  {
    match o
    case Fault => Fault
    case Done(kid, rc) =>
      var m := SetChild(n, c, kid);
      if rc == 0 then Done(Node(m), 0) else if kid.Node? then Done(Node(m), 1) else Prune(m, c)
  }

  lemma LosesStep(n: Cell<Tree>, c: byte, q: Str)
    ensures var t, d, ch := Node(n), n.prefix + [c] + q, Child(n, c, Null);
            && (UnsubscribeLoses(t, d) <==>
                  if Vanishes(ch, q) then n.layout.Dense? && n.layout.nbr == SPARSE_MAX + 1 && n.refcount > 0
                  else UnsubscribeLoses(ch, q))
            && (UnsubscribeLoses(t, d) ==>
                  UnsubscribeLostKey(t, d)
                  == if Vanishes(ch, q) then n.prefix else n.prefix + [c] + UnsubscribeLostKey(ch, q))
  {
    var d := n.prefix + [c] + q;
    assert n.prefix < d && d[|n.prefix|] == c;
    assert d[|n.prefix|..] == [c] + q && ([c] + q)[1..] == q;
  }

  /** The walk does not go below this node: the data ends here, or leads nowhere. */
  predicate StopsHere(n: Cell<Tree>, d: Str) {
    d == [] || !(n.prefix < d) || !HasSlot(n, d[|n.prefix|])
  }

  /** The node above a child that has gone. */
  lemma PruneShape(n: Cell<Tree>, c: byte)
    requires WellFormed(Node(n)) && Child(n, c, Null).Node?
    ensures Rangy(n) && HasSlot(n, c)
    ensures var o := Prune(SetChild(n, c, Null), c);
            o.Done? && o.rc == 1 && WellFormed(o.tree) && (o.tree.Null? <==> n.refcount == 0 && |n.kids| == 1)
  {
    var e := SetChild(n, c, Null);
    if n.layout.Dense? {
      RemoveDenseFits(n, c, Null);
      RemoveDense(n, c, Null);
    } else {
      RemoveSparse(n, c, Null);
      var m := RemoveChild(e, c, Null);
      if m.kids != [] || m.refcount != 0 {
        assert WellFormed(Node(m));
        CompactWellFormed(m);
      }
    }
  }

  lemma PruneCount(n: Cell<Tree>, c: byte, k: Str)
    requires WellFormed(Node(n)) && Child(n, c, Null).Node?
    ensures Rangy(n) && HasSlot(n, c)
    ensures var o := Prune(SetChild(n, c, Null), c);
            o.Done? && Count(o.tree, k) ==
              if k == n.prefix then (if n.layout.Dense? && n.layout.nbr == SPARSE_MAX + 1 then 0 else n.refcount)
              else if n.prefix + [c] <= k then 0
              else Count(Node(n), k)
  {
    PruneShape(n, c);
    var e := SetChild(n, c, Null);
    if n.layout.Dense? {
      RemoveDense(n, c, Null);
    } else {
      RemoveSparse(n, c, Null);
    }
    var m := RemoveChild(e, c, Null);
    EditCount(n, m, c, Null, k);
    CompactCount(m, k);
    if m.kids == [] && m.refcount == 0 { EmptyCount(m, k); }
  }

  lemma EmptyCount(m: Cell<Tree>, k: Str)
    requires m.kids == [] && m.refcount == 0
    ensures Count(Node(m), k) == 0
  {
  }

  // ----- the walk finds what it looks for, or nothing -----

  /** Unless the walk runs into a hole or hits the wrong node, it succeeds, keeps
      the shape, and reports as follows. */
  ghost predicate Reports(t: Tree, d: Str, o: Outcome) {
    && o.Done? && WellFormed(o.tree)
    && (o.tree.Null? <==> t.Null? || Vanishes(t, d))
    && (Vanishes(t, d) ==> Count(t, d) == 1)
    && (Count(t, d) > 1 ==> o.rc == 0)
    && (Count(t, d) == 1 ==> o.rc == 1)
    && (Count(t, d) == 0 ==>
          && o.tree == t
          && o.rc == if t.Null? then -EINVAL
                     else if !BareHit(t, d) then 0
                     else if t.cell.prefix < d then 1 else -EINVAL)
  }

  lemma {:induction false} UnsubscribeReports(t: Tree, d: Str)
    requires WellFormed(t) && !WrongHit(t, d) && !HoleHit(t, d)
    ensures Reports(t, d, Unsubscribe(t, d))
    decreases |d|
  {
    if t.Node? && !StopsHere(t.cell, d) {
      var n := t.cell;
      var c, q := d[|n.prefix|], d[|n.prefix| + 1..];
      assert d == n.prefix + [c] + q;
      UnsubscribeStep(n, c, q);
      UnsubscribeReports(Child(n, c, Null), q);
      ReportsAbove(n, c, q);
    } else {
      UnsubscribeReportsHere(t, d);
    }
  }

  /** The walk is at the node it takes for the subscribed one. */
  lemma FoundReports(n: Cell<Tree>, d: Str)
    requires WellFormed(Node(n)) && !WrongHit(Node(n), d) && (d == [] || d == n.prefix)
    ensures Reports(Node(n), d, Found(Node(n)))
  {
    CountHere(n);
    if n.refcount == 1 && n.kids != [] {
      assert WellFormed(Node(n.(refcount := 0)));
      CompactWellFormed(n.(refcount := 0));
    }
  }

  /** The walk has nowhere to go. */
  lemma StrayReports(n: Cell<Tree>, d: Str)
    requires WellFormed(Node(n)) && d != [] && d != n.prefix
    requires n.prefix < d ==> !HasSlot(n, d[|n.prefix|])
    ensures Reports(Node(n), d, Done(Node(n), 0))
  {
    if n.prefix < d {
      KeyCases(n.prefix, d);
      CountStep(n, d[|n.prefix|], d[|n.prefix| + 1..]);
    }
  }

  lemma UnsubscribeReportsHere(t: Tree, d: Str)
    requires WellFormed(t) && !WrongHit(t, d) && !HoleHit(t, d)
    requires t.Null? || StopsHere(t.cell, d)
    ensures Reports(t, d, Unsubscribe(t, d))
  {
    if t.Node? {
      if d == [] || d == t.cell.prefix { FoundReports(t.cell, d); } else { StrayReports(t.cell, d); }
    }
  }

  lemma ReportsAbove(n: Cell<Tree>, c: byte, q: Str)
    requires WellFormed(Node(n)) && Child(n, c, Null).Node? && WellFormed(Child(n, c, Null))
    requires Reports(Child(n, c, Null), q, Unsubscribe(Child(n, c, Null), q))
    ensures Reports(Node(n), n.prefix + [c] + q, Unsubscribe(Node(n), n.prefix + [c] + q))
  {
    var ch := Child(n, c, Null);
    UnsubscribeStep(n, c, q);
    if Vanishes(ch, q) {
      PruneShape(n, c);
    } else {
      SetChildWellFormed(n, c, Unsubscribe(ch, q).tree);
    }
  }

  // ----- the counts afterwards -----

  /** One subscription to `d` is gone, if there was one; the key of a node rebuilt
      as sparse drops to 0; every other string keeps its count. */
  ghost predicate UnsubscribeMeets(t: Tree, d: Str, k: Str)
    requires WellFormed(t)
  {
    var o := Unsubscribe(t, d);
    && o.Done?
    && Count(o.tree, k)
       == if k == d then (if Count(t, d) > 0 then Count(t, d) - 1 else 0)
          else if UnsubscribeLoses(t, d) && k == UnsubscribeLostKey(t, d) then 0
          else Count(t, k)
  }

  lemma {:induction false} UnsubscribeCount(t: Tree, d: Str, k: Str)
    requires WellFormed(t) && !WrongHit(t, d) && !HoleHit(t, d)
    ensures UnsubscribeMeets(t, d, k)
    decreases |d|
  {
    if t.Node? && !StopsHere(t.cell, d) {
      var n := t.cell;
      var c, q := d[|n.prefix|], d[|n.prefix| + 1..];
      assert d == n.prefix + [c] + q;
      UnsubscribeStep(n, c, q);
      UnsubscribeReports(Child(n, c, Null), q);
      if n.prefix + [c] <= k { UnsubscribeCount(Child(n, c, Null), q, k[|n.prefix| + 1..]); }
      UnsubscribeCountAbove(n, c, q, k);
    } else {
      UnsubscribeCountHere(t, d, k);
    }
  }

  lemma UnsubscribeCountHere(t: Tree, d: Str, k: Str)
    requires WellFormed(t) && !WrongHit(t, d) && !HoleHit(t, d)
    requires t.Null? || StopsHere(t.cell, d)
    ensures UnsubscribeMeets(t, d, k)
  {
    if t.Node? && Count(t, d) > 0 {
      var n := t.cell;
      var m := n.(refcount := n.refcount - 1);
      assert d == n.prefix;
      EditCount(n, m, 0, Child(n, 0, Null), k);
      CompactCount(m, k);
      if m.kids == [] && m.refcount == 0 { EmptyCount(m, k); }
    }
  }

  lemma UnsubscribeCountAbove(n: Cell<Tree>, c: byte, q: Str, k: Str)
    requires WellFormed(Node(n)) && Child(n, c, Null).Node? && WellFormed(Child(n, c, Null))
    requires Reports(Child(n, c, Null), q, Unsubscribe(Child(n, c, Null), q))
    requires n.prefix + [c] <= k ==> UnsubscribeMeets(Child(n, c, Null), q, k[|n.prefix| + 1..])
    ensures UnsubscribeMeets(Node(n), n.prefix + [c] + q, k)
  {
    var ch, h := Child(n, c, Null), n.prefix + [c];
    UnsubscribeStep(n, c, q);
    LosesStep(n, c, q);
    var o := Unsubscribe(ch, q);
    CountHere(n);
    if h <= k {
      var r := k[|h|..];
      assert k == h + r;
      CountStep(n, c, r);
      SameTail(h, q, r);
    }
    if Vanishes(ch, q) {
      PruneCount(n, c, k);
    } else {
      SetChildCount(n, c, o.tree, k);
    }
  }

  // ----- exactly when the walk goes wrong -----

  lemma SafeAbove(n: Cell<Tree>, c: byte, q: Str, d: Str)
    requires d == n.prefix + [c] + q && Child(n, c, Null).Node?
    requires !WrongHit(Child(n, c, Null), q) && !HoleHit(Child(n, c, Null), q)
    ensures !WrongHit(Node(n), d) && !HoleHit(Node(n), d)
  {
    assert d[|n.prefix|] == c && d[|n.prefix| + 1..] == q;
  }

  /** A subscribed string is never missed: neither kind of accident can happen. */
  lemma {:induction false} SubscribedIsSafe(t: Tree, d: Str)
    requires WellFormed(t) && Count(t, d) > 0
    ensures !WrongHit(t, d) && !HoleHit(t, d)
    decreases |d|
  {
    var n := t.cell;
    if d != [] && n.prefix < d {
      var c, q := d[|n.prefix|], d[|n.prefix| + 1..];
      assert d == n.prefix + [c] + q;
      CountStep(n, c, q);
      ChildWellFormed(n, c);
      SubscribedIsSafe(Child(n, c, Null), q);
      SafeAbove(n, c, q, d);
    }
  }

  /** The subscription that `WrongHit` speaks of is another one, and it loses a count. */
  lemma {:induction false} WrongHitTakes(t: Tree, d: Str)
    requires WellFormed(t) && WrongHit(t, d)
    ensures var o, k := Unsubscribe(t, d), WrongKey(t, d);
            d < k && Count(t, k) > 0 && o.Done? && Count(o.tree, k) == Count(t, k) - 1
    decreases |d|
  {
    var n := t.cell;
    CountHere(n);
    if d == [] {
      var m := n.(refcount := n.refcount - 1);
      CountHere(m);
      CompactCount(m, n.prefix);
    } else {
      var c, q := d[|n.prefix|], d[|n.prefix| + 1..];
      assert d == n.prefix + [c] + q;
      var ch, h := Child(n, c, Null), n.prefix + [c];
      UnsubscribeStep(n, c, q);
      WrongHitTakes(ch, q);
      var o, r := Unsubscribe(ch, q), WrongKey(ch, q);
      assert WrongKey(t, d) == h + r;
      CountStep(n, c, r);
      SetChildCount(n, c, o.tree, h + r);
      PruneCount(n, c, h + r);
      assert (h + r)[|h|..] == r;
    }
  }

  /** Walking into a hole ends in a crash or leaves a node with a wrong child count. */
  lemma {:induction false} HoleHitBreaks(t: Tree, d: Str)
    requires WellFormed(t) && HoleHit(t, d)
    ensures var o := Unsubscribe(t, d); o.Fault? || !WellFormed(o.tree)
    decreases |d|
  {
    if t.Node? {
      var n := t.cell;
      var c, q := d[|n.prefix|], d[|n.prefix| + 1..];
      assert d == n.prefix + [c] + q;
      var ch := Child(n, c, Null);
      UnsubscribeStep(n, c, q);
      if ch.Null? {
        if q == [] { HoleMiscounts(n, c); }
      } else {
        HoleHitBreaks(ch, q);
        var o := Unsubscribe(ch, q);
        if o.Done? { SetChildWellFormed(n, c, o.tree); }
      }
    }
  }

  lemma HoleMiscounts(n: Cell<Tree>, c: byte)
    requires WellFormed(Node(n)) && HasSlot(n, c) && Child(n, c, Null).Null?
    ensures SetChild(n, c, Null) == n
    ensures var o := Prune(n, c); o.Fault? || !WellFormed(o.tree)
  {
    SparseOrHole(n, c);
  }

  lemma SparseOrHole(n: Cell<Tree>, c: byte)
    requires LayoutOk(n, Null) && HasSlot(n, c) && Child(n, c, Null).Null?
    ensures n.layout.Dense? && n.layout.min < c < n.layout.max
  {
    assert Child(n, c, Null) in n.kids;
  }

  /** The shape is kept, and a node that goes is reported. */
  predicate Keeps(t: Tree, o: Outcome) { o.Done? && WellFormed(o.tree) && (t.Node? && o.tree.Null? ==> o.rc == 1) }

  lemma FoundKeeps(n: Cell<Tree>)
    requires WellFormed(Node(n))
    ensures Keeps(Node(n), Found(Node(n)))
  {
    if n.refcount == 1 && n.kids != [] {
      assert WellFormed(Node(n.(refcount := 0)));
      CompactWellFormed(n.(refcount := 0));
    } else if n.refcount > 1 {
      assert WellFormed(Node(n.(refcount := n.refcount - 1)));
    }
  }

  lemma KeepsAbove(n: Cell<Tree>, c: byte, o: Outcome)
    requires WellFormed(Node(n)) && Child(n, c, Null).Node? && Keeps(Child(n, c, Null), o)
    ensures Rangy(n) && HasSlot(n, c) && Keeps(Node(n), After(n, c, o))
  {
    if o.tree.Null? { PruneShape(n, c); } else { SetChildWellFormed(n, c, o.tree); }
  }

  lemma {:induction false} UnsubscribeKeeps(t: Tree, d: Str)
    requires WellFormed(t) && !HoleHit(t, d)
    ensures Keeps(t, Unsubscribe(t, d))
    decreases |d|
  {
    if t.Node? && !StopsHere(t.cell, d) {
      var n := t.cell;
      var c, q := d[|n.prefix|], d[|n.prefix| + 1..];
      assert d == n.prefix + [c] + q;
      UnsubscribeStep(n, c, q);
      UnsubscribeKeeps(Child(n, c, Null), q);
      KeepsAbove(n, c, Unsubscribe(Child(n, c, Null), q));
    } else {
      KeepsHere(t, d);
    }
  }

  lemma KeepsHere(t: Tree, d: Str)
    requires WellFormed(t) && !HoleHit(t, d) && (t.Null? || StopsHere(t.cell, d))
    ensures Keeps(t, Unsubscribe(t, d))
  {
    if t.Node? && (d == [] || d == t.cell.prefix) { FoundKeeps(t.cell); }
  }

  /** Exactly when the shape survives an unsubscription: taking the wrong node for the
      subscription does not harm it. */
  lemma UnsubscribeWellFormed(t: Tree, d: Str)
    requires WellFormed(t)
    ensures Unsubscribe(t, d).Done? && WellFormed(Unsubscribe(t, d).tree) <==> !HoleHit(t, d)
  {
    if HoleHit(t, d) { HoleHitBreaks(t, d); } else { UnsubscribeKeeps(t, d); }
  }

  lemma {:induction false} UnsubscribeLostKeySubscribed(t: Tree, d: Str)
    requires WellFormed(t) && UnsubscribeLoses(t, d)
    ensures UnsubscribeLostKey(t, d) < d && Count(t, UnsubscribeLostKey(t, d)) > 0
    decreases |d|
  {
    var n := t.cell;
    var c, q := d[|n.prefix|], d[|n.prefix| + 1..];
    assert d == n.prefix + [c] + q;
    var ch := Child(n, c, Null);
    LosesStep(n, c, q);
    CountHere(n);
    if !Vanishes(ch, q) {
      ChildWellFormed(n, c);
      UnsubscribeLostKeySubscribed(ch, q);
      CountStep(n, c, UnsubscribeLostKey(ch, q));
    }
  }

  /** What a subscriber expects of `nn_trie_unsubscribe`. */
  ghost predicate AsExpected(t: Tree, d: Str, o: Outcome) {
    && o.Done? && WellFormed(o.tree)
    && forall k: Str :: Count(o.tree, k) == if k == d && Count(t, d) > 0 then Count(t, k) - 1 else Count(t, k)
  }

  /** Exactly when an unsubscription, of a present or of an absent string, removes
      one subscription to that string and nothing else. */
  lemma UnsubscribeExact(t: Tree, d: Str)
    requires WellFormed(t)
    ensures AsExpected(t, d, Unsubscribe(t, d))
       <==> !WrongHit(t, d) && !HoleHit(t, d) && !UnsubscribeLoses(t, d)
  {
    if WrongHit(t, d) {
      WrongHitTakes(t, d);
    } else if HoleHit(t, d) {
      HoleHitBreaks(t, d);
    } else {
      UnsubscribeReports(t, d);
      if UnsubscribeLoses(t, d) {
        UnsubscribeLostKeySubscribed(t, d);
        UnsubscribeCount(t, d, UnsubscribeLostKey(t, d));
      } else {
        forall k: Str
          ensures Count(Unsubscribe(t, d).tree, k) == if k == d && Count(t, d) > 0 then Count(t, k) - 1 else Count(t, k)
        {
          UnsubscribeCount(t, d, k);
        }
      }
    }
  }

  /** Taking the wrong node for the subscription is no walk into a hole, ends at a node
      with subscribers, and reports 1 if and only if that node had one. */
  lemma {:induction false} WrongHitReports(t: Tree, d: Str)
    requires WellFormed(t) && WrongHit(t, d)
    ensures !HoleHit(t, d) && !BareHit(t, d)
    ensures var o := Unsubscribe(t, d); o.Done? && (o.rc == 1 <==> Count(t, WrongKey(t, d)) == 1)
    ensures var o := Unsubscribe(t, d); o.rc == 0 || o.rc == 1
    decreases |d|
  {
    var n := t.cell;
    CountHere(n);
    if d != [] {
      var c, q := d[|n.prefix|], d[|n.prefix| + 1..];
      assert d == n.prefix + [c] + q;
      var ch := Child(n, c, Null);
      UnsubscribeStep(n, c, q);
      WrongHitReports(ch, q);
      UnsubscribeKeeps(ch, q);
      KeepsAbove(n, c, Unsubscribe(ch, q));
      CountStep(n, c, WrongKey(ch, q));
      assert WrongKey(t, d) == n.prefix + [c] + WrongKey(ch, q);
    }
  }

  /** A walk into a hole that is survived reports 1. */
  lemma {:induction false} HoleHitReports(t: Tree, d: Str)
    requires WellFormed(t) && HoleHit(t, d)
    ensures var o := Unsubscribe(t, d); o.Fault? || o.rc == 1
    decreases |d|
  {
    if t.Node? {
      var n := t.cell;
      var c, q := d[|n.prefix|], d[|n.prefix| + 1..];
      assert d == n.prefix + [c] + q;
      UnsubscribeStep(n, c, q);
      if Child(n, c, Null).Node? { HoleHitReports(Child(n, c, Null), q); }
    }
  }

  /** Exactly when the return value says truly whether the string was removed: 1 if and
      only if its last subscription has gone. It does not after a walk into a hole, when
      another string loses its last subscription instead, and when the walk ends below
      the root at a node that nobody subscribes to. */
  lemma ReturnExact(t: Tree, d: Str)
    requires WellFormed(t)
    ensures Unsubscribe(t, d).Done? && (Unsubscribe(t, d).rc == 1 <==> Count(t, d) == 1)
       <==> !HoleHit(t, d) && !(WrongHit(t, d) && Count(t, WrongKey(t, d)) == 1)
            && !(BareHit(t, d) && t.cell.prefix < d)
  {
    if Count(t, d) > 0 { SubscribedIsSafe(t, d); }
    if WrongHit(t, d) {
      WrongHitReports(t, d);
    } else if HoleHit(t, d) {
      HoleHitReports(t, d);
    } else {
      UnsubscribeReports(t, d);
      BareIsAbsent(t, d);
    }
  }

  lemma {:induction false} BareIsAbsent(t: Tree, d: Str)
    ensures BareHit(t, d) ==> Count(t, d) == 0
    decreases |d|
  {
    if t.Node? && t.cell.prefix < d && d != [] {
      var n := t.cell;
      KeyCases(n.prefix, d);
      CountStep(n, d[|n.prefix|], d[|n.prefix| + 1..]);
      BareIsAbsent(Child(n, d[|n.prefix|], Null), d[|n.prefix| + 1..]);
    }
  }
}
