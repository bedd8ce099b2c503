/** How many nodes a trie has: how full new ones are, when nodes are merged, and that a
    subscription that is withdrawn leaves no more nodes behind than there were. */
module TrieSize {
  import opened Bytes
  import opened Trie
  import opened TrieNodes
  import opened TrieCounts
  import S = TrieSubscribe
  import U = TrieUnsubscribe

  function Nodes(t: Tree): nat
    decreases t, 300
  {
    if t.Null? then 0 else 1 + Below(t.cell, t, 0)
  }

  /** The nodes below the bytes from `x` on; `t` is the whole tree. */
  function Below(n: Cell<Tree>, t: Tree, x: nat): nat
    requires t == Node(n) && x <= 256
    decreases t, 257 - x
  {
    if x == 256 then 0
    else
      (if HasSlot(n, x) then KidSmaller(n, t, x); Nodes(n.kids[SlotOf(n.layout, x)]) else 0) + Below(n, t, x + 1)
  }

  lemma KidSmaller(n: Cell<Tree>, t: Tree, x: byte)
    requires t == Node(n) && HasSlot(n, x)
    ensures n.kids[SlotOf(n.layout, x)] < t
  {
  }

  lemma BelowAt(n: Cell<Tree>, x: byte)
    ensures Below(n, Node(n), x) == Nodes(Child(n, x, Null)) + Below(n, Node(n), x + 1)
  {
  }

  lemma {:induction false} BelowSame(m: Cell<Tree>, n: Cell<Tree>, x: nat)
    requires x <= 256 && forall y: byte | y >= x :: Child(m, y, Null) == Child(n, y, Null)
    ensures Below(m, Node(m), x) == Below(n, Node(n), x)
    decreases 256 - x
  {
    if x < 256 {
      BelowSame(m, n, x + 1);
      BelowAt(m, x);
      BelowAt(n, x);
    }
  }

  lemma {:induction false} BelowEdited(m: Cell<Tree>, n: Cell<Tree>, c: byte, x: nat)
    requires x <= c && forall y: byte | y != c :: Child(m, y, Null) == Child(n, y, Null)
    ensures Below(m, Node(m), x) + Nodes(Child(n, c, Null)) == Below(n, Node(n), x) + Nodes(Child(m, c, Null))
    decreases c - x
  {
    BelowAt(m, x);
    BelowAt(n, x);
    if x < c { BelowEdited(m, n, c, x + 1); } else { BelowSame(m, n, x + 1); }
  }

  /** A node whose children are those of another one but for what is below `c`. */
  lemma EditSize(m: Cell<Tree>, n: Cell<Tree>, c: byte)
    requires forall y: byte | y != c :: Child(m, y, Null) == Child(n, y, Null)
    ensures Nodes(Node(m)) + Nodes(Child(n, c, Null)) == Nodes(Node(n)) + Nodes(Child(m, c, Null))
  {
    BelowEdited(m, n, c, 0);
  }

  lemma LeafSize(n: Cell<Tree>)
    requires n.kids == []
    ensures Nodes(Node(n)) == 1
  {
    BelowNone(n, 0);
  }

  lemma {:induction false} BelowNone(n: Cell<Tree>, x: nat)
    requires x <= 256 && n.kids == []
    ensures Below(n, Node(n), x) == 0
    decreases 256 - x
  {
    if x < 256 { BelowNone(n, x + 1); }
  }

  lemma OneKidSize(n: Cell<Tree>)
    requires n.layout.Sparse? && |n.layout.keys| == |n.kids| == 1
    ensures Nodes(Node(n)) == 1 + Nodes(n.kids[0])
  {
    var b, bare := n.layout.keys[0], n.(layout := Sparse([]), kids := []);
    assert HasSlot(n, b) && SlotOf(n.layout, b) == 0;
    EditSize(n, bare, b);
    LeafSize(bare);
  }

  // ----- new nodes and merged nodes -----

  /** A new branch has no more nodes than it needs: each holds as much as it can. */
  lemma {:induction false} ChainSize(s: Str)
    ensures Nodes(Chain(s)) == |s| / (PREFIX_MAX + 1) + 1
    decreases |s|
  {
    if |s| > PREFIX_MAX {
      ChainSize(s[PREFIX_MAX + 1..]);
      OneKidSize(Chain(s).cell);
    } else {
      LeafSize(Chain(s).cell);
    }
  }

  /** A node that can be spared: without subscribers, and with an only child that can take
      its prefix as well. */
  predicate Spare(n: Cell<Tree>) {
    && n.refcount == 0 && n.layout.Sparse? && |n.layout.keys| == |n.kids| == 1 && n.kids[0].Node?
    && |n.prefix| + 1 + |n.kids[0].cell.prefix| <= PREFIX_MAX
  }

  lemma RenamedSize(n: Cell<Tree>, m: Cell<Tree>)
    requires m.layout == n.layout && m.kids == n.kids
    ensures Nodes(Node(m)) == Nodes(Node(n))
  {
    BelowSame(m, n, 0);
  }

  /** Exactly then it is merged with that child, and the node is gone. */
  lemma CompactSize(n: Cell<Tree>)
    ensures Nodes(Compact(n)) == Nodes(Node(n)) - if Spare(n) then 1 else 0
    ensures !Spare(n) ==> Compact(n) == Node(n)
  {
    if Spare(n) {
      OneKidSize(n);
      RenamedSize(n.kids[0].cell, Compact(n).cell);
    }
  }

  /** The two halves of a split, and what is left of them when the upper one is spare again. */
  lemma SplitSize(n: Cell<Tree>, pos: nat)
    requires pos < |n.prefix| <= PREFIX_MAX
    ensures var tail := n.(prefix := n.prefix[pos + 1..]);
            Nodes(Node(Split(n, pos))) == Nodes(Node(n)) + if Spare(tail) then 0 else 1
    ensures Nodes(Compact(Split(n, pos))) <= Nodes(Node(n))
  {
    var tail, m := n.(prefix := n.prefix[pos + 1..]), Split(n, pos);
    RenamedSize(n, tail);
    CompactSize(tail);
    OneKidSize(m);
    CompactSize(m);
  }

  // ----- a subscription and its withdrawal -----

  lemma {:induction false} ChainUndone(s: Str)
    ensures WellFormed(Chain(s)) && Unsubscribe(Chain(s), s) == Done(Null, 1)
    decreases |s|
  {
    S.ChainWellFormed(s);
    if |s| > PREFIX_MAX {
      var n, c, q := Chain(s).cell, s[PREFIX_MAX], s[PREFIX_MAX + 1..];
      assert s == n.prefix + [c] + q;
      ChainUndone(q);
      U.UnsubscribeStep(n, c, q);
    }
  }

  lemma FoundSize(n: Cell<Tree>)
    requires Found(Node(n)).Done?
    ensures Nodes(Found(Node(n)).tree) <= Nodes(Node(n))
  {
    if n.refcount > 0 {
      var m := n.(refcount := n.refcount - 1);
      RenamedSize(n, m);
      CompactSize(m);
    }
  }

  lemma PruneSize(n: Cell<Tree>, c: byte)
    requires WellFormed(Node(n)) && Child(n, c, Null).Node?
    ensures Rangy(n) && HasSlot(n, c)
    ensures var o := Prune(SetChild(n, c, Null), c); o.Done? && Nodes(o.tree) <= Nodes(Node(SetChild(n, c, Null)))
  {
    U.PruneShape(n, c);
    var e := SetChild(n, c, Null);
    if n.layout.Dense? { RemoveDense(n, c, Null); } else { RemoveSparse(n, c, Null); }
    var m := RemoveChild(e, c, Null);
    forall y: byte ensures Child(m, y, Null) == Child(e, y, Null) {
      SetChildFinds(n, c, Null, y);
    }
    BelowSame(m, e, 0);
    CompactSize(m);
  }

  lemma AfterSize(n: Cell<Tree>, c: byte, o: Outcome)
    requires WellFormed(Node(n)) && Child(n, c, Null).Node? && Rangy(n) && HasSlot(n, c)
    requires U.After(n, c, o).Done?
    ensures o.Done?
    ensures Nodes(U.After(n, c, o).tree) + Nodes(Child(n, c, Null)) <= Nodes(Node(n)) + Nodes(o.tree)
  {
    var m := SetChild(n, c, o.tree);
    forall y: byte ensures Child(m, y, Null) == if y == c then o.tree else Child(n, y, Null) {
      SetChildFinds(n, c, o.tree, y);
    }
    EditSize(m, n, c);
    if o.tree.Null? && o.rc != 0 { PruneSize(n, c); }
  }

  /** `r` is what `t` becomes by a subscription and its withdrawal. */
  ghost predicate NoLarger(t: Tree, s: Str) {
    WellFormed(t) && WellFormed(Subscribe(t, s)) &&
    (Unsubscribe(Subscribe(t, s), s).Done? ==> Nodes(Unsubscribe(Subscribe(t, s), s).tree) <= Nodes(t))
  }

  lemma BumpUndone(n: Cell<Tree>, m: Cell<Tree>)
    requires m == n.(refcount := (n.refcount + 1) % U32)
    ensures Found(Node(m)).Done? && Nodes(Found(Node(m)).tree) <= Nodes(Node(n))
  {
    RenamedSize(n, m);
    FoundSize(m);
  }

  lemma BumpFound(u: Cell<Tree>)
    requires u.refcount == 0 && u.kids != []
    ensures Found(Bump(u)) == Done(Compact(u), 1)
  {
    assert Bump(u).cell.(refcount := 0) == u;
  }

  /** The subscription to a node that a split has made. */
  lemma SplitBumpUndone(n: Cell<Tree>, pos: nat)
    requires pos < |n.prefix| <= PREFIX_MAX
    ensures var o := Found(Bump(Split(n, pos))); o.Done? && Nodes(o.tree) <= Nodes(Node(n))
  {
    var u := Split(n, pos);
    SplitSize(n, pos);
    BumpFound(u);
  }

  lemma NewBranchUndone(n: Cell<Tree>, c: byte, q: Str)
    requires WellFormed(Node(n)) && Child(n, c, Null).Null?
    requires var m := AddChild(n, c, Chain(q), Null); WellFormed(Node(m)) && m.prefix == n.prefix
    ensures var m, s := AddChild(n, c, Chain(q), Null), n.prefix + [c] + q;
            Unsubscribe(Node(m), s).Done? ==> Nodes(Unsubscribe(Node(m), s).tree) <= Nodes(Node(n))
  {
    var m := AddChild(n, c, Chain(q), Null);
    forall y: byte ensures Child(m, y, Null) == if y == c then Chain(q) else Child(n, y, Null) {
      AddChildFinds(n, c, Chain(q), Null, y);
    }
    EditSize(m, n, c);
    ChainUndone(q);
    U.UnsubscribeStep(m, c, q);
    if Unsubscribe(Node(m), n.prefix + [c] + q).Done? { AfterSize(m, c, Unsubscribe(Chain(q), q)); }
  }

  lemma SplitUndone(n: Cell<Tree>, pos: nat, c: byte, q: Str)
    requires WellFormed(Node(n)) && pos < |n.prefix| && n.prefix[pos] != c
    requires WellFormed(Node(AddChild(Split(n, pos), c, Chain(q), Null)))
    ensures var m, s := AddChild(Split(n, pos), c, Chain(q), Null), n.prefix[..pos] + [c] + q;
            Unsubscribe(Node(m), s).Done? ==> Nodes(Unsubscribe(Node(m), s).tree) <= Nodes(Node(n))
  {
    var u, b := Split(n, pos), n.prefix[pos];
    var m := AddChild(u, c, Chain(q), Null);
    SplitSize(n, pos);
    assert m.layout.keys == [b, c] && m.kids == [u.kids[0], Chain(q)] && Child(m, c, Null) == Chain(q);
    ChainUndone(q);
    U.UnsubscribeStep(m, c, q);
    var e := SetChild(m, c, Null);
    assert e.kids == [u.kids[0], Null];
    assert RemoveChild(e, c, Null) == u;
  }

  lemma SubscribeAtSplit(n: Cell<Tree>, s: Str, pos: nat)
    requires WellFormed(Node(n)) && pos == PrefixLen(n.prefix, s) < |n.prefix|
    ensures pos <= |s| && s[..pos] == n.prefix[..pos]
    ensures Subscribe(Node(n), s) == if pos == |s| then Bump(Split(n, pos))
                                     else Node(AddChild(Split(n, pos), s[pos], Chain(s[pos..][1..]), Null))
  {
  }

  lemma FoundAtEnd(m: Cell<Tree>, s: Str)
    requires WellFormed(Node(m)) && s == m.prefix
    ensures Unsubscribe(Node(m), s) == Found(Node(m))
  {
  }

  lemma NoLargerSplit(n: Cell<Tree>, s: Str, pos: nat)
    requires WellFormed(Node(n)) && WellFormed(Subscribe(Node(n), s))
    requires pos == PrefixLen(n.prefix, s) < |n.prefix|
    ensures NoLarger(Node(n), s)
  {
    SubscribeAtSplit(n, s, pos);
    if pos == |s| {
      SplitBumpUndone(n, pos);
      assert s == n.prefix[..pos] == Bump(Split(n, pos)).cell.prefix;
      FoundAtEnd(Bump(Split(n, pos)).cell, s);
    } else {
      var c, q := s[pos], s[pos..][1..];
      assert s == n.prefix[..pos] + [c] + q;
      SplitUndone(n, pos, c, q);
    }
  }

  lemma NoLargerHere(n: Cell<Tree>, s: Str)
    requires WellFormed(Node(n)) && WellFormed(Subscribe(Node(n), s)) && S.WalkEnds(n, s)
    ensures NoLarger(Node(n), s)
  {
    var pos := PrefixLen(n.prefix, s);
    if pos < |n.prefix| {
      NoLargerSplit(n, s, pos);
    } else if pos == |s| {
      assert s == n.prefix;
      BumpUndone(n, Bump(n).cell);
    } else {
      var c, q := s[pos], s[pos..][1..];
      assert s == n.prefix + [c] + q;
      S.AddChildHeader(n, c, Chain(q));
      NewBranchUndone(n, c, q);
    }
  }

  lemma NoLargerAbove(n: Cell<Tree>, c: byte, q: Str)
    requires WellFormed(Node(n)) && Child(n, c, Null).Node? && NoLarger(Child(n, c, Null), q)
    requires WellFormed(Subscribe(Node(n), n.prefix + [c] + q))
    ensures NoLarger(Node(n), n.prefix + [c] + q)
  {
    var s, ch := n.prefix + [c] + q, Child(n, c, Null);
    S.SubscribeStep(n, c, q);
    var ch' := Subscribe(ch, q);
    var m := SetChild(n, c, ch');
    forall y: byte ensures Child(m, y, Null) == if y == c then ch' else Child(n, y, Null) {
      SetChildFinds(n, c, ch', y);
    }
    EditSize(m, n, c);
    U.UnsubscribeStep(m, c, q);
    if Unsubscribe(Node(m), s).Done? { AfterSize(m, c, Unsubscribe(ch', q)); }
  }

  /** Whatever the trie: a subscription that is withdrawn at once leaves no more nodes than
      there were, so that nodes that were split or added for it are merged or freed. */
  lemma {:induction false} WithdrawnSize(t: Tree, s: Str)
    requires WellFormed(t) && !(LeafAt(t, s) && Count(t, s) == U32 - 1)
    ensures NoLarger(t, s)
    decreases |s|
  {
    S.SubscribeWellFormed(t, s);
    if t.Null? {
      ChainUndone(s);
    } else if S.WalkEnds(t.cell, s) {
      NoLargerHere(t.cell, s);
    } else {
      var n := t.cell;
      var c, q := s[|n.prefix|], s[|n.prefix| + 1..];
      assert s == n.prefix + [c] + q && s[|n.prefix|..][1..] == q;
      ChildWellFormed(n, c);
      WithdrawnSize(Child(n, c, Null), q);
      NoLargerAbove(n, c, q);
    }
  }
}
