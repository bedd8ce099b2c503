/** Subscribing: what it does to the count of every string, and to the shape. */
module TrieSubscribe {
  import opened Bytes
  import opened Trie
  import opened TrieNodes
  import opened TrieCounts

  // ----- the pieces -----

  lemma {:induction false} ChainCount(s: Str, k: Str)
    ensures Count(Chain(s), k) == if k == s then 1 else 0
    decreases |s|
  {
    if |s| > PREFIX_MAX {
      assert s == s[..PREFIX_MAX] + [s[PREFIX_MAX]] + s[PREFIX_MAX + 1..];
      if s[..PREFIX_MAX] <= k {
        var rest := k[PREFIX_MAX..];
        assert k == s[..PREFIX_MAX] + rest;
        if rest != [] && rest[0] == s[PREFIX_MAX] {
          assert rest == [rest[0]] + rest[1..];
          ChainCount(s[PREFIX_MAX + 1..], rest[1..]);
        }
      }
    } else if s <= k {
      assert k == s + k[|s|..];
    }
  }

  lemma {:induction false} ChainWellFormed(s: Str)
    ensures WellFormed(Chain(s))
    decreases |s|
  {
    if |s| > PREFIX_MAX { ChainWellFormed(s[PREFIX_MAX + 1..]); }
  }

  lemma SplitCount(n: Cell<Tree>, pos: nat, k: Str)
    requires pos < |n.prefix|
    ensures Count(Node(Split(n, pos)), k) == Count(Node(n), k)
  {
    var m := Split(n, pos);
    var b, tail := n.prefix[pos], n.(prefix := n.prefix[pos + 1..]);
    var h := m.prefix + [b];
    assert n == tail.(prefix := h + tail.prefix);
    if h <= k {
      var q := k[|h|..];
      assert k == h + q;
      CountStep(m, b, q);
      CompactCount(tail, q);
      CountShift(tail, h, q);
    } else if m.prefix <= k {
      KeyCases(m.prefix, k);
      if m.prefix < k { CountStep(m, k[pos], k[pos + 1..]); }
    }
  }

  lemma SplitWellFormed(n: Cell<Tree>, pos: nat)
    requires WellFormed(Node(n)) && pos < |n.prefix|
    ensures WellFormed(Node(Split(n, pos)))
  {
    var tail := n.(prefix := n.prefix[pos + 1..]);
    assert WellFormed(Node(tail));
    CompactWellFormed(tail);
  }

  predicate Full(n: Cell<Tree>) {
    n.layout.Sparse? && |n.layout.keys| == SPARSE_MAX
  }

  /** Placing the rest of a subscription at a node. A full sparse node is rebuilt
      as a dense one, and the count of its own key becomes 0. */
  lemma AttachCount(n: Cell<Tree>, rest: Str, k: Str)
    requires WellFormed(Node(n))
    requires rest != [] ==> Child(n, rest[0], Null).Null?
    ensures Count(Attach(n, rest), k)
         == if k == n.prefix + rest then (Count(Node(n), k) + 1) % U32
            else if rest != [] && Full(n) && k == n.prefix then 0
            else Count(Node(n), k)
  {
    if rest == [] {
      assert n.prefix + rest == n.prefix;
      EditCount(n, Bump(n).cell, 0, Child(n, 0, Null), k);
    } else {
      var c, q := rest[0], rest[1..];
      assert n.prefix + rest == n.prefix + [c] + q;
      AddedCount(n, c, q, AddChild(n, c, Chain(q), Null), k);
    }
  }

  lemma AddedCount(n: Cell<Tree>, c: byte, q: Str, m: Cell<Tree>, k: Str)
    requires WellFormed(Node(n)) && Child(n, c, Null).Null? && m == AddChild(n, c, Chain(q), Null)
    ensures Count(Node(m), k)
         == if k == n.prefix + [c] + q then (Count(Node(n), k) + 1) % U32
            else if Full(n) && k == n.prefix then 0
            else Count(Node(n), k)
  {
    forall x: byte ensures Child(m, x, Null) == if x == c then Chain(q) else Child(n, x, Null) {
      AddChildFinds(n, c, Chain(q), Null, x);
    }
    AddChildHeader(n, c, Chain(q));
    CountAdded(n, c, q, m, k);
  }

  lemma CountAdded(n: Cell<Tree>, c: byte, q: Str, m: Cell<Tree>, k: Str)
    requires Child(n, c, Null).Null? && m.prefix == n.prefix
    requires forall x: byte :: Child(m, x, Null) == if x == c then Chain(q) else Child(n, x, Null)
    ensures k == n.prefix + [c] + q ==> Count(Node(m), k) == 1 && Count(Node(n), k) == 0
    ensures k == n.prefix ==> Count(Node(m), k) == m.refcount && Count(Node(n), k) == n.refcount
    ensures k != n.prefix && k != n.prefix + [c] + q ==> Count(Node(m), k) == Count(Node(n), k)
  {
    EditCount(n, m, c, Chain(q), k);
    ChainAt(n.prefix + [c], q, k);
  }

  lemma AddChildHeader(n: Cell<Tree>, c: byte, kid: Tree)
    requires LayoutOk(n, Null)
    ensures var m := AddChild(n, c, kid, Null); m.prefix == n.prefix && m.refcount == if Full(n) then 0 else n.refcount
  {
  }

  lemma ChainAt(h: Str, q: Str, k: Str)
    ensures h <= k ==> Count(Chain(q), k[|h|..]) == if k == h + q then 1 else 0
  {
    if h <= k {
      ChainCount(q, k[|h|..]);
      assert k == h + k[|h|..];
    }
  }

  /** A cell with kids that are all in order. */
  lemma KidsWellFormed(m: Cell<Tree>, n: Cell<Tree>, kid: Tree)
    requires CellOk(m, Null) && WellFormed(Node(n)) && WellFormed(kid)
    requires forall k | k in m.kids :: k == Null || k == kid || k in n.kids
    ensures WellFormed(Node(m))
  {
  }

  lemma Wraps(v: uint32)
    ensures (v + 1) % U32 == if v == U32 - 1 then 0 else v + 1
  {
  }

  lemma RecountWellFormed(n: Cell<Tree>, m: Cell<Tree>)
    requires WellFormed(Node(n)) && m == n.(refcount := m.refcount)
    ensures WellFormed(Node(m)) <==> CellOk(m, Null)
  {
    if CellOk(m, Null) { KidsWellFormed(m, n, Null); }
  }

  lemma BumpWellFormed(n: Cell<Tree>)
    requires WellFormed(Node(n))
    ensures WellFormed(Bump(n)) <==> !(n.kids == [] && n.refcount == U32 - 1)
  {
    Wraps(n.refcount);
    RecountWellFormed(n, Bump(n).cell);
  }

  lemma AttachWellFormed(n: Cell<Tree>, rest: Str)
    requires WellFormed(Node(n))
    requires rest != [] ==> Child(n, rest[0], Null).Null?
    ensures WellFormed(Attach(n, rest)) <==> !(rest == [] && n.kids == [] && n.refcount == U32 - 1)
  {
    if rest == [] {
      BumpWellFormed(n);
    } else {
      var kid := Chain(rest[1..]);
      ChainWellFormed(rest[1..]);
      AddChildShape(n, rest[0], kid, Null);
      KidsWellFormed(AddChild(n, rest[0], kid, Null), n, kid);
    }
  }

  // ----- the main results -----

  /** Subscribing to `s` raises the count of `s` by one (modulo the width of the
      counter) and leaves every other string's count alone, except that the key
      of a node rebuilt as dense drops to 0. */
  ghost predicate SubscribeMeets(t: Tree, s: Str, k: Str)
    requires WellFormed(t)
  {
    Count(Subscribe(t, s), k)
    == if k == s then (Count(t, s) + 1) % U32
       else if SubscribeLoses(t, s) && k == LostKey(t, s) then 0
       else Count(t, k)
  }

  lemma {:induction false} SubscribeCount(t: Tree, s: Str, k: Str)
    requires WellFormed(t)
    ensures SubscribeMeets(t, s, k)
    decreases |s|
  {
    if t.Null? {
      ChainCount(s, k);
    } else if WalkEnds(t.cell, s) {
      SubscribeCountHere(t.cell, s, k);
    } else {
      var n := t.cell;
      var c, q := s[|n.prefix|], s[|n.prefix| + 1..];
      assert s == n.prefix + [c] + q;
      SubscribeStep(n, c, q);
      forall r ensures SubscribeMeets(Child(n, c, Null), q, r) {
        SubscribeCount(Child(n, c, Null), q, r);
      }
      SubscribeCountBelow(n, c, q, k);
    }
  }

  /** The walk for `s` does not go below this node. */
  predicate WalkEnds(n: Cell<Tree>, s: Str) {
    !(n.prefix < s) || Child(n, s[|n.prefix|], Null).Null?
  }

  lemma AttachLoses(n: Cell<Tree>, s: Str, rest: Str, k: Str, a: Tree, loses: bool)
    requires WellFormed(Node(n)) && (rest != [] ==> Child(n, rest[0], Null).Null?)
    requires s == n.prefix + rest && a == Attach(n, rest) && (loses <==> rest != [] && Full(n) && n.refcount > 0)
    ensures Count(a, k)
         == if k == s then (Count(Node(n), s) + 1) % U32 else if loses && k == n.prefix then 0 else Count(Node(n), k)
  {
    AttachCount(n, rest, k);
    CountHere(n);
  }

  /** `a` is the trie after the subscription, and `lost` the key that is lost if one is. */
  lemma MeetsBy(t: Tree, a: Tree, s: Str, k: Str, loses: bool, lost: Str)
    requires WellFormed(t) && a == Subscribe(t, s)
    requires (loses <==> SubscribeLoses(t, s)) && (loses ==> lost == LostKey(t, s))
    requires Count(a, k) == if k == s then (Count(t, s) + 1) % U32 else if loses && k == lost then 0 else Count(t, k)
    ensures SubscribeMeets(t, s, k)
  {
  }

  /** The rest of `s` goes to a node `m` that counts as `t` does. */
  lemma AttachKept(t: Tree, m: Cell<Tree>, s: Str, rest: Str, k: Str, a: Tree)
    requires WellFormed(Node(m)) && (rest != [] ==> Child(m, rest[0], Null).Null?)
    requires s == m.prefix + rest && a == Attach(m, rest) && Count(Node(m), k) == Count(t, k) && !Full(m)
    ensures Count(a, k) == if k == s then (Count(t, s) + 1) % U32 else Count(t, k)
  {
    AttachCount(m, rest, k);
  }

  lemma AttachMeets(t: Tree, m: Cell<Tree>, s: Str, rest: Str, k: Str, a: Tree)
    requires WellFormed(t) && a == Subscribe(t, s) && !SubscribeLoses(t, s)
    requires WellFormed(Node(m)) && (rest != [] ==> Child(m, rest[0], Null).Null?)
    requires s == m.prefix + rest && a == Attach(m, rest) && Count(Node(m), k) == Count(t, k) && !Full(m)
    ensures SubscribeMeets(t, s, k)
  {
    AttachKept(t, m, s, rest, k, a);
    MeetsBy(t, a, s, k, false, []);
  }

  lemma SubscribeCountSplit(n: Cell<Tree>, s: Str, pos: nat, k: Str)
    requires WellFormed(Node(n)) && pos == PrefixLen(n.prefix, s) < |n.prefix|
    ensures SubscribeMeets(Node(n), s, k)
  {
    SplitCount(n, pos, k);
    SplitWellFormed(n, pos);
    AttachMeets(Node(n), Split(n, pos), s, s[pos..], k, Subscribe(Node(n), s));
  }

  lemma EndsHere(n: Cell<Tree>, s: Str, rest: Str)
    requires WellFormed(Node(n)) && WalkEnds(n, s) && s == n.prefix + rest
    ensures rest != [] ==> Child(n, rest[0], Null).Null?
    ensures Subscribe(Node(n), s) == Attach(n, rest)
  {
    assert s[|n.prefix|..] == rest && (rest != [] ==> n.prefix < s);
  }

  lemma LosesHere(n: Cell<Tree>, s: Str, rest: Str)
    requires WalkEnds(n, s) && s == n.prefix + rest
    ensures SubscribeLoses(Node(n), s) <==> rest != [] && Full(n) && n.refcount > 0
    ensures SubscribeLoses(Node(n), s) ==> LostKey(Node(n), s) == n.prefix
  {
    assert s[|n.prefix|..] == rest && (rest != [] ==> n.prefix < s);
  }

  lemma SubscribeCountAttach(n: Cell<Tree>, s: Str, rest: Str, k: Str)
    requires WellFormed(Node(n)) && WalkEnds(n, s) && s == n.prefix + rest
    ensures SubscribeMeets(Node(n), s, k)
  {
    var a, loses := Subscribe(Node(n), s), rest != [] && Full(n) && n.refcount > 0;
    EndsHere(n, s, rest);
    AttachLoses(n, s, rest, k, a, loses);
    LosesHere(n, s, rest);
    MeetsBy(Node(n), a, s, k, loses, n.prefix);
  }

  lemma SubscribeCountHere(n: Cell<Tree>, s: Str, k: Str)
    requires WellFormed(Node(n)) && WalkEnds(n, s)
    ensures SubscribeMeets(Node(n), s, k)
  {
    var pos := PrefixLen(n.prefix, s);
    if pos < |n.prefix| {
      SubscribeCountSplit(n, s, pos, k);
    } else {
      SubscribeCountAttach(n, s, s[pos..], k);
    }
  }

  /** The step of the induction: the walk for `n.prefix + [c] + q` goes on below `c`. */
  lemma SubscribeCountBelow(n: Cell<Tree>, c: byte, q: Str, k: Str)
    requires WellFormed(Node(n)) && Child(n, c, Null).Node? && WellFormed(Child(n, c, Null))
    requires forall r :: SubscribeMeets(Child(n, c, Null), q, r)
    ensures SubscribeMeets(Node(n), n.prefix + [c] + q, k)
  {
    var h, ch := n.prefix + [c], Child(n, c, Null);
    if h <= k {
      var r := k[|h|..];
      assert k == h + r;
      assert SubscribeMeets(ch, q, r);
      SubscribeCountUnder(n, c, q, r);
    } else {
      SubscribeCountAside(n, c, q, k);
    }
  }

  lemma SubscribeCountUnder(n: Cell<Tree>, c: byte, q: Str, r: Str)
    requires WellFormed(Node(n)) && Child(n, c, Null).Node? && WellFormed(Child(n, c, Null))
    requires SubscribeMeets(Child(n, c, Null), q, r)
    ensures SubscribeMeets(Node(n), n.prefix + [c] + q, n.prefix + [c] + r)
  {
    var ch, h := Child(n, c, Null), n.prefix + [c];
    SubscribeUnder(n, c, q, r);
    CountStep(n, c, q);
    CountStep(n, c, r);
    SameTail(h, q, r);
    LostKeyUnder(n, c, q, r);
    SubscribeTransfers(Node(n), h + q, h + r, ch, q, r);
  }

  lemma SubscribeTransfers(t: Tree, s: Str, k: Str, ch: Tree, q: Str, r: Str)
    requires WellFormed(t) && WellFormed(ch)
    requires Count(Subscribe(t, s), k) == Count(Subscribe(ch, q), r)
    requires Count(t, s) == Count(ch, q) && Count(t, k) == Count(ch, r)
    requires k == s <==> r == q
    requires SubscribeLoses(t, s) <==> SubscribeLoses(ch, q)
    requires SubscribeLoses(t, s) ==> (k == LostKey(t, s) <==> r == LostKey(ch, q))
    requires SubscribeMeets(ch, q, r)
    ensures SubscribeMeets(t, s, k)
  {
  }

  lemma SubscribeUnder(n: Cell<Tree>, c: byte, q: Str, r: Str)
    requires WellFormed(Node(n)) && Child(n, c, Null).Node? && WellFormed(Child(n, c, Null))
    ensures Count(Subscribe(Node(n), n.prefix + [c] + q), n.prefix + [c] + r)
         == Count(Subscribe(Child(n, c, Null), q), r)
  {
    var h := n.prefix + [c];
    SubscribeStep(n, c, q);
    SetChildCount(n, c, Subscribe(Child(n, c, Null), q), h + r);
    assert (h + r)[|h|..] == r;
  }

  lemma LostKeyUnder(n: Cell<Tree>, c: byte, q: Str, r: Str)
    requires WellFormed(Node(n)) && Child(n, c, Null).Node?
    ensures SubscribeLoses(Node(n), n.prefix + [c] + q) <==> SubscribeLoses(Child(n, c, Null), q)
    ensures SubscribeLoses(Child(n, c, Null), q)
        ==> (n.prefix + [c] + r == LostKey(Node(n), n.prefix + [c] + q) <==> r == LostKey(Child(n, c, Null), q))
  {
    SubscribeStep(n, c, q);
    if SubscribeLoses(Child(n, c, Null), q) { SameTail(n.prefix + [c], LostKey(Child(n, c, Null), q), r); }
  }

  lemma SubscribeCountAside(n: Cell<Tree>, c: byte, q: Str, k: Str)
    requires WellFormed(Node(n)) && Child(n, c, Null).Node? && !(n.prefix + [c] <= k)
    ensures SubscribeMeets(Node(n), n.prefix + [c] + q, k)
  {
    SubscribeStep(n, c, q);
    SetChildCount(n, c, Subscribe(Child(n, c, Null), q), k);
  }

  lemma SubscribeStep(n: Cell<Tree>, c: byte, q: Str)
    requires WellFormed(Node(n)) && Child(n, c, Null).Node?
    ensures WellFormed(Child(n, c, Null))
    ensures Subscribe(Node(n), n.prefix + [c] + q) == Node(SetChild(n, c, Subscribe(Child(n, c, Null), q)))
    ensures SubscribeLoses(Node(n), n.prefix + [c] + q) <==> SubscribeLoses(Child(n, c, Null), q)
    ensures SubscribeLoses(Node(n), n.prefix + [c] + q)
        ==> LostKey(Node(n), n.prefix + [c] + q) == n.prefix + [c] + LostKey(Child(n, c, Null), q)
  {
    var s := n.prefix + [c] + q;
    ChildWellFormed(n, c);
    assert n.prefix < s;
    assert s[|n.prefix|..] == [c] + q && ([c] + q)[1..] == q;
    assert s[|n.prefix| + 1..] == q;
    assert PrefixLen(n.prefix, s) == |n.prefix|;
  }

  /** The shape survives every subscription but the one that makes the counter
      of a leaf wrap to 0. */
  lemma {:induction false} SubscribeWellFormed(t: Tree, s: Str)
    requires WellFormed(t)
    ensures Subscribe(t, s).Node?
    ensures WellFormed(Subscribe(t, s)) <==> !(LeafAt(t, s) && Count(t, s) == U32 - 1)
    decreases |s|
  {
    if t.Null? {
      ChainWellFormed(s);
    } else if WalkEnds(t.cell, s) {
      SubscribeWellFormedHere(t.cell, s);
    } else {
      var n := t.cell;
      var c, q := s[|n.prefix|], s[|n.prefix| + 1..];
      assert s == n.prefix + [c] + q;
      SubscribeStep(n, c, q);
      SubscribeWellFormed(Child(n, c, Null), q);
      SetChildWellFormed(n, c, Subscribe(Child(n, c, Null), q));
      CountStep(n, c, q);
    }
  }

  lemma SubscribeWellFormedHere(n: Cell<Tree>, s: Str)
    requires WellFormed(Node(n)) && WalkEnds(n, s)
    ensures Subscribe(Node(n), s).Node?
    ensures WellFormed(Subscribe(Node(n), s)) <==> !(LeafAt(Node(n), s) && Count(Node(n), s) == U32 - 1)
  {
    var pos := PrefixLen(n.prefix, s);
    var m, rest := if pos < |n.prefix| then Split(n, pos) else n, s[pos..];
    if pos < |n.prefix| { SplitWellFormed(n, pos); }
    assert Subscribe(Node(n), s) == Attach(m, rest);
    AttachWellFormed(m, rest);
    CountHere(n);
  }

  /** The string that loses its count is a subscribed proper prefix of the new one. */
  lemma {:induction false} LostKeySubscribed(t: Tree, s: Str)
    requires SubscribeLoses(t, s)
    ensures LostKey(t, s) < s && Count(t, LostKey(t, s)) > 0
    decreases |s|
  {
    var n := t.cell;
    var c, q := s[|n.prefix|], s[|n.prefix| + 1..];
    assert s == n.prefix + [c] + q;
    assert s[|n.prefix|..] == [c] + q;
    CountHere(n);
    if Child(n, c, Null).Node? {
      LostKeySubscribed(Child(n, c, Null), q);
      CountStep(n, c, LostKey(Child(n, c, Null), q));
    }
  }

  /** Exactly when a subscription disturbs no other string. */
  lemma SubscribeExact(t: Tree, s: Str)
    requires WellFormed(t)
    ensures (forall k: Str :: k != s ==> Count(Subscribe(t, s), k) == Count(t, k)) <==> !SubscribeLoses(t, s)
  {
    if SubscribeLoses(t, s) {
      LostKeySubscribed(t, s);
      SubscribeCount(t, s, LostKey(t, s));
    } else {
      forall k: Str | k != s ensures Count(Subscribe(t, s), k) == Count(t, k) {
        SubscribeCount(t, s, k);
      }
    }
  }
}
