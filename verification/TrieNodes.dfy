/** What the edits of a single trie node do to its children and to its shape. */
module TrieNodes {
  import opened Bytes
  import opened Trie

  // ----- occupied slots, as a set of bytes -----

  /** The bytes that have a child, when the first slot belongs to `lo`. */
  function OccupiedBytes<T(==)>(kids: seq<T>, nil: T, lo: int): set<int> {
    set i | 0 <= i < |kids| && kids[i] != nil :: lo + i
  }

  lemma {:induction false} OccupiedIsCardinality<T>(kids: seq<T>, nil: T, lo: int)
    ensures Occupied(kids, nil) == |OccupiedBytes(kids, nil, lo)|
  {
    if kids != [] {
      var rest := OccupiedBytes(kids[1..], nil, lo + 1);
      OccupiedIsCardinality(kids[1..], nil, lo + 1);
      var all := OccupiedBytes(kids, nil, lo);
      forall b ensures b in all <==> b in rest + (if kids[0] == nil then {} else {lo}) {
        if b in rest { assert kids[1..][b - lo - 1] == kids[b - lo]; }
        if b in all && b != lo { assert kids[1..][b - lo - 1] == kids[b - lo]; }
      }
      assert all == rest + (if kids[0] == nil then {} else {lo});
    }
  }

  lemma {:induction false} DistinctIsCardinality(keys: seq<byte>)
    requires Distinct(keys)
    ensures |set b: int | b in keys| == |keys|
  {
    if keys != [] {
      var init, last := keys[..|keys| - 1], keys[|keys| - 1];
      DistinctIsCardinality(init);
      assert keys == init + [last];
      assert (set b: int | b in keys) == (set b: int | b in init) + {last as int};
      assert last !in init;
    }
  }

  lemma {:induction false} MinMaxBound(keys: seq<byte>)
    ensures forall k | k in keys :: MinOf(keys) <= k <= MaxOf(keys)
    ensures keys != [] ==> MinOf(keys) in keys && MaxOf(keys) in keys
  {
    if keys != [] {
      var front, last := keys[..|keys| - 1], keys[|keys| - 1];
      MinMaxBound(front);
      WiderBound(front, last, MinOf(front), MaxOf(front));
      assert keys == front + [last];
    }
  }

  lemma WiderBound(front: seq<byte>, last: byte, min: byte, max: byte)
    requires forall k | k in front :: min <= k <= max
    requires if front == [] then min == 255 && max == 0 else min in front && max in front
    ensures forall k | k in front + [last] :: Min(min, last) <= k <= Max(max, last)
    ensures Min(min, last) in front + [last] && Max(max, last) in front + [last]
  {
  }

  lemma SparseChild<T>(n: Cell<T>, c: byte, nil: T)
    requires n.layout.Sparse? && LayoutOk(n, nil)
    ensures Child(n, c, nil) == nil <==> c !in n.layout.keys
  {
  }

  lemma IndexOfAt(keys: seq<byte>, i: nat)
    requires Distinct(keys) && i < |keys|
    ensures IndexOf(keys, keys[i]) == i
  {
  }

  // ----- adding a child -----

  lemma AddChildFinds<T>(n: Cell<T>, c: byte, kid: T, nil: T, x: byte)
    requires LayoutOk(n, nil) && Child(n, c, nil) == nil
    ensures Child(AddChild(n, c, kid, nil), x, nil) == if x == c then kid else Child(n, x, nil)
  {
    match n.layout
    case Sparse(keys) =>
      SparseChild(n, c, nil);
      SparseChild(n, x, nil);
      if |keys| < SPARSE_MAX {
        IndexOfAppend(keys, c, x);
      } else {
        MinMaxBound(keys);
      }
    case Dense(min, max, nbr) => AddChildFindsDense(n, c, kid, nil, x);
  }

  lemma AddChildFindsDense<T>(n: Cell<T>, c: byte, kid: T, nil: T, x: byte)
    requires LayoutOk(n, nil) && n.layout.Dense?
    ensures Child(AddChild(n, c, kid, nil), x, nil) == if x == c then kid else Child(n, x, nil)
  {
    var m, min := AddChild(n, c, kid, nil), n.layout.min;
    var lo := m.layout.min;
    if x != c && lo <= x <= m.layout.max {
      assert m.kids[x - lo] == (Nils(min - lo, nil) + n.kids + Nils(m.layout.max - n.layout.max, nil))[x - lo];
    }
  }

  lemma {:induction false} IndexOfAppend(keys: seq<byte>, c: byte, x: byte)
    ensures IndexOf(keys + [c], x) == if x in keys then IndexOf(keys, x) else if x == c then |keys| else |keys| + 1
  {
    if keys != [] {
      assert (keys + [c])[1..] == keys[1..] + [c];
      IndexOfAppend(keys[1..], c, x);
      assert keys == [keys[0]] + keys[1..];
    }
  }

  /** Making room first and filling the slot later comes to the same. */
  lemma AddThenSet<T>(n: Cell<T>, c: byte, kid: T, nil: T)
    requires LayoutOk(n, nil) && Child(n, c, nil) == nil
    ensures HasSlot(AddChild(n, c, nil, nil), c)
    ensures SetChild(AddChild(n, c, nil, nil), c, kid) == AddChild(n, c, kid, nil)
  {
    match n.layout
    case Sparse(keys) =>
      SparseChild(n, c, nil);
      if |keys| < SPARSE_MAX { AddThenSetSparse(n, c, kid, nil); } else { AddThenSetFull(n, c, kid, nil); }
    case Dense(min, max, nbr) =>
      var m, m' := AddChild(n, c, nil, nil), AddChild(n, c, kid, nil);
      assert m.kids[c - m.layout.min := kid] == m'.kids;
  }

  lemma AddThenSetSparse<T>(n: Cell<T>, c: byte, kid: T, nil: T)
    requires n.layout.Sparse? && |n.kids| == |n.layout.keys| < SPARSE_MAX && c !in n.layout.keys
    ensures HasSlot(AddChild(n, c, nil, nil), c)
    ensures SetChild(AddChild(n, c, nil, nil), c, kid) == AddChild(n, c, kid, nil)
  {
    IndexOfAppend(n.layout.keys, c, c);
    assert (n.kids + [nil])[|n.kids| := kid] == n.kids + [kid];
  }

  lemma AddThenSetFull<T>(n: Cell<T>, c: byte, kid: T, nil: T)
    requires n.layout.Sparse? && |n.kids| == |n.layout.keys| == SPARSE_MAX
    ensures HasSlot(AddChild(n, c, nil, nil), c)
    ensures SetChild(AddChild(n, c, nil, nil), c, kid) == AddChild(n, c, kid, nil)
  {
    MinMaxBound(n.layout.keys);
    var m, m' := AddChild(n, c, nil, nil), AddChild(n, c, kid, nil);
    assert m.kids[c - m.layout.min := kid] == m'.kids;
  }

  lemma AddChildDenseBytes<T>(n: Cell<T>, c: byte, kid: T, nil: T)
    requires LayoutOk(n, nil) && Child(n, c, nil) == nil && kid != nil
    requires n.layout.Dense?
    ensures var m := AddChild(n, c, kid, nil);
            OccupiedBytes(m.kids, nil, m.layout.min) == OccupiedBytes(n.kids, nil, n.layout.min) + {c as int}
  {
    var m := AddChild(n, c, kid, nil);
    var lo, min := m.layout.min, n.layout.min;
    forall b: int
      ensures b in OccupiedBytes(m.kids, nil, lo) <==> b in OccupiedBytes(n.kids, nil, min) + {c as int}
    {
      if 0 <= b - min < |n.kids| && b != c {
        assert m.kids[b - lo] == n.kids[b - min];
      }
      if b in OccupiedBytes(m.kids, nil, lo) && b != c {
        assert m.kids[b - lo] != nil;
        assert 0 <= b - min < |n.kids|;
      }
      if b == c { assert m.kids[c - lo] == kid; }
    }
  }

  lemma AddChildSparseBytes<T>(n: Cell<T>, c: byte, kid: T, nil: T)
    requires LayoutOk(n, nil) && Child(n, c, nil) == nil && kid != nil
    requires n.layout.Sparse? && |n.layout.keys| == SPARSE_MAX
    ensures var m := AddChild(n, c, kid, nil);
            OccupiedBytes(m.kids, nil, m.layout.min) == set b: int | b in n.layout.keys + [c]
  {
    var m, keys := AddChild(n, c, kid, nil), n.layout.keys;
    var lo := m.layout.min;
    SparseChild(n, c, nil);
    MinMaxBound(keys);
    forall b: int
      ensures b in OccupiedBytes(m.kids, nil, lo) <==> b in set b: int | b in keys + [c]
    {
      if 0 <= b - lo < |m.kids| {
        assert m.kids[b - lo] == if b == c then kid else Child(n, b, nil);
        SparseChild(n, b, nil);
      }
    }
  }

  /** Making room for a child keeps the shape of the node, in all three layouts. */
  lemma AddChildShape<T>(n: Cell<T>, c: byte, kid: T, nil: T)
    requires CellOk(n, nil) && Child(n, c, nil) == nil && kid != nil
    ensures CellOk(AddChild(n, c, kid, nil), nil)
    ensures forall k | k in AddChild(n, c, kid, nil).kids :: k == nil || k == kid || k in n.kids
  {
    match n.layout
    case Sparse(keys) =>
      SparseChild(n, c, nil);
      if |keys| == SPARSE_MAX { AddChildGrows(n, c, kid, nil); }
    case Dense(min, max, nbr) => AddChildStaysDense(n, c, kid, nil);
  }

  lemma AddChildGrows<T>(n: Cell<T>, c: byte, kid: T, nil: T)
    requires CellOk(n, nil) && Child(n, c, nil) == nil && kid != nil
    requires n.layout.Sparse? && |n.layout.keys| == SPARSE_MAX
    ensures CellOk(AddChild(n, c, kid, nil), nil)
    ensures forall k | k in AddChild(n, c, kid, nil).kids :: k == nil || k == kid || k in n.kids
  {
    var m, keys := AddChild(n, c, kid, nil), n.layout.keys;
    SparseChild(n, c, nil);
    MinMaxBound(keys);
    AddChildSparseBytes(n, c, kid, nil);
    OccupiedIsCardinality(m.kids, nil, m.layout.min);
    DistinctIsCardinality(keys + [c]);
    AddChildEnds(n, c, kid, nil);
    forall i | 0 <= i < |m.kids| ensures m.kids[i] == nil || m.kids[i] == kid || m.kids[i] in n.kids {
      var b := m.layout.min + i;
      assert m.kids[i] == if b == c then kid else Child(n, b, nil);
    }
  }

  lemma AddChildStaysDense<T>(n: Cell<T>, c: byte, kid: T, nil: T)
    requires CellOk(n, nil) && Child(n, c, nil) == nil && kid != nil
    requires n.layout.Dense?
    ensures CellOk(AddChild(n, c, kid, nil), nil)
    ensures forall k | k in AddChild(n, c, kid, nil).kids :: k == nil || k == kid || k in n.kids
  {
    var m, min := AddChild(n, c, kid, nil), n.layout.min;
    AddChildDenseBytes(n, c, kid, nil);
    OccupiedIsCardinality(m.kids, nil, m.layout.min);
    OccupiedIsCardinality(n.kids, nil, min);
    assert c as int !in OccupiedBytes(n.kids, nil, min);
  }

  lemma AddChildEnds<T>(n: Cell<T>, c: byte, kid: T, nil: T)
    requires LayoutOk(n, nil) && Child(n, c, nil) == nil && kid != nil
    requires n.layout.Sparse? && |n.layout.keys| == SPARSE_MAX
    ensures var m := AddChild(n, c, kid, nil);
            m.kids[0] != nil && m.kids[|m.kids| - 1] != nil
  {
    var m, keys := AddChild(n, c, kid, nil), n.layout.keys;
    MinMaxBound(keys);
    SparseChild(n, m.layout.min, nil);
    SparseChild(n, m.layout.max, nil);
  }

  // ----- removing a child -----

  lemma {:induction false} OccupiedUpdate<T>(kids: seq<T>, i: nat, kid: T, nil: T)
    requires i < |kids|
    ensures Occupied(kids[i := kid], nil)
         == Occupied(kids, nil) - (if kids[i] == nil then 0 else 1) + (if kid == nil then 0 else 1)
  {
    if i == 0 {
      assert kids[i := kid][1..] == kids[1..];
    } else {
      assert kids[i := kid][1..] == kids[1..][i - 1 := kid];
      OccupiedUpdate(kids[1..], i - 1, kid, nil);
    }
  }

  lemma {:induction false} OccupiedSplit<T>(a: seq<T>, b: seq<T>, nil: T)
    ensures Occupied(a + b, nil) == Occupied(a, nil) + Occupied(b, nil)
  {
    if a == [] {
      assert a + b == b;
    } else {
      assert (a + b)[1..] == a[1..] + b;
      OccupiedSplit(a[1..], b, nil);
    }
  }

  lemma IndexOfCons(k: byte, rest: seq<byte>, x: byte)
    ensures x in [k] + rest <==> x == k || x in rest
    ensures IndexOf([k] + rest, x) == if x == k then 0 else 1 + IndexOf(rest, x)
  {
    assert ([k] + rest)[1..] == rest;
  }

  lemma OccupiedNext<T>(kids: seq<T>, nil: T, lo: nat)
    requires kids != [] && lo + |kids| <= 256
    ensures var keys, ks := OccupiedKeys(kids[1..], nil, lo + 1), OccupiedKids(kids[1..], nil);
            && OccupiedKeys(kids, nil, lo) == (if kids[0] == nil then keys else [lo] + keys)
            && OccupiedKids(kids, nil) == (if kids[0] == nil then ks else [kids[0]] + ks)
  {
  }

  /** What `OccupiedKeysFind` says, for keys and children of any origin. */
  ghost predicate FindsIn<T>(keys: seq<byte>, ks: seq<T>, kids: seq<T>, nil: T, lo: nat, x: byte) {
    && |keys| == |ks|
    && (x in keys <==> lo <= x < lo + |kids| && kids[x - lo] != nil)
    && (x in keys ==> ks[IndexOf(keys, x)] == kids[x - lo])
  }

  lemma FindsNext<T>(keys: seq<byte>, ks: seq<T>, kids: seq<T>, nil: T, lo: nat, x: byte)
    requires kids != [] && lo + |kids| <= 256 && FindsIn(keys, ks, kids[1..], nil, lo + 1, x)
    ensures if kids[0] == nil then FindsIn(keys, ks, kids, nil, lo, x)
            else FindsIn([lo as byte] + keys, [kids[0]] + ks, kids, nil, lo, x)
  {
    if lo < x < lo + |kids| { assert kids[1..][x - (lo + 1)] == kids[x - lo]; }
    IndexOfCons(lo, keys, x);
  }

  /** The sparse form of a run of slots has the same children under the same bytes. */
  lemma {:induction false} OccupiedKeysFind<T>(kids: seq<T>, nil: T, lo: nat, x: byte)
    requires lo + |kids| <= 256
    ensures FindsIn(OccupiedKeys(kids, nil, lo), OccupiedKids(kids, nil), kids, nil, lo, x)
  {
    if kids != [] {
      OccupiedKeysFind(kids[1..], nil, lo + 1, x);
      OccupiedNext(kids, nil, lo);
      FindsNext(OccupiedKeys(kids[1..], nil, lo + 1), OccupiedKids(kids[1..], nil), kids, nil, lo, x);
    }
  }

  lemma {:induction false} OccupiedKeysDistinct<T>(kids: seq<T>, nil: T, lo: nat)
    requires lo + |kids| <= 256
    ensures Distinct(OccupiedKeys(kids, nil, lo))
    ensures nil !in OccupiedKids(kids, nil)
    ensures forall k | k in OccupiedKids(kids, nil) :: k in kids
  {
    if kids != [] {
      OccupiedKeysDistinct(kids[1..], nil, lo + 1);
      if lo < 256 { OccupiedKeysFind(kids[1..], nil, lo + 1, lo); }
    }
  }

  lemma {:induction false} IndexOfRemoved(keys: seq<byte>, i: nat, x: byte)
    requires i < |keys| && Distinct(keys) && x != keys[i]
    ensures var rest := keys[..i] + keys[i + 1..];
            && (x in rest <==> x in keys)
            && (x in keys ==>
                  var k := IndexOf(keys, x); IndexOf(rest, x) == if k < i then k else k - 1)
  {
    var rest := keys[..i] + keys[i + 1..];
    if x in keys {
      var j := IndexOf(keys, x);
      var k := if j < i then j else j - 1;
      assert rest[k] == x;
      assert Distinct(rest);
      IndexOfAt(rest, k);
    }
  }

  /** The child of `c` has gone; nothing else has, and the layout is in order. */
  ghost predicate Removed<T>(n: Cell<T>, c: byte, nil: T, m: Cell<T>) {
    && LayoutOk(m, nil)
    && (forall k | k in m.kids :: k == nil || k in n.kids)
    && forall x: byte :: Child(m, x, nil) == if x == c then nil else Child(n, x, nil)
  }

  lemma RemoveSparse<T>(n: Cell<T>, c: byte, nil: T)
    requires LayoutOk(n, nil) && n.layout.Sparse? && Child(n, c, nil) != nil
    ensures Removed(n, c, nil, RemoveChild(SetChild(n, c, nil), c, nil))
  {
    var keys, i := n.layout.keys, IndexOf(n.layout.keys, c);
    var m := RemoveChild(SetChild(n, c, nil), c, nil);
    assert m.layout.keys == keys[..i] + keys[i + 1..] && m.kids == n.kids[..i] + n.kids[i + 1..];
    RemoveSparseKeeps(n.kids, keys, i, nil);
    forall x: byte ensures Child(m, x, nil) == if x == c then nil else Child(n, x, nil) {
      RemoveSparseFinds(n.kids, keys, i, nil, x);
    }
  }

  lemma RemoveSparseKeeps<T>(kids: seq<T>, keys: seq<byte>, i: nat, nil: T)
    requires i < |keys| == |kids| && Distinct(keys) && nil !in kids
    ensures Distinct(keys[..i] + keys[i + 1..])
    ensures var ks := kids[..i] + kids[i + 1..]; nil !in ks && forall k | k in ks :: k in kids
  {
  }

  lemma RemoveSparseFinds<T>(kids: seq<T>, keys: seq<byte>, i: nat, nil: T, x: byte)
    requires i < |keys| == |kids| && Distinct(keys)
    ensures var rest, ks := keys[..i] + keys[i + 1..], kids[..i] + kids[i + 1..];
            && (x in rest <==> x in keys && x != keys[i])
            && (x in rest ==> ks[IndexOf(rest, x)] == kids[IndexOf(keys, x)])
  {
    if x == keys[i] { IndexOfAt(keys, i); } else { IndexOfRemoved(keys, i, x); }
  }

  lemma RemoveDenseFits<T>(n: Cell<T>, c: byte, nil: T)
    requires LayoutOk(n, nil) && n.layout.Dense? && Child(n, c, nil) != nil
    ensures var e := SetChild(n, c, nil);
            Rangy(e) && HasSlot(e, c) && Occupied(e.kids, nil) == n.layout.nbr - 1 && RemovalFits(e, nil)
    ensures var e := SetChild(n, c, nil); forall k | k in e.kids :: k == nil || k in n.kids
  {
    OccupiedUpdate(n.kids, c - n.layout.min, nil, nil);
  }

  lemma RemoveDense<T>(n: Cell<T>, c: byte, nil: T)
    requires LayoutOk(n, nil) && n.layout.Dense? && Child(n, c, nil) != nil
    ensures var e := SetChild(n, c, nil); Rangy(e) && HasSlot(e, c) && Occupied(e.kids, nil) > 0
    ensures Removed(n, c, nil, RemoveChild(SetChild(n, c, nil), c, nil))
  {
    var e, l := SetChild(n, c, nil), n.layout;
    RemoveDenseFits(n, c, nil);
    assert forall x: byte :: Child(e, x, nil) == if x == c then nil else Child(n, x, nil);
    if l.nbr <= SPARSE_MAX + 1 { RemoveToSparse(e, c, nil); }
    else if c == l.min { RemoveLeft(e, c, nil); }
    else if c == l.max { RemoveRight(e, c, nil); }
  }

  /** A dense node in which slot `c` has been emptied and not yet given up. */
  ghost predicate Emptied<T>(e: Cell<T>, c: byte, nil: T) {
    && e.layout.Dense? && Rangy(e) && HasSlot(e, c) && Child(e, c, nil) == nil
    && e.layout.nbr == Occupied(e.kids, nil) + 1
    && (c != e.layout.min ==> e.kids[0] != nil)
    && (c != e.layout.max ==> e.kids[|e.kids| - 1] != nil)
  }

  lemma RemoveToSparse<T>(e: Cell<T>, c: byte, nil: T)
    requires Emptied(e, c, nil) && e.layout.nbr == SPARSE_MAX + 1
    ensures Removed(e, c, nil, RemoveChild(e, c, nil))
  {
    var m, lo := RemoveChild(e, c, nil), e.layout.min;
    OccupiedKeysDistinct(e.kids, nil, lo);
    assert LayoutOk(m, nil);
    forall x: byte ensures Child(m, x, nil) == if x == c then nil else Child(e, x, nil) {
      OccupiedKeysFind(e.kids, nil, lo, x);
    }
  }

  lemma OccupiedFrom<T>(kids: seq<T>, nil: T)
    requires Occupied(kids, nil) > 0
    ensures var i := FirstOccupied(kids, nil); i < |kids| && Occupied(kids[i..], nil) == Occupied(kids, nil)
  {
    var i := FirstOccupied(kids, nil);
    NilsOnly(kids, nil);
    NilsOnly(kids[..i], nil);
    assert kids == kids[..i] + kids[i..];
    OccupiedSplit(kids[..i], kids[i..], nil);
  }

  lemma OccupiedUpTo<T>(kids: seq<T>, nil: T)
    requires Occupied(kids, nil) > 0
    ensures var i := LastOccupied(kids, nil); i > 0 && Occupied(kids[..i], nil) == Occupied(kids, nil)
  {
    var i := LastOccupied(kids, nil);
    NilsOnly(kids, nil);
    NilsOnly(kids[i..], nil);
    assert kids == kids[..i] + kids[i..];
    OccupiedSplit(kids[..i], kids[i..], nil);
  }

  lemma LeftFinds<T>(e: Cell<T>, c: byte, nil: T, i: nat, m: Cell<T>, x: byte)
    requires Emptied(e, c, nil) && c == e.layout.min && i < |e.kids| && forall j :: 0 <= j < i ==> e.kids[j] == nil
    requires m.layout.Dense? && m.layout.min == e.layout.min + i && m.layout.max == e.layout.max
    requires m.kids == e.kids[i..]
    ensures Child(m, x, nil) == if x == c then nil else Child(e, x, nil)
  {
  }

  lemma RemoveLeft<T>(e: Cell<T>, c: byte, nil: T)
    requires Emptied(e, c, nil) && e.layout.nbr > SPARSE_MAX + 1 && c == e.layout.min < e.layout.max
    ensures Removed(e, c, nil, RemoveChild(e, c, nil))
  {
    var i, m := FirstOccupied(e.kids, nil), RemoveChild(e, c, nil);
    OccupiedFrom(e.kids, nil);
    assert m.kids == e.kids[i..];
    forall x: byte ensures Child(m, x, nil) == if x == c then nil else Child(e, x, nil) {
      LeftFinds(e, c, nil, i, m, x);
    }
  }

  lemma RemoveRight<T>(e: Cell<T>, c: byte, nil: T)
    requires Emptied(e, c, nil) && e.layout.nbr > SPARSE_MAX + 1 && e.layout.min < c == e.layout.max
    ensures Removed(e, c, nil, RemoveChild(e, c, nil))
  {
    OccupiedUpTo(e.kids, nil);
  }

  lemma {:induction false} OccupiedOneMore<T>(kids: seq<T>, k: T, nil: T, lo: nat)
    requires lo + |kids| + 1 <= 256
    ensures OccupiedKeys(kids + [k], nil, lo) == OccupiedKeys(kids, nil, lo) + if k == nil then [] else [lo + |kids|]
    ensures OccupiedKids(kids + [k], nil) == OccupiedKids(kids, nil) + if k == nil then [] else [k]
  {
    if kids != [] {
      assert (kids + [k])[1..] == kids[1..] + [k];
      OccupiedOneMore(kids[1..], k, nil, lo + 1);
    }
  }
}
