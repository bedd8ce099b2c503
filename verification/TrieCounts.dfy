/** How edits of one node show in the counts of the tree below it. */
module TrieCounts {
  import opened Bytes
  import opened Trie
  import opened TrieNodes

  /** The three ways a key relates to a prefix that does not rule it out. */
  lemma KeyCases(p: Str, k: Str)
    requires p <= k
    ensures k == p || (p < k && k == p + [k[|p|]] + k[|p| + 1..])
  {
  }

  lemma CountHere(n: Cell<Tree>)
    ensures Count(Node(n), n.prefix) == n.refcount
  {
  }

  lemma CountStep(n: Cell<Tree>, c: byte, q: Str)
    ensures Count(Node(n), n.prefix + [c] + q) == Count(Child(n, c, Null), q)
  {
    var k := n.prefix + [c] + q;
    assert k[|n.prefix|..] == [c] + q;
    assert n.prefix <= k;
    assert ([c] + q)[1..] == q;
  }

  lemma CountShift(n: Cell<Tree>, h: Str, q: Str)
    ensures Count(Node(n.(prefix := h + n.prefix)), h + q) == Count(Node(n), q)
  {
    var p := h + n.prefix;
    if n.prefix <= q {
      assert q == n.prefix + q[|n.prefix|..];
      assert (h + q)[|p|..] == q[|n.prefix|..];
      assert p <= h + q;
    } else {
      assert p[|h|..] == n.prefix && (h + q)[|h|..] == q;
      assert !(p <= h + q);
    }
  }

  lemma SameTail(h: Str, x: Str, y: Str)
    ensures h + x == h + y <==> x == y
  {
    assert (h + x)[|h|..] == x && (h + y)[|h|..] == y;
  }

  /** An edit that changes what hangs below `c`, and maybe the node's own count. */
  lemma EditCount(n: Cell<Tree>, m: Cell<Tree>, c: byte, kid: Tree, k: Str)
    requires m.prefix == n.prefix
    requires forall x: byte :: Child(m, x, Null) == if x == c then kid else Child(n, x, Null)
    ensures Count(Node(m), k)
         == if k == n.prefix then m.refcount
            else if n.prefix + [c] <= k then Count(kid, k[|n.prefix| + 1..])
            else Count(Node(n), k)
    ensures Count(Node(n), n.prefix) == n.refcount
    ensures n.prefix + [c] <= k ==> k == n.prefix + [c] + k[|n.prefix| + 1..]
    ensures n.prefix + [c] <= k ==> Count(Node(n), k) == Count(Child(n, c, Null), k[|n.prefix| + 1..])
  {
    CountHere(n);
    CountHere(m);
    if n.prefix < k {
      var x, r := k[|n.prefix|], k[|n.prefix| + 1..];
      KeyCases(n.prefix, k);
      CountStep(n, x, r);
      CountStep(m, x, r);
      assert n.prefix + [c] <= k <==> x == c;
    }
  }

  lemma CompactCount(n: Cell<Tree>, k: Str)
    ensures Count(Compact(n), k) == Count(Node(n), k)
  {
    if Compact(n) != Node(n) {
      var ch, b := n.kids[0].cell, n.layout.keys[0];
      var h := n.prefix + [b];
      if h <= k {
        var q := k[|h|..];
        assert k == h + q;
        CountShift(ch, h, q);
        CountStep(n, b, q);
      } else if n.prefix <= k {
        KeyCases(n.prefix, k);
        if n.prefix < k { CountStep(n, k[|n.prefix|], k[|n.prefix| + 1..]); }
      }
    }
  }

  lemma CompactWellFormed(n: Cell<Tree>)
    requires WellFormed(Node(n))
    ensures WellFormed(Compact(n)) && Compact(n).Node?
  {
    if Compact(n) != Node(n) {
      var ch := n.kids[0];
      assert ch in n.kids;
      assert WellFormed(ch);
    }
  }

  lemma ChildWellFormed(n: Cell<Tree>, c: byte)
    requires WellFormed(Node(n))
    ensures WellFormed(Child(n, c, Null))
  {
    if HasSlot(n, c) { assert Child(n, c, Null) in n.kids; }
  }

  lemma SetChildFinds(n: Cell<Tree>, c: byte, kid: Tree, x: byte)
    requires HasSlot(n, c) && LayoutOk(n, Null)
    ensures Child(SetChild(n, c, kid), x, Null) == if x == c then kid else Child(n, x, Null)
  {
    if x != c && HasSlot(n, x) {
      assert SlotOf(n.layout, x) != SlotOf(n.layout, c);
    }
  }

  /** Replacing one subtree by another keeps the shape of the node above. */
  lemma SetChildWellFormed(n: Cell<Tree>, c: byte, kid: Tree)
    requires WellFormed(Node(n)) && Child(n, c, Null).Node? && kid.Node?
    ensures WellFormed(Node(SetChild(n, c, kid))) <==> WellFormed(kid)
  {
    var m, i := SetChild(n, c, kid), SlotOf(n.layout, c);
    assert m.kids[i] == kid;
    assert kid in m.kids;
    if n.layout.Dense? {
      OccupiedUpdate(n.kids, i, kid, Null);
    }
    forall k | k in m.kids && k != kid ensures WellFormed(k) {
      assert k in n.kids;
    }
  }

  lemma SetChildCount(n: Cell<Tree>, c: byte, kid: Tree, k: Str)
    requires HasSlot(n, c) && LayoutOk(n, Null)
    ensures Count(Node(SetChild(n, c, kid)), k)
         == if n.prefix + [c] <= k then Count(kid, k[|n.prefix| + 1..]) else Count(Node(n), k)
  {
    forall x: byte ensures Child(SetChild(n, c, kid), x, Null) == if x == c then kid else Child(n, x, Null) {
      SetChildFinds(n, c, kid, x);
    }
    EditCount(n, SetChild(n, c, kid), c, kid, k);
  }
}
