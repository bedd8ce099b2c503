/** Trees laid out in memory: one cell per node, children reached by pointers. */
module TrieMemory {
  import opened Bytes
  import opened Trie
  import opened TrieNodes
  import opened TrieCounts

  type Ptr = nat
  const NULL: Ptr := 0
  type Mem = map<Ptr, Cell<Ptr>>

  ghost predicate SameHeader(m: Cell<Ptr>, n: Cell<Tree>) {
    m.refcount == n.refcount && m.prefix == n.prefix && m.layout == n.layout && |m.kids| == |n.kids| && Rangy(n)
  }

  /** Pointer `p` leads to the tree `t`. */
  ghost predicate Holds(mem: Mem, p: Ptr, t: Tree)
    decreases t
  {
    if t.Null? then p == NULL
    else
      && p != NULL && p in mem && SameHeader(mem[p], t.cell)
      && forall x: byte | HasSlot(t.cell, x) ::
           Holds(mem, mem[p].kids[SlotOf(t.cell.layout, x)], t.cell.kids[SlotOf(t.cell.layout, x)])
  }

  /** The cells of the tree. */
  ghost function Foot(mem: Mem, p: Ptr, t: Tree): set<Ptr>
    requires Holds(mem, p, t)
    decreases t
  {
    if t.Null? then {}
    else
      {p} + set x: int, q: Ptr | 0 <= x < 256 && HasSlot(t.cell, x)
              && q in Foot(mem, mem[p].kids[SlotOf(t.cell.layout, x)], t.cell.kids[SlotOf(t.cell.layout, x)]) :: q
  }

  ghost function KidFoot(mem: Mem, p: Ptr, n: Cell<Tree>, x: byte): set<Ptr>
    requires Holds(mem, p, Node(n))
  {
    if HasSlot(n, x) then Foot(mem, Child(mem[p], x, NULL), Child(n, x, Null)) else {}
  }

  /** No cell is used twice. */
  ghost predicate Separate(mem: Mem, p: Ptr, t: Tree)
    requires Holds(mem, p, t)
    decreases t
  {
    t.Node? ==>
      && (forall x: byte :: p !in KidFoot(mem, p, t.cell, x))
      && (forall x: byte, y: byte | x != y :: KidFoot(mem, p, t.cell, x) !! KidFoot(mem, p, t.cell, y))
      && forall x: byte | HasSlot(t.cell, x) ::
           Separate(mem, mem[p].kids[SlotOf(t.cell.layout, x)], t.cell.kids[SlotOf(t.cell.layout, x)])
  }

  ghost predicate Represents(mem: Mem, p: Ptr, t: Tree) {
    Holds(mem, p, t) && Separate(mem, p, t)
  }

  ghost predicate Agree(mem: Mem, mem': Mem, s: set<Ptr>) {
    forall q | q in s && q in mem :: q in mem' && mem'[q] == mem[q]
  }

  lemma FootInside(mem: Mem, p: Ptr, n: Cell<Tree>, x: byte)
    requires Holds(mem, p, Node(n))
    ensures KidFoot(mem, p, n, x) <= Foot(mem, p, Node(n))
    ensures HasSlot(n, x) ==> Holds(mem, Child(mem[p], x, NULL), Child(n, x, Null))
    ensures !HasSlot(n, x) ==> Child(mem[p], x, NULL) == NULL && Child(n, x, Null) == Null
  {
  }

  lemma FootKids(mem: Mem, p: Ptr, n: Cell<Tree>, q: Ptr)
    requires Holds(mem, p, Node(n)) && q in Foot(mem, p, Node(n)) && q != p
    ensures exists x: byte :: q in KidFoot(mem, p, n, x)
  {
    var x: int :| 0 <= x < 256 && HasSlot(n, x)
      && q in Foot(mem, mem[p].kids[SlotOf(n.layout, x)], n.kids[SlotOf(n.layout, x)]);
    assert q in KidFoot(mem, p, n, x);
  }

  /** What a tree looks like depends on its own cells only. */
  lemma {:induction false} Frame(mem: Mem, mem': Mem, p: Ptr, t: Tree)
    requires Represents(mem, p, t) && Agree(mem, mem', Foot(mem, p, t))
    ensures Represents(mem', p, t) && Foot(mem', p, t) == Foot(mem, p, t)
    decreases t
  {
    if t.Node? {
      var n := t.cell;
      forall x: byte | HasSlot(n, x)
        ensures Represents(mem', Child(mem[p], x, NULL), Child(n, x, Null))
        ensures Foot(mem', Child(mem[p], x, NULL), Child(n, x, Null)) == KidFoot(mem, p, n, x)
      {
        FootInside(mem, p, n, x);
        Frame(mem, mem', Child(mem[p], x, NULL), Child(n, x, Null));
      }
      assert mem'[p] == mem[p];
      assert Holds(mem', p, t);
      assert forall x: byte :: KidFoot(mem', p, n, x) == KidFoot(mem, p, n, x);
    }
  }

  // ----- one node edited -----

  /** Node `n` at `p` becomes node `n'` at `p'`: what hangs below `c` is now the
      tree `sub` at `q`, and nothing else below the node has changed. */
  ghost predicate Edited(mem: Mem, p: Ptr, n: Cell<Tree>, mem': Mem, p': Ptr, n': Cell<Tree>,
                         c: byte, q: Ptr, sub: Tree)
  {
    && Represents(mem, p, Node(n)) && Represents(mem', q, sub)
    && p' != NULL && p' in mem' && SameHeader(mem'[p'], n')
    && (forall x: byte :: Child(mem'[p'], x, NULL) == if x == c then q else Child(mem[p], x, NULL))
    && (forall x: byte :: Child(n', x, Null) == if x == c then sub else Child(n, x, Null))
    && (forall x: byte | x != c :: Agree(mem, mem', KidFoot(mem, p, n, x)))
    && (forall x: byte | x != c :: Foot(mem', q, sub) !! KidFoot(mem, p, n, x) && p' !in KidFoot(mem, p, n, x))
    && p' !in Foot(mem', q, sub)
  }

  lemma EditedKid(mem: Mem, p: Ptr, n: Cell<Tree>, mem': Mem, p': Ptr, n': Cell<Tree>,
                  c: byte, q: Ptr, sub: Tree, x: byte)
    requires Edited(mem, p, n, mem', p', n', c, q, sub)
    ensures var p'', k := Child(mem'[p'], x, NULL), Child(n', x, Null);
            && Represents(mem', p'', k)
            && Foot(mem', p'', k) == if x == c then Foot(mem', q, sub) else KidFoot(mem, p, n, x)
  {
    if x != c {
      FootInside(mem, p, n, x);
      Frame(mem, mem', Child(mem[p], x, NULL), Child(n, x, Null));
    }
  }

  lemma EditNode(mem: Mem, p: Ptr, n: Cell<Tree>, mem': Mem, p': Ptr, n': Cell<Tree>, c: byte, q: Ptr, sub: Tree)
    requires Edited(mem, p, n, mem', p', n', c, q, sub)
    ensures Represents(mem', p', Node(n'))
    ensures Foot(mem', p', Node(n')) == Foot(mem, p, Node(n)) - {p} - KidFoot(mem, p, n, c) + {p'} + Foot(mem', q, sub)
  {
    forall x: byte
      ensures var p'', k := Child(mem'[p'], x, NULL), Child(n', x, Null);
              && Represents(mem', p'', k)
              && Foot(mem', p'', k) == if x == c then Foot(mem', q, sub) else KidFoot(mem, p, n, x)
    {
      EditedKid(mem, p, n, mem', p', n', c, q, sub, x);
    }
    forall x: byte | HasSlot(n', x)
      ensures Represents(mem', mem'[p'].kids[SlotOf(n'.layout, x)], n'.kids[SlotOf(n'.layout, x)])
    {
      assert Child(n', x, Null) == n'.kids[SlotOf(n'.layout, x)];
    }
    assert Holds(mem', p', Node(n'));
    forall x: byte ensures KidFoot(mem', p', n', x) == if x == c then Foot(mem', q, sub) else KidFoot(mem, p, n, x) {
      if !HasSlot(n', x) { assert Child(n', x, Null) == Null; }
    }
    assert Separate(mem', p', Node(n'));
    EditedFoot(mem, p, n, mem', p', n', c, q, sub);
  }

  lemma EditedFoot(mem: Mem, p: Ptr, n: Cell<Tree>, mem': Mem, p': Ptr, n': Cell<Tree>, c: byte, q: Ptr, sub: Tree)
    requires Represents(mem, p, Node(n)) && Holds(mem', p', Node(n')) && Holds(mem', q, sub)
    requires forall x: byte :: KidFoot(mem', p', n', x) == if x == c then Foot(mem', q, sub) else KidFoot(mem, p, n, x)
    ensures Foot(mem', p', Node(n')) == Foot(mem, p, Node(n)) - {p} - KidFoot(mem, p, n, c) + {p'} + Foot(mem', q, sub)
  {
    var old', new' := Foot(mem, p, Node(n)), Foot(mem', p', Node(n'));
    var gone, come := KidFoot(mem, p, n, c), Foot(mem', q, sub);
    forall a ensures a in new' <==> a in old' - {p} - gone + {p'} + come {
      if a in old' - {p} - gone { KeptCell(mem, p, n, mem', p', n', c, q, sub, a); }
      if a in new' - {p'} { EditedCell(mem, p, n, mem', p', n', c, q, sub, a); }
      FootInside(mem', p', n', c);
    }
  }

  lemma KeptCell(mem: Mem, p: Ptr, n: Cell<Tree>, mem': Mem, p': Ptr, n': Cell<Tree>,
                 c: byte, q: Ptr, sub: Tree, a: Ptr)
    requires Represents(mem, p, Node(n)) && Holds(mem', p', Node(n')) && Holds(mem', q, sub)
    requires forall x: byte :: KidFoot(mem', p', n', x) == if x == c then Foot(mem', q, sub) else KidFoot(mem, p, n, x)
    requires a in Foot(mem, p, Node(n)) && a != p && a !in KidFoot(mem, p, n, c)
    ensures a in Foot(mem', p', Node(n'))
  {
    FootKids(mem, p, n, a);
    var x: byte :| a in KidFoot(mem, p, n, x);
    FootInside(mem', p', n', x);
  }

  lemma EditedCell(mem: Mem, p: Ptr, n: Cell<Tree>, mem': Mem, p': Ptr, n': Cell<Tree>,
                   c: byte, q: Ptr, sub: Tree, a: Ptr)
    requires Represents(mem, p, Node(n)) && Holds(mem', p', Node(n')) && Holds(mem', q, sub)
    requires forall x: byte :: KidFoot(mem', p', n', x) == if x == c then Foot(mem', q, sub) else KidFoot(mem, p, n, x)
    requires a in Foot(mem', p', Node(n')) && a != p'
    ensures a in Foot(mem, p, Node(n)) - {p} - KidFoot(mem, p, n, c) + Foot(mem', q, sub)
  {
    FootKids(mem', p', n', a);
    var x: byte :| a in KidFoot(mem', p', n', x);
    if x != c { OneKid(mem, p, n, a, x, c); }
  }

  lemma OneKid(mem: Mem, p: Ptr, n: Cell<Tree>, a: Ptr, x: byte, c: byte)
    requires Represents(mem, p, Node(n)) && a in KidFoot(mem, p, n, x) && x != c
    ensures a in Foot(mem, p, Node(n)) - {p} - KidFoot(mem, p, n, c)
  {
    FootInside(mem, p, n, x);
  }

  // ----- a subtree replaced, far down -----

  /** Where a pointer is kept: in the trie itself, or in a child slot of a node. */
  datatype Slot = Root | Kid(node: Ptr, index: nat)

  ghost predicate Reaches(t: Tree, path: Str) {
    path == [] || (t.Node? && HasSlot(t.cell, path[0]) && Reaches(Child(t.cell, path[0], Null), path[1..]))
  }

  ghost function At(t: Tree, path: Str): Tree
    requires Reaches(t, path)
  {
    if path == [] then t else At(Child(t.cell, path[0], Null), path[1..])
  }

  ghost function Graft(t: Tree, path: Str, sub: Tree): Tree
    requires Reaches(t, path)
  {
    if path == [] then sub
    else Node(SetChild(t.cell, path[0], Graft(Child(t.cell, path[0], Null), path[1..], sub)))
  }

  ghost function PtrAt(mem: Mem, p: Ptr, t: Tree, path: Str): Ptr
    requires Holds(mem, p, t) && Reaches(t, path)
    decreases |path|
  {
    if path == [] then p else PtrAt(mem, Child(mem[p], path[0], NULL), Child(t.cell, path[0], Null), path[1..])
  }

  /** The slot at the end of the path, which starts at slot `here`. */
  ghost function SlotAt(mem: Mem, here: Slot, p: Ptr, t: Tree, path: Str): Slot
    requires Holds(mem, p, t) && Reaches(t, path)
    decreases |path|
  {
    if path == [] then here
    else
      SlotAt(mem, Kid(p, SlotOf(t.cell.layout, path[0])),
             Child(mem[p], path[0], NULL), Child(t.cell, path[0], Null), path[1..])
  }

  lemma AtFoot(mem: Mem, p: Ptr, t: Tree, path: Str)
    requires Represents(mem, p, t) && Reaches(t, path)
    ensures var cp, sub := PtrAt(mem, p, t, path), At(t, path);
            Represents(mem, cp, sub) && Foot(mem, cp, sub) <= Foot(mem, p, t)
    decreases |path|
  {
    if path != [] {
      var c := path[0];
      FootInside(mem, p, t.cell, c);
      assert Separate(mem, mem[p].kids[SlotOf(t.cell.layout, c)], t.cell.kids[SlotOf(t.cell.layout, c)]);
      AtFoot(mem, Child(mem[p], c, NULL), Child(t.cell, c, Null), path[1..]);
    }
  }

  /** The pointer `q` stored in a slot. */
  function Stored(mem: Mem, slot: Slot, q: Ptr): Mem
    requires slot.Kid? ==> slot.node in mem && slot.index < |mem[slot.node].kids|
  {
    match slot
    case Root => mem
    case Kid(node, i) => mem[node := mem[node].(kids := mem[node].kids[i := q])]
  }

  lemma SlotInside(mem: Mem, here: Slot, p: Ptr, t: Tree, path: Str)
    requires Represents(mem, p, t) && Reaches(t, path) && path != []
    ensures var s, cp, sub := SlotAt(mem, here, p, t, path), PtrAt(mem, p, t, path), At(t, path);
            && AtFootHolds(mem, p, t, path)
            && s.Kid? && s.node in Foot(mem, p, t) - Foot(mem, cp, sub)
            && s.node in mem && s.index < |mem[s.node].kids| && mem[s.node].kids[s.index] == cp
    decreases |path|
  {
    AtFoot(mem, p, t, path);
    var c := path[0];
    FootInside(mem, p, t.cell, c);
    var kp, kid := Child(mem[p], c, NULL), Child(t.cell, c, Null);
    assert Separate(mem, mem[p].kids[SlotOf(t.cell.layout, c)], t.cell.kids[SlotOf(t.cell.layout, c)]);
    AtFoot(mem, kp, kid, path[1..]);
    assert p !in KidFoot(mem, p, t.cell, c);
    if |path| > 1 {
      SlotInside(mem, Kid(p, SlotOf(t.cell.layout, c)), kp, kid, path[1..]);
    }
  }

  ghost predicate AtFootHolds(mem: Mem, p: Ptr, t: Tree, path: Str)
    requires Holds(mem, p, t) && Reaches(t, path)
  {
    Represents(mem, PtrAt(mem, p, t, path), At(t, path))
  }

  /** What the store at the end of the path needs to know. */
  ghost predicate Graftable(mem: Mem, p: Ptr, t: Tree, path: Str, mem1: Mem, q: Ptr, sub: Tree) {
    && Represents(mem, p, t) && Reaches(t, path)
    && AtFootHolds(mem, p, t, path)
    && Represents(mem1, q, sub)
    && var rest := Foot(mem, p, t) - Foot(mem, PtrAt(mem, p, t, path), At(t, path));
       Agree(mem, mem1, rest) && Foot(mem1, q, sub) !! rest
  }

  /** Storing the new subtree's pointer in the slot puts the subtree into the tree. */
  lemma {:induction false} GraftStored(mem: Mem, here: Slot, p: Ptr, t: Tree, path: Str, mem1: Mem, q: Ptr, sub: Tree)
    requires Graftable(mem, p, t, path, mem1, q, sub) && path != []
    ensures var slot := SlotAt(mem, here, p, t, path);
            && slot.Kid? && slot.node in mem1 && slot.index < |mem1[slot.node].kids|
            && Grafted(mem, p, t, path, Foot(mem1, q, sub), Stored(mem1, slot, q), sub)
    decreases |path|
  {
    SlotInside(mem, here, p, t, path);
    var n, c := t.cell, path[0];
    var slot := SlotAt(mem, here, p, t, path);
    var mem2 := Stored(mem1, slot, q);
    var kp, kid := Child(mem[p], c, NULL), Child(n, c, Null);
    GraftableBelow(mem, p, t, path, mem1, q, sub);
    if |path| == 1 {
      Frame(mem1, mem2, q, sub);
      GraftHere(mem, p, n, c, mem2, q, sub);
    } else {
      var inner := Kid(p, SlotOf(n.layout, c));
      GraftStored(mem, inner, kp, kid, path[1..], mem1, q, sub);
      SlotInside(mem, inner, kp, kid, path[1..]);
      GraftStep(mem, p, n, c, mem2, Graft(kid, path[1..], sub),
                Foot(mem, PtrAt(mem, p, t, path), At(t, path)), Foot(mem1, q, sub));
    }
  }

  ghost predicate Grafted(mem: Mem, p: Ptr, t: Tree, path: Str, foot: set<Ptr>, mem2: Mem, sub: Tree)
    requires Holds(mem, p, t) && Reaches(t, path) && AtFootHolds(mem, p, t, path)
  {
    && Represents(mem2, p, Graft(t, path, sub))
    && Foot(mem2, p, Graft(t, path, sub)) == Foot(mem, p, t) - Foot(mem, PtrAt(mem, p, t, path), At(t, path)) + foot
  }

  lemma GraftableBelow(mem: Mem, p: Ptr, t: Tree, path: Str, mem1: Mem, q: Ptr, sub: Tree)
    requires Graftable(mem, p, t, path, mem1, q, sub) && path != []
    ensures var kp, kid := Child(mem[p], path[0], NULL), Child(t.cell, path[0], Null);
            && Graftable(mem, kp, kid, path[1..], mem1, q, sub)
            && Foot(mem, PtrAt(mem, p, t, path), At(t, path)) <= KidFoot(mem, p, t.cell, path[0])
            && KidFoot(mem, p, t.cell, path[0]) <= Foot(mem, p, t) - {p}
  {
    var n, c := t.cell, path[0];
    FootInside(mem, p, n, c);
    assert Separate(mem, mem[p].kids[SlotOf(n.layout, c)], n.kids[SlotOf(n.layout, c)]);
    AtFoot(mem, Child(mem[p], c, NULL), Child(n, c, Null), path[1..]);
  }

  lemma GraftStep(mem: Mem, p: Ptr, n: Cell<Tree>, c: byte, mem2: Mem, kid: Tree, gone: set<Ptr>, come: set<Ptr>)
    requires Represents(mem, p, Node(n)) && HasSlot(n, c)
    requires p in mem2 && mem2[p] == mem[p] && Agree(mem, mem2, Foot(mem, p, Node(n)) - {p} - KidFoot(mem, p, n, c))
    requires var kp := Child(mem[p], c, NULL);
             Represents(mem2, kp, kid) && Foot(mem2, kp, kid) == KidFoot(mem, p, n, c) - gone + come
    requires gone <= KidFoot(mem, p, n, c) && come !! Foot(mem, p, Node(n)) - gone
    ensures Represents(mem2, p, Node(SetChild(n, c, kid)))
    ensures Foot(mem2, p, Node(SetChild(n, c, kid))) == Foot(mem, p, Node(n)) - gone + come
  {
    FootInside(mem, p, n, c);
    GraftHere(mem, p, n, c, mem2, Child(mem[p], c, NULL), kid);
  }

  lemma GraftHere(mem: Mem, p: Ptr, n: Cell<Tree>, c: byte, mem2: Mem, q: Ptr, sub: Tree)
    requires Represents(mem, p, Node(n)) && HasSlot(n, c) && Represents(mem2, q, sub)
    requires p in mem2 && mem2[p] == SetChild(mem[p], c, q)
    requires Agree(mem, mem2, Foot(mem, p, Node(n)) - {p} - KidFoot(mem, p, n, c))
    requires Foot(mem2, q, sub) !! Foot(mem, p, Node(n)) - KidFoot(mem, p, n, c)
    ensures Represents(mem2, p, Node(SetChild(n, c, sub)))
    ensures Foot(mem2, p, Node(SetChild(n, c, sub)))
         == Foot(mem, p, Node(n)) - KidFoot(mem, p, n, c) + Foot(mem2, q, sub)
  {
    forall x: byte ensures KidFoot(mem, p, n, x) <= Foot(mem, p, Node(n)) { FootInside(mem, p, n, x); }
    SlotsDistinct(n);
    EditNode(mem, p, n, mem2, p, SetChild(n, c, sub), c, q, sub);
  }

  /** No two bytes share a slot. */
  lemma SlotsDistinct(n: Cell<Tree>)
    requires Rangy(n)
    ensures forall x: byte, y: byte | x != y && HasSlot(n, x) && HasSlot(n, y) ::
              SlotOf(n.layout, x) != SlotOf(n.layout, y)
  {
  }

  // ----- edits that touch, leak and lose nothing else -----

  /** The tree `t` at `p` has become the tree `t'` at `q`. Every cell outside is as
      it was, every cell of `t` that `t'` does not use has been freed, and every
      other cell that `t'` uses was free before. */
  ghost predicate Swapped(mem: Mem, p: Ptr, t: Tree, mem': Mem, q: Ptr, t': Tree) {
    && Represents(mem, p, t) && Represents(mem', q, t')
    && mem'.Keys == mem.Keys - Foot(mem, p, t) + Foot(mem', q, t')
    && Foot(mem', q, t') !! mem.Keys - Foot(mem, p, t)
    && forall a | a in mem && a !in Foot(mem, p, t) :: a in mem' && mem'[a] == mem[a]
  }

  lemma SwapTwice(mem: Mem, p: Ptr, t: Tree, mem1: Mem, q: Ptr, t1: Tree, mem2: Mem, r: Ptr, t2: Tree)
    requires Swapped(mem, p, t, mem1, q, t1) && Swapped(mem1, q, t1, mem2, r, t2)
    ensures Swapped(mem, p, t, mem2, r, t2)
  {
  }

  lemma {:induction false} FootAllocated(mem: Mem, p: Ptr, t: Tree)
    requires Holds(mem, p, t)
    ensures Foot(mem, p, t) <= mem.Keys
    ensures NULL !in Foot(mem, p, t)
    decreases t
  {
    if t.Node? {
      forall x: byte | HasSlot(t.cell, x)
        ensures var i := SlotOf(t.cell.layout, x); Foot(mem, mem[p].kids[i], t.cell.kids[i]) <= mem.Keys - {NULL}
      {
        FootAllocated(mem, mem[p].kids[SlotOf(t.cell.layout, x)], t.cell.kids[SlotOf(t.cell.layout, x)]);
      }
    }
  }

  lemma SwapNothing(mem: Mem, p: Ptr, t: Tree)
    requires Represents(mem, p, t)
    ensures Swapped(mem, p, t, mem, p, t)
  {
    FootAllocated(mem, p, t);
  }

  lemma KidRepresented(mem: Mem, p: Ptr, n: Cell<Tree>, x: byte)
    requires Represents(mem, p, Node(n))
    ensures Represents(mem, Child(mem[p], x, NULL), Child(n, x, Null))
    ensures Foot(mem, Child(mem[p], x, NULL), Child(n, x, Null)) == KidFoot(mem, p, n, x)
    ensures KidFoot(mem, p, n, x) <= Foot(mem, p, Node(n)) - {p}
  {
    FootInside(mem, p, n, x);
    if HasSlot(n, x) { assert Separate(mem, mem[p].kids[SlotOf(n.layout, x)], n.kids[SlotOf(n.layout, x)]); }
  }

  /** A node rewritten, here or elsewhere, with the same children under the same bytes. */
  ghost predicate Rewritten(mem: Mem, p: Ptr, n: Cell<Tree>, mem': Mem, q: Ptr, n': Cell<Tree>) {
    && Represents(mem, p, Node(n)) && q != NULL && (q == p || q !in mem)
    && q in mem' && mem' == (mem - {p})[q := mem'[q]] && SameHeader(mem'[q], n')
    && forall x: byte :: Child(mem'[q], x, NULL) == Child(mem[p], x, NULL) && Child(n', x, Null) == Child(n, x, Null)
  }

  lemma RewrittenEdited(mem: Mem, p: Ptr, n: Cell<Tree>, mem': Mem, q: Ptr, n': Cell<Tree>, k: Ptr, kid: Tree)
    requires Rewritten(mem, p, n, mem', q, n') && Foot(mem, p, Node(n)) <= mem.Keys
    requires k == Child(mem[p], 0, NULL) && kid == Child(n, 0, Null) && Represents(mem', k, kid)
    requires Foot(mem', k, kid) == KidFoot(mem, p, n, 0)
    requires forall x: byte :: KidFoot(mem, p, n, x) <= Foot(mem, p, Node(n)) - {p}
    ensures Edited(mem, p, n, mem', q, n', 0, k, kid)
  {
  }

  lemma RewrittenRepresents(mem: Mem, p: Ptr, n: Cell<Tree>, mem': Mem, q: Ptr, n': Cell<Tree>)
    requires Rewritten(mem, p, n, mem', q, n') && Foot(mem, p, Node(n)) <= mem.Keys
    ensures Represents(mem', q, Node(n')) && Foot(mem', q, Node(n')) == Foot(mem, p, Node(n)) - {p} + {q}
  {
    var k, kid := Child(mem[p], 0, NULL), Child(n, 0, Null);
    forall x: byte ensures KidFoot(mem, p, n, x) <= Foot(mem, p, Node(n)) - {p} { KidRepresented(mem, p, n, x); }
    KidRepresented(mem, p, n, 0);
    Frame(mem, mem', k, kid);
    RewrittenEdited(mem, p, n, mem', q, n', k, kid);
    EditNode(mem, p, n, mem', q, n', 0, k, kid);
  }

  lemma SwapCell(mem: Mem, p: Ptr, n: Cell<Tree>, mem': Mem, q: Ptr, n': Cell<Tree>)
    requires Rewritten(mem, p, n, mem', q, n')
    ensures Swapped(mem, p, Node(n), mem', q, Node(n'))
  {
    FootAllocated(mem, p, Node(n));
    RewrittenRepresents(mem, p, n, mem', q, n');
  }

  /** A node without children freed. */
  lemma SwapFree(mem: Mem, p: Ptr, n: Cell<Tree>)
    requires Represents(mem, p, Node(n)) && n.kids == []
    ensures Swapped(mem, p, Node(n), mem - {p}, NULL, Null)
  {
  }

  /** A subtree changed, and its new pointer stored in the slot above. */
  lemma SwapKid(mem: Mem, p: Ptr, n: Cell<Tree>, c: byte, mem1: Mem, q: Ptr, kid: Tree)
    requires Represents(mem, p, Node(n)) && HasSlot(n, c)
    requires Swapped(mem, Child(mem[p], c, NULL), Child(n, c, Null), mem1, q, kid)
    ensures p in mem1 && mem1[p] == mem[p]
    ensures Swapped(mem, p, Node(n), mem1[p := SetChild(mem[p], c, q)], p, Node(SetChild(n, c, kid)))
  {
    FootAllocated(mem, p, Node(n));
    KidRepresented(mem, p, n, c);
    SwapKidRepresents(mem, p, n, c, mem1, q, kid);
    SwapBySets(mem, p, Node(n), mem1[p := SetChild(mem[p], c, q)], p, Node(SetChild(n, c, kid)),
               KidFoot(mem, p, n, c), Foot(mem1, q, kid));
  }

  lemma SwapBySets(mem: Mem, p: Ptr, t: Tree, mem': Mem, q: Ptr, t': Tree, gone: set<Ptr>, come: set<Ptr>)
    requires Represents(mem, p, t) && Represents(mem', q, t') && Foot(mem, p, t) <= mem.Keys
    requires gone <= Foot(mem, p, t) && Foot(mem', q, t') == Foot(mem, p, t) - gone + come
    requires come !! mem.Keys - gone && mem'.Keys == mem.Keys - gone + come
    requires forall a | a in mem && a !in Foot(mem, p, t) :: a in mem' && mem'[a] == mem[a]
    ensures Swapped(mem, p, t, mem', q, t')
  {
  }

  lemma SwapKidRepresents(mem: Mem, p: Ptr, n: Cell<Tree>, c: byte, mem1: Mem, q: Ptr, kid: Tree)
    requires Represents(mem, p, Node(n)) && HasSlot(n, c) && Foot(mem, p, Node(n)) <= mem.Keys
    requires KidFoot(mem, p, n, c) <= Foot(mem, p, Node(n)) - {p} && p in mem1 && mem1[p] == mem[p]
    requires Represents(mem1, q, kid) && Agree(mem, mem1, mem.Keys - KidFoot(mem, p, n, c))
    requires Foot(mem1, q, kid) !! mem.Keys - KidFoot(mem, p, n, c)
    ensures var mem2 := mem1[p := SetChild(mem[p], c, q)];
            && Represents(mem2, p, Node(SetChild(n, c, kid)))
            && Foot(mem2, p, Node(SetChild(n, c, kid)))
               == Foot(mem, p, Node(n)) - KidFoot(mem, p, n, c) + Foot(mem1, q, kid)
  {
    var mem2 := mem1[p := SetChild(mem[p], c, q)];
    Frame(mem1, mem2, q, kid);
    GraftHere(mem, p, n, c, mem2, q, kid);
  }

  /** A fresh node put on top of a changed tree. */
  lemma SwapWrap(mem: Mem, p: Ptr, t: Tree, mem1: Mem, r: Ptr, t1: Tree, q: Ptr, head: Str, b: byte)
    requires Swapped(mem, p, t, mem1, r, t1) && q != NULL && q !in mem && q !in mem1
    ensures Swapped(mem, p, t, mem1[q := Cell(0, head, Sparse([b]), [r])], q, Node(Cell(0, head, Sparse([b]), [t1])))
  {
    FootAllocated(mem1, r, t1);
    WrapRepresents(mem1, r, t1, q, head, b);
  }

  lemma WrapRepresents(mem1: Mem, r: Ptr, t1: Tree, q: Ptr, head: Str, b: byte)
    requires Represents(mem1, r, t1) && Foot(mem1, r, t1) <= mem1.Keys && q != NULL && q !in mem1
    ensures var mem2, n := mem1[q := Cell(0, head, Sparse([b]), [r])], Cell(0, head, Sparse([b]), [t1]);
            Represents(mem2, q, Node(n)) && Foot(mem2, q, Node(n)) == {q} + Foot(mem1, r, t1)
  {
    var mem2 := mem1[q := Cell(0, head, Sparse([b]), [r])];
    var n := Cell(0, head, Sparse([b]), [t1]);
    Frame(mem1, mem2, r, t1);
    assert forall x: byte :: (HasSlot(n, x) <==> x == b) && (x == b ==> SlotOf(n.layout, x) == 0);
    assert Holds(mem2, q, Node(n));
    assert forall x: byte :: KidFoot(mem2, q, n, x) == if x == b then Foot(mem1, r, t1) else {};
    FootInside(mem2, q, n, b);
    forall a | a in Foot(mem2, q, Node(n)) && a != q ensures a in Foot(mem1, r, t1) { FootKids(mem2, q, n, a); }
  }

  // ----- moving the cursor -----

  lemma {:induction false} CursorKept(mem: Mem, here: Slot, p: Ptr, t: Tree, path: Str, mem1: Mem, q: Ptr, sub: Tree)
    requires Graftable(mem, p, t, path, mem1, q, sub) && path != []
    ensures Reaches(Graft(t, path, sub), path) && At(Graft(t, path, sub), path) == sub
    ensures var slot := SlotAt(mem, here, p, t, path);
            && slot.Kid? && slot.node in mem1 && slot.index < |mem1[slot.node].kids|
            && var mem2, t2 := Stored(mem1, slot, q), Graft(t, path, sub);
               && Represents(mem2, p, t2)
               && SlotAt(mem2, here, p, t2, path) == slot && PtrAt(mem2, p, t2, path) == q
    decreases |path|
  {
    GraftStored(mem, here, p, t, path, mem1, q, sub);
    SlotInside(mem, here, p, t, path);
    var n, c := t.cell, path[0];
    if |path| > 1 {
      GraftableBelow(mem, p, t, path, mem1, q, sub);
      var inner, kp, kid := Kid(p, SlotOf(n.layout, c)), Child(mem[p], c, NULL), Child(n, c, Null);
      SlotInside(mem, inner, kp, kid, path[1..]);
      CursorKept(mem, inner, kp, kid, path[1..], mem1, q, sub);
    }
  }

  lemma {:induction false} CursorExtend(mem: Mem, here: Slot, p: Ptr, t: Tree, path: Str, c: byte)
    requires Represents(mem, p, t) && Reaches(t, path) && At(t, path).Node? && HasSlot(At(t, path).cell, c)
    ensures Reaches(t, path + [c]) && At(t, path + [c]) == Child(At(t, path).cell, c, Null)
    ensures var cp, n := PtrAt(mem, p, t, path), At(t, path).cell;
            && cp in mem
            && SlotAt(mem, here, p, t, path + [c]) == Kid(cp, SlotOf(n.layout, c))
            && PtrAt(mem, p, t, path + [c]) == Child(mem[cp], c, NULL)
    decreases |path|
  {
    if path == [] {
      assert path + [c] == [c];
    } else {
      assert (path + [c])[1..] == path[1..] + [c];
      KidRepresented(mem, p, t.cell, path[0]);
      CursorExtend(mem, Kid(p, SlotOf(t.cell.layout, path[0])),
                   Child(mem[p], path[0], NULL), Child(t.cell, path[0], Null), path[1..], c);
    }
  }

  lemma {:induction false} GraftExtend(t: Tree, path: Str, c: byte, sub: Tree)
    requires Reaches(t, path) && At(t, path).Node? && HasSlot(At(t, path).cell, c)
    ensures Reaches(t, path + [c])
    ensures Graft(t, path + [c], sub) == Graft(t, path, Node(SetChild(At(t, path).cell, c, sub)))
  {
    if path == [] {
      assert path + [c] == [c];
    } else {
      assert (path + [c])[1..] == path[1..] + [c];
      GraftExtend(Child(t.cell, path[0], Null), path[1..], c, sub);
    }
  }

  lemma {:induction false} GraftTwice(t: Tree, path: Str, a: Tree, b: Tree)
    requires Reaches(t, path)
    ensures Reaches(Graft(t, path, a), path) && Graft(Graft(t, path, a), path, b) == Graft(t, path, b)
    ensures At(Graft(t, path, a), path) == a
  {
    if path != [] { GraftTwice(Child(t.cell, path[0], Null), path[1..], a, b); }
  }

  // ----- the same shape in memory -----

  lemma SlotNulls(mem: Mem, p: Ptr, n: Cell<Tree>, i: nat)
    requires Holds(mem, p, Node(n)) && i < |n.kids| && (n.layout.Sparse? ==> Distinct(n.layout.keys))
    ensures mem[p].kids[i] == NULL <==> n.kids[i] == Null
  {
    var x: byte := match n.layout case Sparse(keys) => keys[i] case Dense(min, max, _) => min + i;
    if n.layout.Sparse? { IndexOfAt(n.layout.keys, i); }
    assert HasSlot(n, x) && SlotOf(n.layout, x) == i;
  }

  ghost predicate SameNulls(ps: seq<Ptr>, ts: seq<Tree>) {
    |ps| == |ts| && forall i :: 0 <= i < |ps| ==> (ps[i] == NULL <==> ts[i] == Null)
  }

  lemma {:induction false} SameOccupied(ps: seq<Ptr>, ts: seq<Tree>, lo: nat)
    requires SameNulls(ps, ts) && lo + |ps| <= 256
    ensures Occupied(ps, NULL) == Occupied(ts, Null)
    ensures OccupiedKeys(ps, NULL, lo) == OccupiedKeys(ts, Null, lo)
    ensures FirstOccupied(ps, NULL) == FirstOccupied(ts, Null) && LastOccupied(ps, NULL) == LastOccupied(ts, Null)
    decreases |ps|
  {
    if ps != [] {
      SameOccupied(ps[1..], ts[1..], lo + 1);
      SameLast(ps, ts);
    }
  }

  lemma {:induction false} SameLast(ps: seq<Ptr>, ts: seq<Tree>)
    requires SameNulls(ps, ts)
    ensures LastOccupied(ps, NULL) == LastOccupied(ts, Null)
    decreases |ps|
  {
    if ps != [] { SameLast(ps[..|ps| - 1], ts[..|ts| - 1]); }
  }

  lemma LayoutInMemory(mem: Mem, p: Ptr, n: Cell<Tree>)
    requires Holds(mem, p, Node(n)) && LayoutOk(n, Null)
    ensures SameNulls(mem[p].kids, n.kids) && LayoutOk(mem[p], NULL)
  {
    forall i | 0 <= i < |n.kids| ensures mem[p].kids[i] == NULL <==> n.kids[i] == Null { SlotNulls(mem, p, n, i); }
    SameOccupied(mem[p].kids, n.kids, 0);
  }

  lemma SwapFresh(mem: Mem, q: Ptr, cell: Cell<Ptr>, n: Cell<Tree>)
    requires q != NULL && q !in mem && SameHeader(cell, n)
    requires forall i :: 0 <= i < |cell.kids| ==> cell.kids[i] == NULL && n.kids[i] == Null
    ensures Swapped(mem, NULL, Null, mem[q := cell], q, Node(n))
  {
    var mem' := mem[q := cell];
    assert Holds(mem', q, Node(n));
    forall x: byte ensures KidFoot(mem', q, n, x) == {} { FootInside(mem', q, n, x); }
    assert Separate(mem', q, Node(n));
    assert Foot(mem', q, Node(n)) == {q} by {
      forall a | a in Foot(mem', q, Node(n)) ensures a == q {
        if a != q { FootKids(mem', q, n, a); }
      }
    }
  }

  // ----- the string a path spells -----

  ghost function KeyAt(t: Tree, path: Str): Str
    requires Reaches(t, path)
  {
    if path == [] then [] else t.cell.prefix + [path[0]] + KeyAt(Child(t.cell, path[0], Null), path[1..])
  }

  lemma {:induction false} KeyKept(t: Tree, path: Str, sub: Tree)
    requires Reaches(t, path)
    ensures Reaches(Graft(t, path, sub), path) && KeyAt(Graft(t, path, sub), path) == KeyAt(t, path)
  {
    if path != [] { KeyKept(Child(t.cell, path[0], Null), path[1..], sub); }
  }

  lemma {:induction false} KeyExtend(t: Tree, path: Str, c: byte)
    requires Reaches(t, path) && At(t, path).Node? && HasSlot(At(t, path).cell, c)
    ensures Reaches(t, path + [c]) && At(t, path + [c]) == Child(At(t, path).cell, c, Null)
    ensures KeyAt(t, path + [c]) == KeyAt(t, path) + (At(t, path).cell.prefix + [c])
  {
    if path == [] {
      assert path + [c] == [c];
    } else {
      assert (path + [c])[1..] == path[1..] + [c];
      KeyExtend(Child(t.cell, path[0], Null), path[1..], c);
    }
  }

  lemma {:induction false} CountAt(t: Tree, path: Str, k: Str)
    requires Reaches(t, path)
    ensures Count(t, KeyAt(t, path) + k) == Count(At(t, path), k)
    decreases |path|
  {
    if path == [] {
      assert KeyAt(t, path) + k == k;
    } else {
      var ch := Child(t.cell, path[0], Null);
      CountAt(ch, path[1..], k);
      CountStep(t.cell, path[0], KeyAt(ch, path[1..]) + k);
      assert KeyAt(t, path) + k == t.cell.prefix + [path[0]] + (KeyAt(ch, path[1..]) + k);
    }
  }
}
