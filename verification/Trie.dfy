/** The subscription trie of the SUB socket: a Patricia trie whose nodes hold a
    prefix of up to ten bytes and a sparse or a dense array of children.

    Everything here is about trees as values. `TrieHeap` keeps such a tree in
    memory, node by node, and edits it in place. */
module Trie {
  import opened Bytes

  type Str = seq<byte>

  const PREFIX_MAX := 10
  const SPARSE_MAX := 8

  /** How a node finds the child for a byte: a list of bytes, or a range with
      the number of occupied slots. */
  datatype Layout = Sparse(keys: seq<byte>) | Dense(min: byte, max: byte, nbr: nat)

  /** One node. `T` is what a child slot holds: a subtree here, a pointer in memory. */
  datatype Cell<T> = Cell(refcount: uint32, prefix: Str, layout: Layout, kids: seq<T>)

  datatype Tree = Null | Node(cell: Cell<Tree>)

  // ----- finding a child -----

  function IndexOf(keys: seq<byte>, c: byte): (i: nat)
    ensures i <= |keys|
    ensures i < |keys| ==> keys[i] == c
    ensures c !in keys[..i]
    ensures i == |keys| <==> c !in keys
  {
    if keys == [] then 0
    else if keys[0] == c then 0
    else 1 + IndexOf(keys[1..], c)
  }

  function SlotCount(l: Layout): int {
    match l
    case Sparse(keys) => |keys|
    case Dense(min, max, _) => max - min + 1
  }

  /** The slot that byte `c` selects; out of range when there is none. */
  function SlotOf(l: Layout, c: byte): (i: int)
    ensures 0 <= i
  {
    match l
    case Sparse(keys) => IndexOf(keys, c)
    case Dense(min, max, _) => if min <= c <= max then c - min else 256
  }

  predicate HasSlot<T>(n: Cell<T>, c: byte) {
    SlotOf(n.layout, c) < |n.kids|
  }

  function Child<T>(n: Cell<T>, c: byte, nil: T): T {
    if HasSlot(n, c) then n.kids[SlotOf(n.layout, c)] else nil
  }

  function SetChild<T>(n: Cell<T>, c: byte, kid: T): Cell<T>
    requires HasSlot(n, c)
  {
    n.(kids := n.kids[SlotOf(n.layout, c) := kid])
  }

  // ----- shape -----

  predicate Distinct(keys: seq<byte>) {
    forall i, j :: 0 <= i < j < |keys| ==> keys[i] != keys[j]
  }

  /** The number of occupied slots. */
  function Occupied<T(==)>(kids: seq<T>, nil: T): nat {
    if kids == [] then 0
    else (if kids[0] == nil then 0 else 1) + Occupied(kids[1..], nil)
  }

  predicate LayoutOk<T(==)>(n: Cell<T>, nil: T) {
    match n.layout
    case Sparse(keys) =>
      |keys| <= SPARSE_MAX && |n.kids| == |keys| && Distinct(keys) && nil !in n.kids
    case Dense(min, max, nbr) =>
      && min <= max && |n.kids| == max - min + 1
      && nbr == Occupied(n.kids, nil) && nbr >= SPARSE_MAX + 1
      && n.kids[0] != nil && n.kids[|n.kids| - 1] != nil
  }

  predicate CellOk<T(==)>(n: Cell<T>, nil: T) {
    |n.prefix| <= PREFIX_MAX && LayoutOk(n, nil) && (n.kids == [] ==> n.refcount > 0)
  }

  /** The shape every reachable trie keeps. */
  predicate WellFormed(t: Tree) {
    t.Node? ==>
      CellOk(t.cell, Null) && forall k | k in t.cell.kids :: WellFormed(k)
  }

  // ----- what a trie means -----

  /** How many subscriptions to `s` the trie records. */
  function Count(t: Tree, s: Str): uint32
    decreases |s|
  {
    if t.Null? || !(t.cell.prefix <= s) then 0
    else
      var rest := s[|t.cell.prefix|..];
      if rest == [] then t.cell.refcount else Count(Child(t.cell, rest[0], Null), rest[1..])
  }

  // ----- subscribing -----

  /** How many leading bytes of `p` the data match. */
  function PrefixLen(p: Str, s: Str): (n: nat)
    ensures n <= |p| && n <= |s| && p[..n] == s[..n]
    ensures n < |p| && n < |s| ==> p[n] != s[n]
    ensures n == |p| <==> p <= s
  {
    if p == [] || s == [] || p[0] != s[0] then 0 else 1 + PrefixLen(p[1..], s[1..])
  }

  /** A fresh branch for `s`: as many full nodes as needed, then the subscribed one. */
  function Chain(s: Str): Tree
    decreases |s|
  {
    if |s| > PREFIX_MAX then
      Node(Cell(0, s[..PREFIX_MAX], Sparse([s[PREFIX_MAX]]), [Chain(s[PREFIX_MAX + 1..])]))
    else Node(Cell(1, s, Sparse([]), []))
  }

  function Min(a: byte, b: byte): byte { if a < b then a else b }

  function Max(a: byte, b: byte): byte { if a > b then a else b }

  function MinOf(keys: seq<byte>): byte {
    if keys == [] then 255 else Min(MinOf(keys[..|keys| - 1]), keys[|keys| - 1])
  }

  function MaxOf(keys: seq<byte>): byte {
    if keys == [] then 0 else Max(MaxOf(keys[..|keys| - 1]), keys[|keys| - 1])
  }

  function Nils<T>(n: nat, nil: T): seq<T> { seq(n, i => nil) }

  /** Makes room for `c`, which has no child yet, and puts `kid` there. A full
      sparse node turns dense, and its reference count starts again from 0. */
  function AddChild<T>(n: Cell<T>, c: byte, kid: T, nil: T): Cell<T>
    requires n.layout.Dense? ==> n.layout.min <= n.layout.max && |n.kids| == SlotCount(n.layout)
    requires n.layout.Sparse? ==> |n.kids| == |n.layout.keys|
  {
    match n.layout
    case Sparse(keys) =>
      if |keys| < SPARSE_MAX then n.(layout := Sparse(keys + [c]), kids := n.kids + [kid])
      else
        var lo, hi := Min(MinOf(keys), c), Max(MaxOf(keys), c);
        Cell(0, n.prefix, Dense(lo, hi, |keys| + 1),
             seq(hi - lo + 1, i requires 0 <= i <= hi - lo => if lo + i == c then kid else Child(n, lo + i, nil)))
    case Dense(min, max, nbr) =>
      var lo, hi := Min(min, c), Max(max, c);
      n.(layout := Dense(lo, hi, nbr + 1),
         kids := (Nils(min - lo, nil) + n.kids + Nils(hi - max, nil))[c - lo := kid])
  }

  /** Merges a subscriber-less node with its only child if the prefixes fit together. */
  function Compact(n: Cell<Tree>): Tree {
    if n.refcount != 0 || !n.layout.Sparse? || |n.layout.keys| != 1 || |n.kids| != 1 || n.kids[0].Null? then Node(n)
    else
      var ch := n.kids[0].cell;
      if |n.prefix| + |ch.prefix| + 1 > PREFIX_MAX then Node(n)
      else Node(ch.(prefix := n.prefix + [n.layout.keys[0]] + ch.prefix))
  }

  function Bump(n: Cell<Tree>): Tree {
    Node(n.(refcount := (n.refcount + 1) % U32))
  }

  /** The two halves of a node whose prefix agrees with the data on `pos` bytes only. */
  function Split(n: Cell<Tree>, pos: nat): Cell<Tree>
    requires pos < |n.prefix|
  {
    Cell(0, n.prefix[..pos], Sparse([n.prefix[pos]]), [Compact(n.(prefix := n.prefix[pos + 1..]))])
  }

  /** The node `n`, reached with `rest` still to be placed, after the subscription. */
  function Attach(n: Cell<Tree>, rest: Str): Tree
    requires LayoutOk(n, Null)
  {
    if rest == [] then Bump(n) else Node(AddChild(n, rest[0], Chain(rest[1..]), Null))
  }

  function Subscribe(t: Tree, s: Str): Tree
    requires WellFormed(t)
    decreases |s|
  {
    if t.Null? then Chain(s)
    else
      var n, pos := t.cell, PrefixLen(t.cell.prefix, s);
      if pos < |n.prefix| then Attach(Split(n, pos), s[pos..])
      else if pos == |s| then Bump(n)
      else
        var c := s[pos];
        if Child(n, c, Null).Null? then Attach(n, s[pos..])
        else Node(SetChild(n, c, Subscribe(Child(n, c, Null), s[pos + 1..])))
  }

  /** The guard of the lossy branch: the walk for `s` leaves a subscribed node
      that already has eight sparse children, none of them for the next byte. */
  predicate SubscribeLoses(t: Tree, s: Str)
    decreases |s|
  {
    t.Node? && t.cell.prefix < s &&
    var rest := s[|t.cell.prefix|..];
    var ch := Child(t.cell, rest[0], Null);
    if ch.Null? then t.cell.layout.Sparse? && |t.cell.layout.keys| == SPARSE_MAX && t.cell.refcount > 0
    else SubscribeLoses(ch, rest[1..])
  }

  /** The key of the node that `SubscribeLoses` speaks of. */
  function LostKey(t: Tree, s: Str): Str
    requires SubscribeLoses(t, s)
    decreases |s|
  {
    var n, rest := t.cell, s[|t.cell.prefix|..];
    var ch := Child(n, rest[0], Null);
    if ch.Null? then n.prefix else n.prefix + [rest[0]] + LostKey(ch, rest[1..])
  }

  /** The node at the end of `s` has no children. */
  predicate LeafAt(t: Tree, s: Str)
    decreases |s|
  {
    t.Node? && t.cell.prefix <= s &&
    var rest := s[|t.cell.prefix|..];
    if rest == [] then t.cell.kids == [] else LeafAt(Child(t.cell, rest[0], Null), rest[1..])
  }

  // ----- unsubscribing -----

  const EINVAL := 22

  /** The result of an unsubscription: the new tree with the return code, or a
      null dereference or failed assertion. */
  datatype Outcome = Done(tree: Tree, rc: int) | Fault

  function FirstOccupied<T(==)>(kids: seq<T>, nil: T): (i: nat)
    ensures i <= |kids|
    ensures forall j :: 0 <= j < i ==> kids[j] == nil
    ensures i < |kids| ==> kids[i] != nil
  {
    if kids == [] || kids[0] != nil then 0 else 1 + FirstOccupied(kids[1..], nil)
  }

  /** One past the last occupied slot. */
  function LastOccupied<T(==)>(kids: seq<T>, nil: T): (i: nat)
    ensures i <= |kids|
    ensures forall j :: i <= j < |kids| ==> kids[j] == nil
    ensures i > 0 ==> kids[i - 1] != nil
  {
    if kids == [] then 0
    else if kids[|kids| - 1] != nil then |kids| else LastOccupied(kids[..|kids| - 1], nil)
  }

  /** The bytes of the occupied slots in order, and what the slots hold. */
  function OccupiedKeys<T(==)>(kids: seq<T>, nil: T, lo: nat): (keys: seq<byte>)
    requires lo + |kids| <= 256
    ensures |keys| == Occupied(kids, nil)
  {
    if kids == [] then []
    else (if kids[0] == nil then [] else [lo]) + OccupiedKeys(kids[1..], nil, lo + 1)
  }

  function OccupiedKids<T(==)>(kids: seq<T>, nil: T): (ks: seq<T>)
    ensures |ks| == Occupied(kids, nil)
  {
    if kids == [] then []
    else (if kids[0] == nil then [] else [kids[0]]) + OccupiedKids(kids[1..], nil)
  }

  predicate Rangy<T>(n: Cell<T>) {
    match n.layout
    case Sparse(keys) => |n.kids| == |keys|
    case Dense(min, max, nbr) => min <= max && |n.kids| == max - min + 1
  }

  /** Whether the conversion back to a sparse node finds exactly eight children. */
  predicate RemovalFits<T(==)>(n: Cell<T>, nil: T) {
    n.layout.Dense? && n.layout.nbr <= SPARSE_MAX + 1 ==> Occupied(n.kids, nil) == SPARSE_MAX
  }

  /** Gives up the slot of `c`, which holds nothing any more. A dense node with
      nine children turns sparse, and its reference count starts again from 0. */
  function RemoveChild<T(==)>(n: Cell<T>, c: byte, nil: T): Cell<T>
    requires Rangy(n) && HasSlot(n, c)
    requires n.layout.Dense? ==> Occupied(n.kids, nil) > 0
  {
    match n.layout
    case Sparse(keys) =>
      var i := IndexOf(keys, c);
      n.(layout := Sparse(keys[..i] + keys[i + 1..]), kids := n.kids[..i] + n.kids[i + 1..])
    case Dense(min, max, nbr) =>
      if nbr <= SPARSE_MAX + 1 then
        Cell(0, n.prefix, Sparse(OccupiedKeys(n.kids, nil, min)), OccupiedKids(n.kids, nil))
      else if c == min then
        var i := FirstOccupied(n.kids, nil);
        NilsOnly(n.kids, nil);
        n.(layout := Dense(min + i, max, nbr - 1), kids := n.kids[i..])
      else if c == max then
        var i := LastOccupied(n.kids, nil);
        NilsOnly(n.kids, nil);
        n.(layout := Dense(min, min + i - 1, nbr - 1), kids := n.kids[..i])
      else n.(layout := Dense(min, max, nbr - 1))
  }

  lemma NilsOnly<T>(kids: seq<T>, nil: T)
    ensures (forall j :: 0 <= j < |kids| ==> kids[j] == nil) ==> Occupied(kids, nil) == 0
  {
  }

  /** The node the data ends at. */
  function Found(t: Tree): Outcome {
    if t.Null? || t.cell.refcount == 0 then Done(t, -EINVAL)
    else
      var n := t.cell.(refcount := t.cell.refcount - 1);
      if n.refcount > 0 then Done(Node(n), 0)
      else if n.kids == [] then Done(Null, 1)
      else Done(Compact(n), 1)
  }

  /** The node above a child slot that has just been emptied. */
  function Prune(n: Cell<Tree>, c: byte): Outcome
    requires Rangy(n) && HasSlot(n, c)
  {
    if n.layout.Dense? && (Occupied(n.kids, Null) == 0 || !RemovalFits(n, Null)) then Fault
    else
      var m := RemoveChild(n, c, Null);
      if n.layout.Dense? then Done(Node(m), 1)
      else if m.kids == [] && m.refcount == 0 then Done(Null, 1)
      else Done(Compact(m), 1)
  }

  function Unsubscribe(t: Tree, d: Str): Outcome
    requires WellFormed(t)
    decreases |d|
  {
    if d == [] then Found(t)
    else if t.Null? then Fault
    else
      var n := t.cell;
      if !(n.prefix <= d) then Done(t, 0)
      else
        var rest := d[|n.prefix|..];
        if rest == [] then Found(t)
        else if !HasSlot(n, rest[0]) then Done(t, 0)
        else
          match Unsubscribe(Child(n, rest[0], Null), rest[1..])
          case Fault => Fault
          case Done(kid, rc) =>
            var m := SetChild(n, rest[0], kid);
            if rc == 0 then Done(Node(m), 0)
            else if kid.Node? then Done(Node(m), 1)
            else Prune(m, rest[0])
  }

  /** The data runs out above a subscribed node, and that node is taken for the
      subscription although its prefix was never looked at. */
  predicate WrongHit(t: Tree, d: Str)
    decreases |d|
  {
    t.Node? &&
    if d == [] then t.cell.prefix != [] && t.cell.refcount > 0
    else t.cell.prefix < d && WrongHit(Child(t.cell, d[|t.cell.prefix|], Null), d[|t.cell.prefix| + 1..])
  }

  /** The key of the node that `WrongHit` speaks of. */
  function WrongKey(t: Tree, d: Str): Str
    requires WrongHit(t, d)
    decreases |d|
  {
    var p := t.cell.prefix;
    if d == [] then p else p + [d[|p|]] + WrongKey(Child(t.cell, d[|p|], Null), d[|p| + 1..])
  }

  /** The walk follows an empty slot: of the root, or of a dense node. */
  predicate HoleHit(t: Tree, d: Str)
    decreases |d|
  {
    d != [] &&
    (t.Null? ||
     (t.cell.prefix < d &&
      var c := d[|t.cell.prefix|];
      HasSlot(t.cell, c) &&
      (Child(t.cell, c, Null).Null? || HoleHit(Child(t.cell, c, Null), d[|t.cell.prefix| + 1..]))))
  }

  /** The whole subtree goes with its only subscription. */
  predicate Vanishes(t: Tree, d: Str)
    decreases |d|
  {
    t.Node? && t.cell.prefix <= d &&
    var rest := d[|t.cell.prefix|..];
    if rest == [] then t.cell.refcount == 1 && t.cell.kids == []
    else t.cell.refcount == 0 && |t.cell.kids| == 1 && Vanishes(Child(t.cell, rest[0], Null), rest[1..])
  }

  /** The guard of the lossy branch: a subscribed dense node is left with eight children. */
  predicate UnsubscribeLoses(t: Tree, d: Str)
    decreases |d|
  {
    t.Node? && t.cell.prefix < d &&
    var rest := d[|t.cell.prefix|..];
    var ch := Child(t.cell, rest[0], Null);
    if Vanishes(ch, rest[1..]) then
      t.cell.layout.Dense? && t.cell.layout.nbr == SPARSE_MAX + 1 && t.cell.refcount > 0
    else UnsubscribeLoses(ch, rest[1..])
  }

  function UnsubscribeLostKey(t: Tree, d: Str): Str
    requires UnsubscribeLoses(t, d)
    decreases |d|
  {
    var n, rest := t.cell, d[|t.cell.prefix|..];
    var ch := Child(n, rest[0], Null);
    if Vanishes(ch, rest[1..]) then n.prefix else n.prefix + [rest[0]] + UnsubscribeLostKey(ch, rest[1..])
  }

  /** The data ends at a node nobody subscribes to. */
  predicate BareHit(t: Tree, d: Str)
    decreases |d|
  {
    t.Node? &&
    if d == [] || t.cell.prefix == d then t.cell.refcount == 0
    else t.cell.prefix < d && BareHit(Child(t.cell, d[|t.cell.prefix|], Null), d[|t.cell.prefix| + 1..])
  }
}
