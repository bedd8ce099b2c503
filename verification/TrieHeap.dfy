/** The trie in memory, edited in place. Every operation is shown to do to the tree
    in memory what the functions of `Trie` say, to leave no cell behind and to touch
    no cell that is not its own. */
module TrieHeap {
  import opened Bytes
  import opened Trie
  import opened TrieNodes
  import opened TrieCounts
  import opened TrieMemory
  import S = TrieSubscribe
  import U = TrieUnsubscribe
  import M = TrieMatch

  class TrieHeap {
    var root: Ptr
    var mem: Mem
    /** Every address from here on is free. */
    var next: Ptr
    ghost var tree: Tree

    ghost predicate Valid()
      reads this
    {
      AllocOk() && Represents(mem, root, tree) && mem.Keys == Foot(mem, root, tree)
    }

    ghost predicate AllocOk()
      reads this
    {
      0 < next && forall q | q in mem :: 0 < q < next
    }

    constructor ()
      ensures Valid() && tree == Null
    {
      root, mem, next, tree := NULL, map[], 1, Null;
    }

    method Alloc(cell: Cell<Ptr>) returns (q: Ptr)
      requires AllocOk()
      modifies this`mem, this`next
      ensures AllocOk() && q != NULL && q == old(next) && q !in old(mem) && mem == old(mem)[q := cell]
    {
      q := next;
      mem, next := mem[q := cell], next + 1;
    }

    /** Gives the cell at `p` a new size and new contents; it may move. */
    method Realloc(p: Ptr, cell: Cell<Ptr>) returns (q: Ptr)
      requires AllocOk() && p in mem
      modifies this`mem, this`next
      ensures AllocOk() && q != NULL && (q == p || q !in old(mem)) && mem == (old(mem) - {p})[q := cell]
    {
      if * {
        q := p;
        mem := (mem - {p})[q := cell];
      } else {
        q := Alloc(cell);
        mem := mem - {p};
      }
    }

    // ----- reading a node -----

    method CheckPrefix(p: Ptr, data: Str) returns (i: nat)
      requires p in mem
      ensures i == PrefixLen(mem[p].prefix, data)
    {
      var prefix := mem[p].prefix;
      i := 0;
      while i != |prefix|
        invariant i <= |prefix| && i <= |data|
        invariant PrefixLen(prefix, data) == i + PrefixLen(prefix[i..], data[i..])
        decreases |prefix| - i
      {
        if i == |data| || prefix[i] != data[i] { return; }
        assert prefix[i..][1..] == prefix[i + 1..] && data[i..][1..] == data[i + 1..];
        i := i + 1;
      }
    }

    /** The slot for `c`, or -1. */
    method NextSlot(p: Ptr, c: byte) returns (i: int)
      requires p in mem && mem[p].layout.Sparse? ==> |mem[p].kids| == |mem[p].layout.keys|
      requires p in mem && (mem[p].layout.Dense? ==> |mem[p].kids| == SlotCount(mem[p].layout))
      ensures i == if HasSlot(mem[p], c) then SlotOf(mem[p].layout, c) else -1
    {
      match mem[p].layout
      case Sparse(keys) =>
        i := 0;
        while i != |keys|
          invariant 0 <= i <= |keys| && c !in keys[..i]
          decreases |keys| - i
        {
          if keys[i] == c {
            assert IndexOf(keys, c) == i;
            return;
          }
          i := i + 1;
        }
        i := -1;
      case Dense(min, max, _) =>
        i := if c < min || c > max then -1 else c - min;
    }

    // ----- rewriting a node -----

    method Compact(p: Ptr, ghost n: Cell<Tree>) returns (q: Ptr)
      requires AllocOk() && Represents(mem, p, Node(n)) && LayoutOk(n, Null)
      modifies this`mem
      ensures AllocOk() && Swapped(old(mem), p, Node(n), mem, q, Trie.Compact(n))
    {
      SwapNothing(mem, p, Node(n));
      var cell := mem[p];
      if cell.refcount != 0 { return p; }
      if !(cell.layout.Sparse? && |cell.layout.keys| == 1) { return p; }
      q := cell.kids[0];
      assert HasSlot(n, cell.layout.keys[0]);
      KidRepresented(mem, p, n, cell.layout.keys[0]);
      var ch := mem[q];
      if |cell.prefix| + |ch.prefix| + 1 > PREFIX_MAX { return p; }
      var joined := cell.prefix + [cell.layout.keys[0]] + ch.prefix;
      mem := mem[q := ch.(prefix := joined)];
      mem := mem - {p};
      CompactSwaps(old(mem), p, n, mem);
    }

    method SplitNode(p: Ptr, pos: nat, ghost n: Cell<Tree>) returns (q: Ptr)
      requires AllocOk() && Represents(mem, p, Node(n)) && LayoutOk(n, Null) && pos < |n.prefix|
      modifies this`mem, this`next
      ensures AllocOk() && Swapped(old(mem), p, Node(n), mem, q, Node(Split(n, pos)))
    {
      var prefix := mem[p].prefix;
      mem := mem[p := mem[p].(prefix := prefix[pos + 1..])];
      ghost var tail := n.(prefix := prefix[pos + 1..]);
      SwapCell(old(mem), p, n, mem, p, tail);
      ghost var mem1 := mem;
      var r := Compact(p, tail);
      ghost var mem2 := mem;
      q := Alloc(Cell(0, prefix[..pos], Sparse([prefix[pos]]), [r]));
      FootAllocated(old(mem), p, Node(n));
      SplitSwaps(old(mem), p, n, pos, mem1, mem2, r, q);
    }

    /** The range of a full sparse node's keys, widened by `c`. */
    method KeyRange(keys: seq<byte>, c: byte) returns (lo: byte, hi: byte)
      ensures lo == Min(MinOf(keys), c) && hi == Max(MaxOf(keys), c)
    {
      lo, hi := 255, 0;
      for i := 0 to |keys|
        invariant lo == MinOf(keys[..i]) && hi == MaxOf(keys[..i])
      {
        assert keys[..i + 1][..i] == keys[..i];
        lo, hi := Min(lo, keys[i]), Max(hi, keys[i]);
      }
      assert keys[..|keys|] == keys;
      lo, hi := Min(lo, c), Max(hi, c);
    }

    /** The children of a full sparse node, spread over the slots from `lo` to `hi`. */
    method Spread(cell: Cell<Ptr>, lo: byte, hi: byte) returns (kids: seq<Ptr>)
      requires LayoutOk(cell, NULL) && cell.layout.Sparse? && lo <= hi
      requires forall k | k in cell.layout.keys :: lo <= k <= hi
      ensures kids == seq(hi - lo + 1, i requires 0 <= i <= hi - lo => Child(cell, lo + i, NULL))
    {
      var keys := cell.layout.keys;
      kids := Nils(hi - lo + 1, NULL);
      for i := 0 to |keys|
        invariant SpreadTo(cell, lo, hi, kids, i)
      {
        assert keys[i] in keys;
        SpreadOne(cell, lo, hi, kids, i);
        kids := kids[keys[i] - lo := cell.kids[i]];
      }
      SpreadAll(cell, lo, hi, kids);
    }

    /** A full sparse node turned dense, with an empty slot for `c`. */
    method Densify(p: Ptr, c: byte) returns (q: Ptr)
      requires AllocOk() && p in mem && LayoutOk(mem[p], NULL) && Child(mem[p], c, NULL) == NULL
      requires mem[p].layout.Sparse? && |mem[p].layout.keys| == SPARSE_MAX
      modifies this`mem, this`next
      ensures AllocOk() && q != NULL && q !in old(mem)
      ensures mem == (old(mem) - {p})[q := AddChild(old(mem[p]), c, NULL, NULL)]
    {
      var cell := mem[p];
      var lo, hi := KeyRange(cell.layout.keys, c);
      MinMaxBound(cell.layout.keys);
      var kids := Spread(cell, lo, hi);
      q := Alloc(Cell(0, cell.prefix, Dense(lo, hi, |cell.layout.keys| + 1), kids));
      mem := mem - {p};
      assert kids == AddChild(cell, c, NULL, NULL).kids;
    }

    /** A dense node with an empty slot for `c`, wider if need be. */
    method Widen(p: Ptr, c: byte) returns (q: Ptr)
      requires AllocOk() && p in mem && LayoutOk(mem[p], NULL) && Child(mem[p], c, NULL) == NULL
      requires mem[p].layout.Dense? && p != NULL
      modifies this`mem, this`next
      ensures AllocOk() && q != NULL && (q == p || q !in old(mem))
      ensures mem == (old(mem) - {p})[q := AddChild(old(mem[p]), c, NULL, NULL)]
    {
      var cell := mem[p];
      var min, max, nbr := cell.layout.min, cell.layout.max, cell.layout.nbr;
      if c < min || c > max {
        var lo, hi := Min(min, c), Max(max, c);
        var kids := if min != lo then Nils(min - lo, NULL) + cell.kids else cell.kids + Nils(hi - max, NULL);
        WidenedCell(cell, c, kids);
        q := Realloc(p, cell.(layout := Dense(lo, hi, nbr + 1), kids := kids));
      } else {
        WidenedCell(cell, c, cell.kids);
        q := p;
        mem := (mem - {p})[p := cell.(layout := Dense(min, max, nbr + 1))];
      }
    }

    /** Room for a child under `c`; the slot is still empty. */
    method MakeRoom(p: Ptr, c: byte, ghost n: Cell<Tree>) returns (q: Ptr)
      requires AllocOk() && Represents(mem, p, Node(n)) && LayoutOk(n, Null) && Child(n, c, Null) == Null
      modifies this`mem, this`next
      ensures AllocOk() && Swapped(old(mem), p, Node(n), mem, q, Node(AddChild(n, c, Null, Null)))
    {
      LayoutInMemory(mem, p, n);
      if mem[p].layout.Dense? {
        q := Widen(p, c);
      } else if |mem[p].layout.keys| < SPARSE_MAX {
        q := Realloc(p, mem[p].(layout := Sparse(mem[p].layout.keys + [c]), kids := mem[p].kids + [NULL]));
      } else {
        q := Densify(p, c);
      }
      RoomSwaps(old(mem), p, n, c, mem, q);
    }

    // ----- subscribing -----

    /** `slot` is where the pointer at the end of `path` is kept. */
    ghost predicate Cursor(slot: Slot, path: Str)
      reads this
    {
      Valid() && Reaches(tree, path) && slot == SlotAt(mem, Root, root, tree, path)
    }

    method Load(slot: Slot, ghost path: Str) returns (p: Ptr)
      requires Cursor(slot, path)
      ensures p == PtrAt(mem, root, tree, path) && Represents(mem, p, At(tree, path))
    {
      AtFoot(mem, root, tree, path);
      if path != [] { SlotInside(mem, Root, root, tree, path); }
      match slot
      case Root => p := root;
      case Kid(node, i) => p := mem[node].kids[i];
    }

    /** Stores `q`, the new form of the subtree at the end of `path`, in its slot. */
    method Store(slot: Slot, q: Ptr, ghost path: Str, ghost sub: Tree, ghost mem0: Mem)
      requires AllocOk() && Represents(mem0, root, tree) && mem0.Keys == Foot(mem0, root, tree)
      requires Reaches(tree, path) && slot == SlotAt(mem0, Root, root, tree, path)
      requires Swapped(mem0, PtrAt(mem0, root, tree, path), At(tree, path), mem, q, sub)
      modifies this`mem, this`root, this`tree
      ensures Cursor(slot, path) && tree == Graft(old(tree), path, sub) && At(tree, path) == sub
      ensures PtrAt(mem, root, tree, path) == q && KeyAt(tree, path) == KeyAt(old(tree), path)
    {
      ghost var t := Graft(tree, path, sub);
      StoreSwaps(mem0, root, tree, slot, path, mem, q, sub);
      KeyKept(tree, path, sub);
      SetSlot(slot, q, path, t, sub);
    }

    /** The store as such. */
    method SetSlot(slot: Slot, q: Ptr, ghost path: Str, ghost t: Tree, ghost sub: Tree)
      requires AllocOk() && (slot.Kid? ==> slot.node in mem && slot.index < |mem[slot.node].kids|)
      requires StoredWell(Stored(mem, slot, q), if slot.Root? then q else root, t, slot, path, q, sub)
      modifies this`mem, this`root, this`tree
      ensures Cursor(slot, path) && tree == t && At(tree, path) == sub && PtrAt(mem, root, tree, path) == q
    {
      match slot {
        case Root => root := q;
        case Kid(node, i) => mem := mem[node := mem[node].(kids := mem[node].kids[i := q])];
      }
      tree := t;
    }

    /** Step 1: walks down as far as the data leads. */
    method Walk(data: Str) returns (slot: Slot, rest: Str, step: Step, pos: nat, ghost path: Str)
      requires Valid() && WellFormed(tree)
      ensures Cursor(slot, path) && Goal(tree, path, rest, step, pos, data, Trie.Subscribe(tree, data))
      ensures step != ToWalk
    {
      slot, rest, step, pos, path := Root, data, ToWalk, 0, [];
      while step == ToWalk
        invariant Cursor(slot, path) && Goal(tree, path, rest, step, pos, data, Trie.Subscribe(tree, data))
        decreases step == ToWalk, |rest|
      {
        slot, rest, step, pos, path := WalkStep(slot, rest, path, data, Trie.Subscribe(tree, data));
      }
    }

    method WalkStep(slot0: Slot, rest0: Str, ghost path0: Str, ghost data: Str, ghost target: Tree)
      returns (slot: Slot, rest: Str, step: Step, pos: nat, ghost path: Str)
      requires Cursor(slot0, path0) && Goal(tree, path0, rest0, ToWalk, 0, data, target)
      ensures Cursor(slot, path) && Goal(tree, path, rest, step, pos, data, target)
      ensures step == ToWalk ==> |rest| < |rest0|
    {
      slot, rest, step, pos, path := slot0, rest0, ToAppend, 0, path0;
      var p := Load(slot, path);
      if p == NULL { return; }
      ghost var n := At(tree, path).cell;
      pos := CheckPrefix(p, rest);
      rest := rest[pos..];
      GoalHere(tree, path, n, rest0, pos, rest, data, target);
      if pos < |mem[p].prefix| { step := ToSplit; return; }
      if rest == [] { step := ToCount; return; }
      var i := NextSlot(p, rest[0]);
      FootInside(mem, p, n, rest[0]);
      if i == -1 || mem[p].kids[i] == NULL { step := ToGrow; return; }
      CursorExtend(mem, Root, root, tree, path, rest[0]);
      path := path + [rest[0]];
      slot, rest, step, pos := Kid(p, i), rest[1..], ToWalk, 0;
    }

    /** Step 2: the node at the end of the path split where the data leaves its prefix. */
    method SplitStep(slot: Slot, pos: nat, ghost path: Str, ghost rest: Str, ghost data: Str, ghost target: Tree)
      requires Cursor(slot, path) && Goal(tree, path, rest, ToSplit, pos, data, target)
      modifies this
      ensures Cursor(slot, path) && Goal(tree, path, rest, ToGrow, pos, data, target)
    {
      ghost var mem0, tree0, n := mem, tree, At(tree, path).cell;
      var p := Load(slot, path);
      var q := SplitNode(p, pos, n);
      Store(slot, q, path, Node(Split(n, pos)), mem0);
      GraftTwice(tree0, path, Node(Split(n, pos)), Attach(Split(n, pos), rest));
    }

    /** Step 3: an empty slot for the next byte of the data. */
    method GrowStep(slot0: Slot, rest: Str, ghost path0: Str, ghost pos: nat, ghost data: Str, ghost target: Tree)
      returns (slot: Slot, ghost path: Str)
      requires Cursor(slot0, path0) && rest != [] && Goal(tree, path0, rest, ToGrow, pos, data, target)
      modifies this
      ensures Cursor(slot, path) && Goal(tree, path, rest[1..], ToAppend, pos, data, target)
    {
      ghost var tree0, n := tree, At(tree, path0).cell;
      var c := rest[0];
      var q := RoomAt(slot0, c, path0, n);
      assert rest == [c] + rest[1..];
      Grown(tree0, path0, n, c, rest[1..], pos, data, target);
      AtFoot(mem, root, tree, path0);
      var i := NextSlot(q, c);
      CursorExtend(mem, Root, root, tree, path0, c);
      slot, path := Kid(q, i), path0 + [c];
    }

    method RoomAt(slot: Slot, c: byte, ghost path: Str, ghost n: Cell<Tree>) returns (q: Ptr)
      requires Cursor(slot, path) && At(tree, path) == Node(n) && LayoutOk(n, Null) && Child(n, c, Null) == Null
      modifies this
      ensures Cursor(slot, path) && tree == Graft(old(tree), path, Node(AddChild(n, c, Null, Null)))
      ensures At(tree, path) == Node(AddChild(n, c, Null, Null)) && PtrAt(mem, root, tree, path) == q
    {
      ghost var mem0 := mem;
      var p := Load(slot, path);
      q := MakeRoom(p, c, n);
      Store(slot, q, path, Node(AddChild(n, c, Null, Null)), mem0);
    }

    /** Step 4: new nodes for the rest of the data, each stored in the slot before it. */
    method AppendStep(slot0: Slot, rest0: Str, ghost path0: Str, ghost pos: nat, ghost data: Str, ghost target: Tree)
      returns (slot: Slot, ghost path: Str)
      requires Cursor(slot0, path0) && Goal(tree, path0, rest0, ToAppend, pos, data, target)
      modifies this
      ensures Cursor(slot, path) && Goal(tree, path, [], ToCount, pos, data, target)
    {
      slot, path := slot0, path0;
      var rest := rest0;
      while |rest| > PREFIX_MAX
        invariant Cursor(slot, path) && Goal(tree, path, rest, ToAppend, pos, data, target)
      {
        slot, path := AppendOne(slot, rest, path, pos, data, target);
        rest := rest[PREFIX_MAX + 1..];
      }
      AppendLast(slot, rest, path, pos, data, target);
    }

    /** The last node, which takes all of the remaining data. */
    method AppendLast(slot: Slot, rest: Str, ghost path: Str, ghost pos: nat, ghost data: Str, ghost target: Tree)
      requires Cursor(slot, path) && |rest| <= PREFIX_MAX && Goal(tree, path, rest, ToAppend, pos, data, target)
      modifies this
      ensures Cursor(slot, path) && Goal(tree, path, [], ToCount, pos, data, target)
    {
      ghost var mem0, tree0 := mem, tree;
      AtFoot(mem, root, tree, path);
      var q := Alloc(Cell(0, rest, Sparse([]), []));
      ghost var n: Cell<Tree> := Cell(0, rest, Sparse([]), []);
      SwapFresh(mem0, q, mem[q], n);
      Store(slot, q, path, Node(n), mem0);
      GraftTwice(tree0, path, Node(n), Bump(n));
    }

    /** A full node, and an empty slot below it. */
    method AppendOne(slot0: Slot, rest: Str, ghost path0: Str, ghost pos: nat, ghost data: Str, ghost target: Tree)
      returns (slot: Slot, ghost path: Str)
      requires Cursor(slot0, path0) && |rest| > PREFIX_MAX && Goal(tree, path0, rest, ToAppend, pos, data, target)
      modifies this
      ensures Cursor(slot, path) && Goal(tree, path, rest[PREFIX_MAX + 1..], ToAppend, pos, data, target)
    {
      var b := rest[PREFIX_MAX];
      ghost var mem0, tree0 := mem, tree;
      AtFoot(mem, root, tree, path0);
      var q := Alloc(Cell(0, rest[..PREFIX_MAX], Sparse([b]), [NULL]));
      ghost var n := Cell(0, rest[..PREFIX_MAX], Sparse([b]), [Null]);
      SwapFresh(mem0, q, mem[q], n);
      Store(slot0, q, path0, Node(n), mem0);
      Lengthened(tree0, path0, rest, data);
      CursorExtend(mem, Root, root, tree, path0, b);
      slot, path := Kid(q, 0), path0 + [b];
    }

    /** Step 5: the subscription as such. */
    method CountStep(slot: Slot, ghost path: Str, ghost pos: nat, ghost data: Str, ghost target: Tree) returns (rc: int)
      requires Cursor(slot, path) && Goal(tree, path, [], ToCount, pos, data, target)
      modifies this
      ensures Valid() && tree == target && rc == if Count(tree, data) == 1 then 1 else 0
    {
      ghost var mem0, n := mem, At(tree, path).cell;
      var p := Load(slot, path);
      mem := mem[p := mem[p].(refcount := (mem[p].refcount + 1) % U32)];
      rc := if mem[p].refcount == 1 then 1 else 0;
      SwapCell(mem0, p, n, mem, p, Bump(n).cell);
      Store(slot, p, path, Bump(n), mem0);
      CountAt(tree, path, n.prefix);
      CountHere(Bump(n).cell);
    }

    method Subscribe(data: Str) returns (rc: int)
      requires Valid() && WellFormed(tree)
      modifies this
      ensures Valid() && tree == Trie.Subscribe(old(tree), data)
      ensures rc == if Count(tree, data) == 1 then 1 else 0
    {
      ghost var target := Trie.Subscribe(tree, data);
      ghost var path;
      var slot, rest, step, pos;
      slot, rest, step, pos, path := Walk(data);
      if step == ToSplit {
        SplitStep(slot, pos, path, rest, data, target);
        step := ToGrow;
      }
      if step == ToGrow {
        if rest == [] {
          step := ToCount;
        } else {
          slot, path := GrowStep(slot, rest, path, pos, data, target);
          rest, step := rest[1..], ToAppend;
        }
      }
      if step == ToAppend {
        slot, path := AppendStep(slot, rest, path, pos, data, target);
      }
      rc := CountStep(slot, path, pos, data, target);
    }

    // ----- unsubscribing -----

    /** The slots of a dense node with nine children, as a sparse node's lists. */
    method Collect(kids: seq<Ptr>, min: byte) returns (keys: seq<byte>, ks: seq<Ptr>)
      requires min + |kids| <= 256
      ensures keys == OccupiedKeys(kids, NULL, min) && ks == OccupiedKids(kids, NULL)
    {
      keys, ks := [], [];
      for i := 0 to |kids|
        invariant keys == OccupiedKeys(kids[..i], NULL, min) && ks == OccupiedKids(kids[..i], NULL)
      {
        assert kids[..i + 1] == kids[..i] + [kids[i]];
        OccupiedOneMore(kids[..i], kids[i], NULL, min);
        if kids[i] != NULL { keys, ks := keys + [min + i], ks + [kids[i]]; }
      }
      assert kids[..|kids|] == kids;
    }

    method FirstChild(kids: seq<Ptr>) returns (i: nat)
      ensures i == FirstOccupied(kids, NULL)
    {
      i := 0;
      while i != |kids|
        invariant i <= |kids| && forall j :: 0 <= j < i ==> kids[j] == NULL
        decreases |kids| - i
      {
        if kids[i] != NULL { return; }
        i := i + 1;
      }
    }

    method LastChild(kids: seq<Ptr>) returns (i: nat)
      requires Occupied(kids, NULL) > 0
      ensures i + 1 == LastOccupied(kids, NULL)
    {
      NilsOnly(kids, NULL);
      i := |kids| - 1;
      while i != 0
        invariant i < |kids| && forall j :: i < j < |kids| ==> kids[j] == NULL
      {
        if kids[i] != NULL { return; }
        i := i - 1;
      }
    }

    /** A dense node that stays dense gives up the emptied slot of `c`. */
    method Trim(p: Ptr, c: byte) returns (q: Ptr)
      requires AllocOk() && p in mem && p != NULL && Rangy(mem[p]) && HasSlot(mem[p], c)
      requires mem[p].layout.Dense? && mem[p].layout.nbr > SPARSE_MAX + 1 && Occupied(mem[p].kids, NULL) > 0
      modifies this`mem, this`next
      ensures AllocOk() && q != NULL && (q == p || q !in old(mem))
      ensures mem == (old(mem) - {p})[q := RemoveChild(old(mem[p]), c, NULL)]
    {
      var cell := mem[p];
      var min, max, nbr := cell.layout.min, cell.layout.max, cell.layout.nbr;
      if c == min {
        var i := FirstChild(cell.kids);
        TrimLow(cell, c, i);
        q := Realloc(p, cell.(layout := Dense(min + i, max, nbr - 1), kids := cell.kids[i..]));
      } else if c == max {
        var i := LastChild(cell.kids);
        TrimHigh(cell, c, i);
        q := Realloc(p, cell.(layout := Dense(min, min + i, nbr - 1), kids := cell.kids[..i + 1]));
      } else {
        q := p;
        mem := (mem - {p})[p := cell.(layout := Dense(min, max, nbr - 1))];
      }
    }

    /** Gives up the emptied slot of `c`, or fails an assertion. */
    method GiveUp(p: Ptr, c: byte) returns (q: Ptr, crashed: bool)
      requires AllocOk() && p in mem && p != NULL && Rangy(mem[p]) && HasSlot(mem[p], c)
      requires mem[p].layout.Dense? ==> Occupied(mem[p].kids, NULL) > 0
      modifies this`mem, this`next
      ensures AllocOk() && (crashed <==> !RemovalFits(old(mem[p]), NULL))
      ensures !crashed ==> q != NULL && (q == p || q !in old(mem))
      ensures !crashed ==> mem == (old(mem) - {p})[q := RemoveChild(old(mem[p]), c, NULL)]
    {
      crashed := false;
      if mem[p].layout.Sparse? {
        var keys, kids := mem[p].layout.keys, mem[p].kids;
        var i := NextSlot(p, c);
        q := Realloc(p, mem[p].(layout := Sparse(keys[..i] + keys[i + 1..]), kids := kids[..i] + kids[i + 1..]));
      } else if mem[p].layout.nbr > SPARSE_MAX + 1 {
        q := Trim(p, c);
      } else {
        var keys, ks := Collect(mem[p].kids, mem[p].layout.min);
        if |keys| != SPARSE_MAX { return p, true; }
        q := Alloc(Cell(0, mem[p].prefix, Sparse(keys), ks));
        mem := mem - {p};
      }
    }

    /** Prunes the node at `p`, whose slot for `c` is empty now. */
    method PruneNode(p: Ptr, c: byte, ghost n: Cell<Tree>) returns (q: Ptr, crashed: bool)
      requires AllocOk() && LayoutOk(n, Null) && HasSlot(n, c)
      requires Represents(mem, p, Node(SetChild(n, c, Null)))
      modifies this`mem, this`next
      ensures var o := Prune(SetChild(n, c, Null), c);
              && AllocOk() && (crashed <==> o.Fault?)
              && (o.Done? ==> o.rc == 1 && Swapped(old(mem), p, Node(SetChild(n, c, Null)), mem, q, o.tree))
    {
      ghost var e := SetChild(n, c, Null);
      var sparse := mem[p].layout.Sparse?;
      PruneInMemory(mem, p, n, c);
      q, crashed := GiveUp(p, c);
      if crashed { return; }
      ghost var m := RemoveChild(e, c, Null);
      PruneSwaps(old(mem), p, n, c, mem, q);
      ghost var mem1 := mem;
      if sparse {
        if mem[q].kids == [] && mem[q].refcount == 0 {
          SwapFree(mem, q, m);
          mem := mem - {q};
          SwapTwice(old(mem), p, Node(e), mem1, q, Node(m), mem, NULL, Null);
          q := NULL;
        } else {
          ghost var q1 := q;
          q := Compact(q, m);
          SwapTwice(old(mem), p, Node(e), mem1, q1, Node(m), mem, q, Trie.Compact(m));
        }
      }
    }

    /** The node the data ends at. */
    method FoundNode(self: Ptr, ghost t: Tree) returns (self': Ptr, rc: int)
      requires AllocOk() && Represents(mem, self, t) && WellFormed(t)
      modifies this`mem
      ensures AllocOk() && Found(t).Done? && rc == Found(t).rc
      ensures Swapped(old(mem), self, t, mem, self', Found(t).tree)
    {
      SwapNothing(mem, self, t);
      if self == NULL || mem[self].refcount == 0 { return self, -EINVAL; }
      mem := mem[self := mem[self].(refcount := mem[self].refcount - 1)];
      ghost var n := t.cell.(refcount := t.cell.refcount - 1);
      SwapCell(old(mem), self, t.cell, mem, self, n);
      ghost var mem1 := mem;
      if mem[self].refcount != 0 { return self, 0; }
      if mem[self].kids == [] {
        SwapFree(mem, self, n);
        mem := mem - {self};
        SwapTwice(old(mem), self, t, mem1, self, Node(n), mem, NULL, Null);
        return NULL, 1;
      }
      self' := Compact(self, n);
      SwapTwice(old(mem), self, t, mem1, self, Node(n), mem, self', Trie.Compact(n));
      rc := 1;
    }

    /** `self` is the pointer in the slot above, on entry and on exit. */
    method NodeUnsubscribe(self: Ptr, data: Str, ghost t: Tree) returns (self': Ptr, rc: int, crashed: bool)
      requires AllocOk() && Represents(mem, self, t) && WellFormed(t)
      modifies this`mem, this`next
      ensures AllocOk() && Meets(old(mem), self, t, Trie.Unsubscribe(t, data), mem, self', rc, crashed)
      decreases |data|, 1
    {
      crashed := false;
      if data == [] {
        self', rc := FoundNode(self, t);
        return;
      }
      if self == NULL { return NULL, 0, true; }
      SwapNothing(mem, self, t);
      var i := CheckPrefix(self, data);
      if i != |mem[self].prefix| { return self, 0, false; }
      if i == |data| {
        self', rc := FoundNode(self, t);
        return;
      }
      assert data == t.cell.prefix + [data[i]] + data[i + 1..];
      self', rc, crashed := ChildUnsubscribe(self, data[i], data[i + 1..], t.cell);
    }

    /** The walk goes on below the node at `self`, whose prefix has been matched. */
    method ChildUnsubscribe(self: Ptr, c: byte, rest: Str, ghost n: Cell<Tree>)
      returns (self': Ptr, rc: int, crashed: bool)
      requires AllocOk() && Represents(mem, self, Node(n)) && WellFormed(Node(n))
      modifies this`mem, this`next
      ensures var o := Trie.Unsubscribe(Node(n), n.prefix + [c] + rest);
              AllocOk() && Meets(old(mem), self, Node(n), o, mem, self', rc, crashed)
      decreases |rest| + 1, 0
    {
      var slot := NextSlot(self, c);
      if slot == -1 {
        NoSlotNoChange(n, c, rest);
        SwapNothing(mem, self, Node(n));
        return self, 0, false;
      }
      U.UnsubscribeStep(n, c, rest);
      KidRepresented(mem, self, n, c);
      ghost var o := Trie.Unsubscribe(Child(n, c, Null), rest);
      var ch, rc1, crash := NodeUnsubscribe(mem[self].kids[slot], rest, Child(n, c, Null));
      if crash { return self, 0, true; }
      GoneIsReported(Child(n, c, Null), rest);
      self', rc, crashed := AfterChild(self, c, slot, ch, rc1, old(mem), n, o);
    }

    /** Stores the child's new pointer, and prunes the node if nothing is in the slot. */
    method AfterChild(self: Ptr, c: byte, slot: nat, ch: Ptr, rc1: int, ghost mem0: Mem, ghost n: Cell<Tree>,
                      ghost o: Outcome)
      returns (self': Ptr, rc: int, crashed: bool)
      requires AllocOk() && Represents(mem0, self, Node(n)) && WellFormed(Node(n))
      requires HasSlot(n, c) && slot == SlotOf(n.layout, c)
      requires o.Done? && o.rc == rc1 && (o.tree.Null? ==> rc1 != 0)
      requires Swapped(mem0, Child(mem0[self], c, NULL), Child(n, c, Null), mem, ch, o.tree)
      modifies this`mem, this`next
      ensures AllocOk() && Meets(mem0, self, Node(n), U.After(n, c, o), mem, self', rc, crashed)
    {
      crashed := false;
      SwapKid(mem0, self, n, c, mem, ch, o.tree);
      FootAllocated(mem, ch, o.tree);
      mem := mem[self := mem[self].(kids := mem[self].kids[slot := ch])];
      if rc1 == 0 { return self, 0, false; }
      if ch != NULL { return self, 1, false; }
      ghost var mem1, e := mem, SetChild(n, c, Null);
      self', crashed := PruneNode(self, c, n);
      if !crashed { SwapTwice(mem0, self, Node(n), mem1, self, Node(e), mem, self', Prune(e, c).tree); }
      rc := 1;
    }

    /** After a null dereference or a failed assertion nothing is promised. */
    method Unsubscribe(data: Str) returns (rc: int, crashed: bool)
      requires Valid() && WellFormed(tree)
      modifies this
      ensures crashed <==> Trie.Unsubscribe(old(tree), data).Fault?
      ensures !crashed ==> Valid() && Trie.Unsubscribe(old(tree), data) == Done(tree, rc)
    {
      var p;
      p, rc, crashed := NodeUnsubscribe(root, data, tree);
      if crashed { return; }
      root := p;
      tree := Trie.Unsubscribe(tree, data).tree;
    }

    // ----- matching -----

    /** `size` counts on below 0, as an unsigned size that has wrapped. */
    method Match(data: M.Memory, size: nat) returns (matches: bool)
      requires Valid()
      ensures matches == M.Match(tree, data, size)
    {
      matches := MatchLoop(root, data, size, tree);
    }

    method MatchLoop(start: Ptr, data: M.Memory, size: nat, ghost whole: Tree) returns (matches: bool)
      requires Holds(mem, start, whole)
      ensures matches == M.MatchFrom(whole, data, 0, size)
    {
      var p := start;
      var at: nat, left: int := 0, size;
      ghost var t := whole;
      while p != NULL
        invariant Holds(mem, p, t) && M.MatchFrom(whole, data, 0, size) == M.MatchFrom(t, data, at, left)
        decreases t
      {
        var verdict := LookAt(p, data, at, left, t.cell);
        match verdict
        case Yes => return true;
        case No => return false;
        case GoTo(slot) =>
          at, left := at + |mem[p].prefix| + 1, left - |mem[p].prefix| - 1;
          p, t := mem[p].kids[slot], t.cell.kids[slot];
      }
      matches := false;
    }

    method LookAt(p: Ptr, data: M.Memory, at: nat, left: int, ghost n: Cell<Tree>) returns (verdict: M.Verdict)
      requires Holds(mem, p, Node(n))
      ensures verdict == M.Look(n, data, at, left)
      ensures verdict.GoTo? ==> verdict.slot < |n.kids| && Holds(mem, mem[p].kids[verdict.slot], n.kids[verdict.slot])
    {
      var ok := PrefixHolds(p, data, at, left);
      if !ok { return M.No; }
      if mem[p].refcount != 0 { return M.Yes; }
      var slot := NextSlot(p, data(at + |mem[p].prefix|));
      return if slot == -1 then M.No else M.GoTo(slot);
    }

    method PrefixHolds(p: Ptr, data: M.Memory, at: nat, left: int) returns (ok: bool)
      requires p in mem
      ensures ok == M.PrefixMatches(mem[p].prefix, data, at, left)
    {
      var prefix := mem[p].prefix;
      for i := 0 to |prefix|
        invariant 0 <= left ==> i <= left
        invariant forall j :: 0 <= j < i ==> prefix[j] == data(at + j)
      {
        if left == i || prefix[i] != data(at + i) {
          assert prefix[i] == M.Reads(data, at, |prefix|)[i] <==> prefix[i] == data(at + i);
          return false;
        }
      }
      assert M.Reads(data, at, |prefix|) == prefix;
      ok := true;
    }
  }

  /** The first `i` children are in their slots. */
  ghost predicate SpreadTo(cell: Cell<Ptr>, lo: byte, hi: byte, kids: seq<Ptr>, i: nat)
    requires cell.layout.Sparse? && lo <= hi
  {
    && |kids| == hi - lo + 1
    && forall x: byte | lo <= x <= hi ::
         kids[x - lo] == if IndexOf(cell.layout.keys, x) < i then Child(cell, x, NULL) else NULL
  }

  lemma SpreadOne(cell: Cell<Ptr>, lo: byte, hi: byte, kids: seq<Ptr>, i: nat)
    requires LayoutOk(cell, NULL) && cell.layout.Sparse? && lo <= hi && i < |cell.layout.keys|
    requires SpreadTo(cell, lo, hi, kids, i) && lo <= cell.layout.keys[i] <= hi
    ensures SpreadTo(cell, lo, hi, kids[cell.layout.keys[i] - lo := cell.kids[i]], i + 1)
  {
    var keys := cell.layout.keys;
    IndexOfAt(keys, i);
    forall x: byte | lo <= x <= hi
      ensures kids[keys[i] - lo := cell.kids[i]][x - lo]
           == if IndexOf(keys, x) < i + 1 then Child(cell, x, NULL) else NULL
    {
      if x != keys[i] { assert IndexOf(keys, x) != i; }
    }
  }

  lemma SpreadAll(cell: Cell<Ptr>, lo: byte, hi: byte, kids: seq<Ptr>)
    requires LayoutOk(cell, NULL) && cell.layout.Sparse? && lo <= hi && SpreadTo(cell, lo, hi, kids, |cell.layout.keys|)
    ensures kids == seq(hi - lo + 1, i requires 0 <= i <= hi - lo => Child(cell, lo + i, NULL))
  {
    forall i | 0 <= i <= hi - lo ensures kids[i] == Child(cell, lo + i, NULL) {
      var x: byte := lo + i;
      assert kids[x - lo] == if IndexOf(cell.layout.keys, x) < |cell.layout.keys| then Child(cell, x, NULL) else NULL;
    }
  }

  /** What giving up a slot makes of a dense node that stays dense: at its low end, at
      its high end, and in between. */
  lemma Padded(kids: seq<Ptr>, before: nat, after: nat)
    ensures var r := Nils(before, NULL) + kids + Nils(after, NULL);
            && (before == 0 ==> r == kids + Nils(after, NULL))
            && (after == 0 ==> r == Nils(before, NULL) + kids)
            && (before == after == 0 ==> r == kids)
  {
  }

  lemma PaddedAt(kids: seq<Ptr>, before: nat, after: nat, i: nat)
    requires i < before + |kids| + after && (before <= i < before + |kids| ==> kids[i - before] == NULL)
    ensures var r := Nils(before, NULL) + kids + Nils(after, NULL); r[i := NULL] == r
  {
    assert (Nils(before, NULL) + kids + Nils(after, NULL))[i] == NULL;
  }

  lemma WidenedKids(cell: Cell<Ptr>, c: byte, before: nat, after: nat)
    requires Rangy(cell) && cell.layout.Dense? && Child(cell, c, NULL) == NULL
    requires var l := cell.layout; before == l.min - Min(l.min, c) && after == Max(l.max, c) - l.max
    ensures AddChild(cell, c, NULL, NULL).kids == Nils(before, NULL) + cell.kids + Nils(after, NULL)
  {
    PaddedAt(cell.kids, before, after, c - Min(cell.layout.min, c));
  }

  lemma WidenedLayout(cell: Cell<Ptr>, c: byte)
    requires Rangy(cell) && cell.layout.Dense?
    ensures var l, m := cell.layout, AddChild(cell, c, NULL, NULL);
            m == cell.(layout := Dense(Min(l.min, c), Max(l.max, c), l.nbr + 1), kids := m.kids)
  {
  }

  ghost predicate WidenedBy(old': seq<Ptr>, l: Layout, c: byte, kids: seq<Ptr>)
    requires l.Dense?
  {
    if c < l.min then kids == Nils(l.min - c, NULL) + old'
    else if c > l.max then kids == old' + Nils(c - l.max, NULL)
    else kids == old'
  }

  lemma WidenedPads(old': seq<Ptr>, l: Layout, c: byte, kids: seq<Ptr>)
    requires l.Dense? && l.min <= l.max && WidenedBy(old', l, c, kids)
    ensures kids == Nils(l.min - Min(l.min, c), NULL) + old' + Nils(Max(l.max, c) - l.max, NULL)
  {
    Padded(old', l.min - Min(l.min, c), Max(l.max, c) - l.max);
  }

  lemma WidenedCell(cell: Cell<Ptr>, c: byte, kids: seq<Ptr>)
    requires Rangy(cell) && cell.layout.Dense? && Child(cell, c, NULL) == NULL
    requires WidenedBy(cell.kids, cell.layout, c, kids)
    ensures var l := cell.layout; var wider := Dense(Min(l.min, c), Max(l.max, c), l.nbr + 1);
            AddChild(cell, c, NULL, NULL) == cell.(layout := wider, kids := kids)
  {
    var l := cell.layout;
    WidenedKids(cell, c, l.min - Min(l.min, c), Max(l.max, c) - l.max);
    WidenedPads(cell.kids, l, c, kids);
    WidenedLayout(cell, c);
  }

  ghost predicate StaysDense(cell: Cell<Ptr>, c: byte) {
    && Rangy(cell) && HasSlot(cell, c) && cell.layout.Dense? && cell.layout.nbr > SPARSE_MAX + 1
    && Occupied(cell.kids, NULL) > 0
  }

  lemma TrimLow(cell: Cell<Ptr>, c: byte, i: nat)
    requires StaysDense(cell, c) && c == cell.layout.min && i == FirstOccupied(cell.kids, NULL)
    ensures var Dense(min, max, nbr) := cell.layout;
            && i < |cell.kids|
            && RemoveChild(cell, c, NULL) == cell.(layout := Dense(min + i, max, nbr - 1), kids := cell.kids[i..])
  {
    NilsOnly(cell.kids, NULL);
  }

  lemma TrimHigh(cell: Cell<Ptr>, c: byte, i: nat)
    requires StaysDense(cell, c) && c == cell.layout.max != cell.layout.min && i + 1 == LastOccupied(cell.kids, NULL)
    ensures var Dense(min, max, nbr) := cell.layout;
            && i < |cell.kids|
            && RemoveChild(cell, c, NULL) == cell.(layout := Dense(min, min + i, nbr - 1), kids := cell.kids[..i + 1])
  {
  }

  /** Where the walk of a subscription goes on. */
  datatype Step = ToWalk | ToSplit | ToGrow | ToAppend | ToCount

  /** What is still to be done at the end of `path` so that the tree becomes `target`. */
  ghost predicate Goal(t: Tree, path: Str, rest: Str, step: Step, pos: nat, data: Str, target: Tree)
    requires Reaches(t, path)
  {
    var sub, key := At(t, path), KeyAt(t, path);
    match step
    case ToWalk => WellFormed(sub) && data == key + rest && Graft(t, path, Trie.Subscribe(sub, rest)) == target
    case ToAppend => sub.Null? && data == key + rest && Graft(t, path, Chain(rest)) == target
    case ToSplit =>
      && sub.Node? && LayoutOk(sub.cell, Null) && pos < |sub.cell.prefix|
      && data == key + (sub.cell.prefix[..pos] + rest) && (rest != [] ==> rest[0] != sub.cell.prefix[pos])
      && Graft(t, path, Attach(Split(sub.cell, pos), rest)) == target
    case ToGrow =>
      && sub.Node? && LayoutOk(sub.cell, Null) && data == key + (sub.cell.prefix + rest)
      && (rest != [] ==> Child(sub.cell, rest[0], Null) == Null)
      && Graft(t, path, Attach(sub.cell, rest)) == target
    case ToCount =>
      && sub.Node? && rest == [] && data == key + sub.cell.prefix
      && Graft(t, path, Bump(sub.cell)) == target
  }

  lemma SubscribeAtSplit(n: Cell<Tree>, whole: Str, pos: nat)
    requires WellFormed(Node(n)) && pos == PrefixLen(n.prefix, whole) < |n.prefix|
    ensures whole == n.prefix[..pos] + whole[pos..] && (whole[pos..] != [] ==> whole[pos] != n.prefix[pos])
    ensures Trie.Subscribe(Node(n), whole) == Attach(Split(n, pos), whole[pos..])
  {
  }

  lemma SubscribeAtNode(n: Cell<Tree>, whole: Str, rest: Str)
    requires WellFormed(Node(n)) && whole == n.prefix + rest
    requires rest == [] || Child(n, rest[0], Null) == Null
    ensures Trie.Subscribe(Node(n), whole) == Attach(n, rest)
  {
    assert PrefixLen(n.prefix, whole) == |n.prefix| && whole[|n.prefix|..] == rest;
  }

  /** The data `whole`, still to be placed at the node `n` at the end of the path, leaves
      the prefix of the node, or ends there, or has no child to go on with. */
  lemma GoalSplit(t: Tree, path: Str, n: Cell<Tree>, whole: Str, pos: nat, data: Str, target: Tree)
    requires Reaches(t, path) && At(t, path) == Node(n) && WellFormed(Node(n))
    requires data == KeyAt(t, path) + whole && pos == PrefixLen(n.prefix, whole) < |n.prefix|
    requires Graft(t, path, Trie.Subscribe(Node(n), whole)) == target
    ensures Goal(t, path, whole[pos..], ToSplit, pos, data, target)
  {
    SubscribeAtSplit(n, whole, pos);
    assert WellFormed(Node(n)) ==> LayoutOk(n, Null);
  }

  lemma GoalNode(t: Tree, path: Str, n: Cell<Tree>, whole: Str, rest: Str, data: Str, target: Tree)
    requires Reaches(t, path) && At(t, path) == Node(n) && WellFormed(Node(n))
    requires data == KeyAt(t, path) + whole && whole == n.prefix + rest
    requires rest == [] || Child(n, rest[0], Null) == Null
    requires Graft(t, path, Trie.Subscribe(Node(n), whole)) == target
    ensures Goal(t, path, rest, if rest == [] then ToCount else ToGrow, |n.prefix|, data, target)
  {
    SubscribeAtNode(n, whole, rest);
    assert n.prefix + [] == n.prefix;
  }

  lemma GoalHere(t: Tree, path: Str, n: Cell<Tree>, whole: Str, pos: nat, rest: Str, data: Str, target: Tree)
    requires Reaches(t, path) && At(t, path) == Node(n) && WellFormed(Node(n))
    requires data == KeyAt(t, path) + whole && pos == PrefixLen(n.prefix, whole) && rest == whole[pos..]
    requires Graft(t, path, Trie.Subscribe(Node(n), whole)) == target
    ensures pos < |n.prefix| ==> Goal(t, path, rest, ToSplit, pos, data, target)
    ensures pos == |n.prefix| && rest == [] ==> Goal(t, path, rest, ToCount, pos, data, target)
    ensures pos == |n.prefix| && rest != [] && Child(n, rest[0], Null) == Null ==>
              Goal(t, path, rest, ToGrow, pos, data, target)
    ensures pos == |n.prefix| && rest != [] && Child(n, rest[0], Null) != Null ==>
              Reaches(t, path + [rest[0]]) && Goal(t, path + [rest[0]], rest[1..], ToWalk, 0, data, target)
  {
    if pos < |n.prefix| {
      GoalSplit(t, path, n, whole, pos, data, target);
      return;
    }
    PrefixWhole(n.prefix, whole, rest);
    if rest == [] || Child(n, rest[0], Null) == Null {
      GoalNode(t, path, n, whole, rest, data, target);
    } else {
      WalkDown(t, path, n, rest[0], rest[1..], whole, data, target);
    }
  }

  lemma PrefixWhole(p: Str, whole: Str, rest: Str)
    requires PrefixLen(p, whole) == |p| && rest == whole[|p|..]
    ensures whole == p + rest && (rest != [] ==> whole == p + [rest[0]] + rest[1..])
  {
  }

  lemma WalkDown(t: Tree, path: Str, n: Cell<Tree>, c: byte, rest: Str, whole: Str, data: Str, target: Tree)
    requires Reaches(t, path) && At(t, path) == Node(n) && WellFormed(Node(n))
    requires data == KeyAt(t, path) + whole && whole == n.prefix + [c] + rest
    requires HasSlot(n, c) && Child(n, c, Null).Node?
    requires Graft(t, path, Trie.Subscribe(Node(n), whole)) == target
    ensures Reaches(t, path + [c])
    ensures Goal(t, path + [c], rest, ToWalk, 0, data, target)
  {
    S.SubscribeStep(n, c, rest);
    KeyExtend(t, path, c);
    GraftExtend(t, path, c, Trie.Subscribe(Child(n, c, Null), rest));
    Reassociate(KeyAt(t, path), n.prefix + [c], rest);
  }

  lemma Reassociate(a: Str, b: Str, c: Str)
    ensures a + (b + c) == a + b + c
  {
  }

  lemma Grown(t: Tree, path: Str, n: Cell<Tree>, c: byte, more: Str, pos: nat, data: Str, target: Tree)
    requires Reaches(t, path) && At(t, path) == Node(n) && Goal(t, path, [c] + more, ToGrow, pos, data, target)
    ensures var m := AddChild(n, c, Null, Null);
            var t' := Graft(t, path, Node(m));
            && Reaches(t', path) && At(t', path) == Node(m) && HasSlot(m, c)
            && Reaches(t', path + [c]) && Goal(t', path + [c], more, ToAppend, pos, data, target)
  {
    GrownCell(n, c, more);
    GrownTree(t, path, n, AddChild(n, c, Null, Null), c, more, Attach(n, [c] + more), data);
  }

  lemma GrownCell(n: Cell<Tree>, c: byte, more: Str)
    requires LayoutOk(n, Null) && Child(n, c, Null) == Null
    ensures var m := AddChild(n, c, Null, Null);
            && HasSlot(m, c) && Child(m, c, Null) == Null && m.prefix == n.prefix
            && Attach(n, [c] + more) == Node(SetChild(m, c, Chain(more)))
  {
    assert ([c] + more)[1..] == more;
    AddThenSet(n, c, Chain(more), Null);
    AddChildFinds(n, c, Null, Null, c);
  }

  lemma GrownTree(t: Tree, path: Str, n: Cell<Tree>, m: Cell<Tree>, c: byte, more: Str, full: Tree, data: Str)
    requires Reaches(t, path) && HasSlot(m, c) && Child(m, c, Null) == Null && m.prefix == n.prefix
    requires full == Node(SetChild(m, c, Chain(more))) && data == KeyAt(t, path) + (n.prefix + ([c] + more))
    ensures var t' := Graft(t, path, Node(m));
            && Reaches(t', path) && At(t', path) == Node(m) && Reaches(t', path + [c])
            && Goal(t', path + [c], more, ToAppend, 0, data, Graft(t, path, full))
  {
    Widened(t, path, m, c, Chain(more), full);
    assert KeyAt(t, path) + (n.prefix + ([c] + more)) == KeyAt(t, path) + (n.prefix + [c]) + more;
  }

  /** A node `m` put at the end of the path, with an empty slot under `c` for `branch` to come. */
  lemma Widened(t: Tree, path: Str, m: Cell<Tree>, c: byte, branch: Tree, full: Tree)
    requires Reaches(t, path) && HasSlot(m, c) && full == Node(SetChild(m, c, branch))
    ensures var t' := Graft(t, path, Node(m));
            && Reaches(t', path) && At(t', path) == Node(m)
            && Reaches(t', path + [c]) && At(t', path + [c]) == Child(m, c, Null)
            && KeyAt(t', path + [c]) == KeyAt(t, path) + (m.prefix + [c])
            && Graft(t', path + [c], branch) == Graft(t, path, full)
  {
    var t' := Graft(t, path, Node(m));
    GraftTwice(t, path, Node(m), full);
    GraftExtend(t', path, c, branch);
    KeyKept(t, path, Node(m));
    KeyExtend(t', path, c);
  }

  lemma Lengthened(t: Tree, path: Str, rest: Str, data: Str)
    requires Reaches(t, path) && |rest| > PREFIX_MAX && data == KeyAt(t, path) + rest
    ensures var b, more := rest[PREFIX_MAX], rest[PREFIX_MAX + 1..];
            var n := Cell(0, rest[..PREFIX_MAX], Sparse([b]), [Null]);
            var t' := Graft(t, path, Node(n));
            && Reaches(t', path) && At(t', path) == Node(n) && HasSlot(n, b) && SlotOf(n.layout, b) == 0
            && Reaches(t', path + [b]) && At(t', path + [b]) == Null
            && data == KeyAt(t', path + [b]) + more
            && Graft(t', path + [b], Chain(more)) == Graft(t, path, Chain(rest))
  {
    var b, more := rest[PREFIX_MAX], rest[PREFIX_MAX + 1..];
    var n := Cell(0, rest[..PREFIX_MAX], Sparse([b]), [Null]);
    assert SetChild(n, b, Chain(more)) == Cell(0, rest[..PREFIX_MAX], Sparse([b]), [Chain(more)]);
    Widened(t, path, n, b, Chain(more), Chain(rest));
    assert rest == n.prefix + [b] + more;
  }

  /** After the store the whole tree is in order again, and the cursor still stands. */
  lemma StoreSwaps(mem0: Mem, p: Ptr, t: Tree, slot: Slot, path: Str, mem: Mem, q: Ptr, sub: Tree)
    requires Represents(mem0, p, t) && mem0.Keys == Foot(mem0, p, t)
    requires Reaches(t, path) && slot == SlotAt(mem0, Root, p, t, path)
    requires Swapped(mem0, PtrAt(mem0, p, t, path), At(t, path), mem, q, sub)
    ensures slot.Kid? ==> slot.node in mem && slot.index < |mem[slot.node].kids|
    ensures StoredWell(Stored(mem, slot, q), if slot.Root? then q else p, Graft(t, path, sub), slot, path, q, sub)
  {
    if path != [] { StoreSwapsBelow(mem0, p, t, slot, path, mem, q, sub); }
  }

  ghost predicate StoredWell(mem: Mem, p: Ptr, t: Tree, slot: Slot, path: Str, q: Ptr, sub: Tree) {
    && Represents(mem, p, t) && mem.Keys == Foot(mem, p, t)
    && Reaches(t, path) && At(t, path) == sub
    && SlotAt(mem, Root, p, t, path) == slot && PtrAt(mem, p, t, path) == q
  }

  lemma SwappedGraftable(mem0: Mem, p: Ptr, t: Tree, path: Str, mem: Mem, q: Ptr, sub: Tree)
    requires Represents(mem0, p, t) && mem0.Keys == Foot(mem0, p, t) && Reaches(t, path)
    requires Swapped(mem0, PtrAt(mem0, p, t, path), At(t, path), mem, q, sub)
    ensures Graftable(mem0, p, t, path, mem, q, sub)
  {
    AtFoot(mem0, p, t, path);
  }

  lemma StoreSwapsBelow(mem0: Mem, p: Ptr, t: Tree, slot: Slot, path: Str, mem: Mem, q: Ptr, sub: Tree)
    requires Represents(mem0, p, t) && mem0.Keys == Foot(mem0, p, t)
    requires Reaches(t, path) && slot == SlotAt(mem0, Root, p, t, path) && path != []
    requires Swapped(mem0, PtrAt(mem0, p, t, path), At(t, path), mem, q, sub)
    ensures slot.Kid? && slot.node in mem && slot.index < |mem[slot.node].kids|
    ensures StoredWell(Stored(mem, slot, q), p, Graft(t, path, sub), slot, path, q, sub)
  {
    SwappedGraftable(mem0, p, t, path, mem, q, sub);
    CursorKept(mem0, Root, p, t, path, mem, q, sub);
    StoredKeys(mem0, p, t, slot, path, mem, q, sub);
  }

  /** The cells of the whole tree, and no others, are in use after the store. */
  lemma StoredKeys(mem0: Mem, p: Ptr, t: Tree, slot: Slot, path: Str, mem: Mem, q: Ptr, sub: Tree)
    requires Represents(mem0, p, t) && mem0.Keys == Foot(mem0, p, t)
    requires Reaches(t, path) && slot == SlotAt(mem0, Root, p, t, path) && path != []
    requires Swapped(mem0, PtrAt(mem0, p, t, path), At(t, path), mem, q, sub)
    requires Graftable(mem0, p, t, path, mem, q, sub)
    requires slot.Kid? && slot.node in mem && slot.index < |mem[slot.node].kids|
    ensures var mem2 := Stored(mem, slot, q);
            Represents(mem2, p, Graft(t, path, sub)) && mem2.Keys == Foot(mem2, p, Graft(t, path, sub))
  {
    GraftStored(mem0, Root, p, t, path, mem, q, sub);
    assert Stored(mem, slot, q).Keys == mem.Keys;
  }

  lemma NoSlotNoChange(n: Cell<Tree>, c: byte, rest: Str)
    requires WellFormed(Node(n)) && !HasSlot(n, c)
    ensures Trie.Unsubscribe(Node(n), n.prefix + [c] + rest) == Done(Node(n), 0)
  {
    assert (n.prefix + [c] + rest)[|n.prefix|..] == [c] + rest;
  }

  lemma GoneIsReported(t: Tree, d: Str)
    requires WellFormed(t)
    ensures var o := Trie.Unsubscribe(t, d); o.Done? && o.tree.Null? ==> o.rc != 0
  {
  }

  /** What the walk in memory did is what the outcome says. */
  ghost predicate Meets(mem0: Mem, p: Ptr, t: Tree, o: Outcome, mem: Mem, q: Ptr, rc: int, crashed: bool) {
    (crashed <==> o.Fault?) && (o.Done? ==> rc == o.rc && Swapped(mem0, p, t, mem, q, o.tree))
  }

  /** The emptied node in memory is in the state that giving up a slot asks for. */
  lemma EmptiedInMemory(mem: Mem, p: Ptr, n: Cell<Tree>, c: byte)
    requires LayoutOk(n, Null) && HasSlot(n, c) && Child(n, c, Null) != Null
    requires Holds(mem, p, Node(SetChild(n, c, Null)))
    ensures var e := SetChild(n, c, Null);
            && SameNulls(mem[p].kids, e.kids) && Rangy(mem[p])
            && (n.layout.Dense? ==> Occupied(mem[p].kids, NULL) == Occupied(e.kids, Null) == n.layout.nbr - 1)
  {
    var e := SetChild(n, c, Null);
    forall i | 0 <= i < |e.kids| ensures mem[p].kids[i] == NULL <==> e.kids[i] == Null { SlotNulls(mem, p, e, i); }
    if n.layout.Dense? {
      RemoveDenseFits(n, c, Null);
      SameOccupied(mem[p].kids, e.kids, 0);
    }
  }

  lemma GiveUpSwaps(mem: Mem, p: Ptr, n: Cell<Tree>, c: byte, mem': Mem, q: Ptr)
    requires LayoutOk(n, Null) && HasSlot(n, c) && Child(n, c, Null) != Null
    requires Represents(mem, p, Node(SetChild(n, c, Null)))
    requires SameNulls(mem[p].kids, SetChild(n, c, Null).kids) && Rangy(mem[p])
    requires n.layout.Dense? ==>
               Occupied(mem[p].kids, NULL) == Occupied(SetChild(n, c, Null).kids, Null) == n.layout.nbr - 1
    requires q != NULL && (q == p || q !in mem) && mem' == (mem - {p})[q := RemoveChild(mem[p], c, NULL)]
    ensures n.layout.Dense? ==> RemovalFits(SetChild(n, c, Null), Null)
    ensures var e := SetChild(n, c, Null); Swapped(mem, p, Node(e), mem', q, Node(RemoveChild(e, c, Null)))
    ensures LayoutOk(RemoveChild(SetChild(n, c, Null), c, Null), Null)
  {
    var e := SetChild(n, c, Null);
    var m := RemoveChild(e, c, Null);
    if n.layout.Dense? { RemoveDense(n, c, Null); } else { RemoveSparse(n, c, Null); }
    GiveUpPtrs(mem[p], n, c);
    forall x: byte
      ensures Child(mem'[q], x, NULL) == Child(mem[p], x, NULL) && Child(m, x, Null) == Child(e, x, Null)
    {
      EmptiedChild(n, c, x);
    }
    SwapCell(mem, p, e, mem', q, m);
  }

  /** A slot that was empty before is in the middle of a dense node. */
  lemma HoleInMemory(mem: Mem, p: Ptr, n: Cell<Tree>, c: byte)
    requires Holds(mem, p, Node(n)) && LayoutOk(n, Null) && HasSlot(n, c) && Child(n, c, Null) == Null
    ensures SetChild(n, c, Null) == n && n.layout.Dense? && n.layout.min < c < n.layout.max
    ensures Occupied(mem[p].kids, NULL) == Occupied(n.kids, Null) == n.layout.nbr
  {
    U.SparseOrHole(n, c);
    LayoutInMemory(mem, p, n);
    SameOccupied(mem[p].kids, n.kids, 0);
  }

  lemma PruneInMemory(mem: Mem, p: Ptr, n: Cell<Tree>, c: byte)
    requires LayoutOk(n, Null) && HasSlot(n, c) && Holds(mem, p, Node(SetChild(n, c, Null)))
    ensures var e := SetChild(n, c, Null);
            && Rangy(mem[p]) && HasSlot(mem[p], c)
            && (n.layout.Dense? ==> Occupied(mem[p].kids, NULL) == Occupied(e.kids, Null) > 0)
  {
    if Child(n, c, Null) == Null {
      U.SparseOrHole(n, c);
      HoleInMemory(mem, p, n, c);
    } else {
      EmptiedInMemory(mem, p, n, c);
    }
  }

  lemma PruneSwaps(mem: Mem, p: Ptr, n: Cell<Tree>, c: byte, mem': Mem, q: Ptr)
    requires LayoutOk(n, Null) && HasSlot(n, c) && Represents(mem, p, Node(SetChild(n, c, Null)))
    requires Rangy(mem[p]) && HasSlot(mem[p], c) && RemovalFits(mem[p], NULL)
    requires n.layout.Dense? ==> Occupied(mem[p].kids, NULL) == Occupied(SetChild(n, c, Null).kids, Null) > 0
    requires q != NULL && (q == p || q !in mem) && mem' == (mem - {p})[q := RemoveChild(mem[p], c, NULL)]
    ensures var e := SetChild(n, c, Null); Swapped(mem, p, Node(e), mem', q, Node(RemoveChild(e, c, Null)))
    ensures n.layout.Sparse? ==> LayoutOk(RemoveChild(SetChild(n, c, Null), c, Null), Null)
  {
    if Child(n, c, Null) == Null {
      U.SparseOrHole(n, c);
      HoleInMemory(mem, p, n, c);
      SwapCell(mem, p, n, mem', q, n.(layout := n.layout.(nbr := n.layout.nbr - 1)));
    } else {
      EmptiedInMemory(mem, p, n, c);
      GiveUpSwaps(mem, p, n, c, mem', q);
    }
  }

  lemma EmptiedChild(n: Cell<Tree>, c: byte, x: byte)
    requires LayoutOk(n, Null) && HasSlot(n, c)
    ensures Child(SetChild(n, c, Null), x, Null) == if x == c then Null else Child(n, x, Null)
  {
    SetChildFinds(n, c, Null, x);
  }

  /** Some pointer, for the time being, in the slot that has been emptied. */
  ghost function Filled(cell: Cell<Ptr>, i: nat): Cell<Ptr>
    requires i < |cell.kids|
  {
    cell.(kids := cell.kids[i := 1])
  }

  lemma FilledOk(cell: Cell<Ptr>, n: Cell<Tree>, c: byte)
    requires LayoutOk(n, Null) && HasSlot(n, c) && Child(n, c, Null) != Null
    requires SameHeader(cell, SetChild(n, c, Null)) && SameNulls(cell.kids, SetChild(n, c, Null).kids)
    requires n.layout.Dense? ==> Occupied(cell.kids, NULL) == n.layout.nbr - 1
    ensures var full := Filled(cell, SlotOf(n.layout, c));
            && LayoutOk(full, NULL) && Child(full, c, NULL) != NULL && Child(cell, c, NULL) == NULL
            && SetChild(full, c, NULL) == cell
  {
    var i := SlotOf(n.layout, c);
    var full := Filled(cell, i);
    assert SetChild(full, c, NULL) == cell;
    if n.layout.Dense? { OccupiedUpdate(cell.kids, i, 1, NULL); }
    else { assert forall j | 0 <= j < |full.kids| :: full.kids[j] != NULL; }
  }

  /** The pointers move as the subtrees do. */
  lemma GiveUpPtrs(cell: Cell<Ptr>, n: Cell<Tree>, c: byte)
    requires LayoutOk(n, Null) && HasSlot(n, c) && Child(n, c, Null) != Null
    requires SameHeader(cell, SetChild(n, c, Null)) && SameNulls(cell.kids, SetChild(n, c, Null).kids)
    requires n.layout.Dense? ==>
               Occupied(cell.kids, NULL) == Occupied(SetChild(n, c, Null).kids, Null) == n.layout.nbr - 1
    ensures Rangy(cell) && HasSlot(cell, c)
    ensures SameHeaders(RemoveChild(cell, c, NULL), RemoveChild(SetChild(n, c, Null), c, Null))
    ensures forall x: byte :: Child(RemoveChild(cell, c, NULL), x, NULL) == Child(cell, x, NULL)
  {
    GiveUpHeader(cell, SetChild(n, c, Null), c);
    FilledOk(cell, n, c);
    GiveUpFinds(Filled(cell, SlotOf(n.layout, c)), c);
  }

  ghost predicate SameHeaders(m: Cell<Ptr>, n: Cell<Tree>) {
    m.refcount == n.refcount && m.prefix == n.prefix && m.layout == n.layout && |m.kids| == |n.kids|
  }

  lemma GiveUpSparse(cell: Cell<Ptr>, e: Cell<Tree>, c: byte)
    requires SameHeader(cell, e) && SameNulls(cell.kids, e.kids) && HasSlot(e, c) && e.layout.Sparse?
    ensures SameHeaders(RemoveChild(cell, c, NULL), RemoveChild(e, c, Null))
  {
  }

  lemma GiveUpShrunk(cell: Cell<Ptr>, e: Cell<Tree>, c: byte)
    requires SameHeader(cell, e) && SameNulls(cell.kids, e.kids) && HasSlot(e, c)
    requires e.layout.Dense? && e.layout.nbr <= SPARSE_MAX + 1
    requires Occupied(e.kids, Null) > 0 && Occupied(cell.kids, NULL) > 0
    ensures SameHeaders(RemoveChild(cell, c, NULL), RemoveChild(e, c, Null))
  {
    SameOccupied(cell.kids, e.kids, e.layout.min);
  }

  lemma GiveUpLeft(cell: Cell<Ptr>, e: Cell<Tree>, c: byte)
    requires SameHeader(cell, e) && |cell.kids| == |e.kids| && HasSlot(e, c)
    requires e.layout.Dense? && e.layout.nbr > SPARSE_MAX + 1 && c == e.layout.min
    requires Occupied(e.kids, Null) > 0 && Occupied(cell.kids, NULL) > 0
    requires FirstOccupied(cell.kids, NULL) == FirstOccupied(e.kids, Null)
    ensures SameHeaders(RemoveChild(cell, c, NULL), RemoveChild(e, c, Null))
  {
    NilsOnly(cell.kids, NULL);
    NilsOnly(e.kids, Null);
  }

  lemma GiveUpRight(cell: Cell<Ptr>, e: Cell<Tree>, c: byte)
    requires SameHeader(cell, e) && |cell.kids| == |e.kids| && HasSlot(e, c)
    requires e.layout.Dense? && e.layout.nbr > SPARSE_MAX + 1 && c != e.layout.min
    requires Occupied(e.kids, Null) > 0 && Occupied(cell.kids, NULL) > 0
    requires LastOccupied(cell.kids, NULL) == LastOccupied(e.kids, Null)
    ensures SameHeaders(RemoveChild(cell, c, NULL), RemoveChild(e, c, Null))
  {
    NilsOnly(cell.kids, NULL);
    NilsOnly(e.kids, Null);
  }

  lemma GiveUpHeader(cell: Cell<Ptr>, e: Cell<Tree>, c: byte)
    requires SameHeader(cell, e) && SameNulls(cell.kids, e.kids) && HasSlot(e, c)
    requires e.layout.Dense? ==> Occupied(e.kids, Null) > 0 && Occupied(cell.kids, NULL) > 0
    ensures SameHeaders(RemoveChild(cell, c, NULL), RemoveChild(e, c, Null))
  {
    if e.layout.Sparse? {
      GiveUpSparse(cell, e, c);
    } else if e.layout.nbr <= SPARSE_MAX + 1 {
      GiveUpShrunk(cell, e, c);
    } else {
      SameOccupied(cell.kids, e.kids, e.layout.min);
      if c == e.layout.min { GiveUpLeft(cell, e, c); } else { GiveUpRight(cell, e, c); }
    }
  }

  lemma GiveUpFinds(full: Cell<Ptr>, c: byte)
    requires LayoutOk(full, NULL) && Child(full, c, NULL) != NULL
    ensures var e := SetChild(full, c, NULL);
            && (full.layout.Dense? ==> Occupied(e.kids, NULL) > 0)
            && forall x: byte :: Child(RemoveChild(e, c, NULL), x, NULL) == Child(e, x, NULL)
  {
    if full.layout.Dense? { RemoveDense(full, c, NULL); } else { RemoveSparse(full, c, NULL); }
    forall x: byte ensures Child(SetChild(full, c, NULL), x, NULL) == if x == c then NULL else Child(full, x, NULL) {
      if x != c && HasSlot(full, x) { assert SlotOf(full.layout, x) != SlotOf(full.layout, c); }
    }
  }

  lemma SplitSwaps(mem: Mem, p: Ptr, n: Cell<Tree>, pos: nat, mem1: Mem, mem2: Mem, r: Ptr, q: Ptr)
    requires pos < |n.prefix| && q != NULL && q !in mem && q !in mem2
    requires var tail := n.(prefix := n.prefix[pos + 1..]);
             Swapped(mem, p, Node(n), mem1, p, Node(tail)) && Swapped(mem1, p, Node(tail), mem2, r, Trie.Compact(tail))
    ensures var cell := Cell(0, n.prefix[..pos], Sparse([n.prefix[pos]]), [r]);
            Swapped(mem, p, Node(n), mem2[q := cell], q, Node(Split(n, pos)))
  {
    var tail := n.(prefix := n.prefix[pos + 1..]);
    SwapTwice(mem, p, Node(n), mem1, p, Node(tail), mem2, r, Trie.Compact(tail));
    SwapWrap(mem, p, Node(n), mem2, r, Trie.Compact(tail), q, n.prefix[..pos], n.prefix[pos]);
  }

  lemma RoomSwaps(mem: Mem, p: Ptr, n: Cell<Tree>, c: byte, mem': Mem, q: Ptr)
    requires Represents(mem, p, Node(n)) && LayoutOk(n, Null) && Child(n, c, Null) == Null
    requires LayoutOk(mem[p], NULL) && SameNulls(mem[p].kids, n.kids)
    requires q != NULL && (q == p || q !in mem) && mem' == (mem - {p})[q := AddChild(mem[p], c, NULL, NULL)]
    ensures Swapped(mem, p, Node(n), mem', q, Node(AddChild(n, c, Null, Null)))
  {
    assert Child(mem[p], c, NULL) == NULL;
    forall x: byte
      ensures Child(mem'[q], x, NULL) == Child(mem[p], x, NULL)
      ensures Child(AddChild(n, c, Null, Null), x, Null) == Child(n, x, Null)
    {
      AddChildFinds(mem[p], c, NULL, NULL, x);
      AddChildFinds(n, c, Null, Null, x);
    }
    SwapCell(mem, p, n, mem', q, AddChild(n, c, Null, Null));
  }

  lemma GiveWaySets(keys: set<Ptr>, keys1: set<Ptr>, foot: set<Ptr>, below: set<Ptr>, come: set<Ptr>, p: Ptr)
    requires p in foot && foot <= keys && below == foot - {p}
    requires keys1 == keys - below + come && come !! keys - below
    ensures p !in come && come !! keys - foot && keys1 - {p} == keys - foot + come
  {
  }

  /** A node freed after its only child has been edited, which takes its place. */
  lemma GiveWay(mem: Mem, p: Ptr, t: Tree, q: Ptr, ch: Tree, mem1: Mem, ch': Tree)
    requires Represents(mem, p, t) && p in Foot(mem, p, t) && Swapped(mem, q, ch, mem1, q, ch')
    requires Foot(mem, q, ch) == Foot(mem, p, t) - {p}
    ensures Swapped(mem, p, t, mem1 - {p}, q, ch')
  {
    FootAllocated(mem, p, t);
    GiveWayTo(mem, p, t, Foot(mem, q, ch), q, mem1, ch');
  }

  lemma GiveWayTo(mem: Mem, p: Ptr, t: Tree, below: set<Ptr>, q: Ptr, mem1: Mem, ch': Tree)
    requires Represents(mem, p, t) && Foot(mem, p, t) <= mem.Keys && p in Foot(mem, p, t)
    requires below == Foot(mem, p, t) - {p} && Represents(mem1, q, ch')
    requires mem1.Keys == mem.Keys - below + Foot(mem1, q, ch') && Foot(mem1, q, ch') !! mem.Keys - below
    requires forall a | a in mem && a !in below :: a in mem1 && mem1[a] == mem[a]
    ensures Swapped(mem, p, t, mem1 - {p}, q, ch')
  {
    var foot, come := Foot(mem, p, t), Foot(mem1, q, ch');
    GiveWaySets(mem.Keys, mem1.Keys, foot, below, come, p);
    Frame(mem1, mem1 - {p}, q, ch');
    SwapBySets(mem, p, t, mem1 - {p}, q, ch', foot, come);
  }

  /** The child with the joined prefixes, its parent freed. */
  lemma CompactSwaps(mem: Mem, p: Ptr, n: Cell<Tree>, mem': Mem)
    requires Represents(mem, p, Node(n)) && LayoutOk(n, Null) && Trie.Compact(n) != Node(n)
    requires var q, ch := mem[p].kids[0], n.kids[0].cell;
             q in mem && mem' == mem[q := mem[q].(prefix := n.prefix + [n.layout.keys[0]] + ch.prefix)] - {p}
    ensures Swapped(mem, p, Node(n), mem', mem[p].kids[0], Trie.Compact(n))
  {
    var q, ch := mem[p].kids[0], n.kids[0].cell;
    var ch' := ch.(prefix := n.prefix + [n.layout.keys[0]] + ch.prefix);
    var mem1 := mem[q := mem[q].(prefix := ch'.prefix)];
    OnlyKid(mem, p, n);
    SwapCell(mem, q, ch, mem1, q, ch');
    GiveWay(mem, p, Node(n), q, Node(ch), mem1, Node(ch'));
  }

  lemma OnlyKid(mem: Mem, p: Ptr, n: Cell<Tree>)
    requires Represents(mem, p, Node(n)) && LayoutOk(n, Null) && n.layout.Sparse? && |n.layout.keys| == 1
    ensures var q := mem[p].kids[0];
            Represents(mem, q, n.kids[0]) && Foot(mem, q, n.kids[0]) == Foot(mem, p, Node(n)) - {p}
  {
    var b, q := n.layout.keys[0], mem[p].kids[0];
    assert HasSlot(n, b) && SlotOf(n.layout, b) == 0;
    KidRepresented(mem, p, n, b);
    forall a | a in Foot(mem, p, Node(n)) && a != p ensures a in Foot(mem, q, n.kids[0]) {
      FootKids(mem, p, n, a);
    }
  }
}
