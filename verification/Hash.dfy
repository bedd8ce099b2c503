/** The growing hash table. It is right for every hash function. */
module Hash {
  import opened Bytes
  import opened Wrappers

  const INITIAL_SLOTS: nat := 32

  /** No more slots than this: from here on the table does not grow. */
  const SLOTS_MAX: nat := 0x8000_0000

  /** An item in the table, and the key that has been written into it. */
  datatype Entry = Entry(key: uint32, item: nat)

  type Table = seq<seq<Entry>>

  type HashFn = uint32 -> nat

  function SlotOf(h: HashFn, key: uint32, slots: nat): nat
    requires slots > 0
  {
    h(key) % slots
  }

  predicate InMap(m: map<uint32, nat>, e: Entry) { e.key in m && m[e.key] == e.item }

  /** The table stands for the map `m`: each of its entries is in its own slot, once,
      and nothing else is anywhere. */
  ghost predicate Stands(t: Table, h: HashFn, m: map<uint32, nat>) {
    |t| > 0 && forall i, e: Entry :: 0 <= i < |t| ==>
      multiset(t[i])[e] == if InMap(m, e) && SlotOf(h, e.key, |t|) == i then 1 else 0
  }

  /** In the middle of moving everything from `t` to `u`. */
  ghost predicate Moving(t: Table, u: Table, h: HashFn, m: map<uint32, nat>) {
    && |t| > 0 && |u| > 0
    && (forall e: Entry ::
          multiset(t[SlotOf(h, e.key, |t|)])[e] + multiset(u[SlotOf(h, e.key, |u|)])[e] == if InMap(m, e) then 1 else 0)
    && (forall i, e: Entry :: 0 <= i < |t| && i != SlotOf(h, e.key, |t|) ==> multiset(t[i])[e] == 0)
    && (forall i, e: Entry :: 0 <= i < |u| && i != SlotOf(h, e.key, |u|) ==> multiset(u[i])[e] == 0)
  }

  lemma Inserted(t: Table, h: HashFn, m: map<uint32, nat>, e: Entry)
    requires Stands(t, h, m) && e.key !in m
    ensures var i := SlotOf(h, e.key, |t|); Stands(t[i := t[i] + [e]], h, m[e.key := e.item])
  {
    var i := SlotOf(h, e.key, |t|);
    var u := t[i := t[i] + [e]];
    forall j, x: Entry | 0 <= j < |u|
      ensures multiset(u[j])[x] == if InMap(m[e.key := e.item], x) && SlotOf(h, x.key, |u|) == j then 1 else 0
    {
      assert multiset(t[j])[x] == if InMap(m, x) && SlotOf(h, x.key, |t|) == j then 1 else 0;
    }
  }

  lemma Split(s: seq<Entry>, k: nat)
    requires k < |s|
    ensures multiset(s) == multiset(s[..k] + s[k + 1..]) + multiset{s[k]}
  {
    var x, a, b := s[k], s[..k], s[k + 1..];
    assert s == a + ([x] + b);
    assert multiset(s) == multiset(a) + (multiset{x} + multiset(b));
  }

  lemma Erased(t: Table, h: HashFn, m: map<uint32, nat>, i: nat, k: nat)
    requires Stands(t, h, m) && i < |t| && k < |t[i]|
    ensures InMap(m, t[i][k]) && SlotOf(h, t[i][k].key, |t|) == i
    ensures Stands(t[i := t[i][..k] + t[i][k + 1..]], h, m - {t[i][k].key})
  {
    var e := t[i][k];
    var u := t[i := t[i][..k] + t[i][k + 1..]];
    Split(t[i], k);
    assert multiset(t[i])[e] > 0;
    forall j, x: Entry | 0 <= j < |u|
      ensures multiset(u[j])[x] == if InMap(m - {e.key}, x) && SlotOf(h, x.key, |u|) == j then 1 else 0
    {
      assert multiset(t[j])[x] == if InMap(m, x) && SlotOf(h, x.key, |t|) == j then 1 else 0;
    }
  }

  /** Looking through one slot decides for the whole table. */
  lemma Found(t: Table, h: HashFn, m: map<uint32, nat>, key: uint32)
    requires Stands(t, h, m)
    ensures var s := t[SlotOf(h, key, |t|)];
            && (forall k :: 0 <= k < |s| && s[k].key == key ==> key in m && m[key] == s[k].item)
            && (key in m ==> exists k :: 0 <= k < |s| && s[k] == Entry(key, m[key]))
  {
    var i := SlotOf(h, key, |t|);
    forall k | 0 <= k < |t[i]| && t[i][k].key == key ensures key in m && m[key] == t[i][k].item {
      assert multiset(t[i])[t[i][k]] > 0;
    }
    if key in m {
      assert multiset(t[i])[Entry(key, m[key])] == 1;
    }
  }

  lemma MovingStarts(t: Table, h: HashFn, m: map<uint32, nat>, n: nat)
    requires Stands(t, h, m) && n > 0
    ensures Moving(t, seq(n, _ => []), h, m)
  {
  }

  lemma MovedOne(t: Table, u: Table, h: HashFn, m: map<uint32, nat>, i: nat)
    requires Moving(t, u, h, m) && i < |t| && t[i] != []
    ensures var e := t[i][0];
            var j := SlotOf(h, e.key, |u|);
            Moving(t[i := t[i][1..]], u[j := u[j] + [e]], h, m)
  {
    var e := t[i][0];
    var j := SlotOf(h, e.key, |u|);
    assert t[i] == [e] + t[i][1..];
    assert multiset(t[i]) == multiset{e} + multiset(t[i][1..]);
    assert multiset(u[j] + [e]) == multiset(u[j]) + multiset{e};
    assert multiset(t[i])[e] > 0;
    assert i == SlotOf(h, e.key, |t|);
  }

  lemma MovingEnds(t: Table, u: Table, h: HashFn, m: map<uint32, nat>)
    requires Moving(t, u, h, m) && forall i :: 0 <= i < |t| ==> t[i] == []
    ensures Stands(u, h, m)
  {
    forall i, e: Entry | 0 <= i < |u|
      ensures multiset(u[i])[e] == if InMap(m, e) && SlotOf(h, e.key, |u|) == i then 1 else 0
    {
      assert multiset(t[SlotOf(h, e.key, |t|)])[e] == 0;
    }
  }

  function Size(t: Table): nat { if t == [] then 0 else |t[0]| + Size(t[1..]) }

  lemma {:induction false} SizeReplaced(t: Table, i: nat, s: seq<Entry>)
    requires i < |t|
    ensures Size(t[i := s]) == Size(t) - |t[i]| + |s|
  {
    if i > 0 {
      SizeReplaced(t[1..], i - 1, s);
      assert t[i := s][1..] == t[1..][i - 1 := s];
    } else {
      assert t[i := s][1..] == t[1..];
    }
  }

  lemma {:induction false} NothingIn(t: Table)
    requires forall i :: 0 <= i < |t| ==> t[i] == []
    ensures Size(t) == 0
  {
    if t != [] { NothingIn(t[1..]); }
  }

  lemma StandsForSomething(t: Table, h: HashFn, m: map<uint32, nat>, i: nat)
    requires Stands(t, h, m) && i < |t| && t[i] != []
    ensures |m| > 0
  {
    var e := t[i][0];
    assert e in multiset(t[i]);
    assert InMap(m, e);
    assert e.key in m.Keys;
  }

  lemma Without(m: map<uint32, nat>, key: uint32)
    requires key in m
    ensures |m - {key}| == |m| - 1
  {
    assert m.Keys == (m - {key}).Keys + {key};
  }

  /** The table holds exactly as many items as the map it stands for. */
  lemma {:induction false} SizeIs(t: Table, h: HashFn, m: map<uint32, nat>)
    requires Stands(t, h, m)
    ensures Size(t) == |m|
    decreases |m|
  {
    if |m| == 0 {
      forall i | 0 <= i < |t| ensures t[i] == [] {
        if t[i] != [] { StandsForSomething(t, h, m, i); }
      }
      NothingIn(t);
    } else {
      var key :| key in m;
      var i := SlotOf(h, key, |t|);
      Found(t, h, m, key);
      var k :| 0 <= k < |t[i]| && t[i][k] == Entry(key, m[key]);
      var s := t[i][..k] + t[i][k + 1..];
      Erased(t, h, m, i, k);
      SizeReplaced(t, i, s);
      Without(m, key);
      SizeIs(t[i := s], h, m - {key});
    }
  }
}
