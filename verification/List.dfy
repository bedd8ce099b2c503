/** The intrusive doubly linked list: an item carries its own links. */
module List {
  /** A link of an item that is in no list has a value of its own, which is not null. */
  datatype Link = NotInList | At(item: Item?)

  /** `owner` names the structure the item is embedded in. */
  class Item {
    const owner: nat
    var next: Link
    var prev: Link

    constructor (owner: nat)
      ensures !IsInList() && this.owner == owner
    {
      this.owner := owner;
      next, prev := NotInList, NotInList;
    }

    predicate IsInList()
      reads this
    {
      prev != NotInList
    }
  }

  function Nth(items: seq<Item>, i: int): Item? {
    if 0 <= i < |items| then items[i] else null
  }

  predicate Distinct(items: seq<Item>) {
    forall i, j :: 0 <= i < j < |items| ==> items[i] != items[j]
  }

  predicate LinkedAt(items: seq<Item>, i: nat)
    requires i < |items|
    reads items[i]
  {
    items[i].next == At(Nth(items, i + 1)) && items[i].prev == At(Nth(items, i - 1))
  }

  function Inserted(items: seq<Item>, item: Item, k: nat): seq<Item>
    requires k <= |items|
  {
    items[..k] + [item] + items[k..]
  }

  function Removed(items: seq<Item>, k: nat): seq<Item>
    requires k < |items|
  {
    items[..k] + items[k + 1..]
  }

  lemma InsertedNth(items: seq<Item>, item: Item, k: nat, i: int)
    requires k <= |items|
    ensures Nth(Inserted(items, item, k), i)
         == if i < k then Nth(items, i) else if i == k then item else Nth(items, i - 1)
  {
  }

  /** The neighbours of each item after the insertion. */
  lemma InsertedNext(items: seq<Item>, item: Item, k: nat, i: nat)
    requires k <= |items| && i <= |items|
    ensures var r := Inserted(items, item, k);
            && r[i] == (if i < k then items[i] else if i == k then item else items[i - 1])
            && Nth(r, i + 1) == (if i + 1 < k then Nth(items, i + 1) else if i + 1 == k then item else Nth(items, i))
            && Nth(r, i - 1) == (if i <= k then Nth(items, i - 1) else if i == k + 1 then item else Nth(items, i - 2))
  {
    InsertedNth(items, item, k, i - 1);
    InsertedNth(items, item, k, i + 1);
  }

  lemma RemovedNth(items: seq<Item>, k: nat, i: int)
    requires k < |items|
    ensures Nth(Removed(items, k), i) == if i < k then Nth(items, i) else Nth(items, i + 1)
  {
  }

  lemma RemovedDistinct(items: seq<Item>, k: nat)
    requires k < |items| && Distinct(items)
    ensures Distinct(Removed(items, k)) && items[k] !in Removed(items, k)
  {
    var r := Removed(items, k);
    assert forall i :: 0 <= i < |r| ==> r[i] == if i < k then items[i] else items[i + 1];
  }

  /** `items` is the sequence the links stand for, `repr` all the items that have been
      in the list. */
  class List {
    var first: Item?
    var last: Item?
    ghost var items: seq<Item>
    ghost var repr: set<Item>

    ghost predicate Valid()
      reads this, repr
    {
      && (forall i :: 0 <= i < |items| ==> items[i] in repr)
      && first == Nth(items, 0) && last == Nth(items, |items| - 1)
      && forall i :: 0 <= i < |items| ==> LinkedAt(items, i)
    }

    /** An item is in the list at most once. */
    lemma ItemsDistinct()
      requires Valid()
      ensures Distinct(items)
    {
      forall i, j | 0 <= i < j < |items| ensures items[i] != items[j] { NotTwice(i, j); }
    }

    lemma NotTwice(i: nat, j: nat)
      requires Valid() && i < j < |items|
      ensures items[i] != items[j]
      decreases |items| - j
    {
      assert LinkedAt(items, i) && LinkedAt(items, j);
      if j + 1 < |items| { NotTwice(i + 1, j + 1); }
    }

    lemma NotAmong(item: Item)
      requires Valid() && !item.IsInList()
      ensures item !in items
    {
      forall j | 0 <= j < |items| ensures items[j] != item { assert LinkedAt(items, j); }
    }

    constructor ()
      ensures Valid() && items == [] && repr == {}
    {
      first, last, items, repr := null, null, [], {};
    }

    method Empty() returns (empty: bool)
      requires Valid()
      ensures empty <==> items == []
    {
      empty := first == null;
    }

    method Begin() returns (it: Item?)
      requires Valid()
      ensures it == Nth(items, 0)
    {
      it := first;
    }

    /** The item after `it`, or null at the end. */
    method Next(it: Item, ghost i: nat) returns (r: Item?)
      requires Valid() && i < |items| && items[i] == it
      ensures r == Nth(items, i + 1)
    {
      assert LinkedAt(items, i);
      r := it.next.item;
    }

    /** The item before `it`; before the end is the last one. */
    method Prev(it: Item?, ghost i: nat) returns (r: Item?)
      requires Valid() && i <= |items| && Nth(items, i) == it
      ensures r == Nth(items, i - 1)
    {
      assert i < |items| ==> LinkedAt(items, i);
      r := if it == null then last else it.prev.item;
    }

    /** Inserts `item` before `it`, which is at `k`, or at the end. */
    method Insert(item: Item, it: Item?, ghost k: nat)
      requires Valid() && k <= |items| && it == Nth(items, k)
      requires !item.IsInList()
      modifies this, item, repr
      ensures Valid() && items == Inserted(old(items), item, k) && repr == old(repr) + {item}
    {
      ghost var was := items;
      ItemsDistinct();
      NotAmong(item);
      var before: Item? := Prev(it, k);
      item.prev := At(before);
      item.next := At(it);
      if before != null {
        before.next := At(item);
      }
      if it != null {
        it.prev := At(item);
      }
      if first == null || first == it {
        first := item;
      }
      if it == null {
        last := item;
      }
      items, repr := Inserted(was, item, k), repr + {item};
      InsertedNth(was, item, k, 0);
      InsertedNth(was, item, k, |was|);
      forall i | 0 <= i < |items| ensures LinkedAt(items, i) {
        InsertedNext(was, item, k, i);
        assert i < k ==> old(LinkedAt(was, i));
        assert i > k ==> old(LinkedAt(was, i - 1));
      }
    }

    /** Removes `item`, which is at `k`; the result is the item that followed. */
    method Erase(item: Item, ghost k: nat) returns (next: Item?)
      requires Valid() && k < |items| && items[k] == item
      modifies this, repr
      ensures Valid() && items == Removed(old(items), k) && repr == old(repr) && next == Nth(items, k)
      ensures !item.IsInList() && item !in items
    {
      ghost var was := items;
      ItemsDistinct();
      RemovedDistinct(was, k);
      assert LinkedAt(was, k);
      var before := item.prev.item;
      next := item.next.item;
      if before != null {
        before.next := At(next);
      } else {
        first := next;
      }
      if next != null {
        next.prev := At(before);
      } else {
        last := before;
      }
      item.prev := NotInList;
      item.next := NotInList;
      items := Removed(was, k);
      RemovedNth(was, k, k);
      RemovedNth(was, k, 0);
      RemovedNth(was, k, |was| - 2);
      forall i | 0 <= i < |items| ensures LinkedAt(items, i) {
        RemovedNth(was, k, i - 1);
        RemovedNth(was, k, i);
        RemovedNth(was, k, i + 1);
        assert i < k ==> old(LinkedAt(was, i));
        assert i >= k ==> old(LinkedAt(was, i + 1));
      }
    }
  }
}
