/** The table as an object: an array of lists, replaced by one of twice the size when
    it is more than half full. */
module HashTable {
  import opened Bytes
  import opened Hash
  import opened Wrappers

  class HashTable {
    var slots: nat
    var items: nat
    var lists: array<seq<Entry>>
    const h: HashFn
    ghost var contents: map<uint32, nat>

    ghost predicate Valid()
      reads this, lists
    {
      && slots == lists.Length && INITIAL_SLOTS <= slots < U32
      && Stands(lists[..], h, contents) && items == |contents|
      && (slots < SLOTS_MAX ==> items * 2 <= slots)
    }

    constructor (h: HashFn)
      ensures Valid() && contents == map[] && fresh(lists)
    {
      this.h := h;
      slots, items, contents := INITIAL_SLOTS, 0, map[];
      lists := new seq<Entry>[INITIAL_SLOTS](_ => []);
    }

    /** Moves the first item of an old list to the end of the list that is its own now. */
    method MoveOne(oldLists: array<seq<Entry>>, i: nat)
      requires oldLists != lists && i < oldLists.Length && oldLists[i] != [] && slots == lists.Length
      requires Moving(oldLists[..], lists[..], h, contents)
      modifies lists, oldLists
      ensures oldLists[..] == old(oldLists[..])[i := old(oldLists[i][1..])]
      ensures Moving(oldLists[..], lists[..], h, contents)
    {
      MovedOne(oldLists[..], lists[..], h, contents, i);
      var hitm := oldLists[i][0];
      oldLists[i] := oldLists[i][1..];
      var newSlot := h(hitm.key) % slots;
      lists[newSlot] := lists[newSlot] + [hitm];
    }

    /** Empties the old list `i`. */
    method MoveList(oldLists: array<seq<Entry>>, i: nat)
      requires oldLists != lists && i < oldLists.Length && slots == lists.Length
      requires Moving(oldLists[..], lists[..], h, contents)
      modifies lists, oldLists
      ensures oldLists[..] == old(oldLists[..])[i := []]
      ensures Moving(oldLists[..], lists[..], h, contents)
    {
      while oldLists[i] != []
        invariant oldLists[..] == old(oldLists[..])[i := oldLists[i]]
        invariant Moving(oldLists[..], lists[..], h, contents)
        decreases |oldLists[i]|
      {
        MoveOne(oldLists, i);
      }
    }

    /** Doubles the number of slots; every item moves to the slot that is its own now. */
    method Rehash()
      requires slots == lists.Length && 0 < slots < SLOTS_MAX && Stands(lists[..], h, contents)
      modifies this, lists
      ensures fresh(lists) && slots == lists.Length == 2 * old(slots) && Stands(lists[..], h, contents)
      ensures contents == old(contents) && items == old(items)
    {
      var oldSlots, oldLists := slots, lists;
      slots := slots * 2;
      lists := new seq<Entry>[slots](_ => []);
      MovingStarts(oldLists[..], h, contents, slots);
      assert lists[..] == seq(slots, _ => []);
      for i := 0 to oldSlots
        invariant oldLists.Length == oldSlots && lists.Length == slots && slots == 2 * oldSlots && fresh(lists)
        invariant Moving(oldLists[..], lists[..], h, contents) && contents == old(contents) && items == old(items)
        invariant forall j :: 0 <= j < i ==> oldLists[j] == []
      {
        ghost var was := oldLists[..];
        MoveList(oldLists, i);
        assert forall j :: 0 <= j < i ==> oldLists[j] == oldLists[..][j] == was[j];
        assert oldLists[i] == oldLists[..][i];
      }
      MovingEnds(oldLists[..], lists[..], h, contents);
    }

    /** The key must not be in the table. */
    method Insert(key: uint32, item: nat)
      requires Valid() && key !in contents
      modifies this, lists
      ensures Valid() && contents == old(contents)[key := item]
      ensures lists == old(lists) || fresh(lists)
      ensures slots
           == if old(slots) < SLOTS_MAX && (old(items) + 1) * 2 > old(slots) then 2 * old(slots) else old(slots)
    {
      var i := h(key) % slots;
      Found(lists[..], h, contents, key);
      for k := 0 to |lists[i]|
      {
        assert lists[i][k].key != key;
      }
      Inserted(lists[..], h, contents, Entry(key, item));
      Without(contents[key := item], key);
      assert contents[key := item] - {key} == contents;
      lists[i] := lists[i] + [Entry(key, item)];
      contents := contents[key := item];
      items := items + 1;
      if items * 2 > slots && slots < SLOTS_MAX {
        Rehash();
      }
    }

    /** The item must be in the table. */
    method Erase(e: Entry)
      requires Valid() && InMap(contents, e)
      modifies this, lists
      ensures Valid() && contents == old(contents) - {e.key} && lists == old(lists)
    {
      var slot := h(e.key) % slots;
      Found(lists[..], h, contents, e.key);
      var k := 0;
      while lists[slot][k] != e
        invariant 0 <= k < |lists[slot]| && exists j :: k <= j < |lists[slot]| && lists[slot][j] == e
        decreases |lists[slot]| - k
      {
        k := k + 1;
      }
      Erased(lists[..], h, contents, slot, k);
      lists[slot] := lists[slot][..k] + lists[slot][k + 1..];
      Without(contents, e.key);
      contents := contents - {e.key};
      items := items - 1;
    }

    method Get(key: uint32) returns (found: Option<nat>)
      requires Valid()
      ensures found == if key in contents then Some(contents[key]) else None
    {
      var slot := h(key) % slots;
      Found(lists[..], h, contents, key);
      for k := 0 to |lists[slot]|
        invariant forall j :: 0 <= j < k ==> lists[slot][j].key != key
      {
        if lists[slot][k].key == key {
          return Some(lists[slot][k].item);
        }
      }
      found := None;
    }
  }
}
