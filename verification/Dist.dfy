/** The distributor: it sends a copy of a message to every pipe that is ready. */
module Dist {
  import opened L = List
  import opened Wire
  import opened C = Chunk

  /** The pipe that gets no copy, if any. */
  datatype Exclude = Nobody | Only(pipe: nat)

  /** Whether the pipe is still in the list after the message: an excluded pipe always
      is, any other one unless sending to it releases it. */
  predicate Stays(item: Item, exclude: Exclude, releases: nat -> bool) {
    exclude == Only(item.owner) || !releases(item.owner)
  }

  function Kept(items: seq<Item>, exclude: Exclude, releases: nat -> bool): seq<Item> {
    if items == [] then []
    else (if Stays(items[0], exclude, releases) then [items[0]] else []) + Kept(items[1..], exclude, releases)
  }

  /** The pipes that get a copy, in the order of the list. */
  function Receivers(items: seq<Item>, exclude: Exclude): seq<nat> {
    if items == [] then []
    else (if exclude == Only(items[0].owner) then [] else [items[0].owner]) + Receivers(items[1..], exclude)
  }

  /** No two items belong to the same pipe. */
  predicate OwnersDistinct(items: seq<Item>) {
    forall i, j :: 0 <= i < j < |items| ==> items[i].owner != items[j].owner
  }

  predicate Ready(items: seq<Item>, pipe: nat) { exists i :: 0 <= i < |items| && items[i].owner == pipe }

  ghost function Copies(items: seq<Item>, exclude: Exclude, pipe: nat): nat {
    if exclude != Only(pipe) && Ready(items, pipe) then 1 else 0
  }

  ghost predicate EachOnce(sent: seq<nat>, items: seq<Item>, exclude: Exclude) {
    forall pipe: nat :: multiset(sent)[pipe] == Copies(items, exclude, pipe)
  }

  /** Exactly one copy for every ready pipe but the excluded one. */
  lemma {:induction false} OneCopyEach(items: seq<Item>, exclude: Exclude, pipe: nat)
    requires OwnersDistinct(items)
    ensures multiset(Receivers(items, exclude))[pipe] == Copies(items, exclude, pipe)
  {
    if items != [] {
      OneCopyEach(items[1..], exclude, pipe);
      ReadyFirst(items, pipe);
      var r, owner := Receivers(items[1..], exclude), items[0].owner;
      assert multiset([owner] + r) == multiset{owner} + multiset(r);
      assert Receivers(items, exclude) == if exclude == Only(owner) then r else [owner] + r;
    }
  }

  lemma ReadyFirst(items: seq<Item>, pipe: nat)
    requires items != []
    ensures Ready(items, pipe) <==> items[0].owner == pipe || Ready(items[1..], pipe)
    ensures OwnersDistinct(items) && items[0].owner == pipe ==> !Ready(items[1..], pipe)
  {
    if i :| 0 <= i < |items| && items[i].owner == pipe {
      assert i > 0 ==> items[1..][i - 1].owner == pipe;
    }
  }

  /** Precisely the releasing pipes are dropped. */
  lemma {:induction false} KeptExact(items: seq<Item>, exclude: Exclude, releases: nat -> bool, item: Item)
    ensures item in Kept(items, exclude, releases)
       <==> item in items && (exclude == Only(item.owner) || !releases(item.owner))
  {
    if items != [] {
      assert items == [items[0]] + items[1..];
      KeptExact(items[1..], exclude, releases, item);
    }
  }

  /** `sub` can be had from `items` by leaving things out. */
  predicate Subsequence(sub: seq<Item>, items: seq<Item>) {
    if sub == [] then true
    else if items == [] then false
    else (sub[0] == items[0] && Subsequence(sub[1..], items[1..])) || Subsequence(sub, items[1..])
  }

  /** The rest keeps its order. */
  lemma {:induction false} KeptInOrder(items: seq<Item>, exclude: Exclude, releases: nat -> bool)
    ensures Subsequence(Kept(items, exclude, releases), items)
  {
    if items != [] {
      KeptInOrder(items[1..], exclude, releases);
      var kept := Kept(items[1..], exclude, releases);
      var all := Kept(items, exclude, releases);
      assert all == [items[0]] + kept ==> all[1..] == kept;
      assert all == [] + kept ==> all == kept;
    }
  }

  lemma {:induction false} KeptDistinct(items: seq<Item>, exclude: Exclude, releases: nat -> bool)
    requires OwnersDistinct(items)
    ensures OwnersDistinct(Kept(items, exclude, releases))
  {
    if items != [] {
      KeptDistinct(items[1..], exclude, releases);
      var kept := Kept(items[1..], exclude, releases);
      forall i | 0 <= i < |kept| ensures kept[i].owner != items[0].owner {
        KeptExact(items[1..], exclude, releases, kept[i]);
      }
    }
  }

  lemma RemovedOwners(items: seq<Item>, k: nat)
    requires k < |items| && OwnersDistinct(items)
    ensures OwnersDistinct(Removed(items, k))
  {
    assert forall i :: 0 <= i < |items| - 1 ==> Removed(items, k)[i] == items[if i < k then i else i + 1];
  }

  /** What a message is, as far as copying it goes: copies are bitwise, and those of a
      chunk share its reference count. */
  datatype Message = Inline(bytes: Buf) | Heap(refcount: Atomic)

  ghost function Counter(msg: Message): set<object> {
    if msg.Heap? then {msg.refcount} else {}
  }

  ghost predicate Alive(msg: Message)
    reads Counter(msg)
  {
    msg.Heap? ==> msg.refcount.n > 0
  }

  method BulkCopyStart(msg: Message, copies: nat)
    modifies Counter(msg)
    ensures msg.Heap? ==> msg.refcount.n == old(msg.refcount.n) + copies
  {
    if msg.Heap? {
      var _ := msg.refcount.Inc(copies);
    }
  }

  /** Drops one reference; the one who drops the last frees the chunk. */
  method Term(msg: Message) returns (freed: bool)
    requires Alive(msg)
    modifies Counter(msg)
    ensures msg.Heap? ==> msg.refcount.n == old(msg.refcount.n) - 1 && (freed <==> msg.refcount.n == 0)
    ensures msg.Inline? ==> !freed
  {
    freed := false;
    if msg.Heap? {
      var was := msg.refcount.Dec(1);
      freed := was <= 1;
    }
  }

  class Dist {
    var count: nat
    const pipes: L.List

    ghost predicate Linked()
      reads this, pipes, pipes.repr
    {
      pipes.Valid() && count == |pipes.items|
    }

    ghost predicate Valid()
      reads this, pipes, pipes.repr
    {
      Linked() && OwnersDistinct(pipes.items)
    }

    constructor ()
      ensures Valid() && pipes.items == [] && fresh(pipes)
    {
      count := 0;
      pipes := new L.List();
    }

    /** The pipe can be written to again. The item is the pipe's own, so that no other
        one in the list belongs to it. */
    method Out(data: Item)
      requires Valid() && !data.IsInList() && !Ready(pipes.items, data.owner)
      modifies this, pipes, data, pipes.repr
      ensures Valid() && pipes.items == old(pipes.items) + [data] && pipes.repr == old(pipes.repr) + {data}
    {
      count := count + 1;
      pipes.Insert(data, null, |pipes.items|);
      assert pipes.items == old(pipes.items) + [data];
    }

    /** The pipe is gone. It may or may not have been in the list. */
    method Rm(data: Item, ghost k: nat)
      requires Valid() && (data.IsInList() ==> k < |pipes.items| && pipes.items[k] == data)
      modifies this, pipes, pipes.repr
      ensures Valid() && !data.IsInList()
      ensures pipes.items == if old(data.IsInList()) then Removed(old(pipes.items), k) else old(pipes.items)
    {
      if data.IsInList() {
        RemovedOwners(pipes.items, k);
        count := count - 1;
        var _ := pipes.Erase(data, k);
      }
    }

    /** Goes on behind the item `it`, which is dropped if it has been released. */
    method GoOn(it: Item, release: bool, ghost kept: seq<Item>, ghost rest: seq<Item>) returns (next: Item?)
      requires Linked() && rest != [] && pipes.items == kept + rest && it == rest[0]
      modifies this, pipes, pipes.repr
      ensures Linked() && pipes.repr == old(pipes.repr)
      ensures pipes.items == (if release then kept else kept + [it]) + rest[1..] && next == Nth(rest[1..], 0)
    {
      ghost var k := |kept|;
      if release {
        count := count - 1;
        next := pipes.Erase(it, k);
        assert Removed(kept + rest, k) == kept + rest[1..];
      } else {
        next := pipes.Next(it, k);
      }
    }

    /** What `Send` does for one pipe: `kept` has been dealt with, `rest` is to come. */
    method SendTo(it: Item, msg: Message, exclude: Exclude, releases: nat -> bool, sent: seq<nat>,
                  ghost kept: seq<Item>, ghost rest: seq<Item>)
      returns (all: seq<nat>, next: Item?, ghost keep: seq<Item>, ghost more: seq<Item>)
      requires Linked() && rest != [] && pipes.items == kept + rest && it == rest[0] && Alive(msg)
      modifies this, pipes, pipes.repr, Counter(msg)
      ensures Linked() && pipes.repr == old(pipes.repr)
      ensures |more| == |rest| - 1 && pipes.items == keep + more && next == Nth(more, 0)
      ensures keep + Kept(more, exclude, releases) == kept + Kept(rest, exclude, releases)
      ensures all + Receivers(more, exclude) == sent + Receivers(rest, exclude)
      ensures msg.Heap? ==> msg.refcount.n == old(msg.refcount.n) + |all| - |sent| - 1
    {
      Further(kept, rest, exclude, releases);
      FurtherSent(sent, rest, exclude);
      var copy := msg;
      var release := false;
      all := sent;
      if exclude == Only(it.owner) {
        var _ := Term(copy);
      } else {
        all := sent + [it.owner];
        release := releases(it.owner);
      }
      keep := if release then kept else kept + [it];
      more := rest[1..];
      next := GoOn(it, release, kept, rest);
    }

    /** `releases` says for which pipes the transport releases the pipe. The message is
        used up: a chunk keeps one reference for every copy sent. */
    method Send(msg: Message, exclude: Exclude, releases: nat -> bool) returns (sent: seq<nat>, freed: bool)
      requires Valid() && Alive(msg)
      modifies this, pipes, pipes.repr, Counter(msg)
      ensures Valid() && pipes.items == Kept(old(pipes.items), exclude, releases)
      ensures sent == Receivers(old(pipes.items), exclude) && EachOnce(sent, old(pipes.items), exclude)
      ensures msg.Heap? ==> msg.refcount.n == old(msg.refcount.n) + |sent| - 1 && (freed <==> msg.refcount.n == 0)
    {
      sent := [];
      ghost var items := pipes.items;
      KeptDistinct(items, exclude, releases);
      forall pipe: nat ensures multiset(Receivers(items, exclude))[pipe] == Copies(items, exclude, pipe) {
        OneCopyEach(items, exclude, pipe);
      }
      if count == 0 {
        freed := Term(msg);
        return;
      }
      BulkCopyStart(msg, count);
      sent := SendAll(msg, exclude, releases);
      freed := Term(msg);
    }

    /** The loop of `Send`, with a reference for every pipe. */
    method SendAll(msg: Message, exclude: Exclude, releases: nat -> bool) returns (sent: seq<nat>)
      requires Linked() && (msg.Heap? ==> msg.refcount.n > count)
      modifies this, pipes, pipes.repr, Counter(msg)
      ensures Linked() && pipes.items == Kept(old(pipes.items), exclude, releases)
      ensures sent == Receivers(old(pipes.items), exclude)
      ensures msg.Heap? ==> msg.refcount.n == old(msg.refcount.n) - old(count) + |sent|
    {
      sent := [];
      ghost var kept: seq<Item>, rest := [], pipes.items;
      ghost var finalKept, finalSent := Kept(rest, exclude, releases), Receivers(rest, exclude);
      var it := pipes.Begin();
      while it != null
        invariant Linked() && pipes.repr == old(pipes.repr) && pipes.items == kept + rest && it == Nth(rest, 0)
        invariant kept + Kept(rest, exclude, releases) == finalKept
        invariant sent + Receivers(rest, exclude) == finalSent
        invariant msg.Heap? ==> msg.refcount.n == old(msg.refcount.n - count) + |sent| + |rest|
        decreases |rest|
      {
        sent, it, kept, rest := SendTo(it, msg, exclude, releases, sent, kept, rest);
      }
    }
  }

  lemma Further(kept: seq<Item>, rest: seq<Item>, exclude: Exclude, releases: nat -> bool)
    requires rest != []
    ensures kept + Kept(rest, exclude, releases) ==
            (if Stays(rest[0], exclude, releases) then kept + [rest[0]] else kept) + Kept(rest[1..], exclude, releases)
  {
  }

  lemma FurtherSent(sent: seq<nat>, rest: seq<Item>, exclude: Exclude)
    requires rest != []
    ensures sent + Receivers(rest, exclude) ==
            (if exclude == Only(rest[0].owner) then sent else sent + [rest[0].owner]) + Receivers(rest[1..], exclude)
  {
  }
}
