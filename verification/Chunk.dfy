/** Message memory: one allocation holds a header, an optional empty space, the size of
    that space, a tag, and the bytes of the message. A pointer to the message is a
    position in the allocation, and the header is found by looking before it. */
module Chunk {
  import opened Bytes
  import opened Wire

  const TAG: uint32 := 0xdeadcafe
  const TAG_DEALLOCATED: uint32 := 0xbeadfeed

  /** The size of the header structure. */
  const HEADER := 24

  const PREFIX := HEADER + 8
  const SIZE_MAX := 0xFFFF_FFFF_FFFF_FFFF
  const ENOMEM := 12
  const EINVAL := 22

  /** The word that starts at `i`. */
  function WordAt(mem: Buf, i: nat): uint32
    requires i + 4 <= |mem|
  {
    Getl(mem[i..])
  }

  function WithWord(mem: Buf, i: nat, v: uint32): (r: Buf)
    requires i + 4 <= |mem|
    ensures |r| == |mem|
  {
    mem[..i] + Putl(v) + mem[i + 4..]
  }

  lemma WrittenWord(mem: Buf, i: nat, v: uint32)
    requires i + 4 <= |mem|
    ensures WordAt(WithWord(mem, i, v), i) == v
  {
    assert WithWord(mem, i, v)[i..] == Putl(v) + mem[i + 4..];
    GetlPutl(v, mem[i + 4..]);
  }

  lemma OtherWord(mem: Buf, i: nat, v: uint32, j: nat)
    requires i + 4 <= |mem| && j + 4 <= |mem| && (j + 4 <= i || i + 4 <= j)
    ensures WordAt(WithWord(mem, i, v), j) == WordAt(mem, j)
  {
    assert forall k :: j <= k < j + 4 ==> WithWord(mem, i, v)[k] == mem[k];
  }

  /** Where `nn_chunk_getptr` looks for the header. */
  function Base(mem: Buf, p: nat): int
    requires 8 <= p <= |mem|
  {
    p - 8 - WordAt(mem, p - 8) - HEADER
  }

  /** `p` points to a message: the tag is in place and the header is at the start. */
  predicate Resolves(mem: Buf, p: nat) {
    PREFIX <= p <= |mem| && WordAt(mem, p - 4) == TAG && Base(mem, p) == 0
  }

  /** The memory after trimming `n` bytes. */
  function Trimmed(mem: Buf, p: nat, n: nat): (r: Buf)
    requires PREFIX <= p && p + n <= |mem| && p + n - PREFIX < U32
  {
    WithWord(WithWord(mem, p + n - 4, TAG), p + n - 8, p + n - PREFIX)
  }

  /** The tag and the offset may well overwrite trimmed bytes, but nothing of what is
      left, and the header is found again. */
  lemma TrimmedResolves(mem: Buf, p: nat, n: nat)
    requires PREFIX <= p && p + n <= |mem| && p + n - PREFIX < U32
    ensures Resolves(Trimmed(mem, p, n), p + n)
    ensures Trimmed(mem, p, n)[p + n..] == mem[p + n..]
  {
    var m1 := WithWord(mem, p + n - 4, TAG);
    WrittenWord(mem, p + n - 4, TAG);
    WrittenWord(m1, p + n - 8, p + n - PREFIX);
    OtherWord(m1, p + n - 8, p + n - PREFIX, p + n - 4);
  }

  lemma Suffix(mem: Buf, p: nat, n: nat)
    requires p + n <= |mem|
    ensures mem[p..][n..] == mem[p + n..]
  {
  }

  function Sum(ns: seq<nat>): nat { if ns == [] then 0 else ns[0] + Sum(ns[1..]) }

  function TrimmedAll(mem: Buf, p: nat, ns: seq<nat>): (r: Buf)
    requires PREFIX <= p && p + Sum(ns) <= |mem| && p + Sum(ns) - PREFIX < U32
    ensures |r| == |mem|
    decreases |ns|
  {
    if ns == [] then mem else TrimmedAll(Trimmed(mem, p, ns[0]), p + ns[0], ns[1..])
  }

  lemma {:induction false} TrimmedAllPoints(mem: Buf, p: nat, ns: seq<nat>)
    requires Resolves(mem, p) && p + Sum(ns) <= |mem| && p + Sum(ns) - PREFIX < U32
    ensures Resolves(TrimmedAll(mem, p, ns), p + Sum(ns))
    decreases |ns|
  {
    if ns != [] {
      TrimmedResolves(mem, p, ns[0]);
      TrimmedAllPoints(Trimmed(mem, p, ns[0]), p + ns[0], ns[1..]);
    }
  }

  lemma LaterSuffix(a: Buf, b: Buf, i: nat, j: nat)
    requires i <= j <= |a| && |a| == |b| && a[i..] == b[i..]
    ensures a[j..] == b[j..]
  {
    assert a[j..] == a[i..][j - i..] && b[j..] == b[i..][j - i..];
  }

  lemma {:induction false} TrimmedAllRest(mem: Buf, p: nat, ns: seq<nat>)
    requires PREFIX <= p && p + Sum(ns) <= |mem| && p + Sum(ns) - PREFIX < U32
    ensures TrimmedAll(mem, p, ns)[p + Sum(ns)..] == mem[p + Sum(ns)..]
    decreases |ns|
  {
    if ns != [] {
      TrimmedResolves(mem, p, ns[0]);
      TrimmedAllRest(Trimmed(mem, p, ns[0]), p + ns[0], ns[1..]);
      LaterSuffix(Trimmed(mem, p, ns[0]), mem, p + ns[0], p + Sum(ns));
    }
  }

  /** However often a chunk is trimmed, the last pointer resolves, and what it points
      to is the rest of the first message. */
  lemma TrimmedAllResolves(mem: Buf, p: nat, ns: seq<nat>)
    requires Resolves(mem, p) && p + Sum(ns) <= |mem| && p + Sum(ns) - PREFIX < U32
    ensures Resolves(TrimmedAll(mem, p, ns), p + Sum(ns))
    ensures TrimmedAll(mem, p, ns)[p + Sum(ns)..] == mem[p..][Sum(ns)..]
  {
    TrimmedAllPoints(mem, p, ns);
    TrimmedAllRest(mem, p, ns);
    Suffix(mem, p, Sum(ns));
  }

  /** A counter; both operations return the value from before. */
  class Atomic {
    var n: nat

    constructor (n: nat)
      ensures this.n == n
    {
      this.n := n;
    }

    method Inc(k: nat) returns (was: nat)
      modifies this
      ensures was == old(n) && n == was + k
    {
      was := n;
      n := n + k;
    }

    method Dec(k: nat) returns (was: nat)
      requires k <= n
      modifies this
      ensures was == old(n) && n == was - k
    {
      was := n;
      n := n - k;
    }
  }

  /** The header's fields, and the whole allocation as bytes. */
  class Chunk {
    const refcount: Atomic
    var size: nat
    var freed: bool
    const mem: array<byte>

    /** `p` is the pointer of the chunk's owner. */
    ghost predicate Points(p: nat)
      reads this, mem, refcount
    {
      !freed && refcount.n > 0 && Resolves(mem[..], p) && size == mem.Length - p
    }

    ghost function Data(p: nat): Buf
      requires p <= mem.Length
      reads mem
    {
      mem[p..]
    }

    constructor (size: nat)
      ensures fresh(mem) && fresh(refcount) && mem.Length == PREFIX + size && Points(PREFIX) && refcount.n == 1
    {
      var m := new byte[PREFIX + size];
      mem := m;
      this.size := size;
      refcount := new Atomic(1);
      freed := false;
      new;
      PutWord(HEADER, 0);
      PutWord(HEADER + 4, TAG);
      WrittenWord(mem[..], HEADER + 4, TAG);
      assert WordAt(mem[..], HEADER + 4) == TAG;
    }

    method PutWord(i: nat, v: uint32)
      requires i + 4 <= mem.Length
      modifies mem
      ensures mem[..] == WithWord(old(mem[..]), i, v)
    {
      var b := Putl(v);
      mem[i], mem[i + 1], mem[i + 2], mem[i + 3] := b[0], b[1], b[2], b[3];
    }

    method Word(i: nat) returns (v: uint32)
      requires i + 4 <= mem.Length
      ensures v == WordAt(mem[..], i)
    {
      var b := mem[i..i + 4];
      v := Getl(b);
      assert mem[..][i..][..4] == b;
    }

    /** Finds the header for a message pointer. */
    method GetPtr(p: nat) returns (base: nat)
      requires Points(p)
      ensures base == 0
    {
      var tag := Word(p - 4);
      assert tag == TAG;
      var off := Word(p - 8);
      base := p - 8 - off - HEADER;
    }

    method Size(p: nat) returns (n: nat)
      requires Points(p)
      ensures n == |Data(p)|
    {
      var _ := GetPtr(p);
      n := size;
    }

    /** Cuts `n` bytes off the front of the message. */
    method Trim(p: nat, n: nat) returns (q: nat)
      requires Points(p) && n <= |Data(p)| && p + n - PREFIX < U32 - 1
      modifies this, mem
      ensures q == p + n && Points(q) && refcount.n == old(refcount.n)
      ensures mem[..] == Trimmed(old(mem[..]), p, n)
      ensures Data(q) == old(Data(p))[n..]
      ensures size + (q - PREFIX) == old(size) + (p - PREFIX)
    {
      ghost var was := mem[..];
      assert was[p..] == Data(p);
      var base := GetPtr(p);
      q := p + n;
      PutWord(q - 4, TAG);
      var emptySpace := q - base - PREFIX;
      PutWord(q - 8, emptySpace);
      size := size - n;
      TrimmedResolves(was, p, n);
      Suffix(was, p, n);
      assert Data(q) == mem[..][q..];
    }

    /** Fills in the message. */
    method Fill(p: nat, bytes: Buf)
      requires Points(p) && |bytes| == |Data(p)|
      modifies mem
      ensures Points(p) && Data(p) == bytes
    {
      ghost var was := mem[..];
      forall i | 0 <= i < |bytes| {
        mem[p + i] := bytes[i];
      }
      assert Data(p) == bytes;
      assert mem[..] == was[..p] + bytes;
      assert mem[..][p - 4..][..4] == was[p - 4..][..4] && mem[..][p - 8..][..4] == was[p - 8..][..4];
    }

    method AddRef(p: nat, n: nat)
      requires Points(p)
      modifies refcount
      ensures refcount.n == old(refcount.n) + n && Points(p)
    {
      var _ := GetPtr(p);
      var _ := refcount.Inc(n);
    }

    /** Drops one reference. The last one marks the chunk, so that no pointer resolves
        any more, and deallocates it. */
    method Free(p: nat)
      requires Points(p)
      modifies this, mem, refcount
      ensures refcount.n == old(refcount.n) - 1
      ensures old(refcount.n) > 1 ==> Points(p) && mem[..] == old(mem[..])
      ensures old(refcount.n) == 1 ==> freed && !Resolves(mem[..], p)
    {
      var _ := GetPtr(p);
      var was := refcount.Dec(1);
      if was <= 1 {
        WrittenWord(mem[..], p - 4, TAG_DEALLOCATED);
        PutWord(p - 4, TAG_DEALLOCATED);
        freed := true;
      }
    }
  }

  /** `nn_chunk_alloc`: the total size must not wrap, and the only type is 0. */
  method Alloc(size: nat, kind: int) returns (c: Chunk?, p: nat, rc: int)
    requires size <= SIZE_MAX
    ensures rc == if PREFIX + size > SIZE_MAX then -ENOMEM else if kind != 0 then -EINVAL else 0
    ensures rc == 0 <==> c != null
    ensures c != null ==> fresh(c) && fresh(c.mem) && fresh(c.refcount)
    ensures c != null ==> c.Points(p) && c.refcount.n == 1 && |c.Data(p)| == size
  {
    c, p := null, 0;
    var total := (PREFIX + size) % (SIZE_MAX + 1);
    if total < PREFIX {
      return c, p, -ENOMEM;
    }
    if kind != 0 {
      return c, p, -EINVAL;
    }
    c := new Chunk(size);
    return c, PREFIX, 0;
  }

  // ----- a second holder of a pointer that is trimmed -----

  lemma WordIs(mem: Buf, i: nat, v: uint32)
    requires i + 4 <= |mem|
    ensures WordAt(mem, i) == v <==> mem[i..i + 4] == Putl(v)
  {
    assert mem[i..][..4] == mem[i..i + 4];
    PutlGetl(mem[i..]);
    if mem[i..i + 4] == Putl(v) { PutlInjective(WordAt(mem, i), v); }
  }

  /** What a cut leaves: the bytes up to the two words, the words, and the rest. */
  lemma TrimmedBytes(mem: Buf, p: nat, n: nat)
    requires PREFIX <= p && p + n <= |mem| && p + n - PREFIX < U32
    ensures Trimmed(mem, p, n) == mem[..p + n - 8] + Putl(p + n - PREFIX) + Putl(TAG) + mem[p + n..]
  {
    var q := p + n;
    var m1 := WithWord(mem, q - 4, TAG);
    assert m1[..q - 8] == mem[..q - 8] && m1[q - 4..] == Putl(TAG) + mem[q..];
  }

  /** The offset `off` written over the old tag happens to complete it. */
  predicate Completes(off: uint32, n: nat) {
    match n
    case 4 => off == TAG
    case 5 => off / 0x100 == TAG % 0x100_0000
    case 6 => off / 0x1_0000 == TAG % 0x1_0000
    case 7 => off / 0x100_0000 == TAG % 0x100
    case _ => false
  }

  lemma CompletesBytes(off: uint32, n: nat)
    requires 4 <= n < 8
    ensures Completes(off, n) <==> Putl(off)[..8 - n] == Putl(TAG)[n - 4..]
  {
    assert Putl(TAG) == [0xde, 0xad, 0xca, 0xfe];
    var b := Putl(off);
    GetlPutl(off, []);
    assert b + [] == b;
    match n
    case 4 => if b[..4] == Putl(TAG)[0..] { assert b == Putl(TAG); PutlInjective(off, TAG); }
    case 5 => assert off / 0x100 == b[0] as int * 0x1_0000 + b[1] as int * 0x100 + b[2] as int;
    case 6 => assert off / 0x1_0000 == b[0] as int * 0x100 + b[1] as int;
    case 7 =>
  }

  /** The same, byte by byte. */
  ghost predicate HasWords(r: Buf, mem: Buf, q: nat, off: uint32)
    requires 8 <= q <= |r| == |mem|
  {
    && r[q - 8..q - 4] == Putl(off) && r[q - 4..q] == Putl(TAG)
    && forall k :: 0 <= k < q - 8 ==> r[k] == mem[k]
  }

  lemma TrimmedWords(mem: Buf, p: nat, n: nat)
    requires PREFIX <= p && p + n <= |mem| && p + n - PREFIX < U32
    ensures |Trimmed(mem, p, n)| == |mem| && HasWords(Trimmed(mem, p, n), mem, p + n, p + n - PREFIX)
  {
    TrimmedBytes(mem, p, n);
  }

  lemma TagShort(r: Buf, mem: Buf, p: nat, n: nat, off: uint32)
    requires PREFIX <= p && p + n <= |r| == |mem| && 0 < n < 4 && HasWords(r, mem, p + n, off)
    ensures !Resolves(r, p)
  {
    WordIs(r, p - 4, TAG);
    assert Putl(TAG) == [0xde, 0xad, 0xca, 0xfe];
    assert r[p - 4..p][n] == r[p - 4 + n] == r[p + n - 4..p + n][0];
  }

  lemma TagOverlap(r: Buf, mem: Buf, p: nat, n: nat, off: uint32)
    requires Resolves(mem, p) && p + n <= |r| == |mem| && 4 <= n < 8 && HasWords(r, mem, p + n, off)
    ensures Resolves(r, p) <==> Completes(off, n)
  {
    CompletesBytes(off, n);
    WordIs(mem, p - 4, TAG);
    WordIs(r, p - 4, TAG);
    SameWord(mem, r, p - 8);
    var k, tag := n - 4, Putl(TAG);
    assert r[p - 4..p] == tag[..k] + Putl(off)[..4 - k] by { OverlappedTag(r, mem, p, n, off); }
    assert tag == tag[..k] + tag[k..];
    SameTail(tag[..k], Putl(off)[..4 - k], tag[k..]);
  }

  lemma OverlappedTag(r: Buf, mem: Buf, p: nat, n: nat, off: uint32)
    requires PREFIX <= p && p + n <= |r| == |mem| && 4 <= n < 8 && HasWords(r, mem, p + n, off)
    requires mem[p - 4..p] == Putl(TAG)
    ensures r[p - 4..p] == Putl(TAG)[..n - 4] + Putl(off)[..8 - n]
  {
    assert r[p - 4..p + n - 8] == mem[p - 4..p + n - 8] == mem[p - 4..p][..n - 4];
    assert r[p + n - 8..p] == r[p + n - 8..p + n - 4][..8 - n];
    assert r[p - 4..p] == r[p - 4..p + n - 8] + r[p + n - 8..p];
  }

  lemma SameTail(head: Buf, a: Buf, b: Buf)
    ensures head + a == head + b <==> a == b
  {
    assert (head + a)[|head|..] == a && (head + b)[|head|..] == b;
  }

  lemma SameWord(mem: Buf, r: Buf, i: nat)
    requires i + 4 <= |mem| == |r| && forall k :: i <= k < i + 4 ==> r[k] == mem[k]
    ensures WordAt(r, i) == WordAt(mem, i)
  {
  }

  /** Exactly when a second holder's pointer, which has not moved, still resolves after
      `n` bytes were cut off: if nothing was, or at least the two words, or if the new
      offset happens to look like the end of the tag. */
  lemma TagLost(mem: Buf, p: nat, n: nat)
    requires Resolves(mem, p) && p + n <= |mem| && p + n - PREFIX < U32
    ensures Resolves(Trimmed(mem, p, n), p) <==> n == 0 || n >= 8 || Completes(p + n - PREFIX, n)
  {
    var r, off := Trimmed(mem, p, n), p + n - PREFIX;
    TrimmedWords(mem, p, n);
    if n == 0 {
      TrimmedResolves(mem, p, 0);
    } else if n < 4 {
      TagShort(r, mem, p, n, off);
    } else if n < 8 {
      TagOverlap(r, mem, p, n, off);
    } else {
      SameWord(mem, r, p - 8);
      SameWord(mem, r, p - 4);
    }
  }

  /** What the second holder then reads, as many bytes as the shared size says: not the
      rest of the message but its start, with the two words in it if they come so early. */
  lemma SharedTrim(mem: Buf, p: nat, n: nat)
    requires Resolves(mem, p) && p + n <= |mem| && p + n - PREFIX < U32 && n >= 8
    ensures var left := |mem| - (p + n);
            && Trimmed(mem, p, n)[p..p + left]
               == (mem[p..p + n - 8] + Putl(p + n - PREFIX) + Putl(TAG) + mem[p + n..])[..left]
            && (left <= n - 8 ==> Trimmed(mem, p, n)[p..p + left] == mem[p..p + left])
  {
    TrimmedBytes(mem, p, n);
    var words := Putl(p + n - PREFIX) + Putl(TAG) + mem[p + n..];
    assert Trimmed(mem, p, n) == mem[..p] + (mem[p..p + n - 8] + words);
    assert mem[p..p + n - 8] + Putl(p + n - PREFIX) + Putl(TAG) + mem[p + n..] == mem[p..p + n - 8] + words;
  }
}
