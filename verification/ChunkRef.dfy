/** A reference to a piece of a message: short pieces are stored in the reference
    itself, longer ones in a chunk. Whichever it is, it stands for its bytes. */
module ChunkRef {
  import opened Bytes
  import opened Wire
  import C = Chunk

  /** The capacity of the inline form, its length byte included. */
  const MAX := 32

  /** The length byte that says that the bytes are in a chunk. */
  const HEAP := 0xff

  class ChunkRef {
    /** `ref[0]` is the length byte. A chunk pointer is `at` in `chunk`. */
    const ref: array<byte>
    var chunk: C.Chunk?
    var at: nat

    ghost function Heap(): set<object>
      reads this
    {
      if chunk == null then {} else {chunk, chunk.mem, chunk.refcount}
    }

    ghost function Repr(): set<object>
      reads this
    {
      {this, ref} + Heap()
    }

    ghost predicate Valid()
      reads Repr()
    {
      && ref.Length == MAX && (chunk != null ==> chunk.mem != ref)
      && (ref[0] == HEAP ==> chunk != null && chunk.Points(at))
      && (ref[0] != HEAP ==> ref[0] < MAX)
    }

    ghost predicate OnHeap()
      requires Valid()
      reads Repr()
    {
      ref[0] == HEAP
    }

    ghost function Bytes(): Buf
      requires Valid()
      reads Repr()
    {
      if OnHeap() then chunk.Data(at) else ref[1..1 + ref[0]]
    }

    /** For `size` bytes, whose contents are left open. */
    constructor Init(size: nat)
      requires C.PREFIX + size <= C.SIZE_MAX
      ensures Valid() && |Bytes()| == size && fresh(Repr())
      ensures OnHeap() <==> size >= MAX
      ensures OnHeap() ==> chunk.refcount.n == 1
    {
      ref := new byte[MAX];
      chunk, at := null, 0;
      new;
      if size < MAX {
        ref[0] := size;
        return;
      }
      ref[0] := HEAP;
      var rc;
      chunk, at, rc := C.Alloc(size, 0);
    }

    constructor InitChunk(c: C.Chunk, p: nat)
      requires c.Points(p)
      ensures Valid() && OnHeap() && chunk == c && at == p && fresh(ref) && Bytes() == c.Data(p)
    {
      ref := new byte[MAX];
      chunk, at := c, p;
      new;
      ref[0] := HEAP;
    }

    method Term()
      requires Valid()
      modifies Heap()
      ensures old(OnHeap()) ==> chunk.refcount.n == old(chunk.refcount.n) - 1
      ensures old(OnHeap()) && old(chunk.refcount.n) == 1 ==> chunk.freed
      ensures !old(OnHeap()) || old(chunk.refcount.n) > 1 ==> Valid() && Bytes() == old(Bytes())
    {
      if ref[0] == HEAP {
        chunk.Free(at);
      }
    }

    /** The bytes as a chunk, made for the purpose if need be. The reference is left empty. */
    method GetChunk() returns (c: C.Chunk, p: nat)
      requires Valid()
      modifies ref
      ensures Valid() && Bytes() == [] && !OnHeap()
      ensures c.Points(p) && c.Data(p) == old(Bytes())
      ensures old(OnHeap()) ==> c == chunk && p == at && c.refcount.n == old(c.refcount.n)
      ensures !old(OnHeap()) ==> fresh(c) && c.refcount.n == 1
    {
      if ref[0] == HEAP {
        ref[0] := 0;
        return chunk, at;
      }
      var made, q, rc := C.Alloc(ref[0], 0);
      c, p := made, q;
      c.Fill(p, ref[1..1 + ref[0]]);
      ref[0] := 0;
    }

    method Size() returns (n: nat)
      requires Valid()
      ensures n == |Bytes()|
    {
      if ref[0] == HEAP {
        n := chunk.Size(at);
      } else {
        n := ref[0];
      }
    }

    /** In a chunk the start moves, in place the bytes do. */
    method Trim(n: nat)
      requires Valid() && n <= |Bytes()|
      requires OnHeap() ==> at + n - C.PREFIX < U32 - 1
      modifies Repr()
      ensures Valid() && Bytes() == old(Bytes())[n..]
      ensures OnHeap() == old(OnHeap()) && chunk == old(chunk)
      ensures OnHeap() ==> chunk.refcount.n == old(chunk.refcount.n)
    {
      if ref[0] == HEAP {
        at := chunk.Trim(at, n);
        return;
      }
      forall i | 0 <= i < ref[0] - n {
        ref[1 + i] := ref[1 + n + i];
      }
      ref[0] := ref[0] - n;
    }

    method BulkCopyStart(copies: nat)
      requires Valid()
      modifies Heap()
      ensures Valid() && Bytes() == old(Bytes()) && OnHeap() == old(OnHeap())
      ensures OnHeap() ==> chunk.refcount.n == old(chunk.refcount.n) + copies
    {
      if ref[0] == HEAP {
        chunk.AddRef(at, copies);
      }
    }
  }

  /** Two references that do not share their own storage. */
  ghost predicate Apart(dst: ChunkRef, src: ChunkRef)
    reads dst, src
  {
    && dst != src && dst.ref != src.ref && dst.ref.Length == src.ref.Length == MAX
    && (src.chunk != null ==> dst.ref != src.chunk.mem)
    && (dst.chunk != null ==> dst.ref != dst.chunk.mem)
  }

  /** Copies the used part only: the length byte and the bytes, or the pointer. */
  method Mv(dst: ChunkRef, src: ChunkRef)
    requires src.Valid() && Apart(dst, src)
    modifies dst, dst.ref
    ensures dst.Valid() && dst.Bytes() == old(src.Bytes()) && dst.OnHeap() == old(src.OnHeap())
    ensures src.OnHeap() ==> dst.chunk == src.chunk && dst.at == src.at
  {
    if src.ref[0] == HEAP {
      dst.ref[0] := src.ref[0];
      dst.chunk, dst.at := src.chunk, src.at;
    } else {
      forall i | 0 <= i < src.ref[0] + 1 {
        dst.ref[i] := src.ref[i];
      }
      assert dst.ref[1..1 + dst.ref[0]] == src.ref[1..1 + src.ref[0]];
    }
  }

  /** Another reference to the same bytes; a chunk is shared and counted once more. */
  method Cp(dst: ChunkRef, src: ChunkRef)
    requires src.Valid() && Apart(dst, src)
    modifies dst, dst.ref, src.Heap()
    ensures dst.Valid() && src.Valid() && dst.Bytes() == src.Bytes() == old(src.Bytes())
    ensures dst.OnHeap() == src.OnHeap() == old(src.OnHeap())
    ensures src.OnHeap() ==> dst.chunk == src.chunk && src.chunk.refcount.n == old(src.chunk.refcount.n) + 1
  {
    if src.ref[0] == HEAP {
      src.chunk.AddRef(src.at, 1);
    }
    BulkCopyCp(dst, src);
  }

  /** Another reference to bytes that have been counted in advance. */
  method BulkCopyCp(dst: ChunkRef, src: ChunkRef)
    requires src.Valid() && Apart(dst, src)
    modifies dst, dst.ref
    ensures dst.Valid() && src.Valid() && dst.Bytes() == src.Bytes() && dst.OnHeap() == src.OnHeap()
    ensures dst.chunk == src.chunk && dst.at == src.at && dst.ref[..] == src.ref[..]
  {
    forall i | 0 <= i < MAX {
      dst.ref[i] := src.ref[i];
    }
    dst.chunk, dst.at := src.chunk, src.at;
    assert dst.ref[..] == src.ref[..];
    assert dst.ref[0] == src.ref[0];
    assert dst.ref[0] != HEAP ==> dst.ref[1..1 + dst.ref[0]] == src.ref[1..1 + src.ref[0]];
  }
}
