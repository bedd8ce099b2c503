/** Big-endian words, as message headers carry them. */
module Wire {
  import opened Bytes

  type Buf = seq<byte>

  /** `nn_putl`. */
  function Putl(v: uint32): (b: Buf)
    ensures |b| == 4
  {
    [v / 0x100_0000, v / 0x1_0000 % 0x100, v / 0x100 % 0x100, v % 0x100]
  }

  /** `nn_getl`. */
  function Getl(b: Buf): uint32
    requires |b| >= 4
  {
    b[0] as int * 0x100_0000 + b[1] as int * 0x1_0000 + b[2] as int * 0x100 + b[3] as int
  }

  lemma Shift16(v: nat)
    ensures v / 0x1_0000 == v / 0x100 / 0x100
  {
  }

  lemma Shift24(v: nat)
    ensures v / 0x100_0000 == v / 0x1_0000 / 0x100
  {
  }

  lemma LowByte(v: nat)
    ensures v == v / 0x100 * 0x100 + v % 0x100
  {
  }

  lemma GetlPutl(v: uint32, rest: Buf)
    ensures Getl(Putl(v) + rest) == v
  {
    LowByte(v);
    Shift16(v);
    LowByte(v / 0x100);
    Shift24(v);
    LowByte(v / 0x1_0000);
  }

  lemma PutlGetl(b: Buf)
    requires |b| >= 4
    ensures Putl(Getl(b)) == b[..4]
  {
    var v := Getl(b);
    var b0, b1, b2, b3 := b[0] as int, b[1] as int, b[2] as int, b[3] as int;
    Quotient(v, b0 * 0x100 + b1, b2 * 0x100 + b3, 0x1_0000);
    Quotient(v, b0, b1 * 0x1_0000 + b2 * 0x100 + b3, 0x100_0000);
    Quotient(b0 * 0x100 + b1, b0, b1, 0x100);
    Quotient(v, b0 * 0x1_0000 + b1 * 0x100 + b2, b3, 0x100);
    Quotient(b0 * 0x1_0000 + b1 * 0x100 + b2, b0 * 0x100 + b1, b2, 0x100);
  }

  lemma Quotient(v: int, q: int, r: int, d: int)
    requires d == 0x100 || d == 0x1_0000 || d == 0x100_0000
    requires 0 <= r < d && v == q * d + r
    ensures v / d == q && v % d == r
  {
    if d == 0x100 {
      assert v == q * 0x100 + r;
    } else if d == 0x1_0000 {
      assert v == q * 0x1_0000 + r;
    } else {
      assert v == q * 0x100_0000 + r;
    }
  }

  predicate HasTopBit(v: uint32) { v >= TOP_BIT }

  /** `v | 0x80000000`. */
  function SetTopBit(v: uint32): (w: uint32)
    ensures HasTopBit(w) && w % TOP_BIT == v % TOP_BIT
  {
    v % TOP_BIT + TOP_BIT
  }

  /** `v & 0x7fffffff`. */
  function ClearTopBit(v: uint32): (w: uint32)
    ensures !HasTopBit(w) && w == v % TOP_BIT
  {
    v % TOP_BIT
  }

  lemma PutlInjective(v: uint32, w: uint32)
    requires Putl(v) == Putl(w)
    ensures v == w
  {
    GetlPutl(v, []);
    GetlPutl(w, []);
    assert Putl(v) + [] == Putl(v) && Putl(w) + [] == Putl(w);
  }
}
