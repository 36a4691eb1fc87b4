/**
 * Bytes, machine integers, byte references, and the two block intrinsics that the
 * platform layer builds on: a block copy and a block fill.
 *
 * A managed `ref byte` and an unmanaged `byte*` are both modelled as a ByteRef:
 * the block of memory the reference points into (an array of bytes) and the
 * offset of the referenced byte in that block. Offset arithmetic is unchecked, so
 * an offset may lie anywhere; only dereferencing or a block operation needs it
 * to be inside the block.
 */
module ByteMemory {

  newtype byte = x: int | 0 <= x < 0x100
  newtype int32 = x: int | -0x8000_0000 <= x < 0x8000_0000
  newtype uint32 = x: int | 0 <= x < 0x1_0000_0000

  /** C#'s `unchecked((uint)x)`: reinterprets the two's complement bits of x. */
  function UncheckedToUInt32(x: int32): (r: uint32)
    ensures (r as int - x as int) % 0x1_0000_0000 == 0
    ensures x >= 0 ==> r as int == x as int
  {
    if x >= 0 then x as int as uint32 else (x as int + 0x1_0000_0000) as uint32
  }

  /** A reference to one byte: the block it points into and its offset there. */
  datatype ByteRef = ByteRef(arr: array<byte>, offset: int)

  /** An unmanaged `byte*` has the same model as a managed `ref byte`. */
  type BytePointer = ByteRef

  /** The n bytes starting at r all lie inside r's block. */
  predicate RangeIn(r: ByteRef, n: int) {
    0 <= r.offset && r.offset + n <= r.arr.Length
  }

  /** The n-byte ranges at a and b do not share a byte. */
  predicate Disjoint(a: ByteRef, b: ByteRef, n: int) {
    a.arr != b.arr || a.offset + n <= b.offset || b.offset + n <= a.offset
  }

  /** The byte a reference denotes. */
  function Deref(r: ByteRef): (b: byte)
    requires 0 <= r.offset < r.arr.Length
    reads r.arr
  {
    r.arr[r.offset]
  }

  /**
   * Reference semantics of a block fill: store v at i, then at i + 1, and so on,
   * n stores in all.
   */
  function Filled(s: seq<byte>, i: int, n: nat, v: byte): (r: seq<byte>)
    requires 0 <= i && i + n <= |s|
    ensures |r| == |s|
    decreases n
  {
    if n == 0 then s else Filled(s[i := v], i + 1, n - 1, v)
  }

  /**
   * Reference semantics of a block copy: store src[si] at di, then src[si + 1]
   * at di + 1, and so on, n stores in all. The source bytes are read from src,
   * which is not affected by the stores (no overlap).
   */
  function Copied(src: seq<byte>, si: int, d: seq<byte>, di: int, n: nat): (r: seq<byte>)
    requires 0 <= si && si + n <= |src|
    requires 0 <= di && di + n <= |d|
    ensures |r| == |d|
    decreases n
  {
    if n == 0 then d else Copied(src, si + 1, d[di := src[si]], di + 1, n - 1)
  }

  /** A fill sets exactly the bytes of its range to v and keeps every other byte. */
  lemma {:induction false} FilledAt(s: seq<byte>, i: int, n: nat, v: byte, k: int)
    requires 0 <= i && i + n <= |s|
    requires 0 <= k < |s|
    ensures Filled(s, i, n, v)[k] == if i <= k < i + n then v else s[k]
    decreases n
  {
    if n > 0 {
      FilledAt(s[i := v], i + 1, n - 1, v, k);
    }
  }

  /** A copy puts src[si + j] at di + j for every j < n and keeps every other byte. */
  lemma {:induction false} CopiedAt(src: seq<byte>, si: int, d: seq<byte>, di: int, n: nat, k: int)
    requires 0 <= si && si + n <= |src|
    requires 0 <= di && di + n <= |d|
    requires 0 <= k < |d|
    ensures Copied(src, si, d, di, n)[k] == if di <= k < di + n then src[si + (k - di)] else d[k]
    decreases n
  {
    if n > 0 {
      CopiedAt(src, si + 1, d[di := src[si]], di + 1, n - 1, k);
    }
  }

  /** Filling a range twice with the same value is the same as filling it once. */
  lemma FillIdempotent(s: seq<byte>, i: int, n: nat, v: byte)
    requires 0 <= i && i + n <= |s|
    ensures Filled(Filled(s, i, n, v), i, n, v) == Filled(s, i, n, v)
  {
    var once := Filled(s, i, n, v);
    forall k | 0 <= k < |s|
      ensures Filled(once, i, n, v)[k] == once[k]
    {
      FilledAt(s, i, n, v, k);
      FilledAt(once, i, n, v, k);
    }
  }

  /** After a fill, reading the range back yields n copies of v. */
  lemma FillThenRead(s: seq<byte>, i: int, n: nat, v: byte)
    requires 0 <= i && i + n <= |s|
    ensures Filled(s, i, n, v)[i..i + n] == seq(n, _ => v)
  {
    var r := Filled(s, i, n, v);
    forall k | i <= k < i + n
      ensures r[k] == v
    {
      FilledAt(s, i, n, v, k);
    }
  }

  /** After a copy, the destination range equals the source range. */
  lemma CopyThenEqual(src: seq<byte>, si: int, d: seq<byte>, di: int, n: nat)
    requires 0 <= si && si + n <= |src|
    requires 0 <= di && di + n <= |d|
    ensures Copied(src, si, d, di, n)[di..di + n] == src[si..si + n]
  {
    var r := Copied(src, si, d, di, n);
    forall k | di <= k < di + n
      ensures r[k] == src[si + (k - di)]
    {
      CopiedAt(src, si, d, di, n, k);
    }
  }

  /**
   * The block fill intrinsic (`InitBlock` / `InitBlockUnaligned`): writes value
   * into the count bytes starting at start. Nothing checks the range; the caller
   * must keep it inside the block.
   */
  method InitBlock(start: ByteRef, value: byte, count: uint32)
    requires RangeIn(start, count as int)
    modifies start.arr
    ensures start.arr[..] == Filled(old(start.arr[..]), start.offset, count as nat, value)
    ensures forall j :: 0 <= j < start.arr.Length ==>
      start.arr[j] == if start.offset <= j < start.offset + count as int then value else old(start.arr[j])
  {
    var a, off, n := start.arr, start.offset, count as int;
    var k := 0;
    while k < n
      invariant 0 <= k <= n
      invariant forall j :: 0 <= j < a.Length ==>
        a[j] == if off <= j < off + k then value else old(a[j])
    {
      a[off + k] := value;
      k := k + 1;
    }
    forall j | 0 <= j < a.Length
      ensures a[..][j] == Filled(old(a[..]), off, n, value)[j]
    {
      FilledAt(old(a[..]), off, n, value, j);
    }
  }

  /**
   * The block copy intrinsic (`CopyBlock` / `CopyBlockUnaligned`): copies the
   * count bytes at src to the count bytes at dst. Nothing checks the ranges, and
   * overlapping ranges are not supported (this is not a memmove).
   */
  method CopyBlock(dst: ByteRef, src: ByteRef, count: uint32)
    requires RangeIn(dst, count as int) && RangeIn(src, count as int)
    requires Disjoint(src, dst, count as int)
    modifies dst.arr
    ensures dst.arr[..] == Copied(old(src.arr[..]), src.offset, old(dst.arr[..]), dst.offset, count as nat)
    ensures forall j :: 0 <= j < dst.arr.Length ==>
      dst.arr[j] == if dst.offset <= j < dst.offset + count as int
                    then old(src.arr[src.offset + (j - dst.offset)]) else old(dst.arr[j])
    ensures forall j :: src.offset <= j < src.offset + count as int ==> src.arr[j] == old(src.arr[j])
  {
    var d, s, n := dst.arr, src.arr, count as int;
    var di, si := dst.offset, src.offset;
    ghost var src0 := s[..];
    var k := 0;
    while k < n
      invariant 0 <= k <= n
      invariant forall j :: si <= j < si + n ==> s[j] == src0[j]
      invariant forall j :: 0 <= j < d.Length ==>
        d[j] == if di <= j < di + k then src0[si + (j - di)] else old(d[j])
    {
      d[di + k] := s[si + k];
      k := k + 1;
    }
    forall j | 0 <= j < d.Length
      ensures d[..][j] == Copied(src0, si, old(d[..]), di, n)[j]
    {
      CopiedAt(src0, si, old(d[..]), di, n, j);
    }
  }
}
