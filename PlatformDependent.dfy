/**
 * The byte-range primitives of the platform layer: copy, clear and fill over
 * managed arrays, unmanaged pointers and managed references, plus the offset
 * arithmetic on byte references.
 *
 * Every primitive does nothing when length <= 0 and otherwise issues one
 * unchecked block intrinsic. Only the first element reference `ref a[i]` is
 * bounds-checked by the runtime; the block itself is not. The preconditions
 * therefore ask, only when length > 0, that each whole range lies in its block
 * and that the ranges of a copy do not overlap.
 */
module PlatformDependent {
  import opened ByteMemory

  /** The length bytes at index all lie inside a. */
  predicate ValidRange(a: array<byte>, index: int32, length: int32) {
    0 <= index as int && index as int + length as int <= a.Length
  }

  /** `ref a[index]`: the runtime rejects an index outside the array. */
  function ElementRef(a: array<byte>, index: int32): (r: ByteRef)
    requires 0 <= index as int < a.Length
    ensures r.arr == a && r.offset == index as int && 0 <= r.offset < a.Length
  {
    ByteRef(a, index as int)
  }

  /** `Add(ref array, index)`: the reference index bytes further on, unchecked. */
  function Add(r: ByteRef, index: int32): (r': ByteRef)
    ensures r'.arr == r.arr && r'.offset == r.offset + index as int
  {
    ByteRef(r.arr, r.offset + index as int)
  }

  /**
   * `AsRef(array, index = 0)`: the reference to the first element of the array,
   * as obtained from a span over it, moved index bytes further on. No index is
   * checked.
   */
  function AsRef(a: array<byte>, index: int32 := 0): (r: ByteRef)
    ensures r.arr == a && r.offset == index as int
  {
    Add(ByteRef(a, 0), index)
  }

  lemma AddZero(r: ByteRef)
    ensures Add(r, 0) == r
  {
  }

  /** Moving by i and then by j is moving by i + j. */
  lemma AddComposes(r: ByteRef, i: int32, j: int32)
    requires -0x8000_0000 <= i as int + j as int < 0x8000_0000
    ensures Add(Add(r, i), j) == Add(r, (i as int + j as int) as int32)
  {
  }

  /** For an index inside the array, AsRef denotes that element ... */
  lemma DerefAsRef(a: array<byte>, index: int32)
    requires 0 <= index as int < a.Length
    ensures Deref(AsRef(a, index)) == a[index]
  {
  }

  /** ... and is the same reference as the checked `ref a[index]`. */
  lemma ElementRefIsAsRef(a: array<byte>, index: int32)
    requires 0 <= index as int < a.Length
    ensures ElementRef(a, index) == AsRef(a, index)
  {
  }

  /** `CopyMemory(byte[] src, int srcIndex, byte[] dst, int dstIndex, int length)` */
  method CopyMemory(src: array<byte>, srcIndex: int32, dst: array<byte>, dstIndex: int32, length: int32)
    requires length > 0 ==>
      ValidRange(src, srcIndex, length) && ValidRange(dst, dstIndex, length) &&
      Disjoint(AsRef(src, srcIndex), AsRef(dst, dstIndex), length as int)
    modifies dst
    ensures length <= 0 ==> unchanged(dst)
    ensures length > 0 ==>
      dst[..] == Copied(old(src[..]), srcIndex as int, old(dst[..]), dstIndex as int, length as nat)
    ensures forall j :: dstIndex as int <= j < dstIndex as int + length as int ==>
      dst[j] == old(src[srcIndex as int + (j - dstIndex as int)])
    ensures forall j :: 0 <= j < dst.Length && !(dstIndex as int <= j < dstIndex as int + length as int) ==>
      dst[j] == old(dst[j])
    ensures forall j :: srcIndex as int <= j < srcIndex as int + length as int ==> src[j] == old(src[j])
    ensures src != dst ==> unchanged(src)
  {
    if length > 0 {
      CopyBlock(ElementRef(dst, dstIndex), ElementRef(src, srcIndex), UncheckedToUInt32(length));
    }
  }

  /** `CopyMemory(byte* src, byte* dst, int length)` */
  method CopyMemoryPointers(src: BytePointer, dst: BytePointer, length: int32)
    requires length > 0 ==>
      RangeIn(src, length as int) && RangeIn(dst, length as int) && Disjoint(src, dst, length as int)
    modifies dst.arr
    ensures length <= 0 ==> unchanged(dst.arr)
    ensures length > 0 ==>
      dst.arr[..] == Copied(old(src.arr[..]), src.offset, old(dst.arr[..]), dst.offset, length as nat)
    ensures src.arr != dst.arr ==> unchanged(src.arr)
  {
    if length > 0 {
      CopyBlock(dst, src, UncheckedToUInt32(length));
    }
  }

  /** `CopyMemory(byte* src, byte[] dst, int dstIndex, int length)` */
  method CopyMemoryFromPointer(src: BytePointer, dst: array<byte>, dstIndex: int32, length: int32)
    requires length > 0 ==>
      RangeIn(src, length as int) && ValidRange(dst, dstIndex, length) &&
      Disjoint(src, AsRef(dst, dstIndex), length as int)
    modifies dst
    ensures length <= 0 ==> unchanged(dst)
    ensures length > 0 ==>
      dst[..] == Copied(old(src.arr[..]), src.offset, old(dst[..]), dstIndex as int, length as nat)
    ensures src.arr != dst ==> unchanged(src.arr)
  {
    if length > 0 {
      var destination := ElementRef(dst, dstIndex);
      CopyBlock(destination, src, UncheckedToUInt32(length));
    }
  }

  /** `CopyMemory(byte[] src, int srcIndex, byte* dst, int length)` */
  method CopyMemoryToPointer(src: array<byte>, srcIndex: int32, dst: BytePointer, length: int32)
    requires length > 0 ==>
      ValidRange(src, srcIndex, length) && RangeIn(dst, length as int) &&
      Disjoint(AsRef(src, srcIndex), dst, length as int)
    modifies dst.arr
    ensures length <= 0 ==> unchanged(dst.arr)
    ensures length > 0 ==>
      dst.arr[..] == Copied(old(src[..]), srcIndex as int, old(dst.arr[..]), dst.offset, length as nat)
    ensures src != dst.arr ==> unchanged(src)
  {
    if length > 0 {
      var source := ElementRef(src, srcIndex);
      CopyBlock(dst, source, UncheckedToUInt32(length));
    }
  }

  /** `CopyMemory(ref byte src, ref byte dst, int length)` */
  method CopyMemoryRef(src: ByteRef, dst: ByteRef, length: int32)
    requires length > 0 ==>
      RangeIn(src, length as int) && RangeIn(dst, length as int) && Disjoint(src, dst, length as int)
    modifies dst.arr
    ensures length <= 0 ==> unchanged(dst.arr)
    ensures length > 0 ==>
      dst.arr[..] == Copied(old(src.arr[..]), src.offset, old(dst.arr[..]), dst.offset, length as nat)
    ensures src.arr != dst.arr ==> unchanged(src.arr)
  {
    if length > 0 {
      CopyBlock(dst, src, UncheckedToUInt32(length));
    }
  }

  /** `Clear(ref byte src, int length)` */
  method ClearRef(src: ByteRef, length: int32)
    requires length > 0 ==> RangeIn(src, length as int)
    modifies src.arr
    ensures length <= 0 ==> unchanged(src.arr)
    ensures length > 0 ==> src.arr[..] == Filled(old(src.arr[..]), src.offset, length as nat, 0)
  {
    if length > 0 {
      InitBlock(src, 0, UncheckedToUInt32(length));
    }
  }

  /** `Clear(byte[] src, int srcIndex, int length)` */
  method Clear(src: array<byte>, srcIndex: int32, length: int32)
    requires length > 0 ==> ValidRange(src, srcIndex, length)
    modifies src
    ensures length <= 0 ==> unchanged(src)
    ensures length > 0 ==> src[..] == Filled(old(src[..]), srcIndex as int, length as nat, 0)
    ensures forall j :: 0 <= j < src.Length ==>
      src[j] == if srcIndex as int <= j < srcIndex as int + length as int then 0 else old(src[j])
  {
    if length > 0 {
      InitBlock(ElementRef(src, srcIndex), 0, UncheckedToUInt32(length));
    }
  }

  /** `SetMemory(byte* src, int length, byte value)` */
  method SetMemoryPointer(src: BytePointer, length: int32, value: byte)
    requires length > 0 ==> RangeIn(src, length as int)
    modifies src.arr
    ensures length <= 0 ==> unchanged(src.arr)
    ensures length > 0 ==> src.arr[..] == Filled(old(src.arr[..]), src.offset, length as nat, value)
  {
    if length > 0 {
      InitBlock(src, value, UncheckedToUInt32(length));
    }
  }

  /** `SetMemory(ref byte src, int length, byte value)` */
  method SetMemoryRef(src: ByteRef, length: int32, value: byte)
    requires length > 0 ==> RangeIn(src, length as int)
    modifies src.arr
    ensures length <= 0 ==> unchanged(src.arr)
    ensures length > 0 ==> src.arr[..] == Filled(old(src.arr[..]), src.offset, length as nat, value)
  {
    if length > 0 {
      InitBlock(src, value, UncheckedToUInt32(length));
    }
  }

  /** `SetMemory(byte[] src, int srcIndex, int length, byte value)` */
  method SetMemory(src: array<byte>, srcIndex: int32, length: int32, value: byte)
    requires length > 0 ==> ValidRange(src, srcIndex, length)
    modifies src
    ensures length <= 0 ==> unchanged(src)
    ensures length > 0 ==> src[..] == Filled(old(src[..]), srcIndex as int, length as nat, value)
    ensures forall j :: 0 <= j < src.Length ==>
      src[j] == if srcIndex as int <= j < srcIndex as int + length as int then value else old(src[j])
  {
    if length > 0 {
      InitBlock(ElementRef(src, srcIndex), value, UncheckedToUInt32(length));
    }
  }

  /** Clearing a range has the effect of setting it to zero. */
  method ClearIsSetMemoryZero(a: array<byte>, b: array<byte>, index: int32, length: int32)
    requires a != b && a[..] == b[..]
    requires length > 0 ==> ValidRange(a, index, length)
    modifies a, b
    ensures a[..] == b[..]
  {
    Clear(a, index, length);
    SetMemory(b, index, length, 0);
  }

  /** Setting a range twice leaves the state reached by setting it once. */
  method SetMemoryIdempotent(a: array<byte>, index: int32, length: int32, value: byte)
    requires length > 0 ==> ValidRange(a, index, length)
    modifies a
    ensures length > 0 ==> a[..] == Filled(old(a[..]), index as int, length as nat, value)
    ensures length <= 0 ==> unchanged(a)
  {
    SetMemory(a, index, length, value);
    SetMemory(a, index, length, value);
    if length > 0 {
      FillIdempotent(old(a[..]), index as int, length as nat, value);
    }
  }

  /** `SetMemoryRef` on AsRef(a, index) acts like `SetMemory` with index. */
  method SetOverloadsAgree(a: array<byte>, b: array<byte>, index: int32, length: int32, value: byte)
    requires a != b && a[..] == b[..]
    requires length > 0 ==> ValidRange(a, index, length)
    modifies a, b
    ensures a[..] == b[..]
  {
    SetMemoryRef(AsRef(a, index), length, value);
    SetMemory(b, index, length, value);
  }

  /** `ClearRef` on AsRef(a, index) acts like `Clear` with index. */
  method ClearOverloadsAgree(a: array<byte>, b: array<byte>, index: int32, length: int32)
    requires a != b && a[..] == b[..]
    requires length > 0 ==> ValidRange(a, index, length)
    modifies a, b
    ensures a[..] == b[..]
  {
    ClearRef(AsRef(a, index), length);
    Clear(b, index, length);
  }

  /** Copying between two arrays through references acts like `CopyMemory`. */
  method CopyOverloadsAgree(src: array<byte>, srcIndex: int32, a: array<byte>, b: array<byte>, dstIndex: int32, length: int32)
    requires a != b && a != src && b != src && a[..] == b[..]
    requires length > 0 ==> ValidRange(src, srcIndex, length) && ValidRange(a, dstIndex, length)
    modifies a, b
    ensures a[..] == b[..]
  {
    CopyMemoryRef(AsRef(src, srcIndex), AsRef(a, dstIndex), length);
    CopyMemory(src, srcIndex, b, dstIndex, length);
  }

  /** Copying within one array through references acts like `CopyMemory`. */
  method CopyOverloadsAgreeSameArray(a: array<byte>, b: array<byte>, srcIndex: int32, dstIndex: int32, length: int32)
    requires a != b && a[..] == b[..]
    requires length > 0 ==>
      ValidRange(a, srcIndex, length) && ValidRange(a, dstIndex, length) &&
      Disjoint(AsRef(a, srcIndex), AsRef(a, dstIndex), length as int)
    modifies a, b
    ensures a[..] == b[..]
  {
    CopyMemoryRef(AsRef(a, srcIndex), AsRef(a, dstIndex), length);
    CopyMemory(b, srcIndex, b, dstIndex, length);
  }
}
