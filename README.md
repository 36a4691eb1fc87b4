# DotNetty byte-range primitives, modelled in Dafny

This project models the byte-range primitives of DotNetty's
`PlatformDependent` class (`src/DotNetty.Common/Internal/PlatformDependent.cs`).
These are the copy, clear and fill operations that buffer code uses on managed
byte arrays, unmanaged `byte*` pointers and managed `ref byte` references. The
project also models `Add` and `AsRef`, the two helpers that do offset
arithmetic on byte references.

Each primitive does nothing when `length <= 0`. Otherwise it makes one
unchecked call to `Unsafe.CopyBlock`, `Unsafe.CopyBlockUnaligned` or
`Unsafe.InitBlockUnaligned`, passing `unchecked((uint)length)`.

The model has two modules:

- `ByteMemory` (ByteMemory.dfy) holds the basic types.
  - Bytes, C# `int` and C# `uint` are the newtypes `byte`, `int32` and `uint32`.
  - `UncheckedToUInt32` is the `unchecked((uint)x)` cast.
  - A `ref byte`, and likewise a `byte*`, is a `ByteRef`: the block of memory it points into (an `array<byte>`) plus an offset into it.
  - `InitBlock` and `CopyBlock` are the two block intrinsics, each written as a byte-by-byte loop.
  - The recursive functions `Filled` and `Copied` give the byte-at-a-time meaning of those intrinsics on sequences. The lemmas about them prove what the primitives promise.
- `PlatformDependent` (PlatformDependent.dfy) holds one method per overload. Dafny has no overloading, so each overload gets its own name (`CopyMemoryPointers`, `CopyMemoryFromPointer`, `ClearRef`, …). The module also holds `Add`, `AsRef` and a few client methods that compare overloads with each other.

Preconditions apply only when `length > 0`. In that case each whole range must
lie inside its block, and the two ranges of a copy must lie in different arrays
or not overlap. When `length <= 0`, no index is ever used, so no index is
required to be valid. The runtime checks only the first element of `ref a[i]`.
The block operation itself checks nothing, and overlapping copies are undefined
because these intrinsics are not memmove. The model therefore states the
bounds as preconditions and does not model an exception.

## Model

| member | source | states |
|---|---|---|
| ByteMemory.UncheckedToUInt32 | src/DotNetty.Common/Internal/PlatformDependent.cs:84 | `unchecked((uint)length)` keeps the value modulo 2^32. It is exact for a non-negative length, so behind the `length > 0` guard exactly `length` bytes are processed |
| ByteMemory.FilledAt | src/DotNetty.Common/Internal/PlatformDependent.cs:154-160 | after a fill of n bytes at i with v, each byte in [i, i+n) is v and every other byte keeps its old value |
| ByteMemory.CopiedAt | src/DotNetty.Common/Internal/PlatformDependent.cs:80-86 | after a copy of n bytes from si to di, byte di+j is the old source byte si+j for j < n, and every other destination byte keeps its old value |
| ByteMemory.FillIdempotent | src/DotNetty.Common/Internal/PlatformDependent.cs:154-160 | filling the same range twice with the same value gives the same bytes as filling it once |
| ByteMemory.FillThenRead | src/DotNetty.Common/Internal/PlatformDependent.cs:154-160 | reading back a filled range yields n copies of the value |
| ByteMemory.CopyThenEqual | src/DotNetty.Common/Internal/PlatformDependent.cs:80-86 | after a copy, the destination range equals the source range |
| ByteMemory.InitBlock | src/DotNetty.Common/Internal/PlatformDependent.cs:158 | the fill intrinsic leaves the block equal to `Filled` of its old contents; bytes in range become the value and all others are unchanged |
| ByteMemory.CopyBlock | src/DotNetty.Common/Internal/PlatformDependent.cs:84 | the copy intrinsic leaves the destination block equal to `Copied` of the old source and destination; bytes in range take the source bytes, all others are unchanged, and the source range is not altered |
| PlatformDependent.CopyMemory | src/DotNetty.Common/Internal/PlatformDependent.cs:80-86 | array to array: a no-op when length <= 0; otherwise dst[dstIndex+k] == old src[srcIndex+k] for k < length; dst outside the range and the source range are unchanged, and a distinct source array is unchanged entirely |
| PlatformDependent.CopyMemoryPointers | src/DotNetty.Common/Internal/PlatformDependent.cs:88-94 | pointer to pointer: a no-op when length <= 0; otherwise the destination block is `Copied` of the old source and destination blocks; a distinct source block is unchanged |
| PlatformDependent.CopyMemoryFromPointer | src/DotNetty.Common/Internal/PlatformDependent.cs:96-103 | pointer to array at dstIndex: a no-op when length <= 0; otherwise dst is `Copied` from the pointed-to bytes; a distinct source block is unchanged |
| PlatformDependent.CopyMemoryToPointer | src/DotNetty.Common/Internal/PlatformDependent.cs:105-112 | array at srcIndex to pointer: a no-op when length <= 0; otherwise the pointed-to block is `Copied` from the array; a distinct source array is unchanged |
| PlatformDependent.CopyMemoryRef | src/DotNetty.Common/Internal/PlatformDependent.cs:114-120 | ref to ref: a no-op when length <= 0; otherwise the same effect as the array overload on (array, offset); a distinct source block is unchanged |
| PlatformDependent.ClearRef | src/DotNetty.Common/Internal/PlatformDependent.cs:122-128 | a no-op when length <= 0; otherwise the referenced block is `Filled` with 0 over the range |
| PlatformDependent.Clear | src/DotNetty.Common/Internal/PlatformDependent.cs:130-136 | a no-op when length <= 0; otherwise bytes in [srcIndex, srcIndex+length) become 0 and all other bytes are unchanged |
| PlatformDependent.SetMemoryPointer | src/DotNetty.Common/Internal/PlatformDependent.cs:138-144 | a no-op when length <= 0; otherwise the pointed-to block is `Filled` with the value over the range |
| PlatformDependent.SetMemoryRef | src/DotNetty.Common/Internal/PlatformDependent.cs:146-152 | a no-op when length <= 0; otherwise the referenced block is `Filled` with the value over the range |
| PlatformDependent.SetMemory | src/DotNetty.Common/Internal/PlatformDependent.cs:154-160 | a no-op when length <= 0; otherwise bytes in [srcIndex, srcIndex+length) become the value and all other bytes are unchanged |
| PlatformDependent.ClearIsSetMemoryZero | src/DotNetty.Common/Internal/PlatformDependent.cs:130-136 | `Clear(a, i, n)` and `SetMemory(b, i, n, 0)` leave equal arrays equal, because Clear passes `default(byte)` |
| PlatformDependent.SetMemoryIdempotent | src/DotNetty.Common/Internal/PlatformDependent.cs:154-160 | two identical `SetMemory` calls leave the state reached by one |
| PlatformDependent.SetOverloadsAgree | src/DotNetty.Common/Internal/PlatformDependent.cs:146-160 | from equal arrays, `SetMemoryRef` on `AsRef(a, i)` and `SetMemory` with index i reach equal arrays |
| PlatformDependent.ClearOverloadsAgree | src/DotNetty.Common/Internal/PlatformDependent.cs:122-136 | from equal arrays, `ClearRef` on `AsRef(a, i)` and `Clear` with index i reach equal arrays |
| PlatformDependent.CopyOverloadsAgree | src/DotNetty.Common/Internal/PlatformDependent.cs:80-120 | copying from a source array into one of two equal, distinct arrays: `CopyMemoryRef` on `AsRef` references and the array-and-index `CopyMemory` reach equal arrays |
| PlatformDependent.CopyOverloadsAgreeSameArray | src/DotNetty.Common/Internal/PlatformDependent.cs:80-120 | copying between disjoint ranges of one array: `CopyMemoryRef` on `AsRef` references and `CopyMemory(b, si, b, di, n)` on an equal twin reach equal arrays |
| PlatformDependent.AddZero | src/DotNetty.Common/Internal/PlatformDependent.cs:166 | moving a reference by 0 gives the same reference |
| PlatformDependent.AddComposes | src/DotNetty.Common/Internal/PlatformDependent.cs:166 | `Add((a, o), i)` is `(a, o + i)`, so moving by i and then by j equals moving by i + j |
| PlatformDependent.Add | src/DotNetty.Common/Internal/PlatformDependent.cs:166 | the reference into the same block, `index` bytes further on; the offset is not checked |
| PlatformDependent.AsRef | src/DotNetty.Common/Internal/PlatformDependent.cs:169-171 | the reference (a, index): element 0 of a span over the array, moved by `index` with no check |
| PlatformDependent.ElementRef | src/DotNetty.Common/Internal/PlatformDependent.cs:84 | `ref a[i]`: the reference (a, i), defined only for an index inside the array, as the runtime checks (also `&a[i]` at lines 100 and 109, `ref src[srcIndex]` at lines 134 and 158) |
| PlatformDependent.DerefAsRef | src/DotNetty.Common/Internal/PlatformDependent.cs:169-171 | for an index inside the array, `AsRef(a, i)` denotes the element `a[i]` |
| PlatformDependent.ElementRefIsAsRef | src/DotNetty.Common/Internal/PlatformDependent.cs:169-176 | for an index inside the array, the span-based `AsRef` and the plain `ref array[index]` give the same reference |

## Left out

- `ByteArrayEquals`, `ByteArrayEqualsEx` and `ByteArrayCompareToEx` (lines 61-78) are left out. `ByteArrayEquals` pins the arrays; all three only delegate to `PlatformDependent0`. `PlatformDependent0` is not part of this model, so their meaning cannot be checked against the code.
- The queue and dictionary factories (lines 51-57) only construct `MpscArrayQueue`, `CompatibleConcurrentQueue`, `SpscLinkedQueue` and `ConcurrentDictionary`. Those classes are not part of this model, and what they provide is lock-free concurrency.
- The static constructor (lines 27-44) is left out. It reads the `io.netty.noPreferDirect` system property and probes the runtime's assemblies by reflection, which is environment input, not logic. `DirectBufferPreferred` (line 46) only returns the result, so it is left out too.
- The thread-local `Random`, its seed counter and `GetThreadLocalRandom` (lines 48-49, 59) are left out. They involve thread-local state, an atomic increment and pseudo-randomness.
- Logging (lines 22, 30-33) is left out.
- `fixed` pinning, the difference between aligned and unaligned intrinsics, and the difference between the pointer and `ref` forms of an intrinsic do not matter at byte granularity. All of them become the same two methods, `InitBlock` and `CopyBlock`.
- An unmanaged pointer is modelled as an offset into a Dafny array that stands for its memory region. Raw addresses, and two pointers into different regions that happen to touch, are not modelled.
- Overlapping copies are excluded by precondition. The intrinsics are not memmove, so the model gives such copies no meaning.
- The exceptions that C# raises for a null array or for a first index outside the array (from `ref a[i]` or `&a[i]`) are not modelled. Dafny arrays are never null, and when `length > 0` an out-of-range index is excluded by the range precondition.
