# ModelIndexRange: a Dafny model

`ModelIndexRange` is a FlatBuffers struct of the lull model schema used by
Sceneform: the range of indices of one draw call. It consists of two unsigned
32-bit fields, `start` and `end`, laid out in 8 bytes, little-endian, `start`
first. The generated Java class does two things:

- It reads through a view, a position `bb_pos` in a `ByteBuffer`. `__init` and
  `__assign` bind the view. `start()` and `end()` read a 32-bit `int` at
  `bb_pos` and at `bb_pos + 4`, and widen it to a `long` without sign extension.
- It writes through `createModelIndexRange(builder, start, end)`. This call
  aligns the `FlatBufferBuilder` with `prep(4, 8)`, prepends `(int) end` and
  then `(int) start`, and returns the builder's new offset.

The model has four modules, one per file:

- `JavaInts` (`java_ints.dfy`) covers Java's fixed-width integers: the
  `(int)` cast of a `long`, the `(long) i & 0xFFFFFFFFL` widening, and the
  wrapping `int` addition of `bb_pos + 4`.
- `ByteBuffer` (`byte_buffer.dfy`) models the buffer as an immutable
  sequence of the bytes below its limit. A limit is a Java `int`, so there are
  at most `Integer.MAX_VALUE` of them. The module holds the little-endian word
  codec and an absolute `getInt`, which fails with `IndexOutOfBounds` when its
  four bytes are not all below the limit.
- `FlatBuilder` (`flat_buffer_builder.dfy`) holds the parts of
  `FlatBufferBuilder` that the struct uses. The builder fills its buffer from
  the back, so its bytes are a sequence that is only ever prepended to, and
  `Offset` is that sequence's length. The module models `pad`, `prep`,
  `putInt` and `offset`.
- `LullModel` (`model_index_range.dfy`) models the view, the two accessors,
  the serializer and the properties tying them together.

The serializer is a method. Its postcondition is the predicate
`WritesStruct`, which describes the bytes that writing the struct leaves in
the builder:
- the 8 struct bytes first, then the least zero padding that makes the offset
  a multiple of 4, then everything written before;
- everything written before keeps its distance from the end.

The round-trip, truncation and layout lemmas are stated for any result that
satisfies this predicate.

## Model

| member | source | states |
|---|---|---|
| LullModel.Init | sceneformsrc/sceneform/src/main/java/com/google/ar/sceneform/lullmodel/ModelIndexRange.java:15 | `__init(i, bb)` binds the view to position `i` of `bb`. The reads that follow are characterised by `StartReadsEncoding` and `EndReadsEncoding`. |
| LullModel.Assign | sceneformsrc/sceneform/src/main/java/com/google/ar/sceneform/lullmodel/ModelIndexRange.java:16 | `__assign(i, bb)` rebinds the view to position `i` of `bb`. Both fields of the result are fixed by `i` and `bb`, so nothing of the earlier binding survives. The reads that follow are characterised by `AssignReadsAt`. |
| LullModel.Start | sceneformsrc/sceneform/src/main/java/com/google/ar/sceneform/lullmodel/ModelIndexRange.java:18 | `start()` succeeds exactly when bytes `[bb_pos, bb_pos + 4)` lie inside the buffer. It then returns the little-endian word stored there, read as unsigned, so always in `[0, 2^32)`. |
| LullModel.End | sceneformsrc/sceneform/src/main/java/com/google/ar/sceneform/lullmodel/ModelIndexRange.java:19 | `end()` succeeds exactly when bytes `[bb_pos + 4, bb_pos + 8)` lie inside the buffer. This includes the case where `bb_pos + 4` wraps around. It then returns the unsigned word stored there. |
| LullModel.StartReadsEncoding | sceneformsrc/sceneform/src/main/java/com/google/ar/sceneform/lullmodel/ModelIndexRange.java:18 | A view at `p` reads `w` as `start` if and only if the four bytes at `p` are the little-endian encoding of `w`. |
| LullModel.EndReadsEncoding | sceneformsrc/sceneform/src/main/java/com/google/ar/sceneform/lullmodel/ModelIndexRange.java:19 | A view at `p` reads `w` as `end` if and only if the four bytes at `p + 4` encode `w`. |
| LullModel.StartReadsExactlyItsBytes | sceneformsrc/sceneform/src/main/java/com/google/ar/sceneform/lullmodel/ModelIndexRange.java:18 | Two views at the same position agree on `start` if and only if their bytes `[p, p + 4)` agree. The field depends on those bytes and on no others. |
| LullModel.EndReadsExactlyItsBytes | sceneformsrc/sceneform/src/main/java/com/google/ar/sceneform/lullmodel/ModelIndexRange.java:19 | Two views at the same position agree on `end` if and only if their bytes `[p + 4, p + 8)` agree. These bytes are disjoint from those of `start`. |
| LullModel.HighBitReadsUnsigned | sceneformsrc/sceneform/src/main/java/com/google/ar/sceneform/lullmodel/ModelIndexRange.java:18-19 | Bytes `FF FF FF FF` are the `int` -1 to `getInt`, yet `start()` reads them as 4294967295. `00 00 00 80` reads as 2147483648 through `end()`. |
| LullModel.AssignReadsAt | sceneformsrc/sceneform/src/main/java/com/google/ar/sceneform/lullmodel/ModelIndexRange.java:15-19 | After `__assign(i, bb)`, whatever the earlier binding was, `start` is `s` if and only if bytes `[i, i + 4)` encode `s`. Likewise `end` is `e` if and only if bytes `[i + 4, i + 8)` encode `e`. |
| LullModel.EndPastBufferFails | sceneformsrc/sceneform/src/main/java/com/google/ar/sceneform/lullmodel/ModelIndexRange.java:18-19 | A view bound four bytes before the end of the buffer can read `start`, but `end()` fails with IndexOutOfBounds. |
| LullModel.CreateModelIndexRange | sceneformsrc/sceneform/src/main/java/com/google/ar/sceneform/lullmodel/ModelIndexRange.java:21-26 | The grown builder starts with the low 32 bits of `start` and then those of `end`. Next comes zero padding of 0 to 3 bytes, then the old contents, unchanged. The returned offset is the builder's new offset and is a multiple of 4. |
| LullModel.TwoIntsLaidOut | sceneformsrc/sceneform/src/main/java/com/google/ar/sceneform/lullmodel/ModelIndexRange.java:23-24 | After two `putInt` calls, the second word's bytes come first, then the first word's, then the earlier contents. |
| LullModel.RoundTrip | sceneformsrc/sceneform/src/main/java/com/google/ar/sceneform/lullmodel/ModelIndexRange.java:18-25 | A view bound at the returned offset, counted from the end of any buffer that ends with the builder's bytes, reads back `start mod 2^32` and `end mod 2^32`. `end < start` is not rejected. |
| LullModel.ReserializeReproducesBytes | sceneformsrc/sceneform/src/main/java/com/google/ar/sceneform/lullmodel/ModelIndexRange.java:18-25 | Take the two values a view reads from 8 in-bounds bytes. Writing them into an empty builder reproduces exactly those 8 bytes, at offset 8. |
| LullModel.WriteIntoEmpty | sceneformsrc/sceneform/src/main/java/com/google/ar/sceneform/lullmodel/ModelIndexRange.java:21-25 | Into an empty builder the struct needs no padding: the result is its 8 bytes, and the offset is 8. |
| LullModel.WriteOffsetDetermined | sceneformsrc/sceneform/src/main/java/com/google/ar/sceneform/lullmodel/ModelIndexRange.java:22-25 | The returned offset depends only on the builder's earlier offset, not on the values written. |
| LullModel.TruncationIff | sceneformsrc/sceneform/src/main/java/com/google/ar/sceneform/lullmodel/ModelIndexRange.java:23-24 | Two writes on the same builder leave identical builders if and only if their arguments agree in the low 32 bits. |
| LullModel.TruncationExample | sceneformsrc/sceneform/src/main/java/com/google/ar/sceneform/lullmodel/ModelIndexRange.java:23-24 | `start = 0x1_0000_0005` is stored exactly like `start = 5`. |
| LullModel.LayoutExample | sceneformsrc/sceneform/src/main/java/com/google/ar/sceneform/lullmodel/ModelIndexRange.java:21-25 | `(1, 5)` in an empty builder is `01 00 00 00 05 00 00 00`, at offset 8. |
| LullModel.ConsecutiveStructsIndependent | sceneformsrc/sceneform/src/main/java/com/google/ar/sceneform/lullmodel/ModelIndexRange.java:21-25 | After two consecutive writes the structs occupy disjoint 8-byte regions. Each one reads back its own values from the final buffer. |
| FlatBuilder.Prep | sceneformsrc/sceneform/src/main/java/com/google/ar/sceneform/lullmodel/ModelIndexRange.java:22 | `prep(size, additional)` adds fewer than `size` zero bytes, the fewest after which writing `additional` more bytes ends on a multiple of `size`. Earlier bytes are kept. |
| FlatBuilder.PaddingAligns | sceneformsrc/sceneform/src/main/java/com/google/ar/sceneform/lullmodel/ModelIndexRange.java:22 | Padding by `(-x) mod size` brings `x` to a multiple of `size`. |
| FlatBuilder.PutInt | sceneformsrc/sceneform/src/main/java/com/google/ar/sceneform/lullmodel/ModelIndexRange.java:23-24 | `putInt(x)` grows the builder by 4 bytes, keeps everything written before, and the 4 new bytes decode back to `x`. |
| ByteBuffer.GetInt | sceneformsrc/sceneform/src/main/java/com/google/ar/sceneform/lullmodel/ModelIndexRange.java:18-19 | `getInt(index)` succeeds exactly when `[index, index + 4)` lies inside the buffer, and then returns the little-endian word stored there. |
| ByteBuffer.GetIntReadsEncoding | sceneformsrc/sceneform/src/main/java/com/google/ar/sceneform/lullmodel/ModelIndexRange.java:18-19 | `getInt(index)` returns `w` if and only if the four bytes at `index` are inside the buffer and encode `w`. |
| ByteBuffer.DecodeEncodeWord | sceneformsrc/sceneform/src/main/java/com/google/ar/sceneform/lullmodel/ModelIndexRange.java:23-24 | Decoding the four little-endian bytes of a word gives the word back. |
| ByteBuffer.EncodeDecodeWord | sceneformsrc/sceneform/src/main/java/com/google/ar/sceneform/lullmodel/ModelIndexRange.java:18-19 | Encoding the word that four bytes decode to gives the same four bytes back. |
| ByteBuffer.EncodeWordInjective | sceneformsrc/sceneform/src/main/java/com/google/ar/sceneform/lullmodel/ModelIndexRange.java:23-24 | Two words have the same bytes if and only if they are equal. |
| ByteBuffer.EncodeWordBytes | sceneformsrc/sceneform/src/main/java/com/google/ar/sceneform/lullmodel/ModelIndexRange.java:23-24 | The encoding of `w`, byte by byte: `w mod 256` first, up to the most significant byte `w / 2^24` last. |
| JavaInts.NarrowLong | sceneformsrc/sceneform/src/main/java/com/google/ar/sceneform/lullmodel/ModelIndexRange.java:23-24 | The `(int)` cast of a `long` gives an `int` congruent to it modulo 2^32. The result equals the `long` when it fits in an `int`. |
| JavaInts.UnsignedInt | sceneformsrc/sceneform/src/main/java/com/google/ar/sceneform/lullmodel/ModelIndexRange.java:18-19 | `(long) i & 0xFFFFFFFFL` is never negative and below 2^32. It equals `i` when `i >= 0` and `i + 2^32` when `i < 0`. |
| JavaInts.AddInt | sceneformsrc/sceneform/src/main/java/com/google/ar/sceneform/lullmodel/ModelIndexRange.java:19 | `bb_pos + 4` on Java `int`s is the exact sum when that fits. Otherwise it wraps by 2^32 and changes sign. |

## Left out

- The `Struct` base class is left out. Its `bb` and `bb_pos` fields become the
  immutable `ModelIndexRange` value. `__assign` returning `this` becomes a
  function that returns the rebound view, and object identity is not modelled.
- A view that was never bound is left out. In Java, calling `start()` or
  `end()` before any `__init` finds `bb == null` and throws
  `NullPointerException`. A `ModelIndexRange` value here always holds a
  buffer, so that error path does not arise.
- Purity of `start()` and `end()` is not a separate lemma. It holds by
  construction: they are functions of the view.
- The growth of `FlatBufferBuilder` is left out. This covers reallocating and
  copying into a larger buffer, the 2 GB size limit, and the `minalign`
  bookkeeping of `prep`. None of them changes the bytes or the offsets seen
  here.
- FlatBuilder.Prep: `prep` computes its padding with the mask
  `(~x + 1) & (size - 1)`, while the model uses `(-x) mod size`. The two agree
  for the power-of-two sizes FlatBuffers uses, which includes the `4` used
  here.
- LullModel.CreateModelIndexRange: the returned offset is an unbounded
  natural rather than a Java `int`, because the builder's 2 GB limit is left
  out.
- The `ByteBuffer`'s byte order is fixed to little-endian, as the FlatBuffers
  format requires. Byte-order configuration is not modelled.
- Java exceptions are returned as values. A read outside the buffer returns
  `Err(IndexOutOfBounds)` instead of throwing `IndexOutOfBoundsException`.
- Whether `end` is inclusive or exclusive is not encoded. The schema does not
  say, and the code enforces no relation between `start` and `end`.
