/**
 The FlatBuffers struct `ModelIndexRange` of the lull model schema: the range
 of indices of one draw call, two unsigned 32-bit fields laid out in 8 bytes,

   offset 0: start (little-endian)
   offset 4: end   (little-endian)

 Reading goes through a view, a position in a byte buffer; writing prepends
 the 8 bytes to a FlatBuffers builder. Both fields travel as Java `long`s
 so that the full unsigned 32-bit range fits. Whether
 `end` is inclusive or exclusive is not decided here, and no relation between
 `start` and `end` is enforced.
 */
module LullModel {
  import opened JavaInts
  import opened ByteBuffer
  import opened FlatBuilder

  /** A view of the struct: the buffer `bb` and the struct's position `bbPos` in it. */
  datatype ModelIndexRange = ModelIndexRange(bb: Buffer, bbPos: Int32)

  /** `__init(_i, _bb)`: binds the view to position `i` of `bb`. */
  function Init(i: Int32, bb: Buffer): (r: ModelIndexRange)
    ensures r.bb == bb && r.bbPos == i
  {
    ModelIndexRange(bb, i)
  }

  /** `v.__assign(_i, _bb)`: rebinds `v` and returns it. Both fields of the
      result are fixed by `i` and `bb`, so nothing of the old binding survives. */
  function Assign(v: ModelIndexRange, i: Int32, bb: Buffer): (r: ModelIndexRange)
    ensures r.bb == bb && r.bbPos == i
  {
    Init(i, bb)
  }

  /** The whole 8-byte record lies inside the buffer. */
  predicate InBounds(v: ModelIndexRange)
  {
    0 <= v.bbPos && v.bbPos + 8 <= |v.bb|
  }

  /** `(long) bb.getInt(index) & 0xFFFFFFFFL`. */
  function UnsignedAt(bb: Buffer, index: Int32): (r: Result<Int64>)
  {
    match GetInt(bb, index)
    case Ok(x) => Ok(UnsignedInt(x))
    case Err(e) => Err(e)
  }

  /** `start()`: the little-endian word in bytes `[bbPos, bbPos + 4)`, read as
      an unsigned number, so never a negative `long`. */
  function Start(v: ModelIndexRange): (r: Result<Int64>)
    ensures r.Ok? <==> 0 <= v.bbPos && v.bbPos + 4 <= |v.bb|
    ensures r.Ok? ==> 0 <= r.value < TWO_32
    ensures r.Ok? ==> r.value == DecodeWord(v.bb[v.bbPos..v.bbPos + 4])
  {
    UnsignedAt(v.bb, AddInt(v.bbPos, 0))
  }

  /** `end()`: the little-endian word in bytes `[bbPos + 4, bbPos + 8)`, read
      as an unsigned number. A position so large that `bbPos + 4` wraps around
      fails like any other position outside the buffer. */
  function End(v: ModelIndexRange): (r: Result<Int64>)
    ensures r.Ok? <==> 0 <= v.bbPos + 4 && v.bbPos + 8 <= |v.bb|
    ensures r.Ok? ==> 0 <= r.value < TWO_32
    ensures r.Ok? ==> r.value == DecodeWord(v.bb[v.bbPos + 4..v.bbPos + 8])
  {
    UnsignedAt(v.bb, AddInt(v.bbPos, 4))
  }

  /** The struct's 8 bytes: the low 32 bits of `start`, then those of `end`,
      each little-endian. */
  function StructBytes(start: Int64, end: Int64): (r: seq<Byte>)
    ensures |r| == 8
  {
    EncodeWord(Low32(start)) + EncodeWord(Low32(end))
  }

  /** `after` and `offset` are what writing the struct `(start, end)` on top of
      `before` leaves: the struct's 8 bytes, then the least zero padding that
      makes the offset a multiple of 4, then everything written before, at
      the same distance from the end. */
  ghost predicate WritesStruct(before: Builder, start: Int64, end: Int64, after: Builder, offset: nat)
  {
    && offset == Offset(after)
    && offset % 4 == 0
    && Offset(before) + 8 <= offset < Offset(before) + 12
    && after.data[offset - Offset(before)..] == before.data
    && (forall i :: 8 <= i < offset - Offset(before) ==> after.data[i] == 0)
    && after.data[..8] == StructBytes(start, end)
  }

  /** `createModelIndexRange(builder, start, end)`: aligns the builder to 4
      bytes for an 8-byte struct, prepends `(int) end`, then `(int) start`, and
      returns the grown builder with its new offset. */
  method CreateModelIndexRange(builder: Builder, start: Int64, end: Int64) returns (built: Builder, offset: nat)
    ensures WritesStruct(builder, start, end, built, offset)
  {
    var aligned := Prep(builder, 4, 8);
    var withEnd := PutInt(aligned, NarrowLong(end));
    built := PutInt(withEnd, NarrowLong(start));
    offset := Offset(built);
    TwoIntsLaidOut(aligned, NarrowLong(end), NarrowLong(start));
    WritesStructIntro(builder, start, end, aligned, built);
  }

  /** What `prep(4, 8)` followed by the struct's 8 bytes leaves is a struct write. */
  lemma WritesStructIntro(before: Builder, start: Int64, end: Int64, aligned: Builder, after: Builder)
    requires (Offset(aligned) + 8) % 4 == 0
    requires Offset(before) <= Offset(aligned) < Offset(before) + 4
    requires aligned.data[Offset(aligned) - Offset(before)..] == before.data
    requires forall i :: 0 <= i < Offset(aligned) - Offset(before) ==> aligned.data[i] == 0
    requires Offset(after) == Offset(aligned) + 8
    requires after.data[..8] == StructBytes(start, end)
    requires after.data[8..] == aligned.data
    ensures WritesStruct(before, start, end, after, Offset(after))
  {
    var pad := Offset(aligned) - Offset(before);
    assert after.data[8 + pad..] == aligned.data[pad..];
    forall i | 8 <= i < 8 + pad
      ensures after.data[i] == 0
    {
      assert after.data[i] == aligned.data[i - 8];
    }
  }

  /** Two `putInt`s leave the second word's bytes in front of the first's. */
  lemma TwoIntsLaidOut(b: Builder, first: Word, second: Word)
    ensures var r := PutInt(PutInt(b, first), second);
            r.data[..8] == EncodeWord(second) + EncodeWord(first) && r.data[8..] == b.data
  {
    var r := PutInt(PutInt(b, first), second);
    var low, high := r.data[..4], r.data[4..8];
    assert high == PutInt(b, first).data[..4];
    EncodeDecodeWord(low);
    EncodeDecodeWord(high);
    assert r.data[..8] == low + high;
  }

  // ---------------------------------------------------------------------------
  // Reading
  // ---------------------------------------------------------------------------

  /** A stored word with the high bit set is a negative `int` to `getInt`
      (here -1) but reads back as the non-negative `long` 4294967295. */
  lemma HighBitReadsUnsigned()
    ensures var bb: Buffer := [0xFF, 0xFF, 0xFF, 0xFF, 0x00, 0x00, 0x00, 0x80];
            && GetInt(bb, 0) == Ok(0xFFFF_FFFF)
            && IntValue(GetInt(bb, 0).value) == -1
            && Start(Init(0, bb)) == Ok(4294967295)
            && End(Init(0, bb)) == Ok(2147483648)
  {
    var bb: Buffer := [0xFF, 0xFF, 0xFF, 0xFF, 0x00, 0x00, 0x00, 0x80];
    assert bb[0..4] == [0xFF, 0xFF, 0xFF, 0xFF];
    assert bb[4..8] == [0x00, 0x00, 0x00, 0x80];
  }

  /** After `__assign(i, bb)` both fields are read from the bytes at `i`,
      whatever the view was bound to before: `start` is `s` exactly when
      bytes `[i, i + 4)` encode `s`, and `end` is `e` exactly when bytes
      `[i + 4, i + 8)` encode `e`. */
  lemma AssignReadsAt(v: ModelIndexRange, i: Int32, bb: Buffer, s: Word, e: Word)
    requires 0 <= i && i + 8 <= |bb|
    ensures Start(Assign(v, i, bb)) == Ok(s) <==> bb[i..i + 4] == EncodeWord(s)
    ensures End(Assign(v, i, bb)) == Ok(e) <==> bb[i + 4..i + 8] == EncodeWord(e)
  {
    assert Assign(v, i, bb) == Init(i, bb);
    StartReadsEncoding(bb, i, s);
    EndReadsEncoding(bb, i, e);
  }

  /** `start()` reads exactly the bytes `[bbPos, bbPos + 4)`: two views at the
      same position agree on it exactly when they agree on those bytes. */
  lemma StartReadsExactlyItsBytes(v: ModelIndexRange, w: ModelIndexRange)
    requires v.bbPos == w.bbPos
    requires 0 <= v.bbPos && v.bbPos + 4 <= |v.bb| && v.bbPos + 4 <= |w.bb|
    ensures Start(v) == Start(w) <==> v.bb[v.bbPos..v.bbPos + 4] == w.bb[w.bbPos..w.bbPos + 4]
  {
    var p := v.bbPos;
    if Start(v) == Start(w) {
      EncodeDecodeWord(v.bb[p..p + 4]);
      EncodeDecodeWord(w.bb[p..p + 4]);
    }
  }

  /** `end()` reads exactly the bytes `[bbPos + 4, bbPos + 8)`, which do not
      overlap those of `start()`. */
  lemma EndReadsExactlyItsBytes(v: ModelIndexRange, w: ModelIndexRange)
    requires v.bbPos == w.bbPos
    requires 0 <= v.bbPos + 4 && v.bbPos + 8 <= |v.bb| && v.bbPos + 8 <= |w.bb|
    ensures End(v) == End(w) <==> v.bb[v.bbPos + 4..v.bbPos + 8] == w.bb[w.bbPos + 4..w.bbPos + 8]
  {
    var p := v.bbPos;
    if End(v) == End(w) {
      EncodeDecodeWord(v.bb[p + 4..p + 8]);
      EncodeDecodeWord(w.bb[p + 4..p + 8]);
    }
  }

  /** A view whose last four bytes would lie past the buffer's end can still
      read `start`, but `end()` fails with IndexOutOfBounds. */
  lemma EndPastBufferFails(bb: Buffer)
    requires 4 <= |bb|
    ensures Start(Init(|bb| - 4, bb)).Ok?
    ensures End(Init(|bb| - 4, bb)) == Err(IndexOutOfBounds)
  {
  }

  // ---------------------------------------------------------------------------
  // Writing and reading back
  // ---------------------------------------------------------------------------

  /** The struct written on top of `before`, read back through a view bound at
      its offset from the end of any later buffer that still ends with the
      builder's bytes, gives the low 32 bits of both arguments. No relation
      between `start` and `end` is required: `end < start` round-trips too. */
  lemma RoundTrip(before: Builder, start: Int64, end: Int64, after: Builder, offset: nat, later: seq<Byte>)
    requires WritesStruct(before, start, end, after, offset)
    requires |later| + Offset(after) < TWO_31
    ensures var bb: Buffer := later + after.data;
            var v := Init(|bb| - offset, bb);
            Start(v) == Ok(Low32(start)) && End(v) == Ok(Low32(end))
  {
    var bb: Buffer := later + after.data;
    var p := |later|;
    assert bb[p..p + 4] == after.data[..4] == after.data[..8][..4];
    assert bb[p + 4..p + 8] == after.data[4..8] == after.data[..8][4..];
    StartReadsEncoding(bb, p, Low32(start));
    EndReadsEncoding(bb, p, Low32(end));
  }

  /** A view at `p` reads `w` as `start` exactly when its first four bytes
      encode `w`. */
  lemma StartReadsEncoding(bb: Buffer, p: Int32, w: Word)
    requires 0 <= p && p + 4 <= |bb|
    ensures Start(Init(p, bb)) == Ok(w) <==> bb[p..p + 4] == EncodeWord(w)
  {
    EncodeDecodeWord(bb[p..p + 4]);
    DecodeEncodeWord(w);
  }

  /** A view at `p` reads `w` as `end` exactly when its second four bytes
      encode `w`. */
  lemma EndReadsEncoding(bb: Buffer, p: Int32, w: Word)
    requires 0 <= p && p + 8 <= |bb|
    ensures End(Init(p, bb)) == Ok(w) <==> bb[p + 4..p + 8] == EncodeWord(w)
  {
    EncodeDecodeWord(bb[p + 4..p + 8]);
    DecodeEncodeWord(w);
  }

  /** The other direction: writing the two values a view reads, into an empty
      builder, reproduces the 8 bytes they were read from. */
  lemma ReserializeReproducesBytes(v: ModelIndexRange, after: Builder, offset: nat)
    requires InBounds(v)
    requires Start(v).Ok? && End(v).Ok?
    requires WritesStruct(Builder([]), Start(v).value, End(v).value, after, offset)
    ensures after.data == v.bb[v.bbPos..v.bbPos + 8]
    ensures offset == 8
  {
    var p := v.bbPos;
    var low, high := v.bb[p..p + 4], v.bb[p + 4..p + 8];
    WriteOfDecodedWords(low, high, after, offset);
    assert v.bb[p..p + 8] == low + high;
  }

  /** Writing the words two 4-byte windows decode to reproduces the windows. */
  lemma WriteOfDecodedWords(low: seq<Byte>, high: seq<Byte>, after: Builder, offset: nat)
    requires |low| == 4 && |high| == 4
    requires WritesStruct(Builder([]), DecodeWord(low), DecodeWord(high), after, offset)
    ensures after.data == low + high
    ensures offset == 8
  {
    EncodeDecodeWord(low);
    EncodeDecodeWord(high);
    Low32OfWord(DecodeWord(low));
    Low32OfWord(DecodeWord(high));
    WriteIntoEmpty(DecodeWord(low), DecodeWord(high), after, offset);
  }

  /** Into an empty builder the struct is written with no padding: the result
      is exactly its 8 bytes, at offset 8. */
  lemma WriteIntoEmpty(start: Int64, end: Int64, after: Builder, offset: nat)
    requires WritesStruct(Builder([]), start, end, after, offset)
    ensures offset == 8
    ensures after.data == StructBytes(start, end)
  {
    var k := offset / 4;
    assert offset == 4 * k;
    assert |after.data| == 8;
    assert after.data == after.data[..8];
  }

  /** The padding is fixed by the builder's offset, so the offset is too. */
  lemma WriteOffsetDetermined(before: Builder, start1: Int64, end1: Int64, after1: Builder, offset1: nat,
                              start2: Int64, end2: Int64, after2: Builder, offset2: nat)
    requires WritesStruct(before, start1, end1, after1, offset1)
    requires WritesStruct(before, start2, end2, after2, offset2)
    ensures offset1 == offset2
  {
    var k1, k2 := offset1 / 4, offset2 / 4;
    assert offset1 == 4 * k1 && offset2 == 4 * k2;
  }

  /** Only the low 32 bits of each argument are stored: two writes on the same
      builder leave the same bytes exactly when the arguments agree in their
      low 32 bits. */
  lemma TruncationIff(before: Builder, start1: Int64, end1: Int64, after1: Builder, offset1: nat,
                      start2: Int64, end2: Int64, after2: Builder, offset2: nat)
    requires WritesStruct(before, start1, end1, after1, offset1)
    requires WritesStruct(before, start2, end2, after2, offset2)
    ensures offset1 == offset2
    ensures after1 == after2 <==> Low32(start1) == Low32(start2) && Low32(end1) == Low32(end2)
  {
    WriteOffsetDetermined(before, start1, end1, after1, offset1, start2, end2, after2, offset2);
    var pad := offset1 - Offset(before);
    var s1, s2 := EncodeWord(Low32(start1)), EncodeWord(Low32(start2));
    var e1, e2 := EncodeWord(Low32(end1)), EncodeWord(Low32(end2));
    EncodeWordInjective(Low32(start1), Low32(start2));
    EncodeWordInjective(Low32(end1), Low32(end2));
    if after1 == after2 {
      assert s1 + e1 == s2 + e2;
      assert s1 == (s1 + e1)[..4] && s2 == (s2 + e2)[..4];
      assert e1 == (s1 + e1)[4..] && e2 == (s2 + e2)[4..];
    } else {
      assert after1.data == after1.data[..8] + after1.data[8..pad] + after1.data[pad..];
      assert after2.data == after2.data[..8] + after2.data[8..pad] + after2.data[pad..];
      assert after1.data[8..pad] == after2.data[8..pad];
    }
  }

  /** `0x1_0000_0005` is stored exactly like `5`. */
  lemma TruncationExample(before: Builder, end: Int64, after: Builder, offset: nat)
    ensures WritesStruct(before, 0x1_0000_0005, end, after, offset) <==> WritesStruct(before, 5, end, after, offset)
  {
    assert Low32(0x1_0000_0005) == Low32(5);
  }

  /** Into an empty builder, `(start = 1, end = 5)` is the 8 bytes
      `01 00 00 00 05 00 00 00` at offset 8. */
  lemma LayoutExample(after: Builder, offset: nat)
    requires WritesStruct(Builder([]), 1, 5, after, offset)
    ensures after == Builder([1, 0, 0, 0, 5, 0, 0, 0]) && offset == 8
  {
    WriteIntoEmpty(1, 5, after, offset);
    EncodeWordBytes(1);
    EncodeWordBytes(5);
  }

  /** Two structs written one after the other occupy disjoint 8-byte regions,
      and each reads back its own values from the final buffer. */
  lemma ConsecutiveStructsIndependent(b0: Builder, start1: Int64, end1: Int64, b1: Builder, offset1: nat,
                                      start2: Int64, end2: Int64, b2: Builder, offset2: nat)
    requires WritesStruct(b0, start1, end1, b1, offset1)
    requires WritesStruct(b1, start2, end2, b2, offset2)
    requires Offset(b2) < TWO_31
    ensures offset1 + 8 <= offset2
    ensures var bb: Buffer := b2.data;
            && Start(Init(|bb| - offset1, bb)) == Ok(Low32(start1))
            && End(Init(|bb| - offset1, bb)) == Ok(Low32(end1))
            && Start(Init(|bb| - offset2, bb)) == Ok(Low32(start2))
            && End(Init(|bb| - offset2, bb)) == Ok(Low32(end2))
  {
    var earlier := b2.data[..offset2 - offset1];
    assert b2.data == earlier + b1.data;
    RoundTrip(b0, start1, end1, b1, offset1, earlier);
    assert b2.data == [] + b2.data;
    RoundTrip(b1, start2, end2, b2, offset2, []);
  }
}
