/**
 The part of `java.nio.ByteBuffer` that the accessor uses, as an immutable
 byte sequence: absolute little-endian `getInt(index)`. Assumptions: the
 buffer's byte order is little-endian, as the FlatBuffers binary format
 requires; an index whose four bytes are not all inside the buffer makes
 `getInt` fail with IndexOutOfBounds, which is returned as an error value
 instead of thrown.
 */
module ByteBuffer {
  import opened JavaInts

  type Byte = x: int | 0 <= x < 256

  /** The bytes of a buffer below its limit, the bound `getInt` checks an
      index against; a limit is a Java `int`, so at most `Integer.MAX_VALUE`. */
  type Buffer = s: seq<Byte> | |s| < TWO_31 witness []

  datatype Error = IndexOutOfBounds

  datatype Result<T> = Ok(value: T) | Err(error: Error)

  /** The `count` low-order bytes of `n`, least significant first. */
  function LittleEndian(n: nat, count: nat): (r: seq<Byte>)
    ensures |r| == count
    decreases count
  {
    if count == 0 then [] else [n % 256] + LittleEndian(n / 256, count - 1)
  }

  /** The four bytes of the word `w`, least significant first. */
  function EncodeWord(w: Word): (r: seq<Byte>)
    ensures |r| == 4
  {
    LittleEndian(w, 4)
  }

  /** The word whose little-endian bytes are `b`. */
  function DecodeWord(b: seq<Byte>): (r: Word)
    requires |b| == 4
  {
    b[0] as int + 256 * (b[1] as int) + 0x1_0000 * (b[2] as int) + 0x100_0000 * (b[3] as int)
  }

  /** `EncodeWord` spelled out byte by byte. */
  lemma EncodeWordBytes(w: Word)
    ensures EncodeWord(w) == [w % 256, w / 256 % 256, w / 256 / 256 % 256, w / 256 / 256 / 256]
  {
    var q1 := w / 256;
    var q2 := q1 / 256;
    var q3 := q2 / 256;
    assert q3 < 256 && q3 / 256 == 0;
    assert LittleEndian(q3, 1) == [q3 % 256] + LittleEndian(q3 / 256, 0);
    assert LittleEndian(q2, 2) == [q2 % 256] + LittleEndian(q3, 1);
    assert LittleEndian(q1, 3) == [q1 % 256] + LittleEndian(q2, 2);
    assert LittleEndian(w, 4) == [w % 256] + LittleEndian(q1, 3);
  }

  /** Division by 256 is determined by quotient and remainder. */
  lemma Split256(x: int, q: int, r: int)
    requires 0 <= r < 256 && x == 256 * q + r
    ensures x / 256 == q && x % 256 == r
  {
  }

  /** Decoding the encoding of a word gives the word back. */
  lemma DecodeEncodeWord(w: Word)
    ensures DecodeWord(EncodeWord(w)) == w
  {
    EncodeWordBytes(w);
    var q1 := w / 256;
    var q2 := q1 / 256;
    var q3 := q2 / 256;
    assert w == w % 256 + 256 * q1;
    assert q1 == q1 % 256 + 256 * q2;
    assert q2 == q2 % 256 + 256 * q3;
  }

  /** Encoding the decoding of four bytes gives the bytes back. */
  lemma EncodeDecodeWord(b: seq<Byte>)
    requires |b| == 4
    ensures EncodeWord(DecodeWord(b)) == b
  {
    var w := DecodeWord(b);
    var q2 := b[2] as int + 256 * (b[3] as int);
    var q1 := b[1] as int + 256 * q2;
    Split256(w, q1, b[0] as int);
    Split256(q1, q2, b[1] as int);
    Split256(q2, b[3] as int, b[2] as int);
    Split256(b[3] as int, 0, b[3] as int);
    EncodeWordBytes(w);
  }

  /** Two words are equal exactly when their encodings are. */
  lemma EncodeWordInjective(v: Word, w: Word)
    ensures EncodeWord(v) == EncodeWord(w) <==> v == w
  {
    if EncodeWord(v) == EncodeWord(w) {
      DecodeEncodeWord(v);
      DecodeEncodeWord(w);
    }
  }

  /** `bb.getInt(index)` on a little-endian buffer: the `int` whose four bytes
      are `[index, index + 4)`, or IndexOutOfBounds when they are not all
      inside the buffer. */
  function GetInt(bb: Buffer, index: Int32): (r: Result<Word>)
    ensures r.Ok? <==> 0 <= index && index + 4 <= |bb|
    ensures r.Ok? ==> r.value == DecodeWord(bb[index..index + 4])
  {
    if 0 <= index && index + 4 <= |bb| then
      Ok(DecodeWord(bb[index..index + 4]))
    else
      Err(IndexOutOfBounds)
  }

  /** `getInt` returns `w` exactly when the four bytes at `index` are inside
      the buffer and encode `w`. */
  lemma GetIntReadsEncoding(bb: Buffer, index: Int32, w: Word)
    ensures GetInt(bb, index) == Ok(w) <==> 0 <= index && index + 4 <= |bb| && bb[index..index + 4] == EncodeWord(w)
  {
    if 0 <= index && index + 4 <= |bb| {
      EncodeDecodeWord(bb[index..index + 4]);
      DecodeEncodeWord(w);
    }
  }
}
