/**
 The part of FlatBuffers' `FlatBufferBuilder` that the serializer uses. The
 builder fills its buffer back to front, so the bytes written so far are
 modelled as one sequence that is only ever prepended to; `Offset` is the
 distance of the write position from the end of the buffer, i.e. the number
 of bytes written. Assumption: `prep(size, additional)` pads with zero bytes
 until `additional` more bytes would leave the write position `size`-aligned,
 and `putInt` prepends the four little-endian bytes of an `int`.
 */
module FlatBuilder {
  import opened JavaInts
  import opened ByteBuffer

  datatype Builder = Builder(data: seq<Byte>)

  /** `builder.offset()`: how far the write position is from the buffer's end. */
  function Offset(b: Builder): (r: nat)
  {
    |b.data|
  }

  function Zeros(n: nat): (r: seq<Byte>)
    ensures |r| == n
    ensures forall i :: 0 <= i < n ==> r[i] == 0
  {
    seq(n, _ => 0)
  }

  /** `builder.pad(n)`: writes `n` zero bytes. */
  function Pad(b: Builder, n: nat): (r: Builder)
    ensures Offset(r) == Offset(b) + n
    ensures r.data[n..] == b.data
    ensures forall i :: 0 <= i < n ==> r.data[i] == 0
  {
    Builder(Zeros(n) + b.data)
  }

  /** `builder.prep(size, additional)`: the least zero padding after which
      writing `additional` more bytes ends on a multiple of `size`. */
  function Prep(b: Builder, size: nat, additional: nat): (r: Builder)
    requires size > 0
    ensures (Offset(r) + additional) % size == 0
    ensures Offset(b) <= Offset(r) < Offset(b) + size
    ensures r.data[Offset(r) - Offset(b)..] == b.data
    ensures forall i :: 0 <= i < Offset(r) - Offset(b) ==> r.data[i] == 0
  {
    var padding := (-(Offset(b) + additional)) % size;
    PaddingAligns(Offset(b) + additional, size);
    Pad(b, padding)
  }

  /** Adding `(-x) % size` to `x` reaches a multiple of `size`. */
  lemma PaddingAligns(x: int, size: nat)
    requires size > 0
    ensures (x + (-x) % size) % size == 0
  {
    var q := (-x) / size;
    assert (-x) % size == -x - size * q;
    assert x + (-x) % size == size * (-q);
    MultipleMod(-q, size);
  }

  lemma MultipleMod(k: int, size: nat)
    requires size > 0
    ensures (size * k) % size == 0
  {
    var r := (size * k) % size;
    var d := (size * k) / size;
    assert size * k == size * d + r;
    assert size * (k - d) == r by {
      assert size * k - size * d == size * (k - d);
    }
    if k - d >= 1 {
      AtLeastOneMultiple(k - d, size);
    } else if k - d <= -1 {
      AtLeastOneMultiple(d - k, size);
    }
  }

  lemma AtLeastOneMultiple(m: int, size: nat)
    requires m >= 1
    ensures size * m >= size
  {
    assert size * m == size * (m - 1) + size;
    assert size * (m - 1) >= 0;
  }

  /** `builder.putInt(x)`: writes the four little-endian bytes of `x`. */
  function PutInt(b: Builder, x: Word): (r: Builder)
    ensures Offset(r) == Offset(b) + 4
    ensures r.data[4..] == b.data
    ensures DecodeWord(r.data[..4]) == x
  {
    DecodeEncodeWord(x);
    Builder(EncodeWord(x) + b.data)
  }
}
