/**
 * The record codec: `long` fields written as 8 little-endian two's
 * complement bytes each, in order, into a caller-supplied fixed-size byte
 * array, and read back in the same order (BinaryWriter / BinaryReader over a
 * MemoryStream wrapping that array).
 */
module Helper {
  import opened Common

  const FieldSize: int := 8

  function Pow256(n: nat): (p: nat)
    ensures p >= 1
  {
    if n == 0 then 1 else 256 * Pow256(n - 1)
  }

  /** The n least significant base-256 digits of u, least significant first. */
  function LittleEndian(u: nat, n: nat): (b: seq<bv8>)
    ensures |b| == n
    ensures n > 0 ==> b[0] as int == u % 256
  {
    if n == 0 then [] else [ByteOf(u % 256)] + LittleEndian(u / 256, n - 1)
  }

  /** The unsigned number whose little-endian bytes are b. */
  function Unsigned(b: seq<bv8>): nat
  {
    if b == [] then 0 else b[0] as int + 256 * Unsigned(b[1..])
  }

  lemma {:induction false} UnsignedBound(b: seq<bv8>)
    ensures Unsigned(b) < Pow256(|b|)
  {
    if b != [] {
      UnsignedBound(b[1..]);
    }
  }

  lemma QuotientBound(u: nat, p: nat)
    requires u < 256 * p
    ensures u / 256 < p
  {
  }

  lemma {:induction false} UnsignedOfLittleEndian(u: nat, n: nat)
    requires u < Pow256(n)
    ensures Unsigned(LittleEndian(u, n)) == u
  {
    if n > 0 {
      QuotientBound(u, Pow256(n - 1));
      UnsignedOfLittleEndian(u / 256, n - 1);
      var b, t := LittleEndian(u, n), LittleEndian(u / 256, n - 1);
      assert b[1..] == t;
        assert b[0] as int == u % 256;
      assert Unsigned(b) == u % 256 + 256 * Unsigned(t);
    }
  }

  lemma {:induction false} LittleEndianOfUnsigned(b: seq<bv8>)
    ensures LittleEndian(Unsigned(b), |b|) == b
  {
    if b != [] {
      LittleEndianOfUnsigned(b[1..]);
      var u := Unsigned(b);
      assert u % 256 == b[0] as int && u / 256 == Unsigned(b[1..]);
      ByteOfValue(b[0]);
      assert [b[0]] + b[1..] == b;
    }
  }

  lemma Pow256Of8()
    ensures Pow256(8) == Two64
  {
  }

  /** BinaryWriter.Write(long): 8 bytes, little-endian, two's complement. */
  function EncodeInt64(x: Int64): (b: seq<bv8>)
    ensures |b| == FieldSize
  {
    LittleEndian(x % Two64, FieldSize)
  }

  /** BinaryReader.ReadInt64 / BitConverter.ToInt64 on 8 bytes. */
  function DecodeInt64(b: seq<bv8>): (x: Int64)
    requires |b| == FieldSize
    ensures (x - Unsigned(b)) % Two64 == 0
  {
    var u := Unsigned(b);
    UnsignedBound(b);
    Pow256Of8();
    if u > MaxInt64 then u - Two64 else u
  }

  /** The encoding is two's complement: the bytes, read as an unsigned little-endian number, are x modulo 2^64. */
  lemma EncodeIsTwosComplement(x: Int64)
    ensures Unsigned(EncodeInt64(x)) == x % Two64
  {
    Pow256Of8();
    UnsignedOfLittleEndian(x % Two64, FieldSize);
  }

  /** Decoding inverts encoding for every `long`, including 0, negatives, MinValue and MaxValue. */
  lemma DecodeEncode(x: Int64)
    ensures DecodeInt64(EncodeInt64(x)) == x
  {
    EncodeIsTwosComplement(x);
  }

  /** Encoding inverts decoding: every 8-byte word is the encoding of exactly one `long`. */
  lemma EncodeDecode(b: seq<bv8>)
    requires |b| == FieldSize
    ensures EncodeInt64(DecodeInt64(b)) == b
  {
    UnsignedBound(b);
    Pow256Of8();
    LittleEndianOfUnsigned(b);
  }

  function Zeros(n: nat): (z: seq<bv8>)
    ensures |z| == n && forall i :: 0 <= i < n ==> z[i] == 0
  {
    seq(n, _ => 0)
  }

  /** The bytes a sequence of Write(long) calls produces, in call order. */
  function EncodeFields(xs: seq<Int64>): (b: seq<bv8>)
    ensures |b| == FieldSize * |xs|
  {
    if xs == [] then [] else EncodeInt64(xs[0]) + EncodeFields(xs[1..])
  }

  /** Field i of an encoded sequence sits at offset 8*i, whatever follows it. */
  lemma {:induction false} FieldAt(xs: seq<Int64>, rest: seq<bv8>, i: nat)
    requires i < |xs|
    ensures (EncodeFields(xs) + rest)[FieldSize * i .. FieldSize * i + FieldSize] == EncodeInt64(xs[i])
  {
    if i > 0 {
      FieldAt(xs[1..], rest, i - 1);
      assert EncodeFields(xs) + rest == EncodeInt64(xs[0]) + (EncodeFields(xs[1..]) + rest);
    }
  }

  /** The values a sequence of n ReadInt64 calls from offset 0 returns. */
  function DecodeFields(b: seq<bv8>, n: nat): (xs: seq<Int64>)
    requires FieldSize * n <= |b|
    ensures |xs| == n
  {
    if n == 0 then [] else [DecodeInt64(b[..FieldSize])] + DecodeFields(b[FieldSize..], n - 1)
  }

  /** Reading n fields after writing n fields gives the written values back, whatever padding follows. */
  lemma {:induction false} DecodeEncodeFields(xs: seq<Int64>, padding: seq<bv8>)
    ensures DecodeFields(EncodeFields(xs) + padding, |xs|) == xs
  {
    if xs != [] {
      var b := EncodeFields(xs) + padding;
      assert b[..FieldSize] == EncodeInt64(xs[0]);
      assert b[FieldSize..] == EncodeFields(xs[1..]) + padding;
      DecodeEncode(xs[0]);
      DecodeEncodeFields(xs[1..], padding);
    }
  }

  /** `bytes.GetWriter()`: a cursor that writes the caller's own array from offset 0. */
  class Writer {
    const bytes: array<bv8>
    var position: nat

    constructor (bytes: array<bv8>)
      ensures this.bytes == bytes && position == 0
    {
      this.bytes := bytes;
      position := 0;
    }

    /**
     * Write(long): the eight bytes of x go at the cursor, which moves past
     * them; no other byte changes and the array keeps its length.
     */
    method Write(x: Int64)
      requires position + FieldSize <= bytes.Length
      modifies bytes, this`position
      ensures position == old(position) + FieldSize
      ensures bytes[..] == old(bytes[..position]) + EncodeInt64(x) + old(bytes[position + FieldSize..])
    {
      var b := EncodeInt64(x);
      forall i | 0 <= i < FieldSize {
        bytes[position + i] := b[i];
      }
      position := position + FieldSize;
    }
  }

  /** `bytes.GetReader()`: a cursor that reads the caller's own array from offset 0. */
  class Reader {
    const bytes: array<bv8>
    var position: nat

    constructor (bytes: array<bv8>)
      ensures this.bytes == bytes && position == 0
    {
      this.bytes := bytes;
      position := 0;
    }

    /** ReadInt64(): decodes the eight bytes at the cursor and moves past them. */
    method ReadInt64() returns (x: Int64)
      requires position + FieldSize <= bytes.Length
      modifies this`position
      ensures position == old(position) + FieldSize
      ensures x == DecodeInt64(bytes[old(position)..old(position) + FieldSize])
    {
      x := DecodeInt64(bytes[position..position + FieldSize]);
      position := position + FieldSize;
    }
  }
}
