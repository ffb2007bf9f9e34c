/**
 * Model of PicToLev/include/binary_serialization.h.
 *
 * An output stream is modelled as the sequence of bytes written to it so far
 * (class ByteStream); every write appends. `write_binary` for an integral type
 * of `size` bytes converts the value to the unsigned type of the same width,
 * then lets a generator peel off the low byte and shift the value right by
 * eight bits, filling a local buffer front-to-back (little endian) or
 * back-to-front (big endian), and finally writes the whole buffer.
 */
module BinarySerialization {

  import opened Arithmetic

  datatype Endian = Little | Big

  /** 256^n, the number of values an n-byte unsigned integer can hold. */
  function Pow256(n: nat): (p: nat)
    ensures p >= 1
    ensures n >= 1 ==> p >= 256
  {
    if n == 0 then 1 else 256 * Pow256(n - 1)
  }

  /** The n bytes the generator yields from u: lowest byte first. */
  function LittleEndian(u: nat, n: nat): (bytes: seq<byte>)
    ensures |bytes| == n
  {
    if n == 0 then [] else [(u % 256) as byte] + LittleEndian(u / 256, n - 1)
  }

  /** The n bytes of u written back-to-front: highest byte first. */
  function BigEndian(u: nat, n: nat): (bytes: seq<byte>)
    ensures |bytes| == n
  {
    if n == 0 then [] else BigEndian(u / 256, n - 1) + [(u % 256) as byte]
  }

  /** The value a little-endian byte sequence denotes. */
  function FromLittleEndian(bytes: seq<byte>): (u: nat)
    ensures u < Pow256(|bytes|)
  {
    if bytes == [] then 0
    else
      var rest := FromLittleEndian(bytes[1..]);
      assert 256 * rest <= 256 * (Pow256(|bytes| - 1) - 1);
      bytes[0] as nat + 256 * rest
  }

  function Reversed<T>(s: seq<T>): seq<T>
  {
    seq(|s|, i requires 0 <= i < |s| => s[|s| - 1 - i])
  }

  /** `std::make_unsigned_t<T>`: an integer of `size` bytes taken modulo 256^size. */
  function Unsigned(value: int, size: nat): (u: nat)
    ensures u < Pow256(size)
  {
    value % Pow256(size)
  }

  /** The bytes `write_binary<endian>` emits for a `size`-byte integer. */
  function Encode(value: int, size: nat, endian: Endian): seq<byte>
  {
    match endian
    case Little => LittleEndian(Unsigned(value, size), size)
    case Big => BigEndian(Unsigned(value, size), size)
  }

  /** Byte i of the little-endian output is (u >> 8i) mod 256. */
  lemma {:induction false} LittleEndianByte(u: nat, n: nat, i: nat)
    requires i < n
    ensures LittleEndian(u, n)[i] == ((u / Pow256(i)) % 256) as byte
  {
    if i > 0 {
      LittleEndianByte(u / 256, n - 1, i - 1);
      DivDiv(u, 256, Pow256(i - 1));
    }
  }

  /** Reading the little-endian output back yields the unsigned value. */
  lemma {:induction false} LittleEndianRoundTrip(u: nat, n: nat)
    requires u < Pow256(n)
    ensures FromLittleEndian(LittleEndian(u, n)) == u
  {
    if n > 0 {
      var bytes := LittleEndian(u, n);
      assert bytes[1..] == LittleEndian(u / 256, n - 1);
      assert u / 256 < Pow256(n - 1);
      LittleEndianRoundTrip(u / 256, n - 1);
      assert FromLittleEndian(bytes) == u % 256 + 256 * (u / 256);
    }
  }

  /** Every byte sequence is the little-endian output of the value it denotes. */
  lemma {:induction false} FromLittleEndianRoundTrip(bytes: seq<byte>)
    ensures LittleEndian(FromLittleEndian(bytes), |bytes|) == bytes
  {
    if bytes != [] {
      var rest := FromLittleEndian(bytes[1..]);
      var u := bytes[0] as nat + 256 * rest;
      DivUnique(u, 256, rest, bytes[0] as nat);
      FromLittleEndianRoundTrip(bytes[1..]);
      assert LittleEndian(u, |bytes|) == [bytes[0]] + bytes[1..];
    }
  }

  /** A value below 256 written as a little-endian `uint16`: the value, then a zero byte. */
  lemma SmallLittleEndian16(v: nat)
    requires v < 256
    ensures Encode(v, 2, Little) == [v as byte, 0]
  {
    assert Pow256(2) == 0x1_0000;
    assert Unsigned(v, 2) == v;
    assert LittleEndian(0, 0) == [];
    assert LittleEndian(v / 256, 1) == [0];
  }

  /** Big-endian output is the little-endian output reversed. */
  lemma {:induction false} BigEndianIsReversed(u: nat, n: nat)
    ensures BigEndian(u, n) == Reversed(LittleEndian(u, n))
  {
    if n > 0 {
      BigEndianIsReversed(u / 256, n - 1);
      var le := LittleEndian(u, n);
      assert le[1..] == LittleEndian(u / 256, n - 1);
      assert Reversed(le) == Reversed(le[1..]) + [le[0]];
    }
  }

  /**
   * The buffer `write_binary` fills: the generator shifts `uValue` right by
   * one byte per call; little endian fills front-to-back, big endian
   * back-to-front (`std::rbegin`).
   */
  method GenerateBytes(value: int, size: nat, endian: Endian) returns (buffer: seq<byte>)
    requires size > 1
    ensures |buffer| == size
    ensures buffer == Encode(value, size, endian)
  {
    var uValue: nat := Unsigned(value, size);
    ghost var u0 := uValue;
    ghost var produced: seq<byte> := [];
    var a := new byte[size];
    var i := 0;
    while i < size
      invariant 0 <= i <= size && |produced| == i
      invariant produced + LittleEndian(uValue, size - i) == LittleEndian(u0, size)
      invariant endian == Little ==> a[..i] == produced
      invariant endian == Big ==> a[size - i..] == Reversed(produced)
    {
      var result := (uValue % 256) as byte;
      PeelByte(produced, uValue, size - i);
      uValue := uValue / 256;
      if endian == Little {
        a[i] := result;
        assert a[..i + 1] == produced + [result];
      } else {
        ghost var tail := a[size - i..];
        a[size - 1 - i] := result;
        assert a[size - 1 - i..] == [result] + tail;
        ReversedSnoc(produced, result);
      }
      produced := produced + [result];
      i := i + 1;
    }
    buffer := a[..];
    if endian == Big {
      BigEndianIsReversed(u0, size);
      assert buffer == a[size - i..];
    }
  }

  lemma ReversedSnoc<T>(s: seq<T>, x: T)
    ensures Reversed(s + [x]) == [x] + Reversed(s)
  {
  }

  /** The generator's step: yielding the low byte leaves the bytes of the shifted value still to come. */
  lemma PeelByte(produced: seq<byte>, u: nat, n: nat)
    requires n > 0
    ensures (produced + [(u % 256) as byte]) + LittleEndian(u / 256, n - 1) == produced + LittleEndian(u, n)
  {
  }

  /** `std::ostream` opened in binary mode: the bytes written so far. */
  class ByteStream {
    var bytes: seq<byte>

    constructor ()
      ensures bytes == []
    {
      bytes := [];
    }

    /** `write_buffer`: `stream.write(buffer, N)`. */
    method WriteBuffer(buffer: seq<byte>)
      modifies this
      ensures bytes == old(bytes) + buffer
    {
      bytes := bytes + buffer;
    }

    /** The one-byte overload of `write_binary`: `stream.put(value)`. */
    method WriteByte(value: byte)
      modifies this
      ensures bytes == old(bytes) + [value]
    {
      bytes := bytes + [value];
    }

    /** `write_binary<endian>` for an integral type of `size` > 1 bytes. */
    method WriteBinary(value: int, size: nat, endian: Endian)
      requires size > 1
      modifies this
      ensures bytes == old(bytes) + Encode(value, size, endian)
      ensures |bytes| == |old(bytes)| + size
    {
      var buffer := GenerateBytes(value, size, endian);
      WriteBuffer(buffer);
    }
  }
}
