/**
 Symbols as pairs of bytes, little endian, and the conversions of src/galois/scalar.rs.
 */
module Bytes {
  import opened GaloisField
  import opened LinearAlgebra

  type Byte = bv8

  function LoByte(s: Symbol): Byte {
    (s & 0xFF) as Byte
  }

  function HiByte(s: Symbol): Byte {
    (s >> 8) as Byte
  }

  function Join(lo: Byte, hi: Byte): Symbol {
    ((hi as Symbol) << 8) | (lo as Symbol)
  }

  lemma JoinBytes(s: Symbol)
    ensures Join(LoByte(s), HiByte(s)) == s
  {
  }

  lemma BytesOfJoin(lo: Byte, hi: Byte)
    ensures LoByte(Join(lo, hi)) == lo && HiByte(Join(lo, hi)) == hi
  {
  }

  /** A whole number of symbols from bytes; an odd last byte is dropped. */
  function ToSymbols(bytes: seq<Byte>): (r: Row)
    ensures |r| == |bytes| / 2
  {
    seq(|bytes| / 2, i requires 0 <= i < |bytes| / 2 => Join(bytes[2 * i], bytes[2 * i + 1]))
  }

  function ToBytes(row: Row): (r: seq<Byte>)
    ensures |r| == 2 * |row|
  {
    seq(2 * |row|, j requires 0 <= j < 2 * |row| => if j % 2 == 0 then LoByte(row[j / 2]) else HiByte(row[j / 2]))
  }

  lemma SymbolsOfBytes(row: Row)
    ensures ToSymbols(ToBytes(row)) == row
  {
    hide LoByte, HiByte, Join;
    forall i | 0 <= i < |row|
      ensures ToSymbols(ToBytes(row))[i] == row[i]
    {
      assert (2 * i) / 2 == i && (2 * i + 1) / 2 == i;
      JoinBytes(row[i]);
    }
  }

  lemma BytesOfSymbols(bytes: seq<Byte>)
    requires |bytes| % 2 == 0
    ensures ToBytes(ToSymbols(bytes)) == bytes
  {
    hide LoByte, HiByte, Join;
    forall j | 0 <= j < |bytes|
      ensures ToBytes(ToSymbols(bytes))[j] == bytes[j]
    {
      var i := j / 2;
      BytesOfJoin(bytes[2 * i], bytes[2 * i + 1]);
      assert j == 2 * i || j == 2 * i + 1;
    }
  }

  // ----- the conversion loops

  method BytesToU16(bytes: seq<Byte>, output: array<Symbol>)
    requires |bytes| == 2 * output.Length
    modifies output
    ensures output[..] == ToSymbols(bytes)
  {
    hide LoByte, HiByte, Join;
    for i := 0 to output.Length
      invariant forall k :: 0 <= k < i ==> output[k] == ToSymbols(bytes)[k]
    {
      output[i] := Join(bytes[2 * i], bytes[2 * i + 1]);
    }
  }

  method U16ToBytes(input: Row, bytes: array<Byte>)
    requires bytes.Length == 2 * |input|
    modifies bytes
    ensures bytes[..] == ToBytes(input)
  {
    hide LoByte, HiByte, Join;
    for i := 0 to |input|
      invariant forall k :: 0 <= k < 2 * i ==> bytes[k] == ToBytes(input)[k]
    {
      var offset := i * 2;
      bytes[offset] := LoByte(input[i]);
      bytes[offset + 1] := HiByte(input[i]);
    }
  }
}
