/**
 The SSSE3 nibble-table multiply and multiply-add of src/galois/simd/x86/sse.rs: eight
 symbols at a time, their low and high bytes separated, four table lookups, the product
 bytes interleaved again.
 */
module Ssse3 {
  import opened GaloisField
  import opened Primitive
  import opened GaloisTables
  import opened LinearAlgebra
  import opened Bytes
  import opened Scalar
  import opened NibbleTables

  type V128 = s: seq<Byte> | |s| == 16 witness seq(16, _ => 0)

  // ----- the instructions

  /** _mm_shuffle_epi8: a selector with its top bit set gives zero. */
  function ShuffleEpi8(a: V128, b: V128): V128 {
    seq(16, j requires 0 <= j < 16 => if Zeroes(b[j]) then 0 else a[LowNibble(b[j])])
  }

  predicate Zeroes(selector: Byte) {
    selector & 0x80 != 0
  }

  function LowBits(b: Byte): Byte {
    b & 0x0F
  }

  /** The upper nibble of b, below the lower nibble of the byte above it. */
  function Spill(b: Byte, above: Byte): Byte {
    (b >> 4) | (above << 4)
  }

  /** _mm_and_si128 with 0x0f in every byte */
  function ClearHigh(v: V128): V128 {
    seq(16, j requires 0 <= j < 16 => LowBits(v[j]))
  }

  /** _mm_srli_epi64 by 4: bits move from a byte to the one below it in the same half. */
  function ShiftRight4(v: V128): V128 {
    seq(16, j requires 0 <= j < 16 => Spill(v[j], if j % 8 == 7 then 0 else v[j + 1]))
  }

  /** _mm_xor_si128 */
  function XorSi128(a: V128, b: V128): V128 {
    seq(16, j requires 0 <= j < 16 => XorByte(a[j], b[j]))
  }

  /** _mm_unpacklo_epi8 */
  function UnpackLow(a: V128, b: V128): V128 {
    seq(16, j requires 0 <= j < 16 => if j % 2 == 0 then a[j / 2] else b[j / 2])
  }

  // ----- one chunk of eight symbols

  function ByteMaskLow(): V128 {
    [0, 2, 4, 6, 8, 10, 12, 14, 0x80, 0x80, 0x80, 0x80, 0x80, 0x80, 0x80, 0x80]
  }

  function ByteMaskHigh(): V128 {
    [1, 3, 5, 7, 9, 11, 13, 15, 0x80, 0x80, 0x80, 0x80, 0x80, 0x80, 0x80, 0x80]
  }

  /** The four lookups of a product byte. */
  function Looked(table: seq<seq<Byte>>, low: V128, high: V128): V128
    requires |table| == 4 && forall i :: 0 <= i < 4 ==> |table[i]| == 16
  {
    var p0 := ShuffleEpi8(table[0], ClearHigh(low));
    var p1 := XorSi128(p0, ShuffleEpi8(table[1], ClearHigh(ShiftRight4(low))));
    var p2 := XorSi128(p1, ShuffleEpi8(table[2], ClearHigh(high)));
    XorSi128(p2, ShuffleEpi8(table[3], ClearHigh(ShiftRight4(high))))
  }

  function MulRegister(lut: Lut, v: V128): V128
    requires LutShape(lut)
  {
    var low, high := ShuffleEpi8(v, ByteMaskLow()), ShuffleEpi8(v, ByteMaskHigh());
    UnpackLow(Looked(lut.lo, low, high), Looked(lut.hi, low, high))
  }

  /** A nibble selects without zeroing, whatever the shift brought in above it. */
  lemma NibbleSelects(b: Byte, above: Byte)
    ensures !Zeroes(LowBits(b)) && LowNibble(LowBits(b)) == LowNibble(b)
    ensures LowNibble(Spill(b, above)) == HighNibble(b)
  {
    NibbleBits(b, above);
  }

  lemma NibbleBits(b: Byte, above: Byte)
    ensures (b & 0x0F) & 0x80 == 0 && (b & 0x0F) & 0x0F == b & 0x0F
    ensures ((b >> 4) | (above << 4)) & 0x0F == b >> 4
  {
  }

  /** A lookup by the low nibbles. */
  lemma LookupLowNibble(table: V128, v: V128, j: nat)
    requires j < 16
    ensures ShuffleEpi8(table, ClearHigh(v))[j] == table[LowNibble(v[j])]
  {
    hide Zeroes, LowBits, LowNibble, Spill;
    NibbleSelects(v[j], 0);
  }

  /** A lookup by the high nibbles: what the shift brings in from the byte above is cleared. */
  lemma LookupHighNibble(table: V128, v: V128, j: nat)
    requires j < 16
    ensures ShuffleEpi8(table, ClearHigh(ShiftRight4(v)))[j] == table[HighNibble(v[j])]
  {
    hide LowNibble, HighNibble, Spill, ShuffleEpi8, ClearHigh;
    NibbleSelects(v[j], if j % 8 == 7 then 0 else v[j + 1]);
    LookupLowNibble(table, ShiftRight4(v), j);
  }

  /** The masks pick the low and the high bytes of the symbols. */
  lemma Separated(v: V128, j: nat)
    requires j < 8
    ensures ShuffleEpi8(v, ByteMaskLow())[j] == v[2 * j] && ShuffleEpi8(v, ByteMaskHigh())[j] == v[2 * j + 1]
  {
    SelectorValues();
    assert !Zeroes(ByteMaskLow()[j]) && !Zeroes(ByteMaskHigh()[j]);
    assert LowNibble(ByteMaskLow()[j]) == 2 * j && LowNibble(ByteMaskHigh()[j]) == 2 * j + 1;
  }

  lemma SelectorValues()
    ensures LowNibble(0) == 0 && LowNibble(2) == 2 && LowNibble(4) == 4 && LowNibble(6) == 6
    ensures LowNibble(8) == 8 && LowNibble(10) == 10 && LowNibble(12) == 12 && LowNibble(14) == 14
    ensures LowNibble(1) == 1 && LowNibble(3) == 3 && LowNibble(5) == 5 && LowNibble(7) == 7
    ensures LowNibble(9) == 9 && LowNibble(11) == 11 && LowNibble(13) == 13 && LowNibble(15) == 15
  {
  }

  lemma XorByteAssoc(a: Byte, b: Byte, c: Byte, d: Byte)
    ensures XorByte(XorByte(XorByte(a, b), c), d) == XorByte(XorByte(a, b), XorByte(c, d))
  {
  }

  lemma LookedAt(table: seq<seq<Byte>>, low: V128, high: V128, s: Symbol, j: nat)
    requires |table| == 4 && (forall i :: 0 <= i < 4 ==> |table[i]| == 16) && j < 8
    requires low[j] == LoByte(s) && high[j] == HiByte(s)
    ensures Looked(table, low, high)[j] == Lookups(table, s)
  {
    hide ShuffleEpi8, ClearHigh, ShiftRight4, XorByte, LowNibble, HighNibble;
    LookupLowNibble(table[0], low, j);
    LookupHighNibble(table[1], low, j);
    LookupLowNibble(table[2], high, j);
    LookupHighNibble(table[3], high, j);
    XorByteAssoc(table[0][LowNibble(low[j])], table[1][HighNibble(low[j])], table[2][LowNibble(high[j])],
                 table[3][HighNibble(high[j])]);
  }

  /** The register product is the product of each of the eight symbols. */
  lemma RegisterProduct(lut: Lut, m: Symbol, c: Row)
    requires IsLut(lut, m) && LutShape(lut) && |c| == 8
    ensures MulRegister(lut, ToBytes(c)) == ToBytes(Scale(m, c))
  {
    hide Looked, ShuffleEpi8, ByteMaskLow, ByteMaskHigh, LoByte, HiByte, Mul, IsLut, Lookups;
    var v := ToBytes(c);
    forall j | 0 <= j < 8
      ensures MulRegister(lut, v)[2 * j] == LoByte(Mul(c[j], m))
              && MulRegister(lut, v)[2 * j + 1] == HiByte(Mul(c[j], m))
    {
      Separated(v, j);
      assert (2 * j) / 2 == j && (2 * j + 1) / 2 == j;
      LookedAt(lut.lo, ShuffleEpi8(v, ByteMaskLow()), ShuffleEpi8(v, ByteMaskHigh()), c[j], j);
      LookedAt(lut.hi, ShuffleEpi8(v, ByteMaskLow()), ShuffleEpi8(v, ByteMaskHigh()), c[j], j);
      LookupProduct(lut, m, c[j]);
    }
    forall k | 0 <= k < 16
      ensures MulRegister(lut, v)[k] == ToBytes(Scale(m, c))[k]
    {
      var j := k / 2;
      assert k == 2 * j || k == 2 * j + 1;
    }
  }

  /** Eight symbols from offset o, multiplied in a register. */
  function MulEight(lut: Lut, c: Row): (r: Row)
    requires LutShape(lut) && |c| == 8
    ensures |r| == 8
  {
    ToSymbols(MulRegister(lut, ToBytes(c)))
  }

  lemma EightProducts(lut: Lut, m: Symbol, c: Row)
    requires IsLut(lut, m) && LutShape(lut) && |c| == 8
    ensures MulEight(lut, c) == Scale(m, c)
  {
    hide MulRegister, ToBytes, ToSymbols, Scale, IsLut;
    RegisterProduct(lut, m, c);
    SymbolsOfBytes(Scale(m, c));
  }

  // ----- the loops

  /** gf_mul_slice_ssse3 */
  method GfMulSliceSsse3(t: Tables, mul128: seq<Lut>, scalar: Symbol, data: array<Symbol>)
    requires t.Valid() && IsMul128(mul128)
    modifies data
    ensures data[..] == Scale(scalar, old(data[..]))
  {
    hide Mul, MulEight, IsLut, Exp, Tables.Valid;
    ghost var was := data[..];
    if scalar == 0 {
      for i := 0 to data.Length
        invariant forall k :: 0 <= k < i ==> data[k] == Mul(was[k], scalar)
        invariant forall k :: i <= k < data.Length ==> data[k] == was[k]
      {
        MulZero(was[i]);
        data[i] := 0;
      }
      return;
    }
    if scalar == 1 {
      ScaleOne(was);
      return;
    }
    var lut := mul128[t.LogAt(scalar)];
    LutHasShape(lut, scalar);
    var chunks := data.Length / 8;
    for i := 0 to chunks
      invariant forall k :: 0 <= k < 8 * i ==> data[k] == Mul(was[k], scalar)
      invariant forall k :: 8 * i <= k < data.Length ==> data[k] == was[k]
    {
      var c := data[8 * i..8 * i + 8];
      EightProducts(lut, scalar, c);
      StoreEight(data, 8 * i, MulEight(lut, c));
    }
    for j := 8 * chunks to data.Length
      invariant forall k :: 0 <= k < j ==> data[k] == Mul(was[k], scalar)
      invariant forall k :: j <= k < data.Length ==> data[k] == was[k]
    {
      data[j] := t.GfMul(data[j], scalar);
    }
  }

  lemma ScaleOne(row: Row)
    ensures Scale(1, row) == row
  {
    hide Mul;
    forall k | 0 <= k < |row|
      ensures Mul(row[k], 1) == row[k]
    {
      MulOne(row[k]);
    }
  }

  /** _mm_storeu_si128 */
  method StoreEight(data: array<Symbol>, o: nat, c: Row)
    requires o + 8 <= data.Length && |c| == 8
    modifies data
    ensures forall k :: o <= k < o + 8 ==> data[k] == c[k - o]
    ensures forall k :: 0 <= k < data.Length && !(o <= k < o + 8) ==> data[k] == old(data[k])
  {
    for j := 0 to 8
      invariant forall k :: o <= k < o + j ==> data[k] == c[k - o]
      invariant forall k :: 0 <= k < data.Length && !(o <= k < o + j) ==> data[k] == old(data[k])
    {
      data[o + j] := c[j];
    }
  }

  /** gf_muladd_ssse3: as far as both slices reach. */
  method GfMuladdSsse3(t: Tables, mul128: seq<Lut>, dst: array<Symbol>, src: array<Symbol>, scalar: Symbol)
    requires t.Valid() && IsMul128(mul128) && dst != src
    modifies dst
    ensures dst[..] == MulAdd(old(dst[..]), src[..], scalar)
  {
    hide Mul, Add, MulEight, IsLut, Exp, Tables.Valid;
    ghost var was := dst[..];
    MulAddZero(was, src[..]);
    if scalar == 0 {
      return;
    }
    var lut := mul128[t.LogAt(scalar)];
    LutHasShape(lut, scalar);
    var len := if dst.Length < src.Length then dst.Length else src.Length;
    var chunks := len / 8;
    for i := 0 to chunks
      invariant forall k :: 0 <= k < 8 * i ==> dst[k] == Add(was[k], Mul(src[k], scalar))
      invariant forall k :: 8 * i <= k < dst.Length ==> dst[k] == was[k]
    {
      var c := src[8 * i..8 * i + 8];
      EightProducts(lut, scalar, c);
      var sum := AddRow(dst[8 * i..8 * i + 8], MulEight(lut, c));
      StoreEight(dst, 8 * i, sum);
    }
    for j := 8 * chunks to len
      invariant forall k :: 0 <= k < j ==> dst[k] == Add(was[k], Mul(src[k], scalar))
      invariant forall k :: j <= k < dst.Length ==> dst[k] == was[k]
    {
      dst[j] := Add(dst[j], t.GfMul(src[j], scalar));
    }
  }
}
