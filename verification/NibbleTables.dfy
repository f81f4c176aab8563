/**
 The 128-bit lookup tables of the shuffle-based SIMD code: for each factor, the products
 of the sixteen values of each of the four nibbles.  Four lookups and xors make a product.
 */
module NibbleTables {
  import opened GaloisField
  import opened Primitive
  import opened GaloisTables
  import opened Bytes

  /** lo[i][x] and hi[i][x]: the bytes of the product of nibble value x in position i. */
  datatype Lut = Lut(lo: seq<seq<Byte>>, hi: seq<seq<Byte>>)

  function Nibble(x: nat): Symbol
    requires x < 16
  {
    x as Symbol
  }

  /** x << (4 * i) */
  function NibbleValue(i: nat, x: Symbol): Symbol
    requires i < 4
  {
    if i == 0 then x else if i == 1 then x << 4 else if i == 2 then x << 8 else x << 12
  }

  ghost predicate IsRow(lo: seq<Byte>, hi: seq<Byte>, m: Symbol, i: nat, n: nat)
    requires i < 4
  {
    && |lo| == |hi| == 16 && n <= 16
    && forall x: nat :: x < n ==>
         && lo[x] == LoByte(Mul(NibbleValue(i, Nibble(x)), m))
         && hi[x] == HiByte(Mul(NibbleValue(i, Nibble(x)), m))
  }

  ghost predicate IsLut(lut: Lut, m: Symbol) {
    && |lut.lo| == |lut.hi| == 4
    && forall i: nat :: i < 4 ==> IsRow(lut.lo[i], lut.hi[i], m, i, 16)
  }

  predicate LutShape(lut: Lut) {
    && |lut.lo| == |lut.hi| == 4
    && forall i :: 0 <= i < 4 ==> |lut.lo[i]| == |lut.hi[i]| == 16
  }

  lemma LutHasShape(lut: Lut, m: Symbol)
    requires IsLut(lut, m)
    ensures LutShape(lut)
  {
    hide Mul, LoByte, HiByte, Nibble, NibbleValue;
    forall i | 0 <= i < 4
      ensures |lut.lo[i]| == |lut.hi[i]| == 16
    {
      assert IsRow(lut.lo[i], lut.hi[i], m, i, 16);
    }
  }

  /** The table of every factor: the entry at logM belongs to 2^logM. */
  ghost predicate IsMul128(mul128: seq<Lut>) {
    |mul128| == GF_SIZE && forall logM: nat :: logM < GF_SIZE ==> IsLut(mul128[logM], Exp(logM))
  }

  // ----- building the table

  /** The product of a nibble value and 2^logM, through the tables. */
  function LogProduct(t: Tables, val: Symbol, logM: nat): (r: Symbol)
    requires t.Valid()
    ensures r == Mul(val, Exp(logM))
  {
    hide *;
    if val == 0 then
      MulZero(Exp(logM));
      0
    else
      var e := t.LogAt(val) + logM;
      ExpAdd(Log(val), logM);
      ExpPeriod(e);
      t.ExpAt(e % ORDER)
  }

  method BuildRow(t: Tables, logM: nat, i: nat) returns (lo: seq<Byte>, hi: seq<Byte>)
    requires t.Valid() && i < 4
    ensures IsRow(lo, hi, Exp(logM), i, 16)
  {
    hide Mul, Exp, NibbleValue, LoByte, HiByte, Nibble, Tables.Valid;
    var prodLo := new Byte[16](_ => 0);
    var prodHi := new Byte[16](_ => 0);
    for x := 0 to 16
      invariant IsRow(prodLo[..], prodHi[..], Exp(logM), i, x)
    {
      var prod := LogProduct(t, NibbleValue(i, Nibble(x)), logM);
      prodLo[x] := LoByte(prod);
      prodHi[x] := HiByte(prod);
    }
    lo, hi := prodLo[..], prodHi[..];
  }

  method BuildLut(t: Tables, logM: nat) returns (lut: Lut)
    requires t.Valid()
    ensures IsLut(lut, Exp(logM))
  {
    hide IsRow, Exp, Tables.Valid;
    var los, his: seq<seq<Byte>> := [], [];
    for i := 0 to 4
      invariant |los| == |his| == i
      invariant forall k: nat :: k < i ==> IsRow(los[k], his[k], Exp(logM), k, 16)
    {
      var lo, hi := BuildRow(t, logM, i);
      los, his := los + [lo], his + [hi];
    }
    lut := Lut(los, his);
  }

  /** initialize_mul128_table */
  method InitializeMul128Table(t: Tables) returns (mul128: seq<Lut>)
    requires t.Valid()
    ensures IsMul128(mul128)
  {
    hide IsLut, Exp, Tables.Valid;
    mul128 := [];
    for logM := 0 to GF_SIZE
      invariant |mul128| == logM
      invariant forall k: nat :: k < logM ==> IsLut(mul128[k], Exp(k))
    {
      var lut := BuildLut(t, logM);
      mul128 := mul128 + [lut];
    }
  }

  // ----- four lookups make a product

  function LowNibble(b: Byte): (n: nat)
    ensures n < 16
  {
    (b & 0x0F) as nat
  }

  function HighNibble(b: Byte): (n: nat)
    ensures n < 16
  {
    (b >> 4) as nat
  }

  /** The nibbles of a byte as symbols. */
  lemma NibbleSymbols(b: Byte) returns (l: Symbol, h: Symbol)
    ensures l == Nibble(LowNibble(b)) && l == (b & 0x0F) as Symbol
    ensures h == Nibble(HighNibble(b)) && h == (b >> 4) as Symbol
  {
    l, h := (b & 0x0F) as Symbol, (b >> 4) as Symbol;
  }

  /** A symbol is the sum of its four nibbles in their positions. */
  lemma NibbleSum(v: Symbol, n0: Symbol, n1: Symbol, n2: Symbol, n3: Symbol)
    requires n0 == (LoByte(v) & 0x0F) as Symbol && n1 == (LoByte(v) >> 4) as Symbol
    requires n2 == (HiByte(v) & 0x0F) as Symbol && n3 == (HiByte(v) >> 4) as Symbol
    ensures v == n0 ^ (n1 << 4) ^ (n2 << 8) ^ (n3 << 12)
  {
  }

  function XorByte(a: Byte, b: Byte): Byte {
    a ^ b
  }

  lemma ByteAdd(a: Symbol, b: Symbol)
    ensures LoByte(Add(a, b)) == XorByte(LoByte(a), LoByte(b))
    ensures HiByte(Add(a, b)) == XorByte(HiByte(a), HiByte(b))
  {
    LoByteXor(a, b);
    HiByteXor(a, b);
    hide LoByte, HiByte;
  }

  lemma LoByteXor(a: Symbol, b: Symbol)
    ensures LoByte(a ^ b) == LoByte(a) ^ LoByte(b)
  {
  }

  lemma HiByteXor(a: Symbol, b: Symbol)
    ensures HiByte(a ^ b) == HiByte(a) ^ HiByte(b)
  {
  }

  /** The nibble values whose sum is v. */
  lemma NibbleParts(v: Symbol) returns (p0: Symbol, p1: Symbol, p2: Symbol, p3: Symbol)
    ensures p0 == NibbleValue(0, Nibble(LowNibble(LoByte(v))))
    ensures p1 == NibbleValue(1, Nibble(HighNibble(LoByte(v))))
    ensures p2 == NibbleValue(2, Nibble(LowNibble(HiByte(v))))
    ensures p3 == NibbleValue(3, Nibble(HighNibble(HiByte(v))))
    ensures v == Add(Add(p0, p1), Add(p2, p3))
  {
    hide Add, Nibble, NibbleValue, LowNibble, HighNibble, LoByte, HiByte;
    var n0, n1 := NibbleSymbols(LoByte(v));
    var n2, n3 := NibbleSymbols(HiByte(v));
    p0, p1, p2, p3 := NibbleValue(0, n0), NibbleValue(1, n1), NibbleValue(2, n2), NibbleValue(3, n3);
    ShiftedNibbles(n0, n1, n2, n3, p0, p1, p2, p3);
    NibbleSum(v, n0, n1, n2, n3);
    SumOfFour(p0, p1, p2, p3);
  }

  lemma ShiftedNibbles(n0: Symbol, n1: Symbol, n2: Symbol, n3: Symbol, p0: Symbol, p1: Symbol, p2: Symbol, p3: Symbol)
    requires p0 == NibbleValue(0, n0) && p1 == NibbleValue(1, n1)
    requires p2 == NibbleValue(2, n2) && p3 == NibbleValue(3, n3)
    ensures p0 == n0 && p1 == n1 << 4 && p2 == n2 << 8 && p3 == n3 << 12
  {
  }

  lemma SumOfFour(a: Symbol, b: Symbol, c: Symbol, d: Symbol)
    ensures Add(Add(a, b), Add(c, d)) == a ^ b ^ c ^ d
  {
  }

  /** The xor of the lookups of the four nibbles of v. */
  function Lookups(table: seq<seq<Byte>>, v: Symbol): Byte
    requires |table| == 4 && forall i :: 0 <= i < 4 ==> |table[i]| == 16
  {
    XorByte(XorByte(table[0][LowNibble(LoByte(v))], table[1][HighNibble(LoByte(v))]),
            XorByte(table[2][LowNibble(HiByte(v))], table[3][HighNibble(HiByte(v))]))
  }

  /** The lookups give the product, byte by byte. */
  lemma LookupProduct(lut: Lut, m: Symbol, v: Symbol)
    requires IsLut(lut, m) && LutShape(lut)
    ensures LoByte(Mul(v, m)) == Lookups(lut.lo, v)
    ensures HiByte(Mul(v, m)) == Lookups(lut.hi, v)
  {
    hide Add, Mul, LoByte, HiByte, LowNibble, HighNibble, Nibble, NibbleValue, XorByte;
    var p0, p1, p2, p3 := NibbleParts(v);
    MulAddLeft(Add(p0, p1), Add(p2, p3), m);
    MulAddLeft(p0, p1, m);
    MulAddLeft(p2, p3, m);
    ByteAdd(Add(Mul(p0, m), Mul(p1, m)), Add(Mul(p2, m), Mul(p3, m)));
    ByteAdd(Mul(p0, m), Mul(p1, m));
    ByteAdd(Mul(p2, m), Mul(p3, m));
  }
}
