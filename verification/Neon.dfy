/**
 The NEON code of src/galois/arm.rs: symbols are split into low and high bytes, multiplied
 byte by byte as Karatsuba does, and reduced with shifts on the bytes of the product.

 A vector register is its 16 bytes; a register of 16-bit products is its 8 symbols.
 */
module Neon {
  import opened GaloisField
  import opened Primitive
  import opened GaloisTables
  import opened LinearAlgebra
  import opened Scalar
  import opened Bytes
  import opened Carryless
  import opened NibbleTables
  import opened Shuffle2x

  // ----- the carry-less product of bytes

  function Wide(b: Byte): Symbol {
    b as Symbol
  }

  function ByteProductBits(e: Symbol, f: Symbol, k: nat): Symbol
    decreases k
  {
    if k == 0 then 0 else Add(Pick(f, e), ByteProductBits(Shl16(e), Half(f), k - 1))
  }

  /** One lane of PMULL: shift and xor, no reduction. */
  function ByteProduct(a: Byte, b: Byte): Symbol {
    ByteProductBits(Wide(a), Wide(b), 8)
  }

  predicate Room16(e: Symbol, k: nat)
    decreases k
  {
    k == 0 || (Carry(e) == 0 && Room16(Shl16(e), k - 1))
  }

  lemma RoomForByte(a: Byte)
    ensures Room16(Wide(a), 8)
  {
    var e := a as Symbol;
    assert Room16(e << 8, 0);
    assert e << 8 == Shl16(e << 7) && Room16(e << 7, 1);
    assert e << 7 == Shl16(e << 6) && Room16(e << 6, 2);
    assert e << 6 == Shl16(e << 5) && Room16(e << 5, 3);
    assert e << 5 == Shl16(e << 4) && Room16(e << 4, 4);
    assert e << 4 == Shl16(e << 3) && Room16(e << 3, 5);
    assert e << 3 == Shl16(e << 2) && Room16(e << 2, 6);
    assert e << 2 == Shl16(e << 1) && Room16(e << 1, 7);
  }

  lemma DoubleIsShift(e: Symbol)
    requires Carry(e) == 0
    ensures Double(e) == Shl16(e)
  {
  }

  lemma {:induction false} ByteProductBitsMul(e: Symbol, f: Symbol, k: nat)
    requires Room16(e, k)
    ensures ByteProductBits(e, f, k) == MulBits(e, f, k)
    decreases k
  {
    hide Add, Pick, Double, Half, Shl16, Carry;
    if k != 0 {
      DoubleIsShift(e);
      ByteProductBitsMul(Shl16(e), Half(f), k - 1);
    }
  }

  lemma {:induction false} MulBitsOfZero(e: Symbol, k: nat)
    ensures MulBits(e, 0, k) == 0
    decreases k
  {
    hide Double;
    if k != 0 {
      assert Half(0) == 0 && Pick(0, e) == 0;
      MulBitsOfZero(Double(e), k - 1);
      AddZero(0);
    }
  }

  lemma ByteHalves(b: Byte)
    ensures Half4(Half4(Wide(b))) == 0
  {
  }

  /** Products of bytes need no reduction: PMULL computes the field product. */
  lemma ByteProductIsMul(a: Byte, b: Byte)
    ensures ByteProduct(a, b) == Mul(Wide(a), Wide(b))
  {
    RoomForByte(a);
    ByteHalves(b);
    hide Wide, Add, Half4, Double4, Primitive.Chunk;
    var (e, f) := (Wide(a), Wide(b));
    ByteProductBitsMul(e, f, 8);
    MulBitsChunk(e, f, 16);
    MulBitsChunk(Double4(e), Half4(f), 12);
    MulBitsChunk(e, f, 8);
    MulBitsChunk(Double4(e), Half4(f), 4);
    MulBitsOfZero(Double4(Double4(e)), 8);
  }

  // ----- Karatsuba

  /** v * x^8 */
  function X8(v: Symbol): Symbol {
    Double4(Double4(v))
  }

  lemma X8Add(a: Symbol, b: Symbol)
    ensures X8(Add(a, b)) == Add(X8(a), X8(b))
  {
    hide Add, Double4;
    Double4Add(a, b);
    Double4Add(Double4(a), Double4(b));
  }

  lemma MulDouble4(a: Symbol, b: Symbol)
    ensures Mul(Double4(a), b) == Double4(Mul(a, b))
  {
    hide Mul, Double;
    MulDouble(a, b);
    MulDouble(Double(a), b);
    MulDouble(Double(Double(a)), b);
    MulDouble(Double(Double(Double(a))), b);
  }

  lemma MulX8(a: Symbol, b: Symbol)
    ensures Mul(X8(a), b) == X8(Mul(a, b)) == Mul(a, X8(b))
  {
    hide Mul, Double4;
    MulDouble4(a, b);
    MulDouble4(Double4(a), b);
    MulDouble4(b, a);
    MulDouble4(Double4(b), a);
    MulComm(a, b);
    MulComm(a, X8(b));
  }

  lemma Double4Byte(h: Symbol)
    requires h >> 12 == 0
    ensures Double4(h) == h << 4
  {
    Double4IsClosed(h);
    hide Double4;
  }

  lemma X8Byte(b: Byte)
    ensures X8(Wide(b)) == Join(0, b)
  {
    var h := b as Symbol;
    assert h >> 12 == 0 && (h << 4) >> 12 == 0;
    Double4Byte(h);
    Double4Byte(h << 4);
    assert (h << 4) << 4 == Join(0, b);
    hide Double4;
  }

  lemma JoinParts(lo: Byte, hi: Byte)
    ensures Join(lo, hi) == Add(Wide(lo), Join(0, hi))
  {
  }

  /** A symbol is its low byte plus its high byte times x^8. */
  lemma SymbolParts(v: Symbol)
    ensures v == Add(Wide(LoByte(v)), X8(Wide(HiByte(v))))
  {
    hide *;
    JoinBytes(v);
    JoinParts(LoByte(v), HiByte(v));
    X8Byte(HiByte(v));
  }

  lemma WideXor(a: Byte, b: Byte)
    ensures Wide(XorByte(a, b)) == Add(Wide(a), Wide(b))
  {
  }

  /** The four partial products of two sums. */
  lemma ProductOfSums(a: Symbol, b: Symbol, c: Symbol, d: Symbol)
    ensures Mul(Add(a, b), Add(c, d)) == Add(Add(Mul(a, c), Mul(a, d)), Add(Mul(b, c), Mul(b, d)))
  {
    hide Mul, Add;
    MulAddLeft(a, b, Add(c, d));
    MulAddRight(a, c, d);
    MulAddRight(b, c, d);
  }

  /** The middle term from three products. */
  lemma MiddleTerm(l: Symbol, c: Symbol, d: Symbol, h: Symbol)
    ensures Add(Add(Add(l, c), Add(d, h)), Add(l, h)) == Add(c, d)
  {
    hide Add;
    AddComm(l, c);
    AddSwap(c, l, d, h);
    AddCancel(Add(c, d), Add(l, h));
  }

  /** Karatsuba: the product from the low, high and middle products. */
  lemma Karatsuba(a0: Symbol, a1: Symbol, b0: Symbol, b1: Symbol)
    ensures var (l, h, m) := (Mul(a0, b0), Mul(a1, b1), Mul(Add(a0, a1), Add(b0, b1)));
            Mul(Add(a0, X8(a1)), Add(b0, X8(b1))) == Add(Add(l, X8(Add(m, Add(l, h)))), X8(X8(h)))
  {
    hide Mul, Add, X8;
    var (l, h, c, d) := (Mul(a0, b0), Mul(a1, b1), Mul(a0, b1), Mul(a1, b0));
    ProductOfSums(a0, a1, b0, b1);
    MiddleTerm(l, c, d, h);
    ProductOfSums(a0, X8(a1), b0, X8(b1));
    MulX8(a0, b1);
    MulX8(a1, b0);
    MulX8(a1, X8(b1));
    MulX8(a1, b1);
    X8Add(c, d);
    AddAssoc(Add(l, X8(c)), X8(d), X8(X8(h)));
    AddAssoc(l, X8(c), X8(d));
  }

  // ----- the bytes of the product before reduction

  lemma FoldIsX16(h: Symbol)
    ensures Fold(h) == X8(X8(h))
  {
    hide Double4;
  }

  lemma AssembleBytes(l0: Byte, l1: Byte, c0: Byte, c1: Byte, h0: Byte, h1: Byte)
    ensures Add(Join(l0, l1), Join(0, c0)) == Join(l0, XorByte(l1, c0))
    ensures Add(Wide(c1), Join(h0, h1)) == Join(XorByte(h0, c1), h1)
  {
  }

  /** Two low bytes as they are, two high bytes folded. */
  lemma ProductBytes(l: Symbol, c: Symbol, h: Symbol)
    ensures Add(Add(l, X8(c)), X8(X8(h)))
         == Add(Join(LoByte(l), XorByte(HiByte(l), LoByte(c))), Fold(Join(XorByte(LoByte(h), HiByte(c)), HiByte(h))))
  {
    hide Add, X8, Wide, LoByte, HiByte, Join, XorByte, Fold;
    var (c0, c1) := (LoByte(c), HiByte(c));
    SymbolParts(c);
    X8Add(Wide(c0), X8(Wide(c1)));
    X8Byte(c0);
    FoldIsX16(Wide(c1));
    FoldIsX16(h);
    FoldAdd(Wide(c1), h);
    AddAssoc(l, Join(0, c0), Fold(Wide(c1)));
    AddAssoc(Add(l, Join(0, c0)), Fold(Wide(c1)), Fold(h));
    JoinBytes(l);
    JoinBytes(h);
    AssembleBytes(LoByte(l), HiByte(l), c0, c1, LoByte(h), HiByte(h));
  }

  // ----- the reduction on bytes

  function Shr4(a: Byte): Byte { a >> 4 }

  function Shr5(a: Byte): Byte { a >> 5 }

  function Shr2(a: Byte): Byte { a >> 2 }

  function Shl4(a: Byte): Byte { a << 4 }

  /** vsriq_n_u8::<4>: b shifted right, under the top four bits of a */
  function ShiftRightInsert4(a: Byte, b: Byte): Byte {
    (a & 0xF0) | (b >> 4)
  }

  /** vsliq_n_u8::<4>: b shifted left, above the low four bits of a */
  function ShiftLeftInsert4(a: Byte, b: Byte): Byte {
    (a & 0x0F) | (b << 4)
  }

  /** vmulq_p8: the low byte of the carry-less product */
  function ByteProductLow(a: Byte, b: Byte): Byte {
    LoByte(ByteProduct(a, b))
  }

  function Th1(h1: Byte): Byte {
    XorByte(h1, Shr4(h1))
  }

  function Th0(h0: Byte, h1: Byte): Byte {
    XorByte(XorByte(XorByte(ShiftRightInsert4(Shl4(h1), h0), Th1(h1)), h0), Shr5(h1))
  }

  /** What the high bytes h0, h1 add to the low byte. */
  function ReducedLow(h0: Byte, h1: Byte): Byte {
    ByteProductLow(Th0(h0, h1), 0x0B)
  }

  /** What they add to the high byte. */
  function ReducedHigh(h0: Byte, h1: Byte): Byte {
    var th0Hi3 := Shr5(Th0(h0, h1));
    XorByte(XorByte(ShiftLeftInsert4(th0Hi3, Th0(h0, h1)), Shr2(th0Hi3)), ByteProductLow(Th1(h1), 0x0B))
  }

  lemma BitsOfEleven(e: Symbol)
    ensures Pick(0x0B, e) == e && Pick(5, e) == e && Pick(2, e) == 0 && Pick(1, e) == e && Pick(0, e) == 0
    ensures Half(0x0B) == 5 && Half(5) == 2 && Half(2) == 1 && Half(1) == 0 && Half(0) == 0
  {
  }

  lemma {:induction false} ByteProductOfZero(e: Symbol, k: nat)
    ensures ByteProductBits(e, 0, k) == 0
    decreases k
  {
    hide Shl16, Add, Pick, Half;
    BitsOfEleven(e);
    AddZero(0);
    if k != 0 {
      ByteProductOfZero(Shl16(e), k - 1);
    }
  }

  lemma ElevenSteps(e: Symbol, e1: Symbol, e2: Symbol, e3: Symbol)
    requires e1 == Shl16(e) && e2 == Shl16(e1) && e3 == Shl16(e2)
    ensures ByteProductBits(e, 0x0B, 8) == Add(e, Add(e1, e3))
  {
    hide Shl16, Add, Pick, Half;
    BitsOfEleven(e);
    BitsOfEleven(e1);
    BitsOfEleven(e2);
    BitsOfEleven(e3);
    ByteProductOfZero(Shl16(e3), 4);
    assert ByteProductBits(e3, 1, 5) == Add(e3, 0);
    assert ByteProductBits(e2, 2, 6) == Add(0, Add(e3, 0));
    AddZero(e3);
    assert ByteProductBits(e1, 5, 7) == Add(e1, e3);
  }

  lemma LowByteOfSum(a: Byte, e: Symbol, e1: Symbol, e2: Symbol, e3: Symbol, s: Symbol, r: Symbol)
    requires e == a as Symbol && e1 == e << 1 && e2 == e1 << 1 && e3 == e2 << 1 && s == e1 ^ e3 && r == e ^ s
    ensures (r & 0xFF) as Byte == a ^ (a << 1) ^ (a << 3)
  {
  }

  lemma TimesEleven(a: Byte)
    ensures ByteProductLow(a, 0x0B) == a ^ (a << 1) ^ (a << 3)
  {
    hide *;
    var e := a as Symbol;
    var e1 := Shl16(e);
    var e2 := Shl16(e1);
    var e3 := Shl16(e2);
    var s := Add(e1, e3);
    var r := Add(e, s);
    ShiftIs(e);
    ShiftIs(e1);
    ShiftIs(e2);
    AddIs(e1, e3);
    AddIs(e, s);
    LowByteOfSum(a, e, e1, e2, e3, s, r);
    ElevenSteps(e, e1, e2, e3);
    ByteProductLowDef(a, e, r);
  }

  lemma ShiftIs(e: Symbol)
    ensures Shl16(e) == e << 1
  {
  }

  lemma AddIs(a: Symbol, b: Symbol)
    ensures Add(a, b) == a ^ b
  {
  }

  lemma ByteProductLowDef(a: Byte, e: Symbol, r: Symbol)
    requires e == a as Symbol && r == ByteProductBits(e, 0x0B, 8)
    ensures ByteProductLow(a, 0x0B) == (r & 0xFF) as Byte
  {
    hide ByteProductBits;
    assert Wide(0x0B) == 0x0B;
  }

  /** No product of two bytes reaches x^15. */
  lemma {:induction false} NoCarry(e: Symbol, f: Symbol, k: nat)
    requires Room16(e, k)
    ensures Carry(ByteProductBits(e, f, k)) == 0
    decreases k
  {
    hide Shl16, Half;
    if k != 0 {
      NoCarry(Shl16(e), Half(f), k - 1);
      CarryOfSum(f, e, ByteProductBits(Shl16(e), Half(f), k - 1));
    }
  }

  lemma CarryOfSum(f: Symbol, e: Symbol, r: Symbol)
    requires Carry(e) == 0 && Carry(r) == 0
    ensures Carry(Add(Pick(f, e), r)) == 0
  {
    assert f & 1 == 0 || f & 1 == 1;
  }

  lemma ByteOps(a: Byte, b: Byte)
    ensures XorByte(a, b) == a ^ b
    ensures Shr4(a) == a >> 4 && Shr5(a) == a >> 5 && Shr2(a) == a >> 2 && Shl4(a) == a << 4
    ensures ShiftRightInsert4(a, b) == (a & 0xF0) | (b >> 4)
    ensures ShiftLeftInsert4(a, b) == (a & 0x0F) | (b << 4)
  {
  }

  /** The bytes computed from h1 alone, as plain bit operations. */
  lemma FirstSteps(h0: Byte, h1: Byte)
    returns (s4: Byte, t1: Byte, sl: Byte, ins: Byte, u: Byte, v: Byte, s5: Byte, t0: Byte)
    ensures s4 == h1 >> 4 && t1 == h1 ^ s4 && sl == h1 << 4 && ins == (sl & 0xF0) | (h0 >> 4)
    ensures u == ins ^ t1 && v == u ^ h0 && s5 == h1 >> 5 && t0 == v ^ s5
    ensures t1 == Th1(h1) && t0 == Th0(h0, h1)
  {
    hide XorByte, Shr4, Shr5, Shl4, ShiftRightInsert4;
    s4, sl, s5 := Shr4(h1), Shl4(h1), Shr5(h1);
    t1, ins := XorByte(h1, s4), ShiftRightInsert4(sl, h0);
    u := XorByte(ins, t1);
    v := XorByte(u, h0);
    t0 := XorByte(v, s5);
    ByteOps(h1, s4);
    ByteOps(sl, h0);
    ByteOps(ins, t1);
    ByteOps(u, h0);
    ByteOps(v, s5);
  }

  lemma LastSteps(h0: Byte, h1: Byte, t0: Byte, t1: Byte)
    returns (hi3: Byte, hi1: Byte, ins: Byte, x: Byte, m1: Byte, r0: Byte, r1: Byte)
    requires t1 == Th1(h1) && t0 == Th0(h0, h1)
    ensures hi3 == t0 >> 5 && hi1 == hi3 >> 2 && ins == (hi3 & 0x0F) | (t0 << 4) && x == ins ^ hi1
    ensures m1 == t1 ^ (t1 << 1) ^ (t1 << 3) && r0 == t0 ^ (t0 << 1) ^ (t0 << 3) && r1 == x ^ m1
    ensures r0 == ReducedLow(h0, h1) && r1 == ReducedHigh(h0, h1)
  {
    hide XorByte, Shr5, Shr2, ShiftLeftInsert4, ByteProductLow, Th0, Th1;
    hi3 := Shr5(t0);
    hi1, ins := Shr2(hi3), ShiftLeftInsert4(hi3, t0);
    x, m1, r0 := XorByte(ins, hi1), ByteProductLow(t1, 0x0B), ByteProductLow(t0, 0x0B);
    r1 := XorByte(x, m1);
    ByteOps(t0, t0);
    ByteOps(hi3, t0);
    ByteOps(ins, hi1);
    ByteOps(x, m1);
    TimesEleven(t0);
    TimesEleven(t1);
  }

  /** The fold of the high half, as plain bit operations. */
  lemma FoldSteps(h: Symbol)
    returns (q1: Symbol, f1: Symbol, q2: Symbol, f2: Symbol, q3: Symbol, f3: Symbol, q4: Symbol, f4: Symbol)
    ensures q1 == h >> 12 && f1 == (h << 4) ^ q1 ^ (q1 << 1) ^ (q1 << 3) ^ (q1 << 12)
    ensures q2 == f1 >> 12 && f2 == (f1 << 4) ^ q2 ^ (q2 << 1) ^ (q2 << 3) ^ (q2 << 12)
    ensures q3 == f2 >> 12 && f3 == (f2 << 4) ^ q3 ^ (q3 << 1) ^ (q3 << 3) ^ (q3 << 12)
    ensures q4 == f3 >> 12 && f4 == (f3 << 4) ^ q4 ^ (q4 << 1) ^ (q4 << 3) ^ (q4 << 12)
    ensures f4 == Fold(h)
  {
    hide Double4Closed, Fold;
    f1 := Double4Closed(h);
    f2 := Double4Closed(f1);
    f3 := Double4Closed(f2);
    f4 := Double4Closed(f3);
    FoldIsClosed(h);
    q1 := Double4Step(h);
    q2 := Double4Step(f1);
    q3 := Double4Step(f2);
    q4 := Double4Step(f3);
  }

  lemma Double4Step(h: Symbol) returns (q: Symbol)
    ensures q == h >> 12 && Double4Closed(h) == (h << 4) ^ q ^ (q << 1) ^ (q << 3) ^ (q << 12)
  {
    q := h >> 12;
  }

  /** The reduction folds a single high byte right: the upper one if its top bit is clear. */
  lemma StepsFold(h0: Byte, h1: Byte, h: Symbol, s4: Byte, t1: Byte, sl: Byte, ins0: Byte, u: Byte, v: Byte,
                  s5: Byte, t0: Byte, hi3: Byte, hi1: Byte, ins: Byte, x: Byte, m1: Byte, r0: Byte, r1: Byte,
                  q1: Symbol, f1: Symbol, q2: Symbol, f2: Symbol, q3: Symbol, f3: Symbol, q4: Symbol, f4: Symbol)
    requires h1 == 0 || (h0 == 0 && h1 & 0x80 == 0)
    requires h == ((h1 as Symbol) << 8) | (h0 as Symbol)
    requires s4 == h1 >> 4 && t1 == h1 ^ s4 && sl == h1 << 4 && ins0 == (sl & 0xF0) | (h0 >> 4)
    requires u == ins0 ^ t1 && v == u ^ h0 && s5 == h1 >> 5 && t0 == v ^ s5
    requires hi3 == t0 >> 5 && hi1 == hi3 >> 2 && ins == (hi3 & 0x0F) | (t0 << 4) && x == ins ^ hi1
    requires m1 == t1 ^ (t1 << 1) ^ (t1 << 3) && r0 == t0 ^ (t0 << 1) ^ (t0 << 3) && r1 == x ^ m1
    requires q1 == h >> 12 && f1 == (h << 4) ^ q1 ^ (q1 << 1) ^ (q1 << 3) ^ (q1 << 12)
    requires q2 == f1 >> 12 && f2 == (f1 << 4) ^ q2 ^ (q2 << 1) ^ (q2 << 3) ^ (q2 << 12)
    requires q3 == f2 >> 12 && f3 == (f2 << 4) ^ q3 ^ (q3 << 1) ^ (q3 << 3) ^ (q3 << 12)
    requires q4 == f3 >> 12 && f4 == (f3 << 4) ^ q4 ^ (q4 << 1) ^ (q4 << 3) ^ (q4 << 12)
    ensures f4 == ((r1 as Symbol) << 8) | (r0 as Symbol)
  {
  }

  /** The two bytes the high half is reduced to. */
  function Reduced(h0: Byte, h1: Byte): Symbol {
    Join(ReducedLow(h0, h1), ReducedHigh(h0, h1))
  }

  lemma JoinIs(lo: Byte, hi: Byte)
    ensures Join(lo, hi) == ((hi as Symbol) << 8) | (lo as Symbol)
  {
  }

  lemma ReducedByte(h0: Byte, h1: Byte)
    requires h1 == 0 || (h0 == 0 && h1 & 0x80 == 0)
    ensures Reduced(h0, h1) == Fold(Join(h0, h1))
  {
    hide Join, ReducedLow, ReducedHigh, Fold, Th0, Th1;
    var s4, t1, sl, ins0, u, v, s5, t0 := FirstSteps(h0, h1);
    var hi3, hi1, ins, x, m1, r0, r1 := LastSteps(h0, h1, t0, t1);
    var h := Join(h0, h1);
    var q1, f1, q2, f2, q3, f3, q4, f4 := FoldSteps(h);
    JoinIs(h0, h1);
    JoinIs(r0, r1);
    StepsFold(h0, h1, h, s4, t1, sl, ins0, u, v, s5, t0, hi3, hi1, ins, x, m1, r0, r1, q1, f1, q2, f2, q3, f3, q4, f4);
  }

  // ----- the reduction is linear

  lemma Th0Chain(h0: Byte, h1: Byte, s4: Byte, t1: Byte, sl: Byte, ins: Byte, u: Byte, v: Byte, s5: Byte, t0: Byte)
    requires s4 == h1 >> 4 && t1 == h1 ^ s4 && sl == h1 << 4 && ins == (sl & 0xF0) | (h0 >> 4)
    requires u == ins ^ t1 && v == u ^ h0 && s5 == h1 >> 5 && t0 == v ^ s5
    ensures t0 == (((((h1 << 4) & 0xF0) | (h0 >> 4)) ^ (h1 ^ (h1 >> 4))) ^ h0) ^ (h1 >> 5)
  {
  }

  lemma Th0Value(h0: Byte, h1: Byte) returns (t0: Byte)
    ensures t0 == Th0(h0, h1)
    ensures t0 == (((((h1 << 4) & 0xF0) | (h0 >> 4)) ^ (h1 ^ (h1 >> 4))) ^ h0) ^ (h1 >> 5)
  {
    hide *;
    var s4, t1, sl, ins, u, v, s5, t := FirstSteps(h0, h1);
    t0 := t;
    Th0Chain(h0, h1, s4, t1, sl, ins, u, v, s5, t0);
  }

  lemma Th0Xor(h0: Byte, h1: Byte, a: Byte, b: Byte, c: Byte)
    requires a == (((((h1 << 4) & 0xF0) | (h0 >> 4)) ^ (h1 ^ (h1 >> 4))) ^ h0) ^ (h1 >> 5)
    requires b == (((((0 << 4) & 0xF0) | (h0 >> 4)) ^ (0 ^ (0 >> 4))) ^ h0) ^ (0 >> 5)
    requires c == (((((h1 << 4) & 0xF0) | (0 >> 4)) ^ (h1 ^ (h1 >> 4))) ^ 0) ^ (h1 >> 5)
    ensures a == b ^ c
  {
  }

  lemma Th0Linear(h0: Byte, h1: Byte)
    ensures Th0(h0, h1) == XorByte(Th0(h0, 0), Th0(0, h1))
    ensures Th1(0) == 0
  {
    assert Th1(0) == 0;
    hide Th0, XorByte;
    var a := Th0Value(h0, h1);
    var b := Th0Value(h0, 0);
    var c := Th0Value(0, h1);
    Th0Xor(h0, h1, a, b, c);
    ByteOps(b, c);
  }

  /** What ReducedHigh adds from th0. */
  function HighPart(t0: Byte): Byte {
    XorByte(ShiftLeftInsert4(Shr5(t0), t0), Shr2(Shr5(t0)))
  }

  lemma HighPartIs(t0: Byte)
    ensures HighPart(t0) == (((t0 >> 5) & 0x0F) | (t0 << 4)) ^ ((t0 >> 5) >> 2)
  {
  }

  lemma HighPartXor(a: Byte, b: Byte, c: Byte, x: Byte, y: Byte, z: Byte)
    requires c == a ^ b
    requires x == (((a >> 5) & 0x0F) | (a << 4)) ^ ((a >> 5) >> 2)
             && y == (((b >> 5) & 0x0F) | (b << 4)) ^ ((b >> 5) >> 2)
    requires z == (((c >> 5) & 0x0F) | (c << 4)) ^ ((c >> 5) >> 2)
    ensures z == x ^ y
  {
  }

  lemma ElevenXor(a: Byte, b: Byte, c: Byte, x: Byte, y: Byte, z: Byte)
    requires c == a ^ b
    requires x == a ^ (a << 1) ^ (a << 3) && y == b ^ (b << 1) ^ (b << 3) && z == c ^ (c << 1) ^ (c << 3)
    ensures z == x ^ y
  {
  }

  lemma PartsLinear(a: Byte, b: Byte)
    ensures HighPart(XorByte(a, b)) == XorByte(HighPart(a), HighPart(b))
    ensures ByteProductLow(XorByte(a, b), 0x0B) == XorByte(ByteProductLow(a, 0x0B), ByteProductLow(b, 0x0B))
  {
    hide *;
    var c := XorByte(a, b);
    var (x, y, z) := (HighPart(a), HighPart(b), HighPart(c));
    var (p, q, r) := (ByteProductLow(a, 0x0B), ByteProductLow(b, 0x0B), ByteProductLow(c, 0x0B));
    ByteOps(a, b);
    ByteOps(x, y);
    ByteOps(p, q);
    HighPartIs(a);
    HighPartIs(b);
    HighPartIs(c);
    HighPartXor(a, b, c, x, y, z);
    TimesEleven(a);
    TimesEleven(b);
    TimesEleven(c);
    ElevenXor(a, b, c, p, q, r);
  }

  lemma JoinXor(a0: Byte, a1: Byte, b0: Byte, b1: Byte)
    ensures Join(XorByte(a0, b0), XorByte(a1, b1)) == Add(Join(a0, a1), Join(b0, b1))
  {
  }

  lemma ZeroParts()
    ensures ByteProductLow(0, 0x0B) == 0
  {
    TimesEleven(0);
  }

  lemma XorByteZero(a: Byte, b: Byte, m: Byte)
    ensures XorByte(XorByte(a, 0), XorByte(b, m)) == XorByte(XorByte(a, b), m)
  {
    hide XorByte;
    var (x, y, z) := (XorByte(a, 0), XorByte(b, m), XorByte(a, b));
    ByteOps(a, 0);
    ByteOps(b, m);
    ByteOps(a, b);
    ByteOps(x, y);
    ByteOps(z, m);
  }

  lemma ReducedLinear(h0: Byte, h1: Byte)
    ensures Reduced(h0, h1) == Add(Reduced(h0, 0), Reduced(0, h1))
  {
    hide *;
    var (a, b, t) := (Th0(h0, 0), Th0(0, h1), Th1(h1));
    Th0Linear(h0, h1);
    PartsLinear(a, b);
    ZeroParts();
    ReducedIs(h0, h1);
    ReducedIs(h0, 0);
    ReducedIs(0, h1);
    var m := ByteProductLow(t, 0x0B);
    XorByteZero(HighPart(a), HighPart(b), m);
    JoinXor(ByteProductLow(a, 0x0B), XorByte(HighPart(a), 0), ByteProductLow(b, 0x0B), XorByte(HighPart(b), m));
  }

  lemma ReducedIs(h0: Byte, h1: Byte)
    ensures Reduced(h0, h1)
         == Join(ByteProductLow(Th0(h0, h1), 0x0B), XorByte(HighPart(Th0(h0, h1)), ByteProductLow(Th1(h1), 0x0B)))
  {
    hide Th0, Th1, ByteProductLow, Join, XorByte, Shr5, Shr2, ShiftLeftInsert4;
  }

  lemma SplitJoin(h0: Byte, h1: Byte)
    ensures Join(h0, h1) == Add(Join(h0, 0), Join(0, h1))
  {
  }

  /** The byte-split reduction folds x^16 away for every product below x^31. */
  lemma ReductionExact(h0: Byte, h1: Byte)
    requires h1 & 0x80 == 0
    ensures Reduced(h0, h1) == Fold(Join(h0, h1))
  {
    hide Reduced, Fold, Join, Add;
    ReducedLinear(h0, h1);
    ReducedByte(h0, 0);
    ReducedByte(0, h1);
    SplitJoin(h0, h1);
    FoldAdd(Join(h0, 0), Join(0, h1));
  }

  // ----- one symbol

  lemma MiddleBytes(l0: Byte, l1: Byte, m0: Byte, m1: Byte, h0: Byte, h1: Byte)
    ensures XorByte(XorByte(XorByte(h0, l1), l0), m0) == XorByte(l1, XorByte(m0, XorByte(l0, h0)))
    ensures XorByte(XorByte(XorByte(h0, l1), h1), m1) == XorByte(h0, XorByte(m1, XorByte(l1, h1)))
  {
    XorMerge(h0, l1, l0, m0);
    XorMerge(l1, h0, h1, m1);
  }

  lemma XorMerge(a: Byte, b: Byte, c: Byte, d: Byte)
    ensures XorByte(XorByte(XorByte(a, b), c), d) == XorByte(b, XorByte(d, XorByte(c, a)))
    ensures XorByte(XorByte(XorByte(b, a), c), d) == XorByte(b, XorByte(d, XorByte(a, c)))
  {
    hide XorByte;
    var (x, y) := (XorByte(a, b), XorByte(c, a));
    var (u, v) := (XorByte(x, c), XorByte(d, y));
    var (x', y', u', v') := (XorByte(b, a), XorByte(a, c), XorByte(XorByte(b, a), c), XorByte(d, XorByte(a, c)));
    ByteOps(a, b);
    ByteOps(c, a);
    ByteOps(x, c);
    ByteOps(d, y);
    ByteOps(u, d);
    ByteOps(b, v);
    ByteOps(b, a);
    ByteOps(a, c);
    ByteOps(x', c);
    ByteOps(d, y');
    ByteOps(u', d);
    ByteOps(b, v');
  }

  /** The top byte of a product of bytes has its top bit clear. */
  lemma TopBitClear(a: Byte, b: Byte)
    ensures HiByte(ByteProduct(a, b)) & 0x80 == 0
  {
    hide ByteProductBits, HiByte;
    RoomForByte(a);
    NoCarry(Wide(a), Wide(b), 8);
    HiByteTop(ByteProduct(a, b));
  }

  lemma HiByteTop(v: Symbol)
    requires Carry(v) == 0
    ensures HiByte(v) & 0x80 == 0
  {
  }

  lemma JoinSum(l0: Byte, l1: Byte, r0: Byte, r1: Byte)
    ensures Add(Join(l0, l1), Join(r0, r1)) == Join(XorByte(l0, r0), XorByte(r1, l1))
  {
  }

  /** Low, middle and high products of the bytes of a and b. */
  lemma SymbolProduct(a: Symbol, b: Symbol, l: Symbol, m: Symbol, h: Symbol)
    requires l == ByteProduct(LoByte(a), LoByte(b)) && h == ByteProduct(HiByte(a), HiByte(b))
    requires m == ByteProduct(XorByte(LoByte(a), HiByte(a)), XorByte(LoByte(b), HiByte(b)))
    ensures var p1 := XorByte(XorByte(XorByte(LoByte(h), HiByte(l)), LoByte(l)), LoByte(m));
            var p2 := XorByte(XorByte(XorByte(LoByte(h), HiByte(l)), HiByte(h)), HiByte(m));
            Mul(a, b) == Join(XorByte(LoByte(l), ReducedLow(p2, HiByte(h))), XorByte(ReducedHigh(p2, HiByte(h)), p1))
  {
    TopBitClear(HiByte(a), HiByte(b));
    hide Wide, ByteProduct, Mul, Add, X8, LoByte, HiByte, Join, XorByte, Fold, ReducedLow, ReducedHigh;
    SymbolParts(a);
    SymbolParts(b);
    ByteProductIsMul(LoByte(a), LoByte(b));
    ByteProductIsMul(HiByte(a), HiByte(b));
    ByteProductIsMul(XorByte(LoByte(a), HiByte(a)), XorByte(LoByte(b), HiByte(b)));
    WideXor(LoByte(a), HiByte(a));
    WideXor(LoByte(b), HiByte(b));
    Karatsuba(Wide(LoByte(a)), Wide(HiByte(a)), Wide(LoByte(b)), Wide(HiByte(b)));
    var c := Add(m, Add(l, h));
    ProductBytes(l, c, h);
    ByteAdd(m, Add(l, h));
    ByteAdd(l, h);
    MiddleBytes(LoByte(l), HiByte(l), LoByte(m), HiByte(m), LoByte(h), HiByte(h));
    var p2 := XorByte(LoByte(h), HiByte(c));
    ReductionExact(p2, HiByte(h));
    JoinSum(LoByte(l), XorByte(HiByte(l), LoByte(c)), ReducedLow(p2, HiByte(h)), ReducedHigh(p2, HiByte(h)));
  }

  // ----- sixteen symbols at once

  type U8x16 = v: seq<Byte> | |v| == 16 witness seq(16, _ => 0)

  type P16x8 = v: seq<Symbol> | |v| == 8 witness seq(8, _ => 0)

  function Each(f: Byte -> Byte, a: U8x16): U8x16 {
    seq(16, j requires 0 <= j < 16 => f(a[j]))
  }

  function Zip(f: (Byte, Byte) -> Byte, a: U8x16, b: U8x16): U8x16 {
    seq(16, j requires 0 <= j < 16 => f(a[j], b[j]))
  }

  /** vdupq_n_u8 */
  function Splat(b: Byte): U8x16 {
    seq(16, _ => b)
  }

  /** pmull on the lower eight lanes */
  function PmullLow(a: U8x16, b: U8x16): P16x8 {
    seq(8, j requires 0 <= j < 8 => ByteProduct(a[j], b[j]))
  }

  /** pmull2 on the upper eight lanes */
  function PmullHigh(a: U8x16, b: U8x16): P16x8 {
    seq(8, j requires 0 <= j < 8 => ByteProduct(a[j + 8], b[j + 8]))
  }

  /** vuzpq_u8: the even bytes */
  function EvenBytes(a: P16x8, b: P16x8): U8x16 {
    seq(16, j requires 0 <= j < 16 => LoByte((a + b)[j]))
  }

  /** vuzpq_u8: the odd bytes */
  function OddBytes(a: P16x8, b: P16x8): U8x16 {
    seq(16, j requires 0 <= j < 16 => HiByte((a + b)[j]))
  }

  datatype Products = Products(low1: P16x8, low2: P16x8, mid1: P16x8, mid2: P16x8, high1: P16x8, high2: P16x8)

  /** karatsuba_mul_p8 */
  function KaratsubaMulP8(aLo: U8x16, aHi: U8x16, bLo: U8x16, bHi: U8x16, bMid: U8x16): Products {
    var midA := Zip(XorByte, aLo, aHi);
    Products(PmullLow(aLo, bLo), PmullHigh(aLo, bLo), PmullLow(midA, bMid), PmullHigh(midA, bMid),
             PmullLow(aHi, bHi), PmullHigh(aHi, bHi))
  }

  /** The four registers of barrett_reduce_0x1100b, combined in pairs as the callers do. */
  datatype Planes = Planes(lo: U8x16, hi: U8x16)

  /** barrett_reduce_0x1100b and the two xors of its callers */
  function BarrettReduce(p: Products): Planes {
    var (hibytes0, hibytes1) := (EvenBytes(p.high1, p.high2), OddBytes(p.high1, p.high2));
    var (lobytes0, lobytes1) := (EvenBytes(p.low1, p.low2), OddBytes(p.low1, p.low2));
    var (midbytes0, midbytes1) := (EvenBytes(p.mid1, p.mid2), OddBytes(p.mid1, p.mid2));
    var libytes := Zip(XorByte, hibytes0, lobytes1);
    var merged1 := Zip(XorByte, Zip(XorByte, libytes, lobytes0), midbytes0);
    var merged2 := Zip(XorByte, Zip(XorByte, libytes, hibytes1), midbytes1);
    var th1 := Zip(XorByte, hibytes1, Each(Shr4, hibytes1));
    var inserted := Zip(ShiftRightInsert4, Each(Shl4, hibytes1), merged2);
    var th0 := Zip(XorByte, Zip(XorByte, Zip(XorByte, inserted, th1), merged2), Each(Shr5, hibytes1));
    var th0Hi3 := Each(Shr5, th0);
    var th0Hi1 := Each(Shr2, th0Hi3);
    var redHigh := Zip(ShiftLeftInsert4, th0Hi3, th0);
    var th1' := Zip(ByteProductLow, th1, Splat(0x0B));
    var redLow := Zip(ByteProductLow, th0, Splat(0x0B));
    Planes(Zip(XorByte, lobytes0, redLow), Zip(XorByte, Zip(XorByte, Zip(XorByte, redHigh, th0Hi1), th1'), merged1))
  }

  /** vld2q_u8 */
  function LowPlane(c: Chunk): U8x16 {
    seq(16, j requires 0 <= j < 16 => LoByte(c[j]))
  }

  function HighPlane(c: Chunk): U8x16 {
    seq(16, j requires 0 <= j < 16 => HiByte(c[j]))
  }

  /** vst2q_u8 */
  function Interleave(p: Planes): Chunk {
    seq(16, j requires 0 <= j < 16 => Join(p.lo[j], p.hi[j]))
  }

  function MulPlanes(c: Chunk, scalar: Symbol): Planes {
    var (lo, hi) := (LoByte(scalar), HiByte(scalar));
    BarrettReduce(KaratsubaMulP8(LowPlane(c), HighPlane(c), Splat(lo), Splat(hi), Splat(XorByte(lo, hi))))
  }

  /** The products of lane j. */
  lemma ProductLanes(c: Chunk, scalar: Symbol, j: nat)
    requires j < 16
    ensures var (lo, hi) := (LoByte(scalar), HiByte(scalar));
            var p := KaratsubaMulP8(LowPlane(c), HighPlane(c), Splat(lo), Splat(hi), Splat(XorByte(lo, hi)));
            && (p.low1 + p.low2)[j] == ByteProduct(LoByte(c[j]), lo)
            && (p.mid1 + p.mid2)[j] == ByteProduct(XorByte(LoByte(c[j]), HiByte(c[j])), XorByte(lo, hi))
            && (p.high1 + p.high2)[j] == ByteProduct(HiByte(c[j]), hi)
  {
    hide LoByte, HiByte, XorByte, ByteProduct;
  }

  /** The bytes of lane j after the reduction. */
  lemma ReducedLanes(p: Products, j: nat, l: Symbol, m: Symbol, h: Symbol)
    requires j < 16 && l == (p.low1 + p.low2)[j] && m == (p.mid1 + p.mid2)[j] && h == (p.high1 + p.high2)[j]
    ensures var p1 := XorByte(XorByte(XorByte(LoByte(h), HiByte(l)), LoByte(l)), LoByte(m));
            var p2 := XorByte(XorByte(XorByte(LoByte(h), HiByte(l)), HiByte(h)), HiByte(m));
            && BarrettReduce(p).lo[j] == XorByte(LoByte(l), ReducedLow(p2, HiByte(h)))
            && BarrettReduce(p).hi[j] == XorByte(ReducedHigh(p2, HiByte(h)), p1)
  {
    hide LoByte, HiByte, XorByte, ByteProductLow, Shr2, Shr4, Shr5, Shl4, ShiftLeftInsert4, ShiftRightInsert4;
  }

  /** Every lane holds the field product. */
  lemma MulPlanesProduct(c: Chunk, scalar: Symbol)
    ensures Interleave(MulPlanes(c, scalar)) == Scale(scalar, c)
  {
    hide LoByte, HiByte, XorByte, ByteProduct, Join, Mul, BarrettReduce, ReducedLow, ReducedHigh, KaratsubaMulP8;
    var (lo, hi) := (LoByte(scalar), HiByte(scalar));
    var p := KaratsubaMulP8(LowPlane(c), HighPlane(c), Splat(lo), Splat(hi), Splat(XorByte(lo, hi)));
    forall j | 0 <= j < 16
      ensures Interleave(MulPlanes(c, scalar))[j] == Mul(c[j], scalar)
    {
      var (l, m, h) := ((p.low1 + p.low2)[j], (p.mid1 + p.mid2)[j], (p.high1 + p.high2)[j]);
      ProductLanes(c, scalar, j);
      ReducedLanes(p, j, l, m, h);
      SymbolProduct(c[j], scalar, l, m, h);
    }
  }
}
