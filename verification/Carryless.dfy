/**
 Carry-less products before reduction: 32 bits for a product of two symbols, 128 bits for
 a product of two 64-bit words, as the PCLMULQDQ instruction computes it.  Reducing the
 32-bit product modulo the field polynomial gives the field product.
 */
module Carryless {
  import opened GaloisField
  import opened Primitive

  // ----- the 32-bit product of two symbols

  function Xor32(a: bv32, b: bv32): bv32 {
    a ^ b
  }

  function Shl32(a: bv32): bv32 {
    a << 1
  }

  function Pick32(f: Symbol, a: bv32): bv32 {
    if f & 1 == 0 then 0 else a
  }

  /** e times the k low coefficients of f, by shifting and adding, without reduction. */
  function ProductBits(e: bv32, f: Symbol, k: nat): bv32
    decreases k
  {
    if k == 0 then 0 else Xor32(Pick32(f, e), ProductBits(Shl32(e), Half(f), k - 1))
  }

  function Product(a: Symbol, b: Symbol): bv32 {
    ProductBits(a as bv32, b, 16)
  }

  // ----- reduction

  function Low(p: bv32): Symbol {
    (p & 0xFFFF) as Symbol
  }

  function High(p: bv32): Symbol {
    (p >> 16) as Symbol
  }

  /** h * x^16 reduced by the field polynomial. */
  function Fold(h: Symbol): Symbol {
    Double4(Double4(Double4(Double4(h))))
  }

  /** The remainder of a 32-bit polynomial modulo the field polynomial. */
  function Reduce(p: bv32): Symbol {
    Add(Low(p), Fold(High(p)))
  }

  lemma Double4Add(a: Symbol, b: Symbol)
    ensures Double4(Add(a, b)) == Add(Double4(a), Double4(b))
  {
    hide Add, Double;
    DoubleAdd(a, b);
    DoubleAdd(Double(a), Double(b));
    DoubleAdd(Double(Double(a)), Double(Double(b)));
    DoubleAdd(Double(Double(Double(a))), Double(Double(Double(b))));
  }

  lemma FoldAdd(a: Symbol, b: Symbol)
    ensures Fold(Add(a, b)) == Add(Fold(a), Fold(b))
  {
    hide Add, Double4;
    Double4Add(a, b);
    Double4Add(Double4(a), Double4(b));
    Double4Add(Double4(Double4(a)), Double4(Double4(b)));
    Double4Add(Double4(Double4(Double4(a))), Double4(Double4(Double4(b))));
  }

  lemma FoldDouble(h: Symbol)
    ensures Fold(Double(h)) == Double(Fold(h))
  {
    hide Double;
  }

  /** x^16 is the low part of the field polynomial. */
  lemma FoldOne(b: Symbol)
    requires b == 0 || b == 1
    ensures Fold(b) == b * 0x100B
  {
    if b == 0 {
      assert Fold(0) == 0;
    } else {
      assert Fold(1) == 0x100B;
    }
  }

  /** Double4 without branches on single bits. */
  function Double4Closed(h: Symbol): Symbol {
    var t := h >> 12;
    (h << 4) ^ t ^ (t << 1) ^ (t << 3) ^ (t << 12)
  }

  lemma Double4IsClosed(h: Symbol)
    ensures Double4(h) == Double4Closed(h)
  {
  }

  function FoldClosed(h: Symbol): Symbol {
    Double4Closed(Double4Closed(Double4Closed(Double4Closed(h))))
  }

  lemma FoldIsClosed(h: Symbol)
    ensures Fold(h) == FoldClosed(h)
  {
    hide Double4, Double4Closed;
    Double4IsClosed(h);
    Double4IsClosed(Double4(h));
    Double4IsClosed(Double4(Double4(h)));
    Double4IsClosed(Double4(Double4(Double4(h))));
  }

  lemma LowHighXor(p: bv32, q: bv32)
    ensures Low(Xor32(p, q)) == Low(p) ^ Low(q)
    ensures High(Xor32(p, q)) == High(p) ^ High(q)
  {
  }

  lemma ReduceXor(p: bv32, q: bv32)
    ensures Reduce(Xor32(p, q)) == Add(Reduce(p), Reduce(q))
  {
    hide Low, High, Fold, Xor32;
    LowHighXor(p, q);
    assert Low(Xor32(p, q)) == Add(Low(p), Low(q)) && High(Xor32(p, q)) == Add(High(p), High(q));
    hide Add;
    FoldAdd(High(p), High(q));
    AddSwap(Low(p), Low(q), Fold(High(p)), Fold(High(q)));
  }

  predicate TopClear(p: bv32) {
    p & 0x8000_0000 == 0
  }

  function Carry(l: Symbol): Symbol {
    l >> 15
  }

  function Shl16(l: Symbol): Symbol {
    l << 1
  }

  lemma LowHighShl(p: bv32)
    requires TopClear(p)
    ensures Low(Shl32(p)) == Shl16(Low(p))
    ensures High(Shl32(p)) == Add(Double(High(p)), Carry(Low(p)))
  {
    var h := (p >> 16) as Symbol;
    assert h >> 15 == 0;
  }

  lemma DoubleCarry(l: Symbol)
    ensures Double(l) == Add(Shl16(l), Fold(Carry(l)))
  {
    assert l >> 15 == 0 || l >> 15 == 1;
    FoldOne(l >> 15);
    hide Fold;
  }

  lemma ReduceShl(p: bv32)
    requires TopClear(p)
    ensures Reduce(Shl32(p)) == Double(Reduce(p))
  {
    hide Low, High, Fold, Add, Double, Shl32, Shl16, Carry, TopClear;
    var l, h := Low(p), High(p);
    LowHighShl(p);
    DoubleCarry(l);
    FoldAdd(Double(h), Carry(l));
    FoldDouble(h);
    DoubleAdd(l, Fold(h));
    AddComm(Fold(Double(h)), Fold(Carry(l)));
    AddAssoc(Shl16(l), Fold(Carry(l)), Fold(Double(h)));
  }

  /** The top k coefficients of e are zero. */
  predicate Room(e: bv32, k: nat)
    decreases k
  {
    k == 0 || (TopClear(e) && Room(Shl32(e), k - 1))
  }

  lemma PickReduce(f: Symbol, e: bv32)
    ensures Reduce(Pick32(f, e)) == Pick(f, Reduce(e))
  {
    hide Add;
    assert Low(0) == 0 && High(0) == 0;
    FoldOne(0);
    AddZero(0);
    assert f & 1 == 0 || f & 1 == 1;
    hide Low, High, Fold;
  }

  lemma {:induction false} ReduceProductBits(e: bv32, f: Symbol, k: nat)
    requires Room(e, k)
    ensures Reduce(ProductBits(e, f, k)) == MulBits(Reduce(e), f, k)
    decreases k
  {
    hide Xor32, Pick32, Pick, Add, Double, Half, Shl32, TopClear;
    hide Reduce;
    if k == 0 {
      ReduceOfZero();
      return;
    }
    ReduceXor(Pick32(f, e), ProductBits(Shl32(e), Half(f), k - 1));
    PickReduce(f, e);
    ReduceShl(e);
    ReduceProductBits(Shl32(e), Half(f), k - 1);
  }

  lemma ReduceOfZero()
    ensures Reduce(0) == 0
  {
    hide Add;
    assert Low(0) == 0 && High(0) == 0;
    FoldOne(0);
    AddZero(0);
  }

  lemma RoomForSymbol(a: Symbol)
    ensures Room(a as bv32, 16)
  {
    var e := a as bv32;
    assert Room(e << 16, 0);
    assert e << 16 == Shl32(e << 15) && Room(e << 15, 1);
    assert e << 15 == Shl32(e << 14) && Room(e << 14, 2);
    assert e << 14 == Shl32(e << 13) && Room(e << 13, 3);
    assert e << 13 == Shl32(e << 12) && Room(e << 12, 4);
    assert e << 12 == Shl32(e << 11) && Room(e << 11, 5);
    assert e << 11 == Shl32(e << 10) && Room(e << 10, 6);
    assert e << 10 == Shl32(e << 9) && Room(e << 9, 7);
    assert e << 9 == Shl32(e << 8) && Room(e << 8, 8);
    assert e << 8 == Shl32(e << 7) && Room(e << 7, 9);
    assert e << 7 == Shl32(e << 6) && Room(e << 6, 10);
    assert e << 6 == Shl32(e << 5) && Room(e << 5, 11);
    assert e << 5 == Shl32(e << 4) && Room(e << 4, 12);
    assert e << 4 == Shl32(e << 3) && Room(e << 3, 13);
    assert e << 3 == Shl32(e << 2) && Room(e << 2, 14);
    assert e << 2 == Shl32(e << 1) && Room(e << 1, 15);
  }

  /** The field product is the remainder of the carry-less product. */
  lemma ReduceProduct(a: Symbol, b: Symbol)
    ensures Reduce(Product(a, b)) == Mul(a, b)
  {
    RoomForSymbol(a);
    ReduceSymbol(a);
    hide Reduce, Room, ProductBits;
    ReduceProductBits(a as bv32, b, 16);
  }

  lemma ReduceSymbol(a: Symbol)
    ensures Reduce(a as bv32) == a
  {
    assert Low(a as bv32) == a && High(a as bv32) == 0;
    FoldOne(0);
    hide Fold;
  }
}
