/**
 The PCLMULQDQ multiplication of src/galois/simd/x86/pclmul.rs: eight field products at
 once.  A 128-bit register is eight lanes of 16 bits, lane 0 lowest; every intrinsic the
 source uses is defined on lanes.
 */
module Pclmul {
  import opened GaloisField
  import opened Primitive
  import opened Carryless
  import opened GaloisTables
  import opened Bytes
  import opened LinearAlgebra
  import opened Scalar

  datatype V128 = V128(w0: Symbol, w1: Symbol, w2: Symbol, w3: Symbol, w4: Symbol, w5: Symbol, w6: Symbol, w7: Symbol)

  // ----- the carry-less product of two 64-bit words, bit by bit

  /** The register shifted left by one bit, as a whole. */
  function Shl1(v: V128): V128 {
    V128(Shl16(v.w0), Add(Shl16(v.w1), Carry(v.w0)), Add(Shl16(v.w2), Carry(v.w1)), Add(Shl16(v.w3), Carry(v.w2)),
         Add(Shl16(v.w4), Carry(v.w3)), Add(Shl16(v.w5), Carry(v.w4)), Add(Shl16(v.w6), Carry(v.w5)),
         Add(Shl16(v.w7), Carry(v.w6)))
  }

  function ShlLane(v: V128): V128 {
    V128(0, v.w0, v.w1, v.w2, v.w3, v.w4, v.w5, v.w6)
  }

  /** _mm_xor_si128 */
  function Xor(a: V128, b: V128): V128 {
    V128(Add(a.w0, b.w0), Add(a.w1, b.w1), Add(a.w2, b.w2), Add(a.w3, b.w3), Add(a.w4, b.w4), Add(a.w5, b.w5),
         Add(a.w6, b.w6), Add(a.w7, b.w7))
  }

  /** v when the lowest bit of f is set, and zero otherwise. */
  function PickV(f: Symbol, v: V128): V128 {
    V128(Pick(f, v.w0), Pick(f, v.w1), Pick(f, v.w2), Pick(f, v.w3), Pick(f, v.w4), Pick(f, v.w5),
         Pick(f, v.w6), Pick(f, v.w7))
  }

  /** v times the k low bits of f. */
  function DigitProduct(v: V128, f: Symbol, k: nat): V128
    decreases k
  {
    if k == 0 then V128(0, 0, 0, 0, 0, 0, 0, 0) else Xor(PickV(f, v), DigitProduct(Shl1(v), Half(f), k - 1))
  }

  /** The product of the low 64 bits of a and b: shift-and-add over the 64 bits of b, 16 at a time. */
  function ClmulLow(a: V128, b: V128): V128 {
    var v := V128(a.w0, a.w1, a.w2, a.w3, 0, 0, 0, 0);
    var v1 := ShlLane(v);
    var v2 := ShlLane(v1);
    Xor(Xor(DigitProduct(v, b.w0, 16), DigitProduct(v1, b.w1, 16)),
        Xor(DigitProduct(v2, b.w2, 16), DigitProduct(ShlLane(v2), b.w3, 16)))
  }

  /** _mm_clmulepi64_si128 with both operands from the low half (0x00) or from the high half (0x11). */
  function Clmul(a: V128, b: V128, high: bool): V128 {
    if high then
      ClmulLow(V128(a.w4, a.w5, a.w6, a.w7, 0, 0, 0, 0), V128(b.w4, b.w5, b.w6, b.w7, 0, 0, 0, 0))
    else
      ClmulLow(a, b)
  }

  // ----- the digit product is linear, moves with its operand, and fits in two lanes

  lemma ShlAdd(a: Symbol, b: Symbol)
    ensures Shl16(Add(a, b)) == Add(Shl16(a), Shl16(b))
  {
  }

  lemma CarryAdd(a: Symbol, b: Symbol)
    ensures Carry(Add(a, b)) == Add(Carry(a), Carry(b))
  {
  }

  lemma LaneShlAdd(a: Symbol, b: Symbol, a': Symbol, b': Symbol)
    ensures Add(Shl16(Add(a, b)), Carry(Add(a', b'))) == Add(Add(Shl16(a), Carry(a')), Add(Shl16(b), Carry(b')))
  {
    hide *;
    ShlAdd(a, b);
    CarryAdd(a', b');
    AddSwap(Shl16(a), Shl16(b), Carry(a'), Carry(b'));
  }

  lemma Shl1Xor(a: V128, b: V128)
    ensures Shl1(Xor(a, b)) == Xor(Shl1(a), Shl1(b))
  {
    hide Add, Shl16, Carry;
    ShlAdd(a.w0, b.w0);
    LaneShlAdd(a.w1, b.w1, a.w0, b.w0);
    LaneShlAdd(a.w2, b.w2, a.w1, b.w1);
    LaneShlAdd(a.w3, b.w3, a.w2, b.w2);
    LaneShlAdd(a.w4, b.w4, a.w3, b.w3);
    LaneShlAdd(a.w5, b.w5, a.w4, b.w4);
    LaneShlAdd(a.w6, b.w6, a.w5, b.w5);
    LaneShlAdd(a.w7, b.w7, a.w6, b.w6);
  }

  lemma PickVXor(f: Symbol, a: V128, b: V128)
    ensures PickV(f, Xor(a, b)) == Xor(PickV(f, a), PickV(f, b))
  {
    hide Add, Pick;
    PickAdd(f, a.w0, b.w0);
    PickAdd(f, a.w1, b.w1);
    PickAdd(f, a.w2, b.w2);
    PickAdd(f, a.w3, b.w3);
    PickAdd(f, a.w4, b.w4);
    PickAdd(f, a.w5, b.w5);
    PickAdd(f, a.w6, b.w6);
    PickAdd(f, a.w7, b.w7);
  }

  lemma XorSwap(a: V128, b: V128, c: V128, d: V128)
    ensures Xor(Xor(a, b), Xor(c, d)) == Xor(Xor(a, c), Xor(b, d))
  {
    hide Add;
    AddSwap(a.w0, b.w0, c.w0, d.w0);
    AddSwap(a.w1, b.w1, c.w1, d.w1);
    AddSwap(a.w2, b.w2, c.w2, d.w2);
    AddSwap(a.w3, b.w3, c.w3, d.w3);
    AddSwap(a.w4, b.w4, c.w4, d.w4);
    AddSwap(a.w5, b.w5, c.w5, d.w5);
    AddSwap(a.w6, b.w6, c.w6, d.w6);
    AddSwap(a.w7, b.w7, c.w7, d.w7);
  }

  lemma {:induction false} DigitProductXor(a: V128, b: V128, f: Symbol, k: nat)
    ensures DigitProduct(Xor(a, b), f, k) == Xor(DigitProduct(a, f, k), DigitProduct(b, f, k))
    decreases k
  {
    if k == 0 {
      AddZero(0);
      hide Add;
      return;
    }
    hide Xor, Shl1, PickV, Half;
    DigitProductXor(Shl1(a), Shl1(b), Half(f), k - 1);
    Shl1Xor(a, b);
    PickVXor(f, a, b);
    XorSwap(PickV(f, a), PickV(f, b), DigitProduct(Shl1(a), Half(f), k - 1), DigitProduct(Shl1(b), Half(f), k - 1));
  }

  /** The lane below the lowest one carries nothing in. */
  lemma ShlLaneOps(f: Symbol, a: V128, b: V128)
    ensures Shl1(ShlLane(a)) == ShlLane(Shl1(a))
    ensures PickV(f, ShlLane(a)) == ShlLane(PickV(f, a))
    ensures Xor(ShlLane(a), ShlLane(b)) == ShlLane(Xor(a, b))
  {
    assert Shl16(0) == 0 && Carry(0) == 0 && Pick(f, 0) == 0;
    AddZero(0);
    AddZero(Shl16(a.w0));
    hide Add, Shl16, Carry, Pick;
  }

  lemma {:induction false} DigitProductShl(v: V128, f: Symbol, k: nat)
    ensures DigitProduct(ShlLane(v), f, k) == ShlLane(DigitProduct(v, f, k))
    decreases k
  {
    if k == 0 {
      return;
    }
    hide Xor, Shl1, PickV, ShlLane, Half;
    DigitProductShl(Shl1(v), Half(f), k - 1);
    ShlLaneOps(f, v, v);
    ShlLaneOps(f, PickV(f, v), DigitProduct(Shl1(v), Half(f), k - 1));
  }

  /** A 32-bit value in the two lowest lanes. */
  function Lanes(p: bv32): V128 {
    V128(Low(p), High(p), 0, 0, 0, 0, 0, 0)
  }

  lemma LanesOps(p: bv32, q: bv32, f: Symbol)
    ensures Xor(Lanes(p), Lanes(q)) == Lanes(Xor32(p, q))
    ensures PickV(f, Lanes(p)) == Lanes(Pick32(f, p))
  {
    assert Pick(f, 0) == 0;
    AddZero(0);
    LowHighXor(p, q);
    LanePick(f, p);
    assert Add(Low(p), Low(q)) == Low(p) ^ Low(q) && Add(High(p), High(q)) == High(p) ^ High(q) by {
      hide Low, High;
    }
    hide Add, Low, High, Pick, Xor32, Pick32;
  }

  lemma LanePick(f: Symbol, p: bv32)
    ensures Pick(f, Low(p)) == Low(Pick32(f, p)) && Pick(f, High(p)) == High(Pick32(f, p))
  {
    assert f & 1 == 0 || f & 1 == 1;
  }

  lemma LanesShl(p: bv32)
    requires TopClear(p)
    ensures Shl1(Lanes(p)) == Lanes(Shl32(p))
  {
    var h := High(p);
    assert h >> 15 == 0;
    assert Carry(h) == 0 && Double(h) == Shl16(h) && Carry(0) == 0 && Shl16(0) == 0;
    AddZero(0);
    LowHighShl(p);
    hide Add, Low, High, Shl32, Shl16, Carry, Double;
  }

  /** The product of two symbols fits in the two lowest lanes. */
  lemma {:induction false} LanesProduct(e: bv32, f: Symbol, k: nat)
    requires Room(e, k)
    ensures DigitProduct(Lanes(e), f, k) == Lanes(ProductBits(e, f, k))
    decreases k
  {
    if k == 0 {
      assert Low(0) == 0 && High(0) == 0;
      return;
    }
    hide Xor, Shl1, PickV, Half, Lanes, Shl32, Xor32, Pick32, TopClear;
    LanesShl(e);
    LanesProduct(Shl32(e), Half(f), k - 1);
    LanesOps(e, e, f);
    LanesOps(Pick32(f, e), ProductBits(Shl32(e), Half(f), k - 1), f);
  }

  // ----- products of words with every other lane zero

  /** Two 32-bit values next to each other. */
  function LanePair(p: bv32, q: bv32): V128 {
    V128(Low(p), High(p), Low(q), High(q), 0, 0, 0, 0)
  }

  lemma PairProduct(a: Symbol, b: Symbol, f: Symbol)
    ensures DigitProduct(V128(a, 0, b, 0, 0, 0, 0, 0), f, 16) == LanePair(Product(a, f), Product(b, f))
  {
    var la, lb := Lanes(a as bv32), Lanes(b as bv32);
    LowOfSymbol(a);
    LowOfSymbol(b);
    RoomForSymbol(a);
    RoomForSymbol(b);
    hide Low, High, Room, DigitProduct, ProductBits;
    PairSplit(a as bv32, b as bv32);
    PairSplit(Product(a, f), Product(b, f));
    DigitProductXor(la, ShlLane(ShlLane(lb)), f, 16);
    DigitProductShl(ShlLane(lb), f, 16);
    DigitProductShl(lb, f, 16);
    LanesProduct(a as bv32, f, 16);
    LanesProduct(b as bv32, f, 16);
  }

  lemma LowOfSymbol(a: Symbol)
    ensures Low(a as bv32) == a && High(a as bv32) == 0
  {
  }

  lemma PairSplit(p: bv32, q: bv32)
    ensures LanePair(p, q) == Xor(Lanes(p), ShlLane(ShlLane(Lanes(q))))
  {
    AddZero(0);
    AddZero(Low(p));
    AddZero(High(p));
    AddZero(Low(q));
    AddZero(High(q));
    hide Add, Low, High;
  }

  lemma {:induction false} ZeroDigit(v: V128, k: nat)
    ensures DigitProduct(v, 0, k) == V128(0, 0, 0, 0, 0, 0, 0, 0)
    decreases k
  {
    assert Half(0) == 0;
    assert forall s: Symbol :: Pick(0, s) == 0;
    AddZero(0);
    hide Add, Half, Pick, Shl1;
    if k != 0 {
      ZeroDigit(Shl1(v), k - 1);
    }
  }

  /** Even lanes: the outer products stay apart from the cross product, which goes to lanes 2 and 3. */
  lemma EvenProduct(a: Symbol, b: Symbol, f: Symbol, g: Symbol, x: V128, y: V128)
    requires x.w0 == a && x.w1 == 0 && x.w2 == b && x.w3 == 0
    requires y.w0 == f && y.w1 == 0 && y.w2 == g && y.w3 == 0
    ensures var r := ClmulLow(x, y);
            && r.w0 == Low(Product(a, f)) && r.w1 == High(Product(a, f))
            && r.w4 == Low(Product(b, g)) && r.w5 == High(Product(b, g))
  {
    var v := V128(a, 0, b, 0, 0, 0, 0, 0);
    ZeroDigit(ShlLane(v), 16);
    ZeroDigit(ShlLane(ShlLane(ShlLane(v))), 16);
    hide DigitProduct, Product, Low, High;
    PairProduct(a, b, f);
    PairProduct(a, b, g);
    DigitProductShl(ShlLane(v), g, 16);
    DigitProductShl(v, g, 16);
    AddZero(0);
    AddZero(Low(Product(a, f)));
    AddZero(High(Product(a, f)));
    AddZero(Low(Product(b, g)));
    AddZero(High(Product(b, g)));
    hide Add;
  }

  /** Odd lanes: the cross product goes to lanes 4 and 5. */
  lemma OddProduct(a: Symbol, b: Symbol, f: Symbol, g: Symbol, x: V128, y: V128)
    requires x.w0 == 0 && x.w1 == a && x.w2 == 0 && x.w3 == b
    requires y.w0 == 0 && y.w1 == f && y.w2 == 0 && y.w3 == g
    ensures var r := ClmulLow(x, y);
            && r.w2 == Low(Product(a, f)) && r.w3 == High(Product(a, f))
            && r.w6 == Low(Product(b, g)) && r.w7 == High(Product(b, g))
  {
    var u := V128(a, 0, b, 0, 0, 0, 0, 0);
    var v := ShlLane(u);
    ZeroDigit(v, 16);
    ZeroDigit(ShlLane(ShlLane(v)), 16);
    hide DigitProduct, Product, Low, High;
    PairProduct(a, b, f);
    PairProduct(a, b, g);
    DigitProductShl(ShlLane(u), f, 16);
    DigitProductShl(u, f, 16);
    DigitProductShl(ShlLane(ShlLane(ShlLane(u))), g, 16);
    DigitProductShl(ShlLane(ShlLane(u)), g, 16);
    DigitProductShl(ShlLane(u), g, 16);
    DigitProductShl(u, g, 16);
    AddZero(0);
    AddZero(Low(Product(a, f)));
    AddZero(High(Product(a, f)));
    AddZero(Low(Product(b, g)));
    AddZero(High(Product(b, g)));
    hide Add;
  }

  // ----- the other intrinsics

  /** _mm_and_si128 with the mask 0x0000FFFF in every 32-bit lane */
  function EvenLanes(v: V128): V128 {
    V128(v.w0, 0, v.w2, 0, v.w4, 0, v.w6, 0)
  }

  /** _mm_andnot_si128 with the same mask */
  function OddLanes(v: V128): V128 {
    V128(0, v.w1, 0, v.w3, 0, v.w5, 0, v.w7)
  }

  /** _mm_blend_epi16 with the mask 0xCC: lanes 2, 3, 6 and 7 come from b */
  function Blend(a: V128, b: V128): V128 {
    V128(a.w0, a.w1, b.w2, b.w3, a.w4, a.w5, b.w6, b.w7)
  }

  function LaneAt(v: V128, i: nat): Symbol
    requires i < 8
  {
    if i == 0 then v.w0 else if i == 1 then v.w1 else if i == 2 then v.w2 else if i == 3 then v.w3
    else if i == 4 then v.w4 else if i == 5 then v.w5 else if i == 6 then v.w6 else v.w7
  }

  function ByteAt(v: V128, j: nat): Byte
    requires j < 16
  {
    if j % 2 == 0 then LoByte(LaneAt(v, j / 2)) else HiByte(LaneAt(v, j / 2))
  }

  /** _mm_shuffle_epi8: byte j of the result is byte c[j] of v */
  function ShuffleBytes(v: V128, c: seq<nat>): V128
    requires |c| == 16 && forall j :: 0 <= j < 16 ==> c[j] < 16
  {
    V128(Join(ByteAt(v, c[0]), ByteAt(v, c[1])), Join(ByteAt(v, c[2]), ByteAt(v, c[3])),
         Join(ByteAt(v, c[4]), ByteAt(v, c[5])), Join(ByteAt(v, c[6]), ByteAt(v, c[7])),
         Join(ByteAt(v, c[8]), ByteAt(v, c[9])), Join(ByteAt(v, c[10]), ByteAt(v, c[11])),
         Join(ByteAt(v, c[12]), ByteAt(v, c[13])), Join(ByteAt(v, c[14]), ByteAt(v, c[15])))
  }

  /** The low halves of the four 32-bit lanes, then the high halves. */
  function ShuffleLoHi(v: V128): V128 {
    ShuffleBytes(v, [0, 1, 4, 5, 8, 9, 12, 13, 2, 3, 6, 7, 10, 11, 14, 15])
  }

  /** _mm_unpacklo_epi64 and _mm_unpackhi_epi64 */
  function UnpackLow(a: V128, b: V128): V128 {
    V128(a.w0, a.w1, a.w2, a.w3, b.w0, b.w1, b.w2, b.w3)
  }

  function UnpackHigh(a: V128, b: V128): V128 {
    V128(a.w4, a.w5, a.w6, a.w7, b.w4, b.w5, b.w6, b.w7)
  }

  /** A lane-wise instruction. */
  function MapLanes(f: Symbol -> Symbol, v: V128): V128 {
    V128(f(v.w0), f(v.w1), f(v.w2), f(v.w3), f(v.w4), f(v.w5), f(v.w6), f(v.w7))
  }

  /** _mm_srli_epi16 by 4, 8, 13 and 15 */
  function Srl4(w: Symbol): Symbol { w >> 4 }
  function Srl8(w: Symbol): Symbol { w >> 8 }
  function Srl13(w: Symbol): Symbol { w >> 13 }
  function Srl15(w: Symbol): Symbol { w >> 15 }

  /** _mm_slli_epi16 by 3 and 12 */
  function Sll3(w: Symbol): Symbol { w << 3 }
  function Sll12(w: Symbol): Symbol { w << 12 }

  /** _mm_add_epi16(v, v): each lane wraps around */
  function Twice(w: Symbol): Symbol { w + w }

  // ----- the Barrett reduction of one lane

  /** The quotient by the field polynomial, from the high half of a product. */
  function Quotient(q: Symbol): Symbol {
    var t1 := Add(q, Srl4(q));
    var t2 := Add(t1, Srl8(t1));
    var t3 := Add(t2, Srl13(q));
    Add(t3, Srl15(q))
  }

  /** The low half of the quotient times the field polynomial. */
  function TimesPoly(k: Symbol): Symbol {
    var u1 := Add(k, Sll3(k));
    var u2 := Add(u1, Twice(k));
    Add(u2, Sll12(k))
  }

  lemma SrlAdd4(a: Symbol, b: Symbol)
    ensures Srl4(Add(a, b)) == Add(Srl4(a), Srl4(b))
  {
  }

  lemma SrlAdd8(a: Symbol, b: Symbol)
    ensures Srl8(Add(a, b)) == Add(Srl8(a), Srl8(b))
  {
  }

  lemma SrlAdd13(a: Symbol, b: Symbol)
    ensures Srl13(Add(a, b)) == Add(Srl13(a), Srl13(b))
  {
  }

  lemma SrlAdd15(a: Symbol, b: Symbol)
    ensures Srl15(Add(a, b)) == Add(Srl15(a), Srl15(b))
  {
  }

  lemma SllAdd3(a: Symbol, b: Symbol)
    ensures Sll3(Add(a, b)) == Add(Sll3(a), Sll3(b))
  {
  }

  lemma SllAdd12(a: Symbol, b: Symbol)
    ensures Sll12(Add(a, b)) == Add(Sll12(a), Sll12(b))
  {
  }

  lemma TwiceAdd(a: Symbol, b: Symbol)
    ensures Twice(Add(a, b)) == Add(Twice(a), Twice(b))
  {
    hide Twice, Add, Shl16;
    TwiceShl(a);
    TwiceShl(b);
    TwiceShl(Add(a, b));
    ShlAdd(a, b);
  }

  lemma TwiceShl(a: Symbol)
    ensures Twice(a) == Shl16(a)
  {
  }

  lemma QuotientAdd(a: Symbol, b: Symbol)
    ensures Quotient(Add(a, b)) == Add(Quotient(a), Quotient(b))
  {
    hide Add, Srl4, Srl8, Srl13, Srl15;
    var a1, b1 := Add(a, Srl4(a)), Add(b, Srl4(b));
    SrlAdd4(a, b);
    AddSwap(a, b, Srl4(a), Srl4(b));
    var a2, b2 := Add(a1, Srl8(a1)), Add(b1, Srl8(b1));
    SrlAdd8(a1, b1);
    AddSwap(a1, b1, Srl8(a1), Srl8(b1));
    var a3, b3 := Add(a2, Srl13(a)), Add(b2, Srl13(b));
    SrlAdd13(a, b);
    AddSwap(a2, b2, Srl13(a), Srl13(b));
    SrlAdd15(a, b);
    AddSwap(a3, b3, Srl15(a), Srl15(b));
  }

  lemma TimesPolyAdd(a: Symbol, b: Symbol)
    ensures TimesPoly(Add(a, b)) == Add(TimesPoly(a), TimesPoly(b))
  {
    hide Add, Sll3, Sll12, Twice;
    var a1, b1 := Add(a, Sll3(a)), Add(b, Sll3(b));
    SllAdd3(a, b);
    AddSwap(a, b, Sll3(a), Sll3(b));
    var a2, b2 := Add(a1, Twice(a)), Add(b1, Twice(b));
    TwiceAdd(a, b);
    AddSwap(a1, b1, Twice(a), Twice(b));
    SllAdd12(a, b);
    AddSwap(a2, b2, Sll12(a), Sll12(b));
  }

  lemma AddSrl4(t: Symbol, q: Symbol)
    ensures Add(t, Srl4(q)) == t ^ (q >> 4)
  {
  }

  lemma AddSrl8(t: Symbol, q: Symbol)
    ensures Add(t, Srl8(q)) == t ^ (q >> 8)
  {
  }

  lemma AddSrl13(t: Symbol, q: Symbol)
    ensures Add(t, Srl13(q)) == t ^ (q >> 13)
  {
  }

  lemma AddSrl15(t: Symbol, q: Symbol)
    ensures Add(t, Srl15(q)) == t ^ (q >> 15)
  {
  }

  lemma AddSll3(t: Symbol, q: Symbol)
    ensures Add(t, Sll3(q)) == t ^ (q << 3)
  {
  }

  lemma AddSll12(t: Symbol, q: Symbol)
    ensures Add(t, Sll12(q)) == t ^ (q << 12)
  {
  }

  lemma AddShl16(t: Symbol, q: Symbol)
    ensures Add(t, Shl16(q)) == t ^ (q << 1)
  {
  }

  /** The intermediate values of the reduction, as plain bit operations. */
  lemma BarrettSteps(q: Symbol)
    returns (t1: Symbol, t2: Symbol, t3: Symbol, k: Symbol, u1: Symbol, u2: Symbol, r: Symbol)
    ensures t1 == q ^ (q >> 4) && t2 == t1 ^ (t1 >> 8) && t3 == t2 ^ (q >> 13) && k == t3 ^ (q >> 15)
    ensures u1 == k ^ (k << 3) && u2 == u1 ^ (k << 1) && r == u2 ^ (k << 12)
    ensures r == TimesPoly(Quotient(q))
  {
    hide Add, Srl4, Srl8, Srl13, Srl15, Sll3, Sll12, Twice, Shl16;
    t1 := Add(q, Srl4(q));
    t2 := Add(t1, Srl8(t1));
    t3 := Add(t2, Srl13(q));
    k := Add(t3, Srl15(q));
    u1 := Add(k, Sll3(k));
    u2 := Add(u1, Twice(k));
    r := Add(u2, Sll12(k));
    AddSrl4(q, q);
    AddSrl8(t1, t1);
    AddSrl13(t2, q);
    AddSrl15(t3, q);
    AddSll3(k, k);
    TwiceShl(k);
    AddShl16(u1, k);
    AddSll12(u2, k);
  }

  lemma LowByteClosed(q: Symbol, t1: Symbol, t2: Symbol, t3: Symbol, k: Symbol, u1: Symbol, u2: Symbol, r: Symbol)
    requires q & 0xFF00 == 0
    requires t1 == q ^ (q >> 4) && t2 == t1 ^ (t1 >> 8) && t3 == t2 ^ (q >> 13) && k == t3 ^ (q >> 15)
    requires u1 == k ^ (k << 3) && u2 == u1 ^ (k << 1) && r == u2 ^ (k << 12)
    ensures r == FoldClosed(q)
  {
  }

  lemma HighByteClosed(q: Symbol, t1: Symbol, t2: Symbol, t3: Symbol, k: Symbol, u1: Symbol, u2: Symbol, r: Symbol)
    requires q & 0x00FF == 0
    requires t1 == q ^ (q >> 4) && t2 == t1 ^ (t1 >> 8) && t3 == t2 ^ (q >> 13) && k == t3 ^ (q >> 15)
    requires u1 == k ^ (k << 3) && u2 == u1 ^ (k << 1) && r == u2 ^ (k << 12)
    ensures r == FoldClosed(q)
  {
  }

  /** A value with one zero byte is folded right. */
  lemma BarrettByte(q: Symbol)
    requires q & 0xFF00 == 0 || q & 0x00FF == 0
    ensures TimesPoly(Quotient(q)) == Fold(q)
  {
    hide *;
    var t1, t2, t3, k, u1, u2, r := BarrettSteps(q);
    if q & 0xFF00 == 0 {
      LowByteClosed(q, t1, t2, t3, k, u1, u2, r);
    } else {
      HighByteClosed(q, t1, t2, t3, k, u1, u2, r);
    }
    FoldIsClosed(q);
  }

  /** The shift-and-xor quotient is exact: it folds x^16 away for all 65536 high halves. */
  lemma BarrettExact(q: Symbol)
    ensures TimesPoly(Quotient(q)) == Fold(q)
  {
    var l, h := q & 0x00FF, q & 0xFF00;
    assert l & 0xFF00 == 0 && h & 0x00FF == 0 && Add(l, h) == q;
    hide Add, TimesPoly, Quotient, Fold;
    BarrettByte(l);
    BarrettByte(h);
    QuotientAdd(l, h);
    TimesPolyAdd(Quotient(l), Quotient(h));
    FoldAdd(l, h);
  }

  // ----- eight products at once

  /** gf_mul_pclmul_8, intrinsic by intrinsic. */
  function GfMulPclmul8(data1: V128, data2: V128): V128 {
    hide *;
    var (even1, even2) := (EvenLanes(data1), EvenLanes(data2));
    var (odd1, odd2) := (OddLanes(data1), OddLanes(data2));
    var prod1 := Blend(Clmul(even1, even2, false), Clmul(odd1, odd2, false));
    var prod2 := Blend(Clmul(even1, even2, true), Clmul(odd1, odd2, true));
    var (tmp1, tmp2) := (ShuffleLoHi(prod1), ShuffleLoHi(prod2));
    var rem := UnpackLow(tmp1, tmp2);
    var quot := UnpackHigh(tmp1, tmp2);
    Xor(MulPolyLanes(QuotientLanes(quot)), rem)
  }

  function QuotientLanes(quot: V128): V128 {
    var t1 := Xor(quot, MapLanes(Srl4, quot));
    var t2 := Xor(t1, MapLanes(Srl8, t1));
    var t3 := Xor(t2, MapLanes(Srl13, quot));
    Xor(t3, MapLanes(Srl15, quot))
  }

  function MulPolyLanes(quot: V128): V128 {
    var t1 := Xor(quot, MapLanes(Sll3, quot));
    var t2 := Xor(t1, MapLanes(Twice, quot));
    Xor(t2, MapLanes(Sll12, quot))
  }

  lemma ShuffleWords(v: V128)
    ensures ShuffleLoHi(v) == V128(v.w0, v.w2, v.w4, v.w6, v.w1, v.w3, v.w5, v.w7)
  {
    hide LoByte, HiByte, Join;
    JoinBytes(v.w0);
    JoinBytes(v.w1);
    JoinBytes(v.w2);
    JoinBytes(v.w3);
    JoinBytes(v.w4);
    JoinBytes(v.w5);
    JoinBytes(v.w6);
    JoinBytes(v.w7);
  }

  /** The low half of a product plus the reduced high half is the field product. */
  lemma ReducedLane(a: Symbol, b: Symbol)
    ensures Add(TimesPoly(Quotient(High(Product(a, b)))), Low(Product(a, b))) == Mul(a, b)
  {
    hide *;
    BarrettExact(High(Product(a, b)));
    ReduceProduct(a, b);
    ReduceDef(Product(a, b));
  }

  lemma ReduceDef(p: bv32)
    ensures Reduce(p) == Add(Fold(High(p)), Low(p))
  {
    hide Add, Fold, High, Low;
    AddComm(Fold(High(p)), Low(p));
  }

  /** After blending, each pair of lanes holds the product of one pair of symbols: no cross term remains. */
  lemma BlendedProducts(x: V128, y: V128, high: bool)
    ensures var r := Blend(Clmul(EvenLanes(x), EvenLanes(y), high), Clmul(OddLanes(x), OddLanes(y), high));
            if high then
              r == V128(Low(Product(x.w4, y.w4)), High(Product(x.w4, y.w4)), Low(Product(x.w5, y.w5)),
                        High(Product(x.w5, y.w5)), Low(Product(x.w6, y.w6)), High(Product(x.w6, y.w6)),
                        Low(Product(x.w7, y.w7)), High(Product(x.w7, y.w7)))
            else
              r == V128(Low(Product(x.w0, y.w0)), High(Product(x.w0, y.w0)), Low(Product(x.w1, y.w1)),
                        High(Product(x.w1, y.w1)), Low(Product(x.w2, y.w2)), High(Product(x.w2, y.w2)),
                        Low(Product(x.w3, y.w3)), High(Product(x.w3, y.w3)))
  {
    hide Product, Low, High, ClmulLow;
    var (xe, ye) := (EvenLanes(x), EvenLanes(y));
    var (xo, yo) := (OddLanes(x), OddLanes(y));
    if high {
      EvenProduct(x.w4, x.w6, y.w4, y.w6, V128(xe.w4, xe.w5, xe.w6, xe.w7, 0, 0, 0, 0),
                  V128(ye.w4, ye.w5, ye.w6, ye.w7, 0, 0, 0, 0));
      OddProduct(x.w5, x.w7, y.w5, y.w7, V128(xo.w4, xo.w5, xo.w6, xo.w7, 0, 0, 0, 0),
                 V128(yo.w4, yo.w5, yo.w6, yo.w7, 0, 0, 0, 0));
    } else {
      EvenProduct(x.w0, x.w2, y.w0, y.w2, xe, ye);
      OddProduct(x.w1, x.w3, y.w1, y.w3, xo, yo);
    }
  }

  lemma BarrettLanes(q: V128)
    ensures MulPolyLanes(QuotientLanes(q)) == V128(TimesPoly(Quotient(q.w0)), TimesPoly(Quotient(q.w1)),
                                                   TimesPoly(Quotient(q.w2)), TimesPoly(Quotient(q.w3)),
                                                   TimesPoly(Quotient(q.w4)), TimesPoly(Quotient(q.w5)),
                                                   TimesPoly(Quotient(q.w6)), TimesPoly(Quotient(q.w7)))
  {
    hide Add, Srl4, Srl8, Srl13, Srl15, Sll3, Sll12, Twice;
  }

  /** Each lane of the result is the field product of the lanes at the same place. */
  lemma GfMulPclmul8Correct(x: V128, y: V128)
    ensures GfMulPclmul8(x, y) == V128(Mul(x.w0, y.w0), Mul(x.w1, y.w1), Mul(x.w2, y.w2), Mul(x.w3, y.w3),
                                       Mul(x.w4, y.w4), Mul(x.w5, y.w5), Mul(x.w6, y.w6), Mul(x.w7, y.w7))
  {
    hide Clmul, ShuffleLoHi, MulPolyLanes, QuotientLanes, EvenLanes, OddLanes, Blend, Mul, Add, Low, High,
         Product, TimesPoly, Quotient;
    BlendedProducts(x, y, false);
    BlendedProducts(x, y, true);
    var prod1 := Blend(Clmul(EvenLanes(x), EvenLanes(y), false), Clmul(OddLanes(x), OddLanes(y), false));
    var prod2 := Blend(Clmul(EvenLanes(x), EvenLanes(y), true), Clmul(OddLanes(x), OddLanes(y), true));
    ShuffleWords(prod1);
    ShuffleWords(prod2);
    BarrettLanes(UnpackHigh(ShuffleLoHi(prod1), ShuffleLoHi(prod2)));
    ReducedLane(x.w0, y.w0);
    ReducedLane(x.w1, y.w1);
    ReducedLane(x.w2, y.w2);
    ReducedLane(x.w3, y.w3);
    ReducedLane(x.w4, y.w4);
    ReducedLane(x.w5, y.w5);
    ReducedLane(x.w6, y.w6);
    ReducedLane(x.w7, y.w7);
  }

  // ----- slices

  /** _mm_loadu_si128 at offset o */
  function Load(data: Row, o: nat): V128
    requires o + 8 <= |data|
  {
    V128(data[o + 0], data[o + 1], data[o + 2], data[o + 3], data[o + 4], data[o + 5], data[o + 6], data[o + 7])
  }

  /** _mm_set1_epi16 */
  function Broadcast(s: Symbol): V128 {
    V128(s, s, s, s, s, s, s, s)
  }

  /** _mm_storeu_si128 at offset o */
  method Store(data: array<Symbol>, o: nat, v: V128)
    requires o + 8 <= data.Length
    modifies data
    ensures forall i :: 0 <= i < data.Length && !(o <= i < o + 8) ==> data[i] == old(data[i])
    ensures forall i :: o <= i < o + 8 ==> data[i] == LaneAt(v, i - o)
  {
    hide LaneAt;
    for i := 0 to 8
      invariant forall k :: 0 <= k < data.Length && !(o <= k < o + i) ==> data[k] == old(data[k])
      invariant forall k :: o <= k < o + i ==> data[k] == LaneAt(v, k - o)
    {
      data[o + i] := LaneAt(v, i);
    }
  }

  lemma ProductLane(data: Row, o: nat, scalar: Symbol, i: nat)
    requires o + 8 <= |data| && i < 8
    ensures LaneAt(GfMulPclmul8(Load(data, o), Broadcast(scalar)), i) == Mul(data[o + i], scalar)
  {
    hide Mul, GfMulPclmul8;
    GfMulPclmul8Correct(Load(data, o), Broadcast(scalar));
  }

  /** One iteration of the multiply loop. */
  method MulChunk(data: array<Symbol>, offset: nat, scalar: Symbol)
    requires offset + 8 <= data.Length
    modifies data
    ensures forall k :: offset <= k < offset + 8 ==> data[k] == Mul(old(data[k]), scalar)
    ensures forall k :: 0 <= k < data.Length && !(offset <= k < offset + 8) ==> data[k] == old(data[k])
  {
    hide Mul, GfMulPclmul8, LaneAt;
    ghost var was := data[..];
    var prod := GfMulPclmul8(Load(data[..], offset), Broadcast(scalar));
    Store(data, offset, prod);
    forall k | offset <= k < offset + 8
      ensures data[k] == Mul(was[k], scalar)
    {
      ProductLane(was, offset, scalar, k - offset);
    }
  }

  /** gf_mul_slice_pclmul multiplies every symbol, whatever the length. */
  method GfMulSlicePclmul(t: Tables, scalar: Symbol, data: array<Symbol>)
    requires t.Valid()
    modifies data
    ensures data[..] == Scale(scalar, old(data[..]))
  {
    hide Mul;
    ScaleZero(scalar, data[..]);
    if scalar == 0 {
      for i := 0 to data.Length
        invariant forall k :: 0 <= k < i ==> data[k] == 0
      {
        data[i] := 0;
      }
      return;
    }
    if scalar == 1 {
      return;
    }
    var chunks := data.Length / 8;
    for i := 0 to chunks
      invariant forall k :: 0 <= k < 8 * i ==> data[k] == Mul(old(data[k]), scalar)
      invariant forall k :: 8 * i <= k < data.Length ==> data[k] == old(data[k])
    {
      MulChunk(data, 8 * i, scalar);
    }
    for i := 8 * chunks to data.Length
      invariant forall k :: 0 <= k < i ==> data[k] == Mul(old(data[k]), scalar)
      invariant forall k :: i <= k < data.Length ==> data[k] == old(data[k])
    {
      data[i] := t.GfMul(data[i], scalar);
    }
  }

  /** One iteration of the multiply-add loop. */
  method MuladdChunk(dst: array<Symbol>, src: array<Symbol>, offset: nat, scalar: Symbol)
    requires offset + 8 <= dst.Length && offset + 8 <= src.Length && dst != src
    modifies dst
    ensures forall k :: offset <= k < offset + 8 ==> dst[k] == Add(old(dst[k]), Mul(src[k], scalar))
    ensures forall k :: 0 <= k < dst.Length && !(offset <= k < offset + 8) ==> dst[k] == old(dst[k])
  {
    hide Mul, Add, GfMulPclmul8, LaneAt;
    ghost var was := dst[..];
    var d := Load(dst[..], offset);
    var prod := GfMulPclmul8(Load(src[..], offset), Broadcast(scalar));
    Store(dst, offset, Xor(d, prod));
    forall k | offset <= k < offset + 8
      ensures dst[k] == Add(was[k], Mul(src[k], scalar))
    {
      ProductLane(src[..], offset, scalar, k - offset);
      XorLane(d, prod, k - offset);
      LoadLane(was, offset, k - offset);
    }
  }

  /** gf_muladd_pclmul does the same as the scalar multiply-add, whatever the lengths. */
  method GfMuladdPclmul(t: Tables, dst: array<Symbol>, src: array<Symbol>, scalar: Symbol)
    requires t.Valid() && dst != src
    modifies dst
    ensures dst[..] == MulAdd(old(dst[..]), src[..], scalar)
  {
    hide Mul, Add;
    MulAddZero(dst[..], src[..]);
    if scalar == 0 {
      return;
    }
    var len := if dst.Length < src.Length then dst.Length else src.Length;
    var chunks := len / 8;
    for i := 0 to chunks
      invariant forall k :: 0 <= k < 8 * i ==> dst[k] == Add(old(dst[k]), Mul(src[k], scalar))
      invariant forall k :: 8 * i <= k < dst.Length ==> dst[k] == old(dst[k])
    {
      MuladdChunk(dst, src, 8 * i, scalar);
    }
    for i := 8 * chunks to len
      invariant forall k :: 0 <= k < i ==> dst[k] == Add(old(dst[k]), Mul(src[k], scalar))
      invariant forall k :: i <= k < dst.Length ==> dst[k] == old(dst[k])
    {
      dst[i] := Add(dst[i], t.GfMul(src[i], scalar));
    }
  }

  lemma XorLane(a: V128, b: V128, i: nat)
    requires i < 8
    ensures LaneAt(Xor(a, b), i) == Add(LaneAt(a, i), LaneAt(b, i))
  {
    hide Add;
  }

  lemma LoadLane(data: Row, o: nat, i: nat)
    requires o + 8 <= |data| && i < 8
    ensures LaneAt(Load(data, o), i) == data[o + i]
  {
  }
}
