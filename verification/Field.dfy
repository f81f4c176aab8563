/**
 The field the codec computes in: polynomials over GF(2) of degree below 16, one bit
 per coefficient, modulo x^16 + x^12 + x^3 + x + 1 (0x1100B).

 The ring laws are proved from the shift-and-xor definition of the product.  Lemmas
 about sums and products `hide` the bit-level definitions, so that the verifier
 treats `Add` and `Mul` as abstract operations.
 */
module GaloisField {

  type Symbol = bv16

  /** Addition, and subtraction, of polynomials over GF(2). */
  function Add(a: Symbol, b: Symbol): Symbol {
    a ^ b
  }

  /** a * x reduced by the field polynomial. */
  function Double(a: Symbol): Symbol {
    (a << 1) ^ ((a >> 15) * 0x100B)
  }

  function Half(b: Symbol): Symbol {
    b >> 1
  }

  /** a when the lowest bit of b is set, and 0 otherwise. */
  function Pick(b: Symbol, a: Symbol): Symbol {
    (b & 1) * a
  }

  /** The product of a and the k low coefficients of b. */
  function MulBits(a: Symbol, b: Symbol, k: nat): Symbol
    decreases k
  {
    if k == 0 then 0 else Add(Pick(b, a), MulBits(Double(a), Half(b), k - 1))
  }

  /** The field product, by shifting and adding. */
  function Mul(a: Symbol, b: Symbol): Symbol {
    MulBits(a, b, 16)
  }

  /** n-fold product. */
  function Pow(a: Symbol, n: nat): Symbol {
    if n == 0 then 1 else Mul(a, Pow(a, n - 1))
  }

  // ----- addition

  lemma AddAssoc(a: Symbol, b: Symbol, c: Symbol)
    ensures Add(Add(a, b), c) == Add(a, Add(b, c))
  {
  }

  lemma AddComm(a: Symbol, b: Symbol)
    ensures Add(a, b) == Add(b, a)
  {
  }

  lemma AddZero(a: Symbol)
    ensures Add(a, 0) == a == Add(0, a)
    ensures Add(a, a) == 0
  {
  }

  lemma AddSwap(a: Symbol, b: Symbol, c: Symbol, d: Symbol)
    ensures Add(Add(a, b), Add(c, d)) == Add(Add(a, c), Add(b, d))
  {
    hide Add;
    AddAssoc(a, b, Add(c, d));
    AddAssoc(b, c, d);
    AddComm(b, c);
    AddAssoc(c, b, d);
    AddAssoc(a, c, Add(b, d));
  }

  /** Adding the same value twice cancels. */
  lemma AddCancel(a: Symbol, b: Symbol)
    ensures Add(Add(a, b), b) == a
    ensures Add(a, b) == 0 ==> a == b
  {
    AddAssoc(a, b, b);
  }

  // ----- bit-level facts, first on `^` and then on `Add`

  lemma DoubleXor(a: Symbol, b: Symbol)
    ensures Double(a ^ b) == Double(a) ^ Double(b)
  {
  }

  lemma DoubleAdd(a: Symbol, b: Symbol)
    ensures Double(Add(a, b)) == Add(Double(a), Double(b))
  {
    hide Double;
    DoubleXor(a, b);
  }

  lemma HalfAdd(a: Symbol, b: Symbol)
    ensures Half(Add(a, b)) == Add(Half(a), Half(b))
  {
  }

  lemma PickXor(a: Symbol, b: Symbol, c: Symbol)
    ensures Pick(a, b ^ c) == Pick(a, b) ^ Pick(a, c)
  {
  }

  lemma PickXorLeft(a: Symbol, b: Symbol, c: Symbol)
    ensures Pick(a ^ b, c) == Pick(a, c) ^ Pick(b, c)
  {
  }

  lemma PickAdd(a: Symbol, b: Symbol, c: Symbol)
    ensures Pick(a, Add(b, c)) == Add(Pick(a, b), Pick(a, c))
    ensures Pick(Add(a, b), c) == Add(Pick(a, c), Pick(b, c))
  {
    hide Pick;
    PickXor(a, b, c);
    PickXorLeft(a, b, c);
  }

  lemma PickCases(b: Symbol, a: Symbol)
    ensures Pick(b, a) == if b & 1 == 0 then 0 else a
  {
    assert b & 1 == 0 || b & 1 == 1;
  }

  lemma DoubleZero()
    ensures Double(0) == 0
  {
  }

  lemma PickDouble(b: Symbol, a: Symbol)
    ensures Pick(b, Double(a)) == Double(Pick(b, a))
  {
    hide Pick, Double;
    DoubleZero();
    PickCases(b, a);
    PickCases(b, Double(a));
  }

  lemma DoubleHalf(b: Symbol)
    ensures Add(Pick(b, 1), Double(Half(b))) == b
  {
  }

  // ----- the product is bilinear

  lemma {:induction false} MulBitsAddLeft(a: Symbol, c: Symbol, b: Symbol, k: nat)
    ensures MulBits(Add(a, c), b, k) == Add(MulBits(a, b, k), MulBits(c, b, k))
    decreases k
  {
    if k == 0 {
      return;
    }
    hide Add, Double, Half, Pick;
    MulBitsAddLeft(Double(a), Double(c), Half(b), k - 1);
    DoubleAdd(a, c);
    PickAdd(b, a, c);
    AddSwap(Pick(b, a), Pick(b, c), MulBits(Double(a), Half(b), k - 1), MulBits(Double(c), Half(b), k - 1));
  }

  lemma {:induction false} MulBitsAddRight(a: Symbol, b: Symbol, c: Symbol, k: nat)
    ensures MulBits(a, Add(b, c), k) == Add(MulBits(a, b, k), MulBits(a, c, k))
    decreases k
  {
    if k == 0 {
      return;
    }
    hide Add, Double, Half, Pick;
    MulBitsAddRight(Double(a), Half(b), Half(c), k - 1);
    HalfAdd(b, c);
    PickAdd(b, c, a);
    AddSwap(Pick(b, a), Pick(c, a), MulBits(Double(a), Half(b), k - 1), MulBits(Double(a), Half(c), k - 1));
  }

  lemma {:induction false} MulBitsDouble(a: Symbol, b: Symbol, k: nat)
    ensures MulBits(Double(a), b, k) == Double(MulBits(a, b, k))
    decreases k
  {
    if k == 0 {
      return;
    }
    hide Add, Double, Half, Pick;
    MulBitsDouble(Double(a), Half(b), k - 1);
    DoubleAdd(Pick(b, a), MulBits(Double(a), Half(b), k - 1));
    PickDouble(b, a);
  }

  lemma MulAddLeft(a: Symbol, c: Symbol, b: Symbol)
    ensures Mul(Add(a, c), b) == Add(Mul(a, b), Mul(c, b))
  {
    hide Add, MulBits;
    MulBitsAddLeft(a, c, b, 16);
  }

  lemma MulAddRight(a: Symbol, b: Symbol, c: Symbol)
    ensures Mul(a, Add(b, c)) == Add(Mul(a, b), Mul(a, c))
  {
    hide Add, MulBits;
    MulBitsAddRight(a, b, c, 16);
  }

  // ----- zero, one, commutativity and associativity

  /** The coefficients of b from position k up are all zero. */
  predicate Fits(b: Symbol, k: nat)
    decreases k
  {
    if k == 0 then b == 0 else Fits(Half(b), k - 1)
  }

  lemma FitsAll(b: Symbol)
    ensures Fits(b, 16)
  {
    assert Fits(b >> 16, 0);
    assert b >> 16 == Half(b >> 15) && Fits(b >> 15, 1);
    assert b >> 15 == Half(b >> 14) && Fits(b >> 14, 2);
    assert b >> 14 == Half(b >> 13) && Fits(b >> 13, 3);
    assert b >> 13 == Half(b >> 12) && Fits(b >> 12, 4);
    assert b >> 12 == Half(b >> 11) && Fits(b >> 11, 5);
    assert b >> 11 == Half(b >> 10) && Fits(b >> 10, 6);
    assert b >> 10 == Half(b >> 9) && Fits(b >> 9, 7);
    assert b >> 9 == Half(b >> 8) && Fits(b >> 8, 8);
    assert b >> 8 == Half(b >> 7) && Fits(b >> 7, 9);
    assert b >> 7 == Half(b >> 6) && Fits(b >> 6, 10);
    assert b >> 6 == Half(b >> 5) && Fits(b >> 5, 11);
    assert b >> 5 == Half(b >> 4) && Fits(b >> 4, 12);
    assert b >> 4 == Half(b >> 3) && Fits(b >> 3, 13);
    assert b >> 3 == Half(b >> 2) && Fits(b >> 2, 14);
    assert b >> 2 == Half(b >> 1) && Fits(b >> 1, 15);
  }

  lemma MulZero(a: Symbol)
    ensures Mul(a, 0) == 0 == Mul(0, a)
  {
    AddZero(0);
    AddZero(Mul(a, 0));
    AddZero(Mul(0, a));
    MulAddRight(a, 0, 0);
    MulAddLeft(0, 0, a);
  }

  lemma {:induction false} MulBitsOne(b: Symbol, k: nat)
    requires Fits(b, k)
    ensures MulBits(1, b, k) == b
    decreases k
  {
    if k == 0 {
      return;
    }
    hide Add, Double, Half, Pick;
    MulBitsDouble(1, Half(b), k - 1);
    MulBitsOne(Half(b), k - 1);
    DoubleHalf(b);
  }

  lemma {:induction false} MulBitsComm(a: Symbol, b: Symbol, k: nat)
    requires Fits(b, k)
    ensures MulBits(a, b, k) == Mul(b, a)
    decreases k
  {
    if k == 0 {
      MulZero(a);
      return;
    }
    hide Add, Double, Half, Pick, Mul;
    MulBitsComm(Double(a), Half(b), k - 1);
    DoubleHalf(b);
    MulAddLeft(Pick(b, 1), Double(Half(b)), a);
    calc {
      Mul(Double(Half(b)), a);
      { MulDouble(Half(b), a); }
      Double(Mul(Half(b), a));
      { MulBitsComm(a, Half(b), k - 1); MulBitsDouble(a, Half(b), k - 1); }
      MulBits(Double(a), Half(b), k - 1);
    }
    PickMul(b, 1, a);
    MulOneLeft(a);
  }

  lemma MulOneLeft(a: Symbol)
    ensures Mul(1, a) == a
  {
    FitsAll(a);
    MulBitsOne(a, 16);
  }

  lemma MulDouble(a: Symbol, b: Symbol)
    ensures Mul(Double(a), b) == Double(Mul(a, b))
  {
    hide Double, MulBits;
    MulBitsDouble(a, b, 16);
  }

  lemma PickMul(c: Symbol, a: Symbol, b: Symbol)
    ensures Mul(Pick(c, a), b) == Pick(c, Mul(a, b))
  {
    hide Mul;
    MulZero(b);
    assert c & 1 == 0 || c & 1 == 1;
  }

  lemma MulComm(a: Symbol, b: Symbol)
    ensures Mul(a, b) == Mul(b, a)
  {
    hide MulBits;
    FitsAll(b);
    MulBitsComm(a, b, 16);
  }

  lemma MulOne(a: Symbol)
    ensures Mul(1, a) == a == Mul(a, 1)
  {
    MulOneLeft(a);
    MulComm(1, a);
  }

  lemma {:induction false} MulBitsAssoc(a: Symbol, b: Symbol, c: Symbol, k: nat)
    ensures Mul(a, MulBits(b, c, k)) == MulBits(Mul(a, b), c, k)
    decreases k
  {
    if k == 0 {
      MulZero(a);
      return;
    }
    hide Add, Double, Half, Pick, Mul;
    MulAddRight(a, Pick(c, b), MulBits(Double(b), Half(c), k - 1));
    MulBitsAssoc(a, Double(b), Half(c), k - 1);
    MulComm(a, Double(b));
    MulDouble(b, a);
    MulComm(b, a);
    MulComm(a, Pick(c, b));
    PickMul(c, b, a);
  }

  lemma MulAssoc(a: Symbol, b: Symbol, c: Symbol)
    ensures Mul(Mul(a, b), c) == Mul(a, Mul(b, c))
  {
    hide MulBits;
    MulBitsAssoc(a, b, c, 16);
  }

  // ----- powers

  lemma {:induction false} PowAdd(a: Symbol, m: nat, n: nat)
    ensures Pow(a, m + n) == Mul(Pow(a, m), Pow(a, n))
  {
    hide Mul;
    if m == 0 {
      MulOne(Pow(a, n));
    } else {
      PowAdd(a, m - 1, n);
      MulAssoc(a, Pow(a, m - 1), Pow(a, n));
    }
  }

  lemma {:induction false} PowOne(n: nat)
    ensures Pow(1, n) == 1
  {
    hide Mul;
    if n != 0 {
      PowOne(n - 1);
      MulOne(1);
    }
  }

  lemma {:induction false} PowMul(a: Symbol, m: nat, n: nat)
    ensures Pow(a, m * n) == Pow(Pow(a, m), n)
  {
    hide Mul;
    if n != 0 {
      PowMul(a, m, n - 1);
      assert m * n == m + m * (n - 1);
      PowAdd(a, m, m * (n - 1));
    }
  }

  lemma {:induction false} PowProduct(a: Symbol, b: Symbol, n: nat)
    ensures Pow(Mul(a, b), n) == Mul(Pow(a, n), Pow(b, n))
  {
    hide Mul;
    if n == 0 {
      MulOne(1);
    } else {
      var p, q := Pow(a, n - 1), Pow(b, n - 1);
      PowProduct(a, b, n - 1);
      MulAssoc(a, b, Mul(p, q));
      MulAssoc(b, p, q);
      MulComm(b, p);
      MulAssoc(p, b, q);
      MulAssoc(a, p, Mul(b, q));
    }
  }
}
