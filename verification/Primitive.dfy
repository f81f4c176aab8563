/**
 2 generates the multiplicative group of the field: its order is exactly 65535.
 The log and exp tables of src/galois/core.rs are mutually inverse because of this.
 */
module Primitive {
  import opened GaloisField

  const ORDER: nat := 65535

  function Exp(n: nat): Symbol {
    Pow(2, n)
  }

  // ----- a closed form of the product, which the verifier can evaluate on literals

  function Chunk(a: Symbol, b: Symbol): Symbol {
    var a1, b1 := Double(a), Half(b);
    var a2, b2 := Double(a1), Half(b1);
    Add(Pick(b, a), Add(Pick(b1, a1), Add(Pick(b2, a2), Pick(Half(b2), Double(a2)))))
  }

  function Double4(a: Symbol): Symbol {
    Double(Double(Double(Double(a))))
  }

  function Half4(b: Symbol): Symbol {
    Half(Half(Half(Half(b))))
  }

  function Unrolled(a: Symbol, b: Symbol): Symbol {
    var a4, b4 := Double4(a), Half4(b);
    var a8, b8 := Double4(a4), Half4(b4);
    Add(Chunk(a, b), Add(Chunk(a4, b4), Add(Chunk(a8, b8), Chunk(Double4(a8), Half4(b8)))))
  }

  lemma MulBitsChunk(a: Symbol, b: Symbol, k: nat)
    requires k >= 4
    ensures MulBits(a, b, k) == Add(Chunk(a, b), MulBits(Double4(a), Half4(b), k - 4))
  {
    hide Double, Half, Add, Pick;
    var a1, b1 := Double(a), Half(b);
    var a2, b2 := Double(a1), Half(b1);
    var a3, b3 := Double(a2), Half(b2);
    var p0, p1, p2, p3 := Pick(b, a), Pick(b1, a1), Pick(b2, a2), Pick(b3, a3);
    var rest := MulBits(Double(a3), Half(b3), k - 4);
    assert MulBits(a3, b3, k - 3) == Add(p3, rest);
    assert MulBits(a2, b2, k - 2) == Add(p2, Add(p3, rest));
    AddAssoc(p2, p3, rest);
    AddAssoc(p1, Add(p2, p3), rest);
    AddAssoc(p0, Add(p1, Add(p2, p3)), rest);
  }

  lemma MulUnrolled(a: Symbol, b: Symbol)
    ensures Mul(a, b) == Unrolled(a, b)
  {
    hide Double4, Half4, Chunk, Add;
    var a4, b4 := Double4(a), Half4(b);
    var a8, b8 := Double4(a4), Half4(b4);
    var a12, b12 := Double4(a8), Half4(b8);
    MulBitsChunk(a, b, 16);
    MulBitsChunk(a4, b4, 12);
    MulBitsChunk(a8, b8, 8);
    MulBitsChunk(a12, b12, 4);
    AddZero(Chunk(a12, b12));
  }

  lemma ExpAdd(i: nat, j: nat)
    ensures Exp(i + j) == Mul(Exp(i), Exp(j))
  {
    hide Mul;
    PowAdd(2, i, j);
  }

  lemma ExpSum(i: nat, j: nat, a: Symbol, b: Symbol, c: Symbol)
    requires Exp(i) == a && Exp(j) == b && Unrolled(a, b) == c
    ensures Exp(i + j) == c
  {
    hide Unrolled;
    ExpAdd(i, j);
    MulUnrolled(a, b);
  }

  /** Exp(2^k) for every k up to 16, by repeated squaring. */
  lemma Squares()
    ensures Exp(0x1) == 0x2 && Exp(0x2) == 0x4 && Exp(0x4) == 0x10 && Exp(0x8) == 0x100
    ensures Exp(0x10) == 0x100B && Exp(0x20) == 0x1BFE && Exp(0x40) == 0x5C24 && Exp(0x80) == 0xE647
    ensures Exp(0x100) == 0xB2F && Exp(0x200) == 0x169E && Exp(0x400) == 0xA78 && Exp(0x800) == 0x1780
    ensures Exp(0x1000) == 0x1B27 && Exp(0x2000) == 0xD65 && Exp(0x4000) == 0x564D && Exp(0x8000) == 0xF0C6
    ensures Exp(0x10000) == 0x2
  {
    ExpOne();
    hide Exp;
    ExpSum(0x1, 0x1, 0x2, 0x2, 0x4);
    ExpSum(0x2, 0x2, 0x4, 0x4, 0x10);
    ExpSum(0x4, 0x4, 0x10, 0x10, 0x100);
    ExpSum(0x8, 0x8, 0x100, 0x100, 0x100B);
    ExpSum(0x10, 0x10, 0x100B, 0x100B, 0x1BFE);
    ExpSum(0x20, 0x20, 0x1BFE, 0x1BFE, 0x5C24);
    ExpSum(0x40, 0x40, 0x5C24, 0x5C24, 0xE647);
    ExpSum(0x80, 0x80, 0xE647, 0xE647, 0xB2F);
    ExpSum(0x100, 0x100, 0xB2F, 0xB2F, 0x169E);
    ExpSum(0x200, 0x200, 0x169E, 0x169E, 0xA78);
    ExpSum(0x400, 0x400, 0xA78, 0xA78, 0x1780);
    ExpSum(0x800, 0x800, 0x1780, 0x1780, 0x1B27);
    ExpSum(0x1000, 0x1000, 0x1B27, 0x1B27, 0xD65);
    ExpSum(0x2000, 0x2000, 0xD65, 0xD65, 0x564D);
    ExpSum(0x4000, 0x4000, 0x564D, 0x564D, 0xF0C6);
    ExpSum(0x8000, 0x8000, 0xF0C6, 0xF0C6, 0x2);
  }

  lemma ExpOne()
    ensures Exp(0) == 1 && Exp(1) == 2
  {
    hide Mul;
    MulOne(2);
    assert Pow(2, 1) == Mul(2, Pow(2, 0));
  }

  /** 65535 / 3, as the binary number 0101 0101 0101 0101. */
  lemma ThirdPower()
    ensures Exp(0x5555) == 0x15E
  {
    Squares();
    hide Exp;
    ExpSum(0x1, 0x4, 0x2, 0x10, 0x20);
    ExpSum(0x10, 0x40, 0x100B, 0x5C24, 0xF72F);
    ExpSum(0x100, 0x400, 0xB2F, 0xA78, 0xE130);
    ExpSum(0x1000, 0x4000, 0x1B27, 0x564D, 0x1625);
    ExpSum(0x5, 0x50, 0x20, 0xF72F, 0x1539);
    ExpSum(0x500, 0x5000, 0xE130, 0x1625, 0xB266);
    ExpSum(0x55, 0x5500, 0x1539, 0xB266, 0x15E);
  }

  /** 65535 / 5, as the binary number 0011 0011 0011 0011. */
  lemma FifthPower()
    ensures Exp(0x3333) == 0x1CE8
  {
    Squares();
    hide Exp;
    ExpSum(0x1, 0x2, 0x2, 0x4, 0x8);
    ExpSum(0x10, 0x20, 0x100B, 0x1BFE, 0x4C35);
    ExpSum(0x100, 0x200, 0xB2F, 0x169E, 0x14D);
    ExpSum(0x1000, 0x2000, 0x1B27, 0xD65, 0x4D70);
    ExpSum(0x3, 0x30, 0x8, 0x4C35, 0x41BE);
    ExpSum(0x300, 0x3000, 0x14D, 0x4D70, 0xBD18);
    ExpSum(0x33, 0x3300, 0x41BE, 0xBD18, 0x1CE8);
  }

  /** 65535 / 17, as the binary number 0000 1111 0000 1111. */
  lemma SeventeenthPower()
    ensures Exp(0x0F0F) == 0x4D78
  {
    Squares();
    hide Exp;
    ExpSum(0x1, 0x2, 0x2, 0x4, 0x8);
    ExpSum(0x4, 0x8, 0x10, 0x100, 0x1000);
    ExpSum(0x3, 0xC, 0x8, 0x1000, 0x8000);
    ExpSum(0x100, 0x200, 0xB2F, 0x169E, 0x14D);
    ExpSum(0x400, 0x800, 0xA78, 0x1780, 0x1144);
    ExpSum(0x300, 0xC00, 0x14D, 0x1144, 0x8BE8);
    ExpSum(0xF, 0xF00, 0x8000, 0x8BE8, 0x4D78);
  }

  /** 65535 / 257 is 255, and 2^256 is not 2. */
  lemma Power257()
    ensures Exp(255) != 1
  {
    hide Mul;
    Squares();
    ExpOne();
    ExpAdd(1, 255);
    MulOne(2);
  }

  lemma OrderPower()
    ensures Exp(ORDER) == 1
  {
    hide Mul;
    Squares();
    ExpOne();
    ExpAdd(1, ORDER);
    assert Mul(0x8805, 2) == 1 by {
      MulUnrolled(0x8805, 2);
    }
    MulAssoc(0x8805, 2, Exp(ORDER));
    MulOne(Exp(ORDER));
  }

  // ----- the order is exactly 65535

  ghost predicate Prime(q: nat) {
    q >= 2 && forall d: nat :: 2 <= d < q ==> q % d != 0
  }

  lemma PrimeFactors()
    ensures Prime(3) && Prime(5) && Prime(17)
  {
  }

  lemma Prime257()
    ensures Prime(257)
  {
    forall d: nat | 2 <= d < 257
      ensures 257 % d != 0
    {
      LargeProduct(d, 257 / d);
    }
  }

  lemma LargeProduct(d: nat, e: nat)
    ensures d > 16 && e > 15 ==> d * e >= 272
  {
    if d > 16 && e > 15 {
      assert d * e >= 17 * e;
    }
  }

  /** If w^q = w^r = 1 for a prime q and 0 < r < q then w = 1: by Euclid's algorithm on q and r. */
  lemma {:induction false} TrivialPower(w: Symbol, q: nat, r: nat)
    requires Prime(q) && 0 < r < q
    requires Pow(w, q) == 1 && Pow(w, r) == 1
    ensures w == 1
    decreases r
  {
    hide Mul;
    if r == 1 {
      MulOne(w);
      assert Pow(w, 1) == Mul(w, Pow(w, 0));
    } else {
      PowMod(w, r, q);
      assert q % r != 0;
      TrivialPower(w, q, q % r);
    }
  }

  lemma PowMod(w: Symbol, r: nat, n: nat)
    requires r > 0 && Pow(w, r) == 1
    ensures Pow(w, n) == Pow(w, n % r)
  {
    hide Mul, Pow;
    var k := n / r;
    assert n == r * k + n % r;
    PowAdd(w, r * k, n % r);
    PowMul(w, r, k);
    PowOne(k);
    MulOne(Pow(w, n % r));
  }

  /** For a prime factor q of 65535 with 2^(65535/q) != 1, every n with 2^n = 1 is a multiple of q. */
  lemma PeriodDivisible(q: nat, f: nat, n: nat)
    requires Prime(q) && q * f == ORDER
    requires Exp(f) != 1
    requires Exp(n) == 1
    ensures n % q == 0
  {
    hide Mul;
    var r := n % q;
    if r != 0 {
      var w := Exp(f);
      OrderPower();
      PowMul(2, f, q);
      assert f * q == ORDER;
      PowMul(2, f, n);
      PowMul(2, n, f);
      PowOne(f);
      assert f * n == n * f;
      PowMod(w, q, n);
      TrivialPower(w, q, r);
    }
  }

  lemma MultipleOf(n: int, q: nat) returns (m: int)
    requires q > 0 && n % q == 0
    ensures n == q * m
  {
    m := n / q;
  }

  lemma CoprimeFactors(n: nat)
    requires n % 3 == 0 && n % 5 == 0 && n % 17 == 0 && n % 257 == 0
    ensures n % ORDER == 0
  {
    var a := MultipleOf(n, 3);
    var b := MultipleOf(n, 5);
    var c := MultipleOf(n, 17);
    var d := MultipleOf(n, 257);
    var h := CommonMultiple(n, a, b, 3, 5, 2, -1);
    var i := CommonMultiple(n, h, c, 15, 17, 8, -7);
    var j := CommonMultiple(n, i, d, 255, 257, 128, -127);
    assert n == ORDER * j;
  }

  /** Common multiples of coprime p and q are multiples of pq, by Bezout's identity. */
  lemma CommonMultiple(n: int, a: int, b: int, p: int, q: int, x: int, y: int) returns (h: int)
    requires n == p * a && n == q * b && p * x + q * y == 1
    ensures n == p * q * h
  {
    h := x * b + y * a;
    assert p * q * h == (p * x) * (q * b) + (q * y) * (p * a);
    assert (p * x) * n + (q * y) * n == n * (p * x + q * y);
  }

  /** 2^n = 1 exactly for the multiples of 65535. */
  lemma ExpIsOne(n: nat)
    ensures Exp(n) == 1 <==> n % ORDER == 0
  {
    hide Mul;
    OrderPower();
    if n % ORDER == 0 {
      PowMod(2, ORDER, n);
      ExpOne();
    } else if Exp(n) == 1 {
      PrimeFactors();
      Prime257();
      ThirdPower();
      FifthPower();
      SeventeenthPower();
      Power257();
      PeriodDivisible(3, 0x5555, n);
      PeriodDivisible(5, 0x3333, n);
      PeriodDivisible(17, 0x0F0F, n);
      PeriodDivisible(257, 255, n);
      CoprimeFactors(n);
    }
  }

  lemma ExpPeriod(n: nat)
    ensures Exp(n) == Exp(n % ORDER)
  {
    OrderPower();
    PowMod(2, ORDER, n);
  }

  lemma ExpWrap(n: nat)
    ensures Exp(n + ORDER) == Exp(n)
  {
    hide Mul, Exp;
    OrderPower();
    ExpAdd(n, ORDER);
    MulOne(Exp(n));
  }

  lemma ExpNonzero(n: nat)
    ensures Exp(n) != 0
  {
    hide Mul;
    var i := n % ORDER;
    ExpPeriod(n);
    ExpAdd(i, ORDER - i);
    OrderPower();
    MulZero(Exp(ORDER - i));
  }

  /** 2^i = 2^j exactly when i and j agree modulo 65535. */
  lemma ExpInjective(i: nat, j: nat)
    ensures Exp(i) == Exp(j) <==> i % ORDER == j % ORDER
  {
    hide Mul, Exp;
    ExpPeriod(i);
    ExpPeriod(j);
    if i % ORDER <= j % ORDER {
      ExpGap(i % ORDER, j % ORDER);
    } else {
      ExpGap(j % ORDER, i % ORDER);
    }
  }

  lemma ExpGap(i: nat, j: nat)
    requires i <= j < ORDER
    ensures Exp(i) == Exp(j) ==> i == j
  {
    hide Mul, Exp;
    if Exp(i) == Exp(j) {
      var c := Exp(ORDER - i);
      ExpAdd(i, ORDER - i);
      ExpAdd(j, ORDER - i);
      OrderPower();
      ExpIsOne(j + ORDER - i);
      assert (j - i) % ORDER == 0;
    }
  }

  // ----- every nonzero element is a power of 2, by counting

  /** The values of the first n powers of 2. */
  ghost function Powers(n: nat): set<int> {
    if n == 0 then {} else Powers(n - 1) + {Exp(n - 1) as int}
  }

  lemma {:induction false} PowersMember(n: nat, v: int)
    ensures v in Powers(n) <==> exists i: nat :: i < n && Exp(i) as int == v
  {
    hide Exp;
    if n != 0 {
      PowersMember(n - 1, v);
    }
  }

  lemma IntRoundTrip(a: Symbol)
    ensures (a as int) as Symbol == a
  {
  }

  lemma SymbolInt(a: Symbol, b: Symbol)
    ensures a as int == b as int <==> a == b
    ensures 0 <= a as int < 65536
  {
    IntRoundTrip(a);
    IntRoundTrip(b);
  }

  lemma {:induction false} PowersSize(n: nat)
    requires n <= ORDER
    ensures |Powers(n)| == n
  {
    hide Exp;
    if n != 0 {
      PowersSize(n - 1);
      PowersMember(n - 1, Exp(n - 1) as int);
      forall i: nat | i < n - 1
        ensures Exp(i) as int != Exp(n - 1) as int
      {
        ExpInjective(i, n - 1);
        SymbolInt(Exp(i), Exp(n - 1));
      }
    }
  }

  /** The integers from 1 up to n. */
  ghost function UpTo(n: nat): (s: set<int>)
    ensures |s| == n
    ensures forall v :: v in s <==> 1 <= v <= n
  {
    if n == 0 then {} else UpTo(n - 1) + {n}
  }

  lemma SubsetOfSameSize(a: set<int>, b: set<int>)
    requires a <= b && |a| == |b|
    ensures a == b
  {
    assert b == a + (b - a);
    assert |b| == |a| + |b - a|;
  }

  /** All nonzero elements are powers. */
  lemma PowersAll()
    ensures Powers(ORDER) == UpTo(ORDER)
  {
    hide Exp, Powers;
    PowersSize(ORDER);
    forall v | v in Powers(ORDER)
      ensures v in UpTo(ORDER)
    {
      PowersMember(ORDER, v);
      var i: nat :| i < ORDER && Exp(i) as int == v;
      ExpNonzero(i);
      SymbolInt(Exp(i), 0);
    }
    SubsetOfSameSize(Powers(ORDER), UpTo(ORDER));
  }

  lemma DiscreteLogExists(a: Symbol)
    requires a != 0
    ensures exists i: nat :: i < ORDER && Exp(i) == a
  {
    hide Exp, Powers;
    PowersAll();
    SymbolInt(a, 0);
    PowersMember(ORDER, a as int);
    var i: nat :| i < ORDER && Exp(i) as int == a as int;
    SymbolInt(Exp(i), a);
  }

  /** The exponent below 65535 that yields a. */
  ghost function Log(a: Symbol): (i: nat)
    requires a != 0
    ensures i < ORDER && Exp(i) == a
  {
    DiscreteLogExists(a);
    var i: nat :| i < ORDER && Exp(i) == a;
    i
  }

  lemma LogOfExp(n: nat)
    ensures Exp(n) != 0 && Log(Exp(n)) == n % ORDER
  {
    hide Exp;
    ExpNonzero(n);
    ExpInjective(Log(Exp(n)), n);
  }

  // ----- consequences: the product of nonzero elements is nonzero, and each has an inverse

  ghost function Inverse(b: Symbol): Symbol
    requires b != 0
  {
    Exp(ORDER - Log(b))
  }

  ghost function Div(a: Symbol, b: Symbol): Symbol
    requires b != 0
  {
    Mul(a, Inverse(b))
  }

  lemma InverseMul(b: Symbol)
    requires b != 0
    ensures Mul(b, Inverse(b)) == 1 == Mul(Inverse(b), b)
    ensures Inverse(b) != 0
  {
    hide Mul, Exp;
    ExpAdd(Log(b), ORDER - Log(b));
    OrderPower();
    MulComm(b, Inverse(b));
    ExpNonzero(ORDER - Log(b));
  }

  lemma MulDiv(a: Symbol, b: Symbol)
    requires b != 0
    ensures Mul(b, Div(a, b)) == a == Mul(Div(a, b), b)
    ensures Div(Mul(a, b), b) == a
  {
    hide Mul, Inverse;
    InverseMul(b);
    MulAssoc(a, Inverse(b), b);
    MulAssoc(a, b, Inverse(b));
    MulOne(a);
    MulComm(b, Div(a, b));
  }

  lemma MulNonzero(a: Symbol, b: Symbol)
    ensures Mul(a, b) == 0 <==> a == 0 || b == 0
  {
    hide Mul;
    MulZero(a);
    MulZero(b);
    if b != 0 && Mul(a, b) == 0 {
      MulDiv(a, b);
      MulZero(Inverse(b));
    }
  }

  /** Multiplication by a nonzero element can be cancelled. */
  lemma MulCancel(a: Symbol, b: Symbol, c: Symbol)
    requires c != 0 && Mul(a, c) == Mul(b, c)
    ensures a == b
  {
    hide Mul, Div;
    MulDiv(a, c);
    MulDiv(b, c);
  }

  lemma PowNonzero(a: Symbol, n: nat)
    requires a != 0
    ensures Pow(a, n) != 0
  {
    hide Mul;
    if n != 0 {
      PowNonzero(a, n - 1);
      MulNonzero(a, Pow(a, n - 1));
    }
  }

  /** The powers of a are powers of 2 with the exponent of a multiplied. */
  lemma PowLog(a: Symbol, n: nat)
    requires a != 0
    ensures Pow(a, n) == Exp(Log(a) * n)
  {
    hide Mul;
    PowMul(2, Log(a), n);
  }
}
