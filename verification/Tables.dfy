/**
 The log and exp tables of src/galois/core.rs, and the arithmetic that reads them.

 The source keeps the tables in statics that are written once.  Here they are values
 that the initialization methods return and the arithmetic takes as a parameter.
 */
module GaloisTables {
  import opened GaloisField
  import opened Options
  import opened Primitive

  const GF_SIZE: nat := 65536
  const PRIMITIVE_POLY: bv32 := 0x1100B
  /** Arithmetic on `usize` wraps at this value in release builds. */
  const USIZE: nat := 0x1_0000_0000_0000_0000

  /** A symbol as a table index, `a as usize` in the source. */
  function Index(a: Symbol): (i: nat)
    ensures i < GF_SIZE
  {
    a as int
  }

  lemma IndexInjective(a: Symbol, b: Symbol)
    ensures Index(a) == Index(b) <==> a == b
    ensures Index(a) == 0 <==> a == 0
  {
    SymbolInt(a, b);
    SymbolInt(a, 0);
  }

  datatype Tables = Tables(log: seq<nat>, exp: seq<Symbol>) {

    /** The tables hold discrete logarithms and powers of 2, and zeros where there is none. */
    ghost predicate Valid() {
      && |log| == GF_SIZE
      && |exp| == 2 * GF_SIZE
      && log[0] == 0
      && (forall a: Symbol :: a != 0 ==> log[Index(a)] == Log(a))
      && (forall i: nat :: i < 2 * ORDER ==> exp[i] == Exp(i))
      && exp[2 * ORDER] == 0 && exp[2 * ORDER + 1] == 0
    }

    /** The log table entry of a. */
    function LogAt(a: Symbol): (i: nat)
      requires Valid() && a != 0
      ensures i == Log(a) && i < ORDER
    {
      log[Index(a)]
    }

    function ExpAt(i: nat): (a: Symbol)
      requires Valid() && i < 2 * ORDER
      ensures a == Exp(i)
    {
      exp[i]
    }

    /** log(a*b) = log(a) + log(b); the exp table is doubled, so the sum needs no reduction. */
    function GfMul(a: Symbol, b: Symbol): (r: Symbol)
      requires Valid()
      ensures r == Mul(a, b)
    {
      hide *;
      MulZero(a);
      MulZero(b);
      if a == 0 || b == 0 then 0 else
        ExpAdd(Log(a), Log(b));
        ExpAt(LogAt(a) + LogAt(b))
    }

    /** None for a zero divisor, as the source's Option; otherwise the r with r * b = a. */
    function GfDiv(a: Symbol, b: Symbol): (r: Option<Symbol>)
      requires Valid()
      ensures r.None? <==> b == 0
      ensures r.Some? ==> Mul(r.value, b) == a
    {
      hide *;
      MulZero(b);
      if b == 0 then None
      else if a == 0 then Some(0)
      else
        var logA, logB := LogAt(a), LogAt(b);
        var logResult := if logA >= logB then logA - logB else logA + ORDER - logB;
        ExpAdd(logResult, logB);
        ExpWrap(logA);
        Some(ExpAt(logResult))
    }

    /** log(a^n) = n * log(a), with the product computed in a usize. */
    function GfPow(a: Symbol, n: nat): (r: Symbol)
      requires Valid() && n < USIZE
      ensures r == if a != 0 then Exp(Log(a) * n % USIZE) else Pow(a, n)
    {
      hide *;
      ZeroPow(n);
      if a == 0 then
        if n == 0 then 1 else 0
      else if n == 0 then
        ExpOne();
        1
      else
        var e := LogAt(a) * n % USIZE;
        ExpPeriod(e);
        ExpAt(e % ORDER)
    }
  }

  lemma ZeroPow(n: nat)
    ensures Pow(0, n) == if n == 0 then 1 else 0
  {
    hide Mul;
    if n != 0 {
      MulZero(Pow(0, n - 1));
    }
  }

  /** A division that succeeds undoes the multiplication. */
  lemma GfDivUndoesMul(t: Tables, a: Symbol, b: Symbol)
    requires t.Valid() && b != 0
    ensures t.GfDiv(t.GfMul(a, b), b) == Some(a)
    ensures t.GfDiv(a, b) == Some(Div(a, b))
  {
    hide Mul, Div;
    MulDiv(a, b);
    MulCancel(t.GfDiv(t.GfMul(a, b), b).value, a, b);
    MulCancel(t.GfDiv(a, b).value, Div(a, b), b);
  }

  /**
   The power is right exactly when the product of the logarithm and the exponent does
   not wrap around: each wrap shifts the exponent of 2 by 2^64, which is 1 modulo 65535,
   and there are fewer than 65535 wraps.
   */
  lemma GfPowExact(t: Tables, a: Symbol, n: nat)
    requires t.Valid() && n < USIZE && a != 0
    ensures t.GfPow(a, n) == Pow(a, n) <==> Log(a) * n < USIZE
  {
    hide *;
    PowLog(a, n);
    LessProduct(Log(a), n, ORDER, USIZE);
    ExpOfWrapped(Log(a) * n);
  }

  lemma LessProduct(i: nat, j: nat, m: nat, n: nat)
    requires i < m && j < n
    ensures 0 <= i * j < m * n
  {
    assert i * j <= i * n;
    assert (m - i) * n > 0;
  }

  lemma ExpOfWrapped(e: nat)
    requires e < ORDER * USIZE
    ensures Exp(e % USIZE) == Exp(e) <==> e < USIZE
  {
    hide Exp;
    if e >= USIZE {
      WrapShiftsExponent(e);
      ExpInjective(e, e % USIZE);
    }
  }

  lemma WrapShiftsExponent(e: nat)
    requires USIZE <= e < ORDER * USIZE
    ensures e % ORDER != e % USIZE % ORDER
  {
    var wraps := e / USIZE;
    var k := e / ORDER - e % USIZE / ORDER - 281479271743489 * wraps;
    assert USIZE == 281479271743489 * ORDER + 1;
    assert e == wraps * USIZE + e % USIZE;
    assert 0 < wraps < ORDER;
  }

  // ----- table initialization

  /** One step of the table loops, on the 32-bit value `b`. */
  function NextPower(b: bv32): bv32 {
    var shifted := b << 1;
    if shifted & 0x10000 != 0 then shifted ^ PRIMITIVE_POLY else shifted
  }

  lemma NextPowerDoubles(a: Symbol)
    ensures NextPower(a as bv32) == Double(a) as bv32
  {
    if a & 0x8000 == 0 {
      assert a >> 15 == 0;
      assert (a as bv32 << 1) & 0x10000 == 0;
    } else {
      assert a >> 15 == 1;
      assert (a as bv32 << 1) & 0x10000 != 0;
    }
  }

  lemma FreshPower(n: nat)
    requires n < ORDER
    ensures Index(Exp(n)) != 0
    ensures forall i: nat :: i < n ==> Index(Exp(i)) != Index(Exp(n))
  {
    hide Exp, Index;
    ExpNonzero(n);
    IndexInjective(Exp(n), 0);
    forall i: nat | i < n
      ensures Index(Exp(i)) != Index(Exp(n))
    {
      ExpInjective(i, n);
      IndexInjective(Exp(i), Exp(n));
    }
  }

  lemma ExpNext(n: nat)
    ensures Exp(n + 1) == Double(Exp(n))
  {
    hide Mul;
    assert Pow(2, n + 1) == Mul(2, Pow(2, n));
    assert Double(1) == 2;
    MulDouble(1, Pow(2, n));
    MulOne(Pow(2, n));
  }

  function Widen(a: Symbol): bv32 {
    a as bv32
  }

  function Low16(b: bv32): Symbol {
    (b & 0xFFFF) as Symbol
  }

  /** The loop value b stands for the power a of 2; one step moves it to the next power. */
  lemma LoopStep(n: nat)
    ensures Low16(Widen(Exp(n))) == Exp(n)
    ensures NextPower(Widen(Exp(n))) == Widen(Exp(n + 1))
  {
    hide Exp, Double, NextPower;
    NextPowerDoubles(Exp(n));
    ExpNext(n);
  }

  lemma LoopStart()
    ensures Widen(Exp(0)) == 1
  {
  }

  method InitLogTable() returns (table: seq<nat>)
    ensures |table| == GF_SIZE && table[0] == 0
    ensures forall i: nat :: i < ORDER ==> table[Index(Exp(i))] == i
  {
    hide Exp, NextPower, Low16, Widen, Index;
    LoopStart();
    var log := new nat[GF_SIZE](_ => 0);
    var b: bv32 := 1;
    for n := 0 to GF_SIZE - 1
      invariant b == Widen(Exp(n))
      invariant forall i: nat :: i < n ==> log[Index(Exp(i))] == i
    {
      FreshPower(n);
      LoopStep(n);
      log[Index(Low16(b))] := n;
      b := NextPower(b);
    }
    forall i: nat | i < ORDER
      ensures Index(Exp(i)) != 0
    {
      FreshPower(i);
    }
    log[0] := 0;
    table := log[..];
  }

  method InitExpTable() returns (table: seq<Symbol>)
    ensures |table| == 2 * GF_SIZE
    ensures forall i: nat :: i < 2 * ORDER ==> table[i] == Exp(i)
    ensures table[2 * ORDER] == 0 && table[2 * ORDER + 1] == 0
  {
    hide Exp, NextPower, Low16, Widen, Index;
    LoopStart();
    var exp := new Symbol[2 * GF_SIZE](_ => 0);
    var b: bv32 := 1;
    for n := 0 to GF_SIZE - 1
      invariant b == Widen(Exp(n))
      invariant forall i: nat :: i < n || ORDER <= i < ORDER + n ==> exp[i] == Exp(i)
      invariant exp[2 * ORDER] == 0 && exp[2 * ORDER + 1] == 0
    {
      LoopStep(n);
      ExpWrap(n);
      exp[n] := Low16(b);
      exp[n + GF_SIZE - 1] := Low16(b);
      b := NextPower(b);
    }
    table := exp[..];
  }

  method InitTables() returns (t: Tables)
    ensures t.Valid()
  {
    hide Exp, Index;
    var log := InitLogTable();
    var exp := InitExpTable();
    t := Tables(log, exp);
    forall a: Symbol | a != 0
      ensures log[Index(a)] == Log(a)
    {
      assert log[Index(Exp(Log(a)))] == Log(a);
    }
  }
}
