/**
 The constants of the code (`generate_par2_constants`, src/par2_rs.rs): the powers of 2
 whose exponent is prime to 65535, in the order of the exponents.

 Each constant has order 65535.  There are 32768 elements of that order, so the constants
 are pairwise distinct exactly when no more than 32768 of them are asked for.
 */
module Constants {
  import opened GaloisField
  import opened Primitive
  import opened GaloisTables
  import opened LinearAlgebra
  import opened Vandermonde

  /** So many elements have order 65535. */
  const DISTINCT_CONSTANTS: nat := 32768
  /** At least so many constants are found before the 32-bit counter of the search would overflow. */
  const COUNTABLE: nat := 0x7FFF_8000

  // ----- division with remainder

  lemma DivUnique(n: nat, q: nat, k: int, r: nat)
    requires q > 0 && n == q * k + r && r < q
    ensures n / q == k && n % q == r
  {
    var d := n / q - k;
    assert q * d == r - n % q;
    MulBound(q, d);
  }

  lemma MulBound(q: nat, d: int)
    ensures d > 0 ==> q * d >= q
    ensures d < 0 ==> q * d + q <= 0
  {
  }

  lemma MultipleMod(q: nat, k: nat)
    requires q > 0
    ensures (q * k) % q == 0 && (q * k) / q == k
  {
    DivUnique(q * k, q, k, 0);
  }

  lemma ModPeriod(n: nat, q: nat, k: nat)
    requires q > 0
    ensures (n + q * k) % q == n % q
  {
    DivUnique(n + q * k, q, n / q + k, n % q);
  }

  predicate Eligible(n: nat) {
    n % 3 != 0 && n % 5 != 0 && n % 17 != 0 && n % 257 != 0
  }

  lemma {:induction false} EligiblePeriods(n: nat, k: nat)
    ensures Eligible(n + ORDER * k) <==> Eligible(n)
  {
    ModPeriod(n, 3, 21845 * k);
    ModPeriod(n, 5, 13107 * k);
    ModPeriod(n, 17, 3855 * k);
    ModPeriod(n, 257, 255 * k);
    assert ORDER * k == 3 * (21845 * k) == 5 * (13107 * k) == 17 * (3855 * k) == 257 * (255 * k);
    assert Eligible(n + ORDER * k) <==> Eligible(n) by {
      var m := n + ORDER * k;
      assert m % 3 == n % 3 && m % 5 == n % 5 && m % 17 == n % 17 && m % 257 == n % 257;
    }
  }

  /** How far the next number is that leaves 1 when divided by 65535. */
  function Gap(n: nat): (d: nat)
    ensures d < ORDER
  {
    if n % ORDER <= 1 then 1 - n % ORDER else ORDER + 1 - n % ORDER
  }

  lemma GapShrinks(n: nat)
    ensures Gap(n) == 0 ==> Eligible(n)
    ensures Gap(n) > 0 ==> Gap(n + 1) == Gap(n) - 1
  {
    var k := n / ORDER;
    if n % ORDER == 1 {
      EligiblePeriods(1, k);
      assert Eligible(1);
      hide Eligible;
      assert n == 1 + ORDER * k;
    } else if n % ORDER == ORDER - 1 {
      DivUnique(n + 1, ORDER, k + 1, 0);
    } else {
      DivUnique(n + 1, ORDER, k, n % ORDER + 1);
    }
  }

  /** The first eligible exponent from n on. */
  function NextEligible(n: nat): (e: nat)
    ensures n <= e <= n + Gap(n) && Eligible(e)
    ensures forall i :: n <= i < e ==> !Eligible(i)
    decreases Gap(n)
  {
    GapShrinks(n);
    if Eligible(n) then n else NextEligible(n + 1)
  }

  /** The exponent of the i-th constant. */
  function ConstantExponent(i: nat): (e: nat)
    ensures e > 0 && Eligible(e)
  {
    if i == 0 then NextEligible(1) else NextEligible(ConstantExponent(i - 1) + 1)
  }

  function Constant(i: nat): Symbol {
    Exp(ConstantExponent(i))
  }

  function FirstConstants(count: nat): (c: Row)
    ensures |c| == count
  {
    seq(count, i requires 0 <= i => Constant(i))
  }

  // ----- products and prime factors

  lemma ModProduct(a: nat, r: nat, k: nat, q: nat)
    requires r > 0 && q > 0 && (r * k) % q == 0 && (a * k) % q == 0
    ensures (a % r * k) % q == 0
  {
    var (x, y) := (a * k / q, r * k / q);
    var z := x - a / r * y;
    assert q * z == a % r * k by {
      calc {
        q * z;
        q * x - a / r * (q * y);
        a * k - a / r * (r * k);
        (a - r * (a / r)) * k;
        a % r * k;
      }
    }
    DivUnique(a % r * k, q, z, 0);
  }

  /** A prime that divides r * k, but not r, divides k: by Euclid's algorithm on q and r. */
  lemma {:induction false} PrimeDivides(q: nat, r: nat, k: nat)
    requires Prime(q) && r % q != 0 && (r * k) % q == 0
    ensures k % q == 0
    decreases r
  {
    MultipleMod(q, k);
    if r >= q {
      assert (q * k) % q == 0;
      ModProduct(r, q, k, q);
      SmallMod(r % q, q);
      PrimeDivides(q, r % q, k);
    } else if r > 1 {
      ModProduct(q, r, k, q);
      SmallMod(q % r, q);
      PrimeDivides(q, q % r, k);
    } else {
      SmallMod(r, q);
    }
  }

  lemma SmallMod(r: nat, q: nat)
    requires r < q
    ensures r % q == r
  {
    DivUnique(r, q, 0, r);
  }

  lemma MultipleOfProduct(d: nat, q: nat, k: nat)
    requires d > 0 && q > 0 && k % (d * q) == 0
    ensures k % d == 0 && k % q == 0
  {
    var x := k / (d * q);
    assert k == d * q * x == d * (q * x) == q * (d * x);
    MultipleMod(d, q * x);
    MultipleMod(q, d * x);
  }

  /** Multiples of d * q are the common multiples of d and a prime q that does not divide d. */
  lemma CommonMultiples(d: nat, q: nat, k: nat)
    requires d > 0 && Prime(q) && d % q != 0
    ensures k % (d * q) == 0 <==> k % d == 0 && k % q == 0
  {
    if k % d == 0 && k % q == 0 {
      var x := k / d;
      assert k == d * x;
      PrimeDivides(q, d, x);
      var y := x / q;
      assert d * q * y == d * (q * y) == k;
      MultipleMod(d * q, y);
    } else if k % (d * q) == 0 {
      MultipleOfProduct(d, q, k);
    }
  }

  // ----- counting by a sieve

  predicate Survives(k: nat, d: nat, primes: seq<nat>)
    requires d > 0 && forall i :: 0 <= i < |primes| ==> primes[i] > 0
  {
    k % d == 0 && forall i :: 0 <= i < |primes| ==> k % primes[i] != 0
  }

  /** How many multiples of d below n are divisible by none of the primes. */
  function Survivors(n: nat, d: nat, primes: seq<nat>): nat
    requires d > 0 && forall i :: 0 <= i < |primes| ==> primes[i] > 0
  {
    if n == 0 then 0 else Survivors(n - 1, d, primes) + if Survives(n - 1, d, primes) then 1 else 0
  }

  /** d and the primes have no factor in common. */
  ghost predicate Sieve(d: nat, primes: seq<nat>) {
    && d > 0
    && (forall i :: 0 <= i < |primes| ==> Prime(primes[i]) && d % primes[i] != 0)
    && (forall i, j :: 0 <= i < j < |primes| ==> primes[i] % primes[j] != 0)
  }

  function Product(primes: seq<nat>): nat {
    if primes == [] then 1 else primes[0] * Product(primes[1..])
  }

  function Totient(primes: seq<nat>): nat
    requires forall i :: 0 <= i < |primes| ==> primes[i] > 0
  {
    if primes == [] then 1 else (primes[0] - 1) * Totient(primes[1..])
  }

  lemma {:induction false} SplitSurvivors(n: nat, d: nat, primes: seq<nat>)
    requires Sieve(d, primes) && primes != []
    ensures Survivors(n, d, primes) == Survivors(n, d, primes[1..]) - Survivors(n, d * primes[0], primes[1..])
  {
    if n != 0 {
      SplitSurvivors(n - 1, d, primes);
      CommonMultiples(d, primes[0], n - 1);
      assert forall i :: 0 < i < |primes| ==> primes[i] == primes[1..][i - 1];
      hide Prime;
    }
  }

  lemma {:induction false} MultiplesBelow(d: nat, q: nat, n: nat)
    requires d > 0 && d * q <= n < d * q + d
    ensures Survivors(n, d, []) == if n == d * q then q else q + 1
    decreases n
  {
    if n > d * q {
      MultipleBetween(d, q, n - 1);
      MultiplesBelow(d, q, n - 1);
    } else if n > 0 {
      assert d * q == d * (q - 1) + d;
      MultipleBetween(d, q - 1, n - 1);
      MultiplesBelow(d, q - 1, n - 1);
    }
  }

  lemma MultipleBetween(d: nat, q: nat, k: nat)
    requires d > 0 && d * q <= k < d * q + d
    ensures k % d == 0 <==> k == d * q
  {
    DivUnique(k, d, q, k - d * q);
  }

  lemma SieveRest(d: nat, primes: seq<nat>)
    requires Sieve(d, primes) && primes != []
    ensures Sieve(d, primes[1..]) && Sieve(d * primes[0], primes[1..])
  {
    var rest := primes[1..];
    forall i | 0 <= i < |rest|
      ensures (d * primes[0]) % rest[i] != 0
    {
      var q := primes[i + 1];
      if (d * primes[0]) % q == 0 {
        PrimeDivides(q, d, primes[0]);
      }
    }
  }

  lemma Regroup(n: nat, d: nat, p: nat, r: nat, q: nat, t: nat)
    requires n == d * (p * r * q)
    ensures n == d * (r * (p * q)) && n == d * p * (r * q)
    ensures p * q * t - q * t == q * ((p - 1) * t)
  {
    assert p * r * q == r * (p * q) == p * (r * q);
    assert d * (p * (r * q)) == d * p * (r * q);
    assert p * q * t == q * (p * t) == q * ((p - 1) * t + t) == q * ((p - 1) * t) + q * t;
  }

  /** Of the numbers below a multiple of all the primes, each prime p leaves the fraction (p-1)/p. */
  lemma {:induction false} SurvivorsTotient(n: nat, d: nat, primes: seq<nat>, q: nat)
    requires Sieve(d, primes) && n == d * (Product(primes) * q)
    ensures Survivors(n, d, primes) == q * Totient(primes)
    decreases |primes|
  {
    if primes == [] {
      MultiplesBelow(d, q, n);
    } else {
      var p, rest := primes[0], primes[1..];
      SieveRest(d, primes);
      SplitSurvivors(n, d, primes);
      Regroup(n, d, p, Product(rest), q, Totient(rest));
      SurvivorsTotient(n, d, rest, p * q);
      SurvivorsTotient(n, d * p, rest, q);
    }
  }

  // ----- how many exponents are eligible

  function Factors(): seq<nat> {
    [3, 5, 17, 257]
  }

  /** The number of eligible exponents below n. */
  function Count(n: nat): nat {
    if n == 0 then 0 else Count(n - 1) + if Eligible(n - 1) then 1 else 0
  }

  lemma {:induction false} CountSurvivors(n: nat)
    ensures Count(n) == Survivors(n, 1, Factors())
  {
    if n != 0 {
      CountSurvivors(n - 1);
      var k, f := n - 1, Factors();
      assert Survives(k, 1, f) ==> k % f[0] != 0 && k % f[1] != 0 && k % f[2] != 0 && k % f[3] != 0;
    }
  }

  lemma FactorsSieve()
    ensures Sieve(1, Factors())
    ensures Product(Factors()) == ORDER && Totient(Factors()) == DISTINCT_CONSTANTS
  {
    PrimeFactors();
    Prime257();
    assert Factors()[1..] == [5, 17, 257] && Factors()[1..][1..] == [17, 257];
    assert Factors()[1..][1..][1..] == [257] && Factors()[1..][1..][1..][1..] == [];
    hide Prime;
  }

  lemma CountOrder()
    ensures Count(ORDER) == DISTINCT_CONSTANTS
  {
    FactorsSieve();
    CountSurvivors(ORDER);
    SurvivorsTotient(ORDER, 1, Factors(), 1);
  }

  lemma {:induction false} CountMonotone(m: nat, n: nat)
    requires m <= n
    ensures Count(m) <= Count(n)
    ensures m < n && Eligible(m) ==> Count(m) < Count(n)
  {
    if m < n {
      CountMonotone(m, n - 1);
    }
  }

  lemma {:induction false} CountSkips(m: nat, n: nat)
    requires m <= n && forall i :: m <= i < n ==> !Eligible(i)
    ensures Count(m) == Count(n)
  {
    if m < n {
      CountSkips(m, n - 1);
    }
  }

  /** i eligible exponents precede that of the i-th constant. */
  lemma {:induction false} CountAtConstant(i: nat)
    ensures Count(ConstantExponent(i)) == i
  {
    if i == 0 {
      CountOne();
      CountSkips(1, ConstantExponent(0));
    } else {
      CountAtConstant(i - 1);
      var e := ConstantExponent(i - 1);
      assert Count(e + 1) == i;
      CountSkips(e + 1, ConstantExponent(i));
    }
  }

  /** The eligible exponents are those of the constants, in order. */
  lemma ConstantExponentAt(e: nat)
    requires Eligible(e)
    ensures ConstantExponent(Count(e)) == e
  {
    var f := ConstantExponent(Count(e));
    CountAtConstant(Count(e));
    if e < f {
      CountMonotone(e, f);
    } else if f < e {
      CountMonotone(f, e);
    }
  }

  lemma ExponentsIncrease(i: nat, j: nat)
    requires i < j
    ensures ConstantExponent(i) < ConstantExponent(j)
  {
    CountAtConstant(i);
    CountAtConstant(j);
    if ConstantExponent(j) <= ConstantExponent(i) {
      CountMonotone(ConstantExponent(j), ConstantExponent(i));
    }
  }

  lemma ExponentBelowOrder(i: nat)
    requires i < DISTINCT_CONSTANTS
    ensures ConstantExponent(i) < ORDER
  {
    CountAtConstant(i);
    CountOrder();
    if ORDER <= ConstantExponent(i) {
      CountMonotone(ORDER, ConstantExponent(i));
    }
  }

  // ----- main results

  lemma EligiblePeriod(e: nat)
    ensures Eligible(e + ORDER) <==> Eligible(e)
  {
    EligiblePeriods(e, 1);
    hide Eligible;
  }

  lemma {:induction false} CountPeriod(n: nat)
    ensures Count(n + ORDER) == Count(n) + DISTINCT_CONSTANTS
  {
    if n == 0 {
      CountOrder();
    } else {
      CountPeriod(n - 1);
      EligiblePeriod(n - 1);
    }
  }

  /** After 32768 constants the list starts again. */
  lemma ConstantsRepeat(i: nat)
    ensures ConstantExponent(i + DISTINCT_CONSTANTS) == ConstantExponent(i) + ORDER
    ensures Constant(i + DISTINCT_CONSTANTS) == Constant(i)
  {
    hide Exp, Eligible;
    var e := ConstantExponent(i);
    CountAtConstant(i);
    CountPeriod(e);
    EligiblePeriod(e);
    ConstantExponentAt(e + ORDER);
    ExpWrap(e);
  }

  lemma {:induction false} ConstantPeriods(r: nat, q: nat, i: nat)
    requires i == r + DISTINCT_CONSTANTS * q
    ensures Constant(i) == Constant(r)
    decreases q
  {
    hide Constant;
    if q > 0 {
      ConstantPeriods(r, q - 1, i - DISTINCT_CONSTANTS);
      ConstantsRepeat(i - DISTINCT_CONSTANTS);
    }
  }

  lemma ConstantModulo(i: nat)
    ensures Constant(i) == Constant(i % DISTINCT_CONSTANTS)
  {
    hide Constant;
    ConstantPeriods(i % DISTINCT_CONSTANTS, i / DISTINCT_CONSTANTS, i);
  }

  /** Two constants are equal exactly when their indices agree modulo 32768. */
  lemma ConstantsEqual(i: nat, j: nat)
    ensures Constant(i) == Constant(j) <==> i % DISTINCT_CONSTANTS == j % DISTINCT_CONSTANTS
  {
    hide Constant;
    ConstantModulo(i);
    ConstantModulo(j);
    var (a, b) := (i % DISTINCT_CONSTANTS, j % DISTINCT_CONSTANTS);
    var c := FirstConstants(DISTINCT_CONSTANTS);
    ConstantsDistinct(DISTINCT_CONSTANTS);
    assert c[a] == Constant(a) && c[b] == Constant(b);
  }

  /** No two of the indices agree modulo 32768. */
  predicate DistinctResidues(indices: seq<nat>) {
    forall i, j :: 0 <= i < j < |indices| ==> indices[i] % DISTINCT_CONSTANTS != indices[j] % DISTINCT_CONSTANTS
  }

  /** Below 32768 different indices have different residues. */
  lemma SmallResidues(indices: seq<nat>, n: nat)
    requires Distinct(indices) && n <= DISTINCT_CONSTANTS && forall i :: 0 <= i < |indices| ==> indices[i] < n
    ensures DistinctResidues(indices)
  {
  }

  /** The constants are pairwise distinct exactly when there are at most 32768. */
  lemma ConstantsDistinct(count: nat)
    ensures Distinct(FirstConstants(count)) <==> count <= DISTINCT_CONSTANTS
  {
    hide Exp, ConstantExponent, Eligible;
    var c := FirstConstants(count);
    if count <= DISTINCT_CONSTANTS {
      forall i, j | 0 <= i < j < count
        ensures c[i] != c[j]
      {
        ExponentBelowOrder(i);
        ExponentBelowOrder(j);
        ExponentsIncrease(i, j);
        SmallMod(ConstantExponent(i), ORDER);
        SmallMod(ConstantExponent(j), ORDER);
        ExpInjective(ConstantExponent(i), ConstantExponent(j));
      }
    } else {
      ConstantsRepeat(0);
      assert c[0] == c[DISTINCT_CONSTANTS];
    }
  }

  lemma ConstantNonzero(i: nat)
    ensures Constant(i) != 0
  {
    hide Exp;
    ExpNonzero(ConstantExponent(i));
  }

  lemma DividesFactors(n: nat)
    requires n % ORDER == 0
    ensures n % 3 == 0 && n % 5 == 0 && n % 17 == 0 && n % 257 == 0
  {
    var k := n / ORDER;
    assert n == ORDER * k;
    ModPeriod(0, 3, 21845 * k);
    ModPeriod(0, 5, 13107 * k);
    ModPeriod(0, 17, 3855 * k);
    ModPeriod(0, 257, 255 * k);
  }

  lemma EligibleDivides(e: nat, k: nat)
    requires Eligible(e)
    ensures (e * k) % ORDER == 0 <==> k % ORDER == 0
  {
    if k % ORDER == 0 {
      assert e * k == ORDER * (e * (k / ORDER));
      MultipleMod(ORDER, e * (k / ORDER));
    } else if (e * k) % ORDER == 0 {
      DividesFactors(e * k);
      PrimeFactors();
      Prime257();
      hide Prime;
      PrimeDivides(3, e, k);
      PrimeDivides(5, e, k);
      PrimeDivides(17, e, k);
      PrimeDivides(257, e, k);
      CoprimeFactors(k);
    }
  }

  /** Every constant has order 65535: no smaller power of it is 1. */
  lemma ConstantOrder(i: nat, k: nat)
    ensures Pow(Constant(i), k) == 1 <==> k % ORDER == 0
  {
    hide Mul, ConstantExponent, Eligible;
    var e := ConstantExponent(i);
    PowMul(2, e, k);
    ExpIsOne(e * k);
    EligibleDivides(e, k);
  }

  // ----- the search

  lemma {:induction false} ExponentBound(i: nat)
    ensures ConstantExponent(i) < 2 * i + ORDER
  {
    hide ConstantExponent, Eligible;
    if i < DISTINCT_CONSTANTS {
      ExponentBelowOrder(i);
    } else {
      ConstantsRepeat(i - DISTINCT_CONSTANTS);
      ExponentBound(i - DISTINCT_CONSTANTS);
    }
  }

  /** The search looks at n while it wants the constant that n - 1 and below left missing. */
  lemma SearchStep(n: nat)
    requires Count(n) < COUNTABLE
    ensures n <= ConstantExponent(Count(n)) && n < 0x1_0000_0000
    ensures Eligible(n) ==> n == ConstantExponent(Count(n)) && Count(n + 1) == Count(n) + 1
    ensures !Eligible(n) ==> n < ConstantExponent(Count(n)) && Count(n + 1) == Count(n)
  {
    var i := Count(n);
    var e := ConstantExponent(i);
    ExponentBound(i);
    CountAtConstant(i);
    if e < n {
      CountMonotone(e, n);
    }
    if Eligible(n) {
      ConstantExponentAt(n);
    }
  }

  lemma LogOfTwo()
    ensures Log(2) == 1
  {
    ExpOne();
    LogOfExp(1);
    hide Exp;
  }

  lemma PowerOfTwo(t: Tables, n: nat)
    requires t.Valid() && n < 0x1_0000_0000
    ensures t.GfPow(2, n) == Exp(n)
  {
    hide Exp, Tables.Valid, Tables.GfPow;
    LogOfTwo();
  }

  lemma CountOne()
    ensures Count(1) == 0 && FirstConstants(0) == []
  {
  }

  lemma ConstantsNext(i: nat)
    ensures FirstConstants(i + 1) == FirstConstants(i) + [Constant(i)]
  {
    hide Constant;
  }

  function ConstantAt(t: Tables, n: nat): (r: Symbol)
    requires t.Valid() && n < 0x1_0000_0000 && n == ConstantExponent(Count(n))
    ensures r == Constant(Count(n))
  {
    hide Exp, Tables.Valid, Tables.GfPow, ConstantExponent;
    PowerOfTwo(t, n);
    t.GfPow(2, n)
  }

  /** generate_par2_constants; the counter n is a u32. */
  method GeneratePar2Constants(t: Tables, count: nat) returns (constants: Row)
    requires t.Valid() && count <= COUNTABLE
    ensures constants == FirstConstants(count)
  {
    hide *;
    constants := [];
    var n: nat := 1;
    CountOne();
    while |constants| < count
      invariant |constants| == Count(n) <= count
      invariant constants == FirstConstants(|constants|)
      decreases count - |constants|, ConstantExponent(|constants|) - n
    {
      SearchStep(n);
      if Eligible(n) {
        ConstantsNext(|constants|);
        constants := constants + [ConstantAt(t, n)];
      }
      n := n + 1;
    }
  }
}
