/**
 The matrices of the PAR2 code: row i holds the constants raised to the i-th recovery
 exponent.  For consecutive exponents the elimination meets no zero pivot, because a
 zero pivot would be a polynomial with more roots than its degree.
 */
module Vandermonde {
  import opened GaloisField
  import opened Primitive
  import opened LinearAlgebra
  import opened Elimination

  function PowerRow(c: Row, e: nat): (r: Row)
    ensures |r| == |c|
  {
    seq(|c|, j requires 0 <= j < |c| => Pow(c[j], e))
  }

  function PowerMatrix(c: Row, exponents: seq<nat>): (r: Matrix)
    ensures IsMatrix(r, |exponents|, |c|)
  {
    seq(|exponents|, i requires 0 <= i < |exponents| => PowerRow(c, exponents[i]))
  }

  function Consecutive(s: nat, n: nat): (r: seq<nat>)
    ensures |r| == n
  {
    seq(n, i requires 0 <= i => s + i)
  }

  predicate Distinct<T(==)>(c: seq<T>) {
    forall i, j :: 0 <= i < j < |c| ==> c[i] != c[j]
  }

  // ----- polynomials, lowest coefficient first

  function Eval(p: Row, x: Symbol): Symbol {
    if p == [] then 0 else Add(p[0], Mul(Eval(p[1..], x), x))
  }

  /** The quotient of p by x - r. */
  function Quotient(p: Row, r: Symbol): (q: Row)
    requires |p| > 0
    ensures |q| == |p| - 1
  {
    if |p| == 1 then [] else AddRow(p[1..], Scale(r, Quotient(p[1..], r) + [0]))
  }

  lemma {:induction false} EvalAdd(p: Row, q: Row, x: Symbol)
    requires |p| == |q|
    ensures Eval(AddRow(p, q), x) == Add(Eval(p, x), Eval(q, x))
  {
    hide Add, Mul;
    if p == [] {
      AddZero(0);
      return;
    }
    var p', q' := p[1..], q[1..];
    assert AddRow(p, q)[1..] == AddRow(p', q');
    EvalAdd(p', q', x);
    MulAddLeft(Eval(p', x), Eval(q', x), x);
    AddSwap(p[0], q[0], Mul(Eval(p', x), x), Mul(Eval(q', x), x));
  }

  lemma {:induction false} EvalScale(f: Symbol, p: Row, x: Symbol)
    ensures Eval(Scale(f, p), x) == Mul(Eval(p, x), f)
  {
    hide Add, Mul;
    if p == [] {
      MulZero(f);
      return;
    }
    var p' := p[1..];
    assert Scale(f, p)[1..] == Scale(f, p');
    EvalScale(f, p', x);
    var e := Eval(p', x);
    MulAddLeft(p[0], Mul(e, x), f);
    MulAssoc(e, x, f);
    MulComm(x, f);
    MulAssoc(e, f, x);
  }

  lemma {:induction false} EvalPad(p: Row, x: Symbol)
    ensures Eval(p + [0], x) == Eval(p, x)
  {
    hide Add, Mul;
    if p == [] {
      assert (p + [0])[1..] == [];
      MulZero(x);
      AddZero(0);
    } else {
      assert (p + [0])[1..] == p[1..] + [0];
      EvalPad(p[1..], x);
    }
  }

  /** p(x) = p(r) + (x - r) * q(x). */
  lemma {:induction false} DivisionLaw(p: Row, r: Symbol, x: Symbol)
    requires |p| > 0
    ensures Eval(p, x) == Add(Eval(p, r), Mul(Eval(Quotient(p, r), x), Add(x, r)))
  {
    hide Add, Mul, AddRow, Scale;
    if |p| == 1 {
      assert p[1..] == [];
      MulZero(x);
      MulZero(r);
      MulZero(Add(x, r));
      AddZero(Eval(p, r));
      return;
    }
    var p' := p[1..];
    var q' := Quotient(p', r);
    DivisionLaw(p', r, x);
    EvalAdd(p', Scale(r, q' + [0]), x);
    EvalScale(r, q' + [0], x);
    EvalPad(q', x);
    DivisionStep(p[0], Eval(p', x), Eval(p', r), Eval(q', x), r, x);
  }

  /** With e = d + q(x + r):  a + ex = (a + dr) + (e + qr)(x + r). */
  lemma DivisionStep(a: Symbol, e: Symbol, d: Symbol, q: Symbol, r: Symbol, x: Symbol)
    requires e == Add(d, Mul(q, Add(x, r)))
    ensures Add(a, Mul(e, x)) == Add(Add(a, Mul(d, r)), Mul(Add(e, Mul(q, r)), Add(x, r)))
  {
    hide Add, Mul;
    var z := Add(x, r);
    calc {
      Mul(Add(e, Mul(q, r)), z);
      { MulAddLeft(e, Mul(q, r), z); }
      Add(Mul(e, z), Mul(Mul(q, r), z));
      { MulAddRight(e, x, r); MulAssoc(q, r, z); MulComm(r, z); MulAssoc(q, z, r); }
      Add(Add(Mul(e, x), Mul(e, r)), Mul(Mul(q, z), r));
      { AddAssoc(Mul(e, x), Mul(e, r), Mul(Mul(q, z), r)); MulAddLeft(e, Mul(q, z), r); }
      Add(Mul(e, x), Mul(Add(e, Mul(q, z)), r));
      { AddCancel(d, Mul(q, z)); }
      Add(Mul(e, x), Mul(d, r));
    }
    AddComm(Mul(e, x), Mul(d, r));
    AddAssoc(Add(a, Mul(d, r)), Mul(d, r), Mul(e, x));
    AddCancel(a, Mul(d, r));
  }

  /** A monic polynomial of degree k does not vanish on k + 1 distinct points. */
  lemma {:induction false} TooManyRoots(p: Row, xs: seq<Symbol>) returns (i: nat)
    requires 0 < |p| == |xs| && p[|p| - 1] == 1 && Distinct(xs)
    ensures i < |xs| && Eval(p, xs[i]) != 0
    decreases |p|
  {
    hide Add, Mul;
    var n := |p| - 1;
    var r := xs[n];
    if n == 0 {
      assert p[1..] == [] && Eval(p[1..], r) == 0;
      MulZero(r);
      AddZero(p[0]);
      return 0;
    }
    if Eval(p, r) != 0 {
      return n;
    }
    var q := Quotient(p, r);
    assert q[n - 1] == 1 by {
      MulZero(r);
      AddZero(p[n]);
    }
    i := TooManyRoots(q, xs[..n]);
    DivisionLaw(p, r, xs[i]);
    AddZero(Mul(Eval(q, xs[i]), Add(xs[i], r)));
    AddCancel(xs[i], r);
    MulNonzero(Eval(q, xs[i]), Add(xs[i], r));
  }

  // ----- rows of the matrix as polynomials

  /** A combination of rows with consecutive exponents is a polynomial in each constant, times c^s. */
  lemma {:induction false} CombinePowers(c: Row, s: nat, t: Row, j: nat)
    requires j < |c|
    ensures Combine(t, PowerMatrix(c, Consecutive(s, |t|)), |c|)[j] == Mul(Eval(t, c[j]), Pow(c[j], s))
    decreases |t|
  {
    hide Add, Mul;
    var rows := PowerMatrix(c, Consecutive(s, |t|));
    var w := |c|;
    if t == [] {
      MulZero(Pow(c[j], s));
      return;
    }
    var t' := t[1..];
    var rows' := PowerMatrix(c, Consecutive(s + 1, |t'|));
    assert t == [t[0]] + t';
    assert rows == [PowerRow(c, s)] + rows';
    CombineSplit([t[0]], t', [PowerRow(c, s)], rows', w);
    CombineSingle(t[0], PowerRow(c, s), w);
    CombinePowers(c, s + 1, t', j);
    var x, e := c[j], Eval(t', c[j]);
    MulAddLeft(t[0], Mul(e, x), Pow(x, s));
    MulAssoc(e, x, Pow(x, s));
    MulComm(t[0], Pow(x, s));
  }

  lemma CombineSingle(f: Symbol, row: Row, w: nat)
    requires |row| == w
    ensures Combine([f], [row], w) == Scale(f, row)
  {
    hide Add, Mul, AddRow, Scale;
    assert [f][..0] == [];
    AddRowZero(Scale(f, row));
  }

  // ----- no step of the elimination swaps

  /** A row of s that is the original row r plus a combination of the first k rows. */
  ghost predicate Offset(c: Row, s: nat, row: Row, r: nat, t: Row) {
    && |row| == |c|
    && row == AddRow(PowerRow(c, s + r), Combine(t, PowerMatrix(c, Consecutive(s, |t|)), |c|))
  }

  ghost predicate IsOffset(c: Row, s: nat, row: Row, r: nat, k: nat) {
    exists t: Row :: |t| == k && Offset(c, s, row, r, t)
  }

  /** No rows were swapped, and the rows still to be used are offsets by the rows already used. */
  ghost predicate Unswapped(c: Row, s: nat, k: nat, st: State) {
    var m := |c|;
    && k <= m
    && IsMatrix(st.a, m, m)
    && st.t.order == Consecutive(0, m)
    && forall r: nat :: k <= r < m ==> IsOffset(c, s, st.a[r], r, k)
  }

  lemma PowerMatrixSplit(c: Row, s: nat, k: nat, rows: Matrix, row: Row, rows': Matrix)
    requires rows == PowerMatrix(c, Consecutive(s, k)) && row == PowerRow(c, s + k)
    requires rows' == PowerMatrix(c, Consecutive(s, k + 1))
    ensures rows' == rows + [row]
  {
  }

  /** Combining one more row of the matrix. */
  lemma CombineNext(c: Row, s: nat, t: Row, f: Symbol, rows: Matrix, row: Row, rows': Matrix)
    requires rows == PowerMatrix(c, Consecutive(s, |t|)) && row == PowerRow(c, s + |t|)
    requires rows' == PowerMatrix(c, Consecutive(s, |t| + 1))
    ensures Combine(t + [f], rows', |c|) == AddRow(Combine(t, rows, |c|), Scale(f, row))
  {
    hide *;
    PowerMatrixSplit(c, s, |t|, rows, row, rows');
    CombineAppend(t, f, rows, row, rows', |c|);
  }

  /** An offset row of index |t| is a combination of the rows up to its own, with last coefficient 1. */
  lemma OffsetMonic(c: Row, s: nat, row: Row, t: Row)
    requires Offset(c, s, row, |t|, t)
    ensures row == Combine(t + [1], PowerMatrix(c, Consecutive(s, |t| + 1)), |c|)
  {
    hide Combine, AddRow, Scale, PowerRow, PowerMatrix, Consecutive;
    var rows, r := PowerMatrix(c, Consecutive(s, |t|)), PowerRow(c, s + |t|);
    CombineNext(c, s, t, 1, rows, r, PowerMatrix(c, Consecutive(s, |t| + 1)));
    ScaleZero(1, r);
    AddRowComm(r, Combine(t, rows, |c|));
  }

  /** Such a row is a monic polynomial of degree k in each constant, times c^s, so it has at most k zeros. */
  lemma PivotNonzero(c: Row, s: nat, k: nat, row: Row)
    requires k < |c| && IsOffset(c, s, row, k, k)
    requires Distinct(c) && forall j :: 0 <= j < |c| ==> c[j] != 0
    requires |row| == |c| && forall j :: 0 <= j < k ==> row[j] == 0
    ensures row[k] != 0
  {
    hide Add, Mul, Offset, Combine;
    var t: Row :| |t| == k && Offset(c, s, row, k, t);
    var i := TooManyRoots(t + [1], c[..k + 1]);
    OffsetMonic(c, s, row, t);
    CombinePowers(c, s, t + [1], i);
    PowNonzero(c[i], s);
    MulNonzero(Eval(t + [1], c[i]), Pow(c[i], s));
  }

  /** Adding a multiple of the offset row k to a later offset row gives an offset by k + 1 rows. */
  lemma OffsetClear(c: Row, s: nat, k: nat, pivot: Row, row: Row, r: nat, inv: Symbol, f: Symbol)
    requires IsOffset(c, s, pivot, k, k) && IsOffset(c, s, row, r, k)
    requires |pivot| == |row| == |c|
    ensures IsOffset(c, s, AddRow(row, Scale(f, Scale(inv, pivot))), r, k + 1)
  {
    hide Combine, AddRow, Scale, PowerRow, PowerMatrix, Consecutive;
    var w := |c|;
    var t: Row :| |t| == k && Offset(c, s, pivot, k, t);
    var t': Row :| |t'| == k && Offset(c, s, row, r, t');
    var rows, rows' := PowerMatrix(c, Consecutive(s, k)), PowerMatrix(c, Consecutive(s, k + 1));
    var v := Scale(f, Scale(inv, t + [1]));
    var u := AddRow(t' + [0], v);
    OffsetMonic(c, s, pivot, t);
    CombineScale(inv, t + [1], rows', w);
    CombineScale(f, Scale(inv, t + [1]), rows', w);
    assert Combine(v, rows', w) == Scale(f, Scale(inv, pivot));
    CombineNext(c, s, t', 0, rows, PowerRow(c, s + k), rows');
    ScaleZero(0, PowerRow(c, s + k));
    AddRowZero(Combine(t', rows, w));
    CombineAdd(t' + [0], v, rows', w);
    AddRowAssoc(PowerRow(c, s + r), Combine(t', rows, w), Combine(v, rows', w));
    assert Offset(c, s, AddRow(row, Scale(f, Scale(inv, pivot))), r, u);
  }

  lemma StartUnswapped(c: Row, s: nat)
    ensures Unswapped(c, s, 0, Start(PowerMatrix(c, Consecutive(s, |c|))))
  {
    hide Add, Mul;
    var st := Start(PowerMatrix(c, Consecutive(s, |c|)));
    forall r: nat | r < |c|
      ensures IsOffset(c, s, st.a[r], r, 0)
    {
      AddRowZero(PowerRow(c, s + r));
      assert Offset(c, s, st.a[r], r, []);
    }
  }

  lemma ClearUnswapped(c: Row, s: nat, k: nat, st: State)
    requires Unswapped(c, s, k, st) && k < |c| && st.a[k][k] != 0
    requires |st.t.scale| == |c| && IsMatrix(st.t.elim, |c|, |c|)
    ensures Unswapped(c, s, k + 1, Clear(st, k))
  {
    hide IsOffset, AddRow, Scale, Inverse;
    forall r: nat | k + 1 <= r < |c|
      ensures IsOffset(c, s, Clear(st, k).a[r], r, k + 1)
    {
      OffsetClear(c, s, k, st.a[k], st.a[r], r, Inverse(st.a[k][k]), st.a[r][k]);
    }
  }

  /** For consecutive exponents and distinct nonzero constants every step succeeds without a swap. */
  lemma {:induction false} NeverSwaps(c: Row, s: nat, k: nat)
    requires k <= |c|
    requires Distinct(c) && forall j :: 0 <= j < |c| ==> c[j] != 0
    ensures var r := Eliminated(PowerMatrix(c, Consecutive(s, |c|)), k);
            r.Some? && Unswapped(c, s, k, r.value)
  {
    hide PowerMatrix, Unswapped, NextState, Replay, WellFormed, Place;
    var a := PowerMatrix(c, Consecutive(s, |c|));
    if k == 0 {
      StartUnswapped(c, s);
    } else {
      NeverSwaps(c, s, k - 1);
      StepUnswapped(a, c, s, k - 1, Eliminated(a, k - 1).value);
    }
  }

  lemma StepUnswapped(a: Matrix, c: Row, s: nat, k: nat, st: State)
    requires |a| == |c| && k < |c| && Reached(a, k, st) && Unswapped(c, s, k, st)
    requires Distinct(c) && forall j :: 0 <= j < |c| ==> c[j] != 0
    ensures NextState(a, k, st).Some? && Unswapped(c, s, k + 1, NextState(a, k, st).value)
  {
    hide Clear, Replay, IsOffset;
    PivotNonzero(c, s, k, st.a[k]);
    assert PivotRow(st.a, k, k) == k;
    ClearUnswapped(c, s, k, st);
  }

  /** The transform for consecutive exponents exists and leaves the rows in their order. */
  lemma ConsecutiveTransform(c: Row, s: nat)
    requires Distinct(c) && forall j :: 0 <= j < |c| ==> c[j] != 0
    ensures var r := TransformOf(PowerMatrix(c, Consecutive(s, |c|)));
            r.Some? && r.value.order == Consecutive(0, |c|)
  {
    hide Eliminated, PowerMatrix;
    NeverSwaps(c, s, |c|);
  }
}
