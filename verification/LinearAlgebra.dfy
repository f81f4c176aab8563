/**
 Rows of symbols and matrices over the field.  A row is a row of coefficients, or a
 stretch of a data block: elimination treats both in the same way.
 */
module LinearAlgebra {
  import opened GaloisField

  type Row = seq<Symbol>
  type Matrix = seq<Row>

  predicate IsMatrix(a: Matrix, rows: nat, cols: nat) {
    |a| == rows && forall i :: 0 <= i < rows ==> |a[i]| == cols
  }

  function ZeroRow(w: nat): (r: Row)
    ensures |r| == w
  {
    seq(w, i => 0)
  }

  function AddRow(a: Row, b: Row): (r: Row)
    requires |a| == |b|
    ensures |r| == |a|
  {
    seq(|a|, i requires 0 <= i < |a| => Add(a[i], b[i]))
  }

  function Scale(f: Symbol, a: Row): (r: Row)
    ensures |r| == |a|
  {
    seq(|a|, i requires 0 <= i < |a| => Mul(a[i], f))
  }

  /** coeffs[0] * rows[0] + coeffs[1] * rows[1] + ... */
  function Combine(coeffs: Row, rows: Matrix, w: nat): (r: Row)
    requires IsMatrix(rows, |coeffs|, w)
    ensures |r| == w
  {
    if |coeffs| == 0 then ZeroRow(w)
    else
      var n := |coeffs| - 1;
      AddRow(Combine(coeffs[..n], rows[..n], w), Scale(coeffs[n], rows[n]))
  }

  /** The matrix product a * x, where the rows of x are w symbols long. */
  function Multiply(a: Matrix, x: Matrix, w: nat): (r: Matrix)
    requires IsMatrix(a, |a|, |x|) && IsMatrix(x, |x|, w)
    ensures IsMatrix(r, |a|, w)
  {
    seq(|a|, i requires 0 <= i < |a| => Combine(a[i], x, w))
  }

  function UnitRow(m: nat, k: nat): (r: Row)
    ensures |r| == m
  {
    seq(m, j => if j == k then 1 else 0)
  }

  predicate IsIdentity(a: Matrix, m: nat) {
    IsMatrix(a, m, m) && forall i :: 0 <= i < m ==> a[i] == UnitRow(m, i)
  }

  // ----- rows form a vector space

  lemma AddRowZero(a: Row)
    ensures AddRow(a, ZeroRow(|a|)) == a == AddRow(ZeroRow(|a|), a)
    ensures AddRow(a, a) == ZeroRow(|a|)
  {
    hide Add;
    forall i | 0 <= i < |a| {
      AddZero(a[i]);
    }
  }

  lemma AddRowComm(a: Row, b: Row)
    requires |a| == |b|
    ensures AddRow(a, b) == AddRow(b, a)
  {
    hide Add;
    forall i | 0 <= i < |a|
      ensures Add(a[i], b[i]) == Add(b[i], a[i])
    {
      AddComm(a[i], b[i]);
    }
  }

  lemma AddRowAssoc(a: Row, b: Row, c: Row)
    requires |a| == |b| == |c|
    ensures AddRow(AddRow(a, b), c) == AddRow(a, AddRow(b, c))
  {
    hide Add;
    forall i | 0 <= i < |a|
      ensures Add(Add(a[i], b[i]), c[i]) == Add(a[i], Add(b[i], c[i]))
    {
      AddAssoc(a[i], b[i], c[i]);
    }
  }

  lemma AddRowSwap(a: Row, b: Row, c: Row, d: Row)
    requires |a| == |b| == |c| == |d|
    ensures AddRow(AddRow(a, b), AddRow(c, d)) == AddRow(AddRow(a, c), AddRow(b, d))
  {
    hide AddRow;
    AddRowAssoc(a, b, AddRow(c, d));
    AddRowAssoc(b, c, d);
    AddRowComm(b, c);
    AddRowAssoc(c, b, d);
    AddRowAssoc(a, c, AddRow(b, d));
  }

  lemma AddRowCancel(a: Row, b: Row, c: Row)
    requires |a| == |b| == |c|
    ensures AddRow(AddRow(a, c), c) == a
    ensures AddRow(a, c) == AddRow(b, c) ==> a == b
  {
    hide AddRow, ZeroRow;
    AddRowAssoc(a, c, c);
    AddRowAssoc(b, c, c);
    AddRowZero(c);
    AddRowZero(a);
    AddRowZero(b);
  }

  lemma ScaleAdd(f: Symbol, a: Row, b: Row)
    requires |a| == |b|
    ensures Scale(f, AddRow(a, b)) == AddRow(Scale(f, a), Scale(f, b))
  {
    hide Add, Mul;
    forall i | 0 <= i < |a|
      ensures Mul(Add(a[i], b[i]), f) == Add(Mul(a[i], f), Mul(b[i], f))
    {
      MulAddLeft(a[i], b[i], f);
    }
  }

  lemma ScaleSum(f: Symbol, g: Symbol, a: Row)
    ensures Scale(Add(f, g), a) == AddRow(Scale(f, a), Scale(g, a))
  {
    hide Add, Mul;
    forall i | 0 <= i < |a|
      ensures Mul(a[i], Add(f, g)) == Add(Mul(a[i], f), Mul(a[i], g))
    {
      MulAddRight(a[i], f, g);
    }
  }

  lemma ScaleScale(f: Symbol, g: Symbol, a: Row)
    ensures Scale(f, Scale(g, a)) == Scale(Mul(g, f), a)
  {
    hide Mul;
    forall i | 0 <= i < |a|
      ensures Mul(Mul(a[i], g), f) == Mul(a[i], Mul(g, f))
    {
      MulAssoc(a[i], g, f);
    }
  }

  lemma ScaleZero(f: Symbol, a: Row)
    ensures Scale(f, ZeroRow(|a|)) == ZeroRow(|a|)
    ensures Scale(0, a) == ZeroRow(|a|)
    ensures Scale(1, a) == a
  {
    hide Mul;
    MulZero(f);
    forall i | 0 <= i < |a|
      ensures Mul(a[i], 0) == 0 && Mul(a[i], 1) == a[i]
    {
      MulZero(a[i]);
      MulOne(a[i]);
    }
  }

  // ----- linear combinations

  /** Adding two combinations of the same rows adds the coefficients. */
  lemma {:induction false} CombineAdd(c: Row, d: Row, rows: Matrix, w: nat)
    requires |c| == |d| && IsMatrix(rows, |c|, w)
    ensures Combine(AddRow(c, d), rows, w) == AddRow(Combine(c, rows, w), Combine(d, rows, w))
    decreases |c|
  {
    hide Add, Mul, Scale;
    if |c| == 0 {
      AddRowZero(ZeroRow(w));
      return;
    }
    var n := |c| - 1;
    var cs, ds, rs := c[..n], d[..n], rows[..n];
    assert AddRow(c, d)[..n] == AddRow(cs, ds);
    CombineAdd(cs, ds, rs, w);
    ScaleSum(c[n], d[n], rows[n]);
    hide AddRow;
    AddRowSwap(Combine(cs, rs, w), Combine(ds, rs, w), Scale(c[n], rows[n]), Scale(d[n], rows[n]));
  }

  /** Scaling a combination scales the coefficients. */
  lemma {:induction false} CombineScale(f: Symbol, c: Row, rows: Matrix, w: nat)
    requires IsMatrix(rows, |c|, w)
    ensures Combine(Scale(f, c), rows, w) == Scale(f, Combine(c, rows, w))
    decreases |c|
  {
    hide Add, Mul;
    if |c| == 0 {
      ScaleZero(f, ZeroRow(w));
      return;
    }
    var n := |c| - 1;
    var cs, rs := c[..n], rows[..n];
    assert Scale(f, c)[..n] == Scale(f, cs);
    CombineScale(f, cs, rs, w);
    ScaleScale(f, c[n], rows[n]);
    ScaleAdd(f, Combine(cs, rs, w), Scale(c[n], rows[n]));
    hide AddRow;
  }

  lemma {:induction false} CombineZero(c: Row, rows: Matrix, w: nat)
    requires IsMatrix(rows, |c|, w)
    requires c == ZeroRow(|c|)
    ensures Combine(c, rows, w) == ZeroRow(w)
    decreases |c|
  {
    hide Add, Mul;
    if |c| == 0 {
      return;
    }
    var n := |c| - 1;
    assert c[..n] == ZeroRow(n);
    CombineZero(c[..n], rows[..n], w);
    ScaleZero(0, rows[n]);
    AddRowZero(ZeroRow(w));
  }

  /** A combination that picks one row. */
  lemma {:induction false} CombineUnit(m: nat, k: nat, rows: Matrix, w: nat)
    requires k < m && IsMatrix(rows, m, w)
    ensures Combine(UnitRow(m, k), rows, w) == rows[k]
    decreases m
  {
    hide Add, Mul;
    var n := m - 1;
    var u := UnitRow(m, k);
    if k == n {
      assert u[..n] == ZeroRow(n);
      CombineZero(u[..n], rows[..n], w);
      ScaleZero(1, rows[n]);
      AddRowZero(rows[n]);
    } else {
      assert u[..n] == UnitRow(n, k);
      CombineUnit(n, k, rows[..n], w);
      ScaleZero(0, rows[n]);
      AddRowZero(rows[k]);
    }
  }

  /** A combination can be taken of two lists of rows one after the other. */
  lemma {:induction false} CombineSplit(c: Row, d: Row, rows: Matrix, more: Matrix, w: nat)
    requires IsMatrix(rows, |c|, w) && IsMatrix(more, |d|, w)
    ensures Combine(c + d, rows + more, w) == AddRow(Combine(c, rows, w), Combine(d, more, w))
    decreases |d|
  {
    hide Add, Mul;
    if |d| == 0 {
      assert c + d == c && rows + more == rows;
      AddRowZero(Combine(c, rows, w));
      return;
    }
    var n := |d| - 1;
    assert (c + d)[..|c| + n] == c + d[..n];
    assert (rows + more)[..|c| + n] == rows + more[..n];
    CombineSplit(c, d[..n], rows, more[..n], w);
    hide AddRow, Scale;
    AddRowAssoc(Combine(c, rows, w), Combine(d[..n], more[..n], w), Scale(d[n], more[n]));
  }

  function ZeroMatrix(m: nat, w: nat): (r: Matrix)
    ensures IsMatrix(r, m, w)
  {
    seq(m, i => ZeroRow(w))
  }

  lemma {:induction false} CombineOfZeros(c: Row, w: nat)
    ensures Combine(c, ZeroMatrix(|c|, w), w) == ZeroRow(w)
    decreases |c|
  {
    hide Mul, Add;
    if |c| != 0 {
      var n := |c| - 1;
      assert ZeroMatrix(|c|, w)[..n] == ZeroMatrix(n, w);
      CombineOfZeros(c[..n], w);
      ScaleZero(c[n], ZeroRow(w));
      AddRowZero(ZeroRow(w));
    }
  }

  lemma CombineAppend(c: Row, f: Symbol, rows: Matrix, row: Row, rows': Matrix, w: nat)
    requires IsMatrix(rows, |c|, w) && |row| == w && rows' == rows + [row] && IsMatrix(rows', |c| + 1, w)
    ensures Combine(c + [f], rows', w) == AddRow(Combine(c, rows, w), Scale(f, row))
  {
    hide AddRow, Scale;
    assert (c + [f])[..|c|] == c && rows'[..|c|] == rows;
  }
}
