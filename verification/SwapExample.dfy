/**
 A concrete set of blocks for which the elimination succeeds but swaps two rows: five data
 blocks, blocks 0, 2 and 4 missing, and recovery exponents 0, 21845 and 21846.  By
 `Erasures.OrderMatters` the source then reconstructs some data wrongly.
 */
module SwapExample {
  import opened Options
  import opened GaloisField
  import opened Primitive
  import opened LinearAlgebra
  import opened Elimination
  import opened Vandermonde
  import opened Constants
  import opened Reconstruction
  import opened ChunkReconstruction
  import opened Erasures

  function Missing(): seq<nat> { [0, 2, 4] }

  function Present(): seq<nat> { [1, 3] }

  /** A third of 65535. */
  function Third(): nat { 21845 }

  function GappedExponents(): seq<nat> { [0, Third(), Third() + 1] }

  lemma ConstantExponents()
    ensures ConstantExponent(0) == 1 && ConstantExponent(2) == 4 && ConstantExponent(4) == 8
  {
    assert Count(0) == Count(1) == 0 && Count(2) == 1 && Count(3) == Count(4) == 2;
    assert Count(5) == Count(6) == Count(7) == 3 && Count(8) == 4;
    ConstantExponentAt(1);
    ConstantExponentAt(4);
    ConstantExponentAt(8);
  }

  lemma AddDistinct(f: Symbol, g: Symbol)
    ensures Add(f, g) == 0 <==> f == g
  {
    hide Add;
    AddCancel(f, g);
    AddZero(f);
  }

  /** The row after column 0 is cleared with a first row of ones. */
  lemma ClearFirst(s: State, i: nat, f: Symbol)
    requires IsMatrix(s.a, 3, 3) && s.a[0] == [1, 1, 1] && 0 < i < 3 && s.a[i][0] == f
    requires |s.t.scale| == 3 && IsMatrix(s.t.elim, 3, 3)
    ensures Clear(s, 0).a[i] == [Add(f, f), Add(s.a[i][1], f), Add(s.a[i][2], f)]
    ensures Clear(s, 0).t.order == s.t.order
  {
    hide Add, Mul, Inverse;
    DivideByOne(s.a[0]);
    MulOne(f);
    MulComm(1, f);
    var ones: Row := [1, 1, 1];
    assert Scale(f, ones) == [f, f, f];
    assert AddRow(s.a[i], [f, f, f]) == [Add(f, f), Add(s.a[i][1], f), Add(s.a[i][2], f)];
    hide Scale, AddRow;
    assert RecordColumn(s.t.elim, s.a, 0)[i][0] == f;
  }

  /** A row that is zero in column k is left alone. */
  lemma ClearKeeps(s: State, k: nat, i: nat)
    requires IsMatrix(s.a, 3, 3) && k < 3 && i < 3 && i != k && s.a[i][k] == 0 && s.a[k][k] != 0
    requires |s.t.scale| == 3 && IsMatrix(s.t.elim, 3, 3)
    ensures Clear(s, k).a[i] == s.a[i] && Clear(s, k).t.order == s.t.order
  {
    hide Scale, AddRow, Inverse;
    AddNothing(s.a[i], Scale(Inverse(s.a[k][k]), s.a[k]));
    assert RecordColumn(s.t.elim, s.a, k)[i][k] == 0;
  }

  /** The three steps for a matrix whose second row repeats its first entry. */
  lemma SwapsSecondAndThird(a: Matrix, f: Symbol, g: Symbol, x: Symbol, y: Symbol, z: Symbol)
    requires a == [[1, 1, 1], [f, f, g], [x, y, z]] && f != g && x != y
    ensures TransformOf(a).Some? && TransformOf(a).value.order == [0, 2, 1]
  {
    hide Clear, Add, Eliminated, Replay, WellFormed;
    var s0 := Start(a);
    NextOfStart(a);
    var s1 := Clear(s0, 0);
    ClearFirst(s0, 1, f);
    ClearFirst(s0, 2, x);
    NextOf(a, 0, s0);
    AddDistinct(f, f);
    AddDistinct(g, f);
    AddDistinct(y, x);
    assert Eliminated(a, 1) == Some(s1) && s1.t.order == [0, 1, 2];
    EliminatedShape(a, 1, s1);
    NextOf(a, 1, s1);
    PivotUnique(s1.a, 1, 1, 2);
    var s1' := SwapRows(s1, 1, 2);
    var s2 := Clear(s1', 1);
    ClearKeeps(s1', 1, 2);
    assert Eliminated(a, 2) == Some(s2) && s2.t.order == [0, 2, 1];
    EliminatedShape(a, 2, s2);
    NextOf(a, 2, s2);
    PivotUnique(s2.a, 2, 2, 2);
    ClearOrder(s2, 2);
    Completed(a, Clear(s2, 2));
  }

  lemma NextOfStart(a: Matrix)
    requires IsMatrix(a, 3, 3)
    ensures Eliminated(a, 0) == Some(Start(a)) && Start(a).t.order == [0, 1, 2]
    ensures a[0][0] != 0 ==> PivotRow(a, 0, 0) == 0
  {
    hide Reached;
  }

  lemma ClearOrder(s: State, k: nat)
    requires IsMatrix(s.a, 3, 3) && k < 3 && s.a[k][k] != 0
    requires |s.t.scale| == 3 && IsMatrix(s.t.elim, 3, 3)
    ensures Clear(s, k).t.order == s.t.order
  {
    hide ReplayStep;
  }

  lemma Completed(a: Matrix, s: State)
    requires IsMatrix(a, 3, 3) && Eliminated(a, 3) == Some(s)
    ensures TransformOf(a) == Some(s.t)
  {
    hide Eliminated;
  }

  // ----- the example

  lemma ConstantPower(i: nat, e: nat, n: nat)
    requires n == ConstantExponent(i) * e
    ensures Pow(Constant(i), e) == Exp(n)
  {
    hide Mul, ConstantExponent;
    PowMul(2, ConstantExponent(i), e);
  }

  /** Entry by entry; the exponents of 2 are reduced modulo 65535. */
  lemma ExampleMatrix() returns (a: Matrix, f: Symbol, g: Symbol, x: Symbol, y: Symbol, z: Symbol)
    ensures a == PowerMatrix(Select(FirstConstants(5), Missing()), GappedExponents())
    ensures a == [[1, 1, 1], [f, f, g], [x, y, z]] && f != g && x != y
  {
    hide Exp, Pow, Constant, ConstantExponent;
    a := PowerMatrix(Select(FirstConstants(5), Missing()), GappedExponents());
    var t := Third();
    f, g := Pow(Constant(0), t), Pow(Constant(4), t);
    x, y, z := Pow(Constant(0), t + 1), Pow(Constant(2), t + 1), Pow(Constant(4), t + 1);
    PowZero(Constant(0));
    PowZero(Constant(2));
    PowZero(Constant(4));
    ConstantExponents();
    ConstantPower(0, t, t);
    ConstantPower(2, t, 4 * t);
    ConstantPower(4, t, 8 * t);
    ConstantPower(0, t + 1, t + 1);
    ConstantPower(2, t + 1, 4 * (t + 1));
    ExpInjective(t, 4 * t);
    ExpInjective(t, 8 * t);
    ExpInjective(t + 1, 4 * (t + 1));
    assert a[0] == [1, 1, 1] && a[1] == [f, f, g] && a[2] == [x, y, z];
  }

  lemma PowZero(a: Symbol)
    ensures Pow(a, 0) == 1
  {
  }

  /** The transform exists, and rows 1 and 2 have changed places. */
  lemma SwappedTransform(tr: ReconstructionTransform)
    requires IsTransform(tr, FirstConstants(5), Missing(), Present(), GappedExponents())
    ensures tr.record.order == [0, 2, 1] && !InOrder(tr.record.order)
  {
    hide PowerMatrix, TransformOf, FirstConstants;
    var a, f, g, x, y, z := ExampleMatrix();
    SwapsSecondAndThird(a, f, g, x, y, z);
    assert tr.record.order[1] != Consecutive(0, 3)[1];
  }

  /** compute_reconstruction_transform succeeds on the example, and the result restores some blocks wrongly. */
  lemma ReconstructsWrongly(w: nat) returns (tr: ReconstructionTransform, blocks: Matrix)
    requires w > 0
    ensures IsTransform(tr, FirstConstants(5), Missing(), Present(), GappedExponents()) && WellFormed(tr.record, 3)
    ensures IsMatrix(blocks, 5, w)
    ensures RestoredRows(tr, RecoveryRows(FirstConstants(5), GappedExponents(), blocks, w), Select(blocks, Present()),
                         w)
         != Select(blocks, Missing())
  {
    hide PowerMatrix, TransformOf, FirstConstants, RestoredRows, RecoveryRows, WellFormed;
    var a, f, g, x, y, z := ExampleMatrix();
    SwapsSecondAndThird(a, f, g, x, y, z);
    tr := ReconstructionTransform(TransformOf(a).value,
                                  PowerMatrix(Select(FirstConstants(5), Present()), GappedExponents()));
    SwappedTransform(tr);
    OrderMatters(tr, 5, w, Missing(), Present(), GappedExponents());
    blocks :| IsMatrix(blocks, 5, w) &&
      RestoredRows(tr, RecoveryRows(FirstConstants(5), GappedExponents(), blocks, w), Select(blocks, Present()), w)
      != Select(blocks, Missing());
  }
}
