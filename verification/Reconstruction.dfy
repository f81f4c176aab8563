/**
 Reconstruction (src/par2_rs.rs): `compute_reconstruction_transform` eliminates the matrix
 of the missing blocks once, `reconstruct_streaming_chunk` replays the record on a chunk
 of every block.
 */
module Reconstruction {
  import opened GaloisField
  import opened Options
  import opened Primitive
  import opened GaloisTables
  import opened LinearAlgebra
  import opened Elimination
  import opened Vandermonde
  import opened Scalar
  import opened Bytes
  import opened Encoding

  /** Exponents are u32 in the source. */
  const U32: nat := 0x1_0000_0000

  /** The record of the elimination, and the coefficients of the present data blocks. */
  datatype ReconstructionTransform = ReconstructionTransform(record: Transform, coeffs: Matrix)

  function Select<T>(s: seq<T>, indices: seq<nat>): (r: seq<T>)
    requires forall i :: 0 <= i < |indices| ==> indices[i] < |s|
    ensures |r| == |indices|
  {
    seq(|indices|, i requires 0 <= i < |indices| => s[indices[i]])
  }

  // ----- elimination in place

  /** Divides the nonzero entries from column k on; the entries before it are zero. */
  method NormalizeRow(t: Tables, row: Row, k: nat, pivot: Symbol) returns (r: Row)
    requires t.Valid() && k <= |row| && pivot != 0
    requires forall j :: 0 <= j < k ==> row[j] == 0
    ensures r == Scale(Inverse(pivot), row)
  {
    hide Mul, Inverse, Tables.Valid;
    ghost var inv := Inverse(pivot);
    r := row;
    MulZero(inv);
    for j := k to |row|
      invariant |r| == |row|
      invariant forall i :: 0 <= i < j ==> r[i] == Mul(row[i], inv)
      invariant forall i :: j <= i < |row| ==> r[i] == row[i]
    {
      if r[j] != 0 {
        GfDivUndoesMul(t, r[j], pivot);
        r := r[j := t.GfDiv(r[j], pivot).value];
      }
    }
  }

  /** Adds the multiple of a row that is zero before column k. */
  method AddScaledRow(t: Tables, dst: Row, src: Row, k: nat, factor: Symbol) returns (r: Row)
    requires t.Valid() && k <= |src| == |dst|
    requires forall j :: 0 <= j < k ==> src[j] == 0
    ensures r == AddRow(dst, Scale(factor, src))
  {
    hide Add, Mul, Tables.Valid;
    r := dst;
    MulZero(factor);
    forall j | 0 <= j < |dst|
      ensures Add(dst[j], 0) == dst[j]
    {
      AddZero(dst[j]);
    }
    for j := k to |src|
      invariant |r| == |dst|
      invariant forall i :: 0 <= i < j ==> r[i] == Add(dst[i], Mul(src[i], factor))
      invariant forall i :: j <= i < |dst| ==> r[i] == dst[i]
    {
      if src[j] != 0 {
        r := r[j := Add(r[j], t.GfMul(src[j], factor))];
      }
    }
  }

  lemma DivideByOne(row: Row)
    ensures Scale(Inverse(1), row) == row
  {
    hide Mul, Inverse, Scale;
    InverseMul(1);
    MulOne(Inverse(1));
    ScaleZero(1, row);
  }

  lemma AddNothing(dst: Row, src: Row)
    requires |dst| == |src|
    ensures AddRow(dst, Scale(0, src)) == dst
  {
    hide AddRow, Scale;
    ScaleZero(0, src);
    AddRowZero(dst);
  }

  /** One elimination step: the pivot row is divided, the column cleared, the factors recorded. */
  method ClearColumnInPlace(t: Tables, k: nat, a: Matrix, scale: Row, elim: Matrix, ghost order: seq<nat>)
    returns (a': Matrix, scale': Row, elim': Matrix)
    requires t.Valid() && IsMatrix(a, |a|, |a|) && k < |a| && a[k][k] != 0
    requires |scale| == |a| && IsMatrix(elim, |a|, |a|)
    requires forall j :: 0 <= j < k ==> a[k][j] == 0
    ensures State(a', Transform(order, scale', elim')) == Clear(State(a, Transform(order, scale, elim)), k)
  {
    hide Scale, AddRow, Inverse, Tables.Valid;
    var pivot := a[k][k];
    scale' := scale[k := pivot];
    DivideByOne(a[k]);
    var p := a[k];
    if pivot != 1 {
      p := NormalizeRow(t, a[k], k, pivot);
    }
    ScaleKeepsZeros(Inverse(pivot), a[k], k);
    a', elim' := a[k := p], elim;
    for r := 0 to |a|
      invariant |a'| == |elim'| == |a| && a'[k] == p && elim'[k] == elim[k]
      invariant forall i :: 0 <= i < r && i != k ==>
                  a'[i] == AddRow(a[i], Scale(a[i][k], p)) && elim'[i] == elim[i][k := a[i][k]]
      invariant forall i :: r <= i < |a| && i != k ==> a'[i] == a[i] && elim'[i] == elim[i]
    {
      if r != k {
        var factor := a'[r][k];
        elim' := elim'[r := elim'[r][k := factor]];
        AddNothing(a'[r], p);
        if factor != 0 {
          var row := AddScaledRow(t, a'[r], p, k, factor);
          a' := a'[r := row];
        }
      }
    }
    assert elim' == RecordColumn(elim, a, k);
    assert a' == ReplayStep(k, scale', elim', a, |a|);
  }

  lemma ScaleKeepsZeros(f: Symbol, row: Row, k: nat)
    requires k <= |row| && forall j :: 0 <= j < k ==> row[j] == 0
    ensures forall j :: 0 <= j < k ==> Scale(f, row)[j] == 0
  {
    hide Mul;
    MulZero(f);
  }

  /** A failed step is never made up for. */
  lemma {:induction false} FailureStays(a: Matrix, k: nat, n: nat)
    requires IsMatrix(a, |a|, |a|) && k <= n <= |a| && Eliminated(a, k).None?
    ensures Eliminated(a, n).None?
  {
    hide NextState, Reached;
    if k < n {
      FailureStays(a, k, n - 1);
    }
  }

  lemma PivotUnique(a: Matrix, k: nat, r: nat, p: nat)
    requires IsMatrix(a, |a|, |a|) && k < |a| && r <= p <= |a|
    requires forall i :: r <= i < p ==> a[i][k] == 0
    requires p < |a| ==> a[p][k] != 0
    ensures PivotRow(a, k, r) == p
  {
  }

  lemma ReachedZeros(a: Matrix, k: nat, s: State, i: nat, j: nat)
    requires Reached(a, k, s) && k <= i < |a| && j < k
    ensures s.a[i][j] == 0
  {
    hide Replay, WellFormed, Place;
  }

  lemma NextOf(a: Matrix, k: nat, s: State)
    requires IsMatrix(a, |a|, |a|) && k < |a| && Eliminated(a, k) == Some(s)
    ensures Eliminated(a, k + 1) == NextState(a, k, s)
  {
    hide NextState, Reached;
  }

  /** The loop over the columns. */
  method Eliminate(t: Tables, matrix: Matrix) returns (r: Result<Transform>)
    requires t.Valid() && IsMatrix(matrix, |matrix|, |matrix|)
    ensures r == match TransformOf(matrix)
                 case Some(record) => Ok(record)
                 case None => Err(SingularMatrix)
  {
    hide Clear, Reached, Eliminated, WellFormed, Tables.Valid;
    var m := |matrix|;
    var a := matrix;
    var order: seq<nat> := seq(m, i requires 0 <= i => i);
    var scale: Row := seq(m, _ => 1);
    var elim: Matrix := seq(m, _ => ZeroRow(m));
    Started(matrix, order, scale, elim);
    for k := 0 to m
      invariant Eliminated(matrix, k) == Some(State(a, Transform(order, scale, elim)))
      invariant Shaped(m, a, order, scale, elim)
    {
      ghost var s := State(a, Transform(order, scale, elim));
      NextOf(matrix, k, s);
      var p := k;
      if a[k][k] == 0 {
        p := k + 1;
        while p < m && a[p][k] == 0
          invariant k < p <= m && forall i :: k <= i < p ==> a[i][k] == 0
        {
          p := p + 1;
        }
      }
      PivotUnique(a, k, k, p);
      if p == m {
        FailureStays(matrix, k + 1, m);
        return Err(SingularMatrix);
      }
      if p != k {
        a, order, scale, elim := Swap(a, k, p), Swap(order, k, p), Swap(scale, k, p), Swap(elim, k, p);
      }
      forall j: nat | j < k
        ensures a[k][j] == 0
      {
        ReachedZeros(matrix, k, s, p, j);
      }
      a, scale, elim := ClearColumnInPlace(t, k, a, scale, elim, order);
      EliminatedShape(matrix, k + 1, State(a, Transform(order, scale, elim)));
    }
    return Ok(Transform(order, scale, elim));
  }

  predicate Shaped(m: nat, a: Matrix, order: seq<nat>, scale: Row, elim: Matrix) {
    IsMatrix(a, m, m) && |order| == |scale| == m && IsMatrix(elim, m, m)
  }

  lemma Started(a: Matrix, order: seq<nat>, scale: Row, elim: Matrix)
    requires IsMatrix(a, |a|, |a|)
    requires order == seq(|a|, i requires 0 <= i => i) && scale == seq(|a|, _ => 1)
             && elim == seq(|a|, _ => ZeroRow(|a|))
    ensures Eliminated(a, 0) == Some(State(a, Transform(order, scale, elim)))
  {
    hide Reached;
    assert Start(a) == State(a, Transform(order, scale, elim));
  }

  lemma EliminatedShape(a: Matrix, k: nat, s: State)
    requires IsMatrix(a, |a|, |a|) && k <= |a| && Eliminated(a, k) == Some(s)
    ensures Shaped(|a|, s.a, s.t.order, s.t.scale, s.t.elim)
  {
    assert Reached(a, k, s);
    hide Replay, Place, Eliminated;
  }

  // ----- the transform

  /** Powers fit: a logarithm times a 32-bit exponent does not wrap. */
  lemma PowFits(t: Tables, a: Symbol, e: nat)
    requires t.Valid() && e < U32
    ensures t.GfPow(a, e) == Pow(a, e)
  {
    hide Pow, Exp, Tables.Valid, Tables.GfPow, Mul;
    if a != 0 {
      LessProduct(Log(a), e, ORDER, U32);
      GfPowExact(t, a, e);
    }
  }

  method PowerMatrixOf(t: Tables, c: Row, exponents: seq<nat>) returns (a: Matrix)
    requires t.Valid() && forall i :: 0 <= i < |exponents| ==> exponents[i] < U32
    ensures a == PowerMatrix(c, exponents)
  {
    hide Pow, Tables.Valid, Tables.GfPow;
    a := [];
    for i := 0 to |exponents|
      invariant |a| == i && forall k :: 0 <= k < i ==> a[k] == PowerRow(c, exponents[k])
    {
      var row: Row := [];
      for j := 0 to |c|
        invariant |row| == j && forall k :: 0 <= k < j ==> row[k] == Pow(c[k], exponents[i])
      {
        PowFits(t, c[j], exponents[i]);
        row := row + [t.GfPow(c[j], exponents[i])];
      }
      a := a + [row];
    }
  }

  /** The exponents of the first m recovery blocks in use; recovery indices follow the data indices. */
  function UsedExponents(dataBlocks: nat, presentRecovery: seq<nat>, exponents: seq<nat>, m: nat): (r: seq<nat>)
    requires m <= |presentRecovery|
    requires forall i :: 0 <= i < m ==> dataBlocks <= presentRecovery[i] < dataBlocks + |exponents|
    ensures |r| == m
  {
    seq(m, i requires 0 <= i < m => exponents[presentRecovery[i] - dataBlocks])
  }

  predicate IndicesBelow(indices: seq<nat>, n: nat) {
    forall i :: 0 <= i < |indices| ==> indices[i] < n
  }

  /** What compute_reconstruction_transform answers. */
  ghost function TransformResult(constants: Row, missing: seq<nat>, present: seq<nat>, presentRecovery: seq<nat>,
                                 exponents: seq<nat>)
    : (r: Result<ReconstructionTransform>)
    requires IndicesBelow(missing, |constants|) && IndicesBelow(present, |constants|)
    requires |missing| <= |presentRecovery| ==> forall i :: 0 <= i < |missing| ==>
               |constants| <= presentRecovery[i] < |constants| + |exponents|
    ensures r.Ok? ==> WellFormed(r.value.record, |missing|) && IsMatrix(r.value.coeffs, |missing|, |present|)
  {
    if |missing| == 0 then Err(NothingMissing)
    else if |presentRecovery| < |missing| then Err(TooFewRecoveryBlocks)
    else
      var used := UsedExponents(|constants|, presentRecovery, exponents, |missing|);
      match TransformOf(PowerMatrix(Select(constants, missing), used))
      case None => Err(SingularMatrix)
      case Some(record) => Ok(ReconstructionTransform(record, PowerMatrix(Select(constants, present), used)))
  }

  method ComputeReconstructionTransform(t: Tables, constants: Row, missing: seq<nat>, present: seq<nat>,
                                        presentRecovery: seq<nat>, exponents: seq<nat>)
    returns (r: Result<ReconstructionTransform>)
    requires t.Valid() && IndicesBelow(missing, |constants|) && IndicesBelow(present, |constants|)
    requires |missing| <= |presentRecovery| ==> forall i :: 0 <= i < |missing| ==>
               |constants| <= presentRecovery[i] < |constants| + |exponents|
    requires forall i :: 0 <= i < |exponents| ==> exponents[i] < U32
    ensures r == TransformResult(constants, missing, present, presentRecovery, exponents)
    ensures |missing| == 0 ==> r == Err(NothingMissing)
    ensures 0 < |missing| && |presentRecovery| < |missing| ==> r == Err(TooFewRecoveryBlocks)
    ensures 0 < |missing| <= |presentRecovery| && r.Err? ==> r == Err(SingularMatrix)
    ensures r.Ok? ==>
              && IsMatrix(r.value.coeffs, |missing|, |present|)
              && forall i, j :: 0 <= i < |missing| && 0 <= j < |present| ==>
                   r.value.coeffs[i][j] == Pow(constants[present[j]], exponents[presentRecovery[i] - |constants|])
  {
    hide TransformOf, WellFormed, Tables.Valid;
    var m := |missing|;
    if m == 0 {
      return Err(NothingMissing);
    }
    if |presentRecovery| < m {
      return Err(TooFewRecoveryBlocks);
    }
    var used := UsedExponents(|constants|, presentRecovery, exponents, m);
    var matrix := PowerMatrixOf(t, Select(constants, missing), used);
    var eliminated := Eliminate(t, matrix);
    match eliminated
    case Err(e) => return Err(e);
    case Ok(record) =>
      var coeffs := PowerMatrixOf(t, Select(constants, present), used);
      return Ok(ReconstructionTransform(record, coeffs));
  }

  // ----- the replay

  /** Step k on the accumulators: the rows before k, then the rows after it. */
  method ReplayStepInPlace(t: Tables, k: nat, record: Transform, acc: Matrix, w: nat) returns (r: Matrix)
    requires t.Valid() && IsMatrix(acc, |acc|, w) && k < |acc|
    requires |record.scale| == |acc| && IsMatrix(record.elim, |acc|, |acc|) && record.scale[k] != 0
    ensures r == ReplayStep(k, record.scale, record.elim, acc, w)
  {
    hide Scale, AddRow, Inverse, MulAdd, Tables.Valid;
    var pivot := record.scale[k];
    DivideByOne(acc[k]);
    var p := acc[k];
    if pivot != 1 {
      p := NormalizeRow(t, acc[k], 0, pivot);
    }
    r := acc[k := p];
    for i := 0 to k
      invariant IsMatrix(r, |acc|, w) && r[k] == p
      invariant forall j :: 0 <= j < i ==> r[j] == AddRow(acc[j], Scale(record.elim[j][k], p))
      invariant forall j :: i <= j < |acc| && j != k ==> r[j] == acc[j]
    {
      r := AddFactor(t, r, i, k, record.elim[i][k], w);
    }
    for i := k + 1 to |acc|
      invariant IsMatrix(r, |acc|, w) && r[k] == p
      invariant forall j :: 0 <= j < i && j != k ==> r[j] == AddRow(acc[j], Scale(record.elim[j][k], p))
      invariant forall j :: i <= j < |acc| ==> r[j] == acc[j]
    {
      r := AddFactor(t, r, i, k, record.elim[i][k], w);
    }
  }

  /** Adds a multiple of row k to row i, unless the factor is zero. */
  method AddFactor(t: Tables, rows: Matrix, i: nat, k: nat, factor: Symbol, w: nat) returns (r: Matrix)
    requires t.Valid() && IsMatrix(rows, |rows|, w) && i < |rows| && k < |rows|
    ensures r == rows[i := AddRow(rows[i], Scale(factor, rows[k]))]
  {
    hide Scale, AddRow, MulAdd, Tables.Valid;
    AddNothing(rows[i], rows[k]);
    MulAddSameLength(rows[i], rows[k], factor);
    r := rows;
    if factor != 0 {
      var row := MulAddRow(t, rows[i], rows[k], factor);
      r := r[i := row];
    }
  }

  method ReplayInPlace(t: Tables, record: Transform, acc: Matrix, w: nat) returns (r: Matrix)
    requires t.Valid() && IsMatrix(acc, |acc|, w) && WellFormed(record, |acc|)
    ensures r == Replay(|acc|, record.scale, record.elim, acc, w)
  {
    hide ReplayStep, Tables.Valid;
    r := acc;
    for k := 0 to |acc|
      invariant r == Replay(k, record.scale, record.elim, acc, w)
    {
      r := ReplayStepInPlace(t, k, record, r, w);
    }
  }
}
