/**
 Reconstruction of missing blocks, on symbols (src/par2_rs.rs).

 The coefficients of the present blocks are applied in the original row order even where the
 elimination swapped rows; `OrderMatters` shows that reconstruction is right for all data exactly when no row was
 swapped, or no data block is present.
 */
module Erasures {
  import opened Options
  import opened GaloisField
  import opened Primitive
  import opened GaloisTables
  import opened LinearAlgebra
  import opened Elimination
  import opened Vandermonde
  import opened Constants
  import opened Bytes
  import opened Regions
  import opened Encoding
  import opened Reconstruction
  import opened ChunkReconstruction

  // ----- partitions of the blocks

  ghost function Elements(s: seq<nat>): (r: set<nat>)
    requires Distinct(s)
    ensures |r| == |s| && forall x :: x in r <==> x in s
  {
    if s == [] then {} else
      assert s[1..] == s[1..];
      var rest := Elements(s[1..]);
      assert forall x :: x in s <==> x == s[0] || x in s[1..];
      assert s[0] !in s[1..];
      rest + {s[0]}
  }

  ghost function Below(n: nat): (r: set<nat>)
    ensures |r| == n && forall x: nat :: x in r <==> x < n
  {
    if n == 0 then {} else Below(n - 1) + {n - 1}
  }

  /** n distinct numbers below n are all of them. */
  lemma DistinctCovers(s: seq<nat>, i: nat)
    requires Distinct(s) && IndicesBelow(s, |s|) && i < |s|
    ensures i in s
  {
    var (a, b) := (Elements(s), Below(|s|));
    assert a <= b;
    assert b == a + (b - a) && |b| == |a| + |b - a|;
  }

  /** The two lists hold every index below n exactly once. */
  predicate Partition(missing: seq<nat>, present: seq<nat>, n: nat) {
    |missing| + |present| == n && IndicesBelow(missing + present, n) && Distinct(missing + present)
  }

  lemma PartitionIndices(missing: seq<nat>, present: seq<nat>, n: nat)
    requires Partition(missing, present, n)
    ensures IndicesBelow(missing, n) && IndicesBelow(present, n)
    ensures Distinct(missing) && Distinct(present)
  {
    var s := missing + present;
    assert forall i :: 0 <= i < |missing| ==> missing[i] == s[i];
    assert forall i :: 0 <= i < |present| ==> present[i] == s[|missing| + i];
  }

  lemma SelectSplit<T>(s: seq<T>, a: seq<nat>, b: seq<nat>)
    requires IndicesBelow(a, |s|) && IndicesBelow(b, |s|)
    ensures IndicesBelow(a + b, |s|) && Select(s, a + b) == Select(s, a) + Select(s, b)
  {
  }

  lemma SelectMatrix(rows: Matrix, a: seq<nat>, w: nat)
    requires IsMatrix(rows, |rows|, w) && IndicesBelow(a, |rows|)
    ensures IsMatrix(Select(rows, a), |a|, w)
  {
  }

  lemma SelectPrefix<T>(s: seq<T>, n: nat, a: seq<nat>)
    requires n <= |s| && IndicesBelow(a, n)
    ensures Select(s, a) == Select(s[..n], a)
  {
  }

  /** A combination does not depend on the order of its terms. */
  lemma {:induction false} CombinePermuted(c: Row, rows: Matrix, w: nat, order: seq<nat>)
    requires IsMatrix(rows, |c|, w) && |order| == |c| && IndicesBelow(order, |c|) && Distinct(order)
    ensures Combine(Select(c, order), Select(rows, order), w) == Combine(c, rows, w)
    decreases |c|
  {
    hide Combine, Distinct, AddRow, Scale, Select;
    if |c| == 0 {
      assert Select(c, order) == c && Select(rows, order) == rows;
      return;
    }
    var n := |c| - 1;
    DistinctCovers(order, n);
    var q :| 0 <= q < |order| && order[q] == n;
    var (a, b) := (order[..q], order[q + 1..]);
    assert order == a + [n] + b;
    RemoveOne(order, q);
    CombinePermuted(c[..n], rows[..n], w, a + b);
    SelectSplit(c[..n], a, b);
    SelectSplit(rows[..n], a, b);
    SelectMatrix(rows[..n], a, w);
    SelectMatrix(rows[..n], b, w);
    CombineSplit(Select(c[..n], a), Select(c[..n], b), Select(rows[..n], a), Select(rows[..n], b), w);
    SelectPrefix(c, n, a);
    SelectPrefix(c, n, b);
    SelectPrefix(rows, n, a);
    SelectPrefix(rows, n, b);
    MoveToEnd(c, rows, w, a, n, b, order);
    assert c[..n] + [c[n]] == c;
    CombineAppend(c[..n], c[n], rows[..n], rows[n], rows, w);
  }

  lemma RemoveOne(order: seq<nat>, q: nat)
    requires Distinct(order) && q < |order| && order[q] == |order| - 1 && IndicesBelow(order, |order|)
    ensures Distinct(order[..q] + order[q + 1..]) && IndicesBelow(order[..q] + order[q + 1..], |order| - 1)
    ensures IndicesBelow(order[..q], |order| - 1) && IndicesBelow(order[q + 1..], |order| - 1)
  {
    var s := order[..q] + order[q + 1..];
    assert forall i :: 0 <= i < |s| ==> s[i] == order[if i < q then i else i + 1];
  }

  lemma MoveToEnd(c: Row, rows: Matrix, w: nat, a: seq<nat>, k: nat, b: seq<nat>, order: seq<nat>)
    requires IsMatrix(rows, |c|, w) && order == a + [k] + b && IndicesBelow(order, |c|)
    requires IndicesBelow(a, |c|) && IndicesBelow(b, |c|) && k < |c|
    ensures Combine(Select(c, order), Select(rows, order), w)
         == AddRow(AddRow(Combine(Select(c, a), Select(rows, a), w), Combine(Select(c, b), Select(rows, b), w)),
                   Scale(c[k], rows[k]))
  {
    hide Combine, AddRow, Scale;
    var (ca, cb, ra, rb) := (Select(c, a), Select(c, b), Select(rows, a), Select(rows, b));
    var (x, y, z) := (Combine(ca, ra, w), Combine(cb, rb, w), Scale(c[k], rows[k]));
    assert Select(c, order) == ca + [c[k]] + cb && Select(rows, order) == ra + [rows[k]] + rb;
    CombineSplit(ca + [c[k]], cb, ra + [rows[k]], rb, w);
    CombineAppend(ca, c[k], ra, rows[k], ra + [rows[k]], w);
    AddRowAssoc(x, z, y);
    AddRowComm(z, y);
    AddRowAssoc(x, y, z);
  }

  /** A recovery row is the part of the missing blocks plus the part of the present ones. */
  lemma RecoverySplit(c: Row, e: nat, blocks: Matrix, w: nat, missing: seq<nat>, present: seq<nat>)
    requires IsMatrix(blocks, |c|, w) && Partition(missing, present, |c|)
    requires IndicesBelow(missing, |c|) && IndicesBelow(present, |c|)
    ensures RecoveryRow(c, e, blocks, w)
         == AddRow(Combine(PowerRow(Select(c, missing), e), Select(blocks, missing), w),
                   Combine(PowerRow(Select(c, present), e), Select(blocks, present), w))
  {
    hide Combine, Distinct, AddRow, Pow;
    var p := PowerRow(c, e);
    CombinePermuted(p, blocks, w, missing + present);
    SelectSplit(p, missing, present);
    SelectSplit(blocks, missing, present);
    assert Select(p, missing) == PowerRow(Select(c, missing), e)
           && Select(p, present) == PowerRow(Select(c, present), e);
    CombineSplit(Select(p, missing), Select(p, present), Select(blocks, missing), Select(blocks, present), w);
  }

  // ----- the sums before the replay

  function RecoveryRows(c: Row, exponents: seq<nat>, blocks: Matrix, w: nat): (r: Matrix)
    requires IsMatrix(blocks, |c|, w)
    ensures IsMatrix(r, |exponents|, w)
  {
    seq(|exponents|, i requires 0 <= i < |exponents| => RecoveryRow(c, exponents[i], blocks, w))
  }

  /** The transform for these missing and present blocks and exponents. */
  ghost predicate IsTransform(tr: ReconstructionTransform, c: Row, missing: seq<nat>, present: seq<nat>,
                              exponents: seq<nat>) {
    && |exponents| == |missing| && IndicesBelow(missing, |c|) && IndicesBelow(present, |c|)
    && TransformOf(PowerMatrix(Select(c, missing), exponents)) == Some(tr.record)
    && tr.coeffs == PowerMatrix(Select(c, present), exponents)
  }

  /** Row p of the sums: the right-hand side in its place, and what the present blocks add or fail to cancel. */
  lemma SumRow(tr: ReconstructionTransform, c: Row, blocks: Matrix, w: nat,
               missing: seq<nat>, present: seq<nat>, exponents: seq<nat>, p: nat)
    requires IsTransform(tr, c, missing, present, exponents) && WellFormed(tr.record, |missing|)
    requires IsMatrix(blocks, |c|, w) && Partition(missing, present, |c|) && p < |missing|
    ensures var (x, y) := (Select(blocks, missing), Select(blocks, present));
            var q := tr.record.order[p];
            Sums(tr.record.order, tr.coeffs, RecoveryRows(c, exponents, blocks, w), y, w)[p]
            == AddRow(Multiply(PowerMatrix(Select(c, missing), exponents), x, w)[q],
                      AddRow(Combine(tr.coeffs[q], y, w), Combine(tr.coeffs[p], y, w)))
  {
    hide Combine, Distinct, AddRow, Pow, RecoveryRow, WellFormed, TransformOf;
    assert |tr.record.order| == |missing| && tr.record.order[p] < |missing| by {
      WellFormedOrder(tr.record, |missing|, p);
    }
    var q := tr.record.order[p];
    var (x, y) := (Select(blocks, missing), Select(blocks, present));
    RecoverySplit(c, exponents[q], blocks, w, missing, present);
    AddRowAssoc(Combine(PowerRow(Select(c, missing), exponents[q]), x, w), Combine(tr.coeffs[q], y, w),
                Combine(tr.coeffs[p], y, w));
  }

  lemma WellFormedOrder(record: Transform, m: nat, p: nat)
    requires WellFormed(record, m) && p < m
    ensures |record.order| == m && record.order[p] < m
  {
  }

  /** The restored rows are the missing blocks exactly when the present blocks cancel in every row. */
  lemma RestoredExactly(tr: ReconstructionTransform, c: Row, blocks: Matrix, w: nat,
                        missing: seq<nat>, present: seq<nat>, exponents: seq<nat>)
    requires IsTransform(tr, c, missing, present, exponents) && WellFormed(tr.record, |missing|)
    requires IsMatrix(blocks, |c|, w) && Partition(missing, present, |c|)
    ensures var y := Select(blocks, present);
            RestoredRows(tr, RecoveryRows(c, exponents, blocks, w), y, w) == Select(blocks, missing)
            <==> forall p :: 0 <= p < |missing| ==>
                Combine(tr.coeffs[tr.record.order[p]], y, w) == Combine(tr.coeffs[p], y, w)
  {
    hide Combine, Distinct, AddRow, Pow, RecoveryRow, TransformOf, Replay, Sums, PowerMatrix, Partition, Multiply,
         ZeroRow;
    var (x, y) := (Select(blocks, missing), Select(blocks, present));
    var a := PowerMatrix(Select(c, missing), exponents);
    var t := tr.record;
    var sums := Sums(t.order, tr.coeffs, RecoveryRows(c, exponents, blocks, w), y, w);
    var placed := Place(t.order, Multiply(a, x, w));
    ReplaySolves(a, x, w);
    forall p | 0 <= p < |missing|
      ensures sums[p] == placed[p] <==> Combine(tr.coeffs[t.order[p]], y, w) == Combine(tr.coeffs[p], y, w)
    {
      SumRow(tr, c, blocks, w, missing, present, exponents, p);
      CancelsExactly(placed[p], Combine(tr.coeffs[t.order[p]], y, w), Combine(tr.coeffs[p], y, w));
    }
    if Replay(|missing|, t.scale, t.elim, sums, w) == x {
      ReplayInjective(|missing|, t.scale, t.elim, sums, placed, w);
    } else if sums == placed {
      assert false;
    }
  }

  lemma CancelsExactly(v: Row, a: Row, b: Row)
    requires |v| == |a| == |b|
    ensures AddRow(v, AddRow(a, b)) == v <==> a == b
  {
    hide AddRow, ZeroRow;
    AddRowZero(b);
    AddRowZero(v);
    AddRowCancel(a, b, b);
    if AddRow(v, AddRow(a, b)) == v {
      AddRowComm(v, AddRow(a, b));
      AddRowComm(v, ZeroRow(|v|));
      AddRowCancel(AddRow(a, b), ZeroRow(|v|), v);
    }
  }

  // ----- when the order is kept

  predicate InOrder(order: seq<nat>) {
    order == Consecutive(0, |order|)
  }

  /** Without swaps the missing blocks are restored, whatever the exponents. */
  lemma RestoredInOrder(tr: ReconstructionTransform, c: Row, blocks: Matrix, w: nat,
                        missing: seq<nat>, present: seq<nat>, exponents: seq<nat>)
    requires IsTransform(tr, c, missing, present, exponents) && WellFormed(tr.record, |missing|)
    requires IsMatrix(blocks, |c|, w) && Partition(missing, present, |c|)
    requires InOrder(tr.record.order) || present == []
    ensures RestoredRows(tr, RecoveryRows(c, exponents, blocks, w), Select(blocks, present), w)
            == Select(blocks, missing)
  {
    hide Combine, Partition, RestoredRows, RecoveryRow, TransformOf, Pow;
    RestoredExactly(tr, c, blocks, w, missing, present, exponents);
    if present == [] {
      forall p | 0 <= p < |missing|
        ensures Combine(tr.coeffs[tr.record.order[p]], [], w) == Combine(tr.coeffs[p], [], w)
      {
        WellFormedOrder(tr.record, |missing|, p);
        assert tr.coeffs[tr.record.order[p]] == [] && tr.coeffs[p] == [];
      }
      assert Select(blocks, present) == [];
    }
  }

  // ----- when it is not

  function OnesRow(w: nat): (r: Row)
    ensures |r| == w
  {
    seq(w, _ => 1)
  }

  /** Blocks that are zero, except that block k is all ones. */
  function OneBlock(n: nat, k: nat, w: nat): (r: Matrix)
    ensures |r| == n && forall i :: 0 <= i < n ==> r[i] == if i == k then OnesRow(w) else ZeroRow(w)
    ensures IsMatrix(r, n, w)
  {
    seq(n, i => if i == k then OnesRow(w) else ZeroRow(w))
  }

  lemma {:induction false} CombineOneBlock(coeffs: Row, w: nat)
    requires |coeffs| > 0 && w > 0
    ensures Combine(coeffs, OneBlock(|coeffs|, 0, w), w)[0] == coeffs[0]
    decreases |coeffs|
  {
    hide Add, Mul;
    var n := |coeffs| - 1;
    var rows := OneBlock(|coeffs|, 0, w);
    MulOne(coeffs[0]);
    MulZero(coeffs[n]);
    AddZero(coeffs[0]);
    assert Combine(coeffs, rows, w) == AddRow(Combine(coeffs[..n], rows[..n], w), Scale(coeffs[n], rows[n]));
    if n == 0 {
      AddZero(coeffs[0]);
      AddComm(0, coeffs[0]);
    } else {
      assert rows[..n] == OneBlock(n, 0, w);
      CombineOneBlock(coeffs[..n], w);
    }
  }

  /** The data for which a swap shows: one present block of ones. */
  function Witness(n: nat, present: seq<nat>, w: nat): (r: Matrix)
    requires present != []
    ensures IsMatrix(r, n, w)
  {
    OneBlock(n, present[0], w)
  }

  lemma WitnessPresent(n: nat, present: seq<nat>, w: nat)
    requires present != [] && IndicesBelow(present, n) && Distinct(present)
    ensures Select(Witness(n, present, w), present) == OneBlock(|present|, 0, w)
  {
  }

  /** Powers of nonzero elements depend on the exponent modulo 65535. */
  lemma PowPeriod(a: Symbol, e: nat)
    requires a != 0
    ensures Pow(a, e) == Pow(a, e % ORDER)
  {
    hide Mul;
    PowLog(a, ORDER);
    ExpIsOne(Log(a) * ORDER);
    MultipleMod(ORDER, Log(a));
    PowMod(a, ORDER, e);
  }

  /** A constant tells exponents apart that differ modulo 65535. */
  lemma ConstantPowers(i: nat, d: nat, e: nat)
    requires Pow(Constant(i), d) == Pow(Constant(i), e)
    ensures d % ORDER == e % ORDER
  {
    if d <= e {
      ConstantPowersGap(i, d, e);
    } else {
      ConstantPowersGap(i, e, d);
    }
  }

  lemma ConstantPowersGap(i: nat, d: nat, e: nat)
    requires d <= e && Pow(Constant(i), d) == Pow(Constant(i), e)
    ensures d % ORDER == e % ORDER
  {
    hide Mul, Pow, Constant;
    var c := Constant(i);
    PowAdd(c, d, e - d);
    ConstantNonzero(i);
    PowNonzero(c, d);
    MulOne(Pow(c, d));
    MulComm(Pow(c, d), Pow(c, e - d));
    MulComm(Pow(c, d), 1);
    MulCancel(Pow(c, e - d), 1, Pow(c, d));
    ConstantOrder(i, e - d);
    ModPeriod(d, ORDER, (e - d) / ORDER);
  }

  /** A matrix with a transform has no two equal rows. */
  lemma RowsDiffer(a: Matrix, i: nat, j: nat)
    requires IsMatrix(a, |a|, |a|) && TransformOf(a).Some? && i < |a| && j < |a| && a[i] == a[j]
    ensures i == j
  {
    hide TransformOf, Combine;
    var b := OneBlock(|a|, i, 1);
    ReplayIsSolution(a, b, 1);
    var x := Solve(TransformOf(a).value, b, 1);
    MultiplyRow(a, x, 1, i);
    MultiplyRow(a, x, 1, j);
    hide Multiply, Solve;
    assert b[i] == b[j];
    assert b[i][0] == 1;
  }

  /** If the witness is restored, the rows keep their order. */
  lemma WitnessFails(tr: ReconstructionTransform, n: nat, w: nat, missing: seq<nat>, present: seq<nat>,
                     exponents: seq<nat>, p: nat)
    requires IsTransform(tr, FirstConstants(n), missing, present, exponents) && WellFormed(tr.record, |missing|)
    requires Partition(missing, present, n) && w > 0 && present != [] && p < |missing|
    requires Combine(tr.coeffs[tr.record.order[p]], OneBlock(|present|, 0, w), w)
          == Combine(tr.coeffs[p], OneBlock(|present|, 0, w), w)
    ensures tr.record.order[p] == p
  {
    hide Combine, Partition, TransformOf, Pow, Constant;
    var c := FirstConstants(n);
    var q := tr.record.order[p];
    CombineOneBlock(tr.coeffs[q], w);
    CombineOneBlock(tr.coeffs[p], w);
    assert Pow(Constant(present[0]), exponents[q]) == Pow(Constant(present[0]), exponents[p]);
    ConstantPowers(present[0], exponents[q], exponents[p]);
    var a := PowerMatrix(Select(c, missing), exponents);
    forall j | 0 <= j < |missing|
      ensures a[q][j] == a[p][j]
    {
      ConstantNonzero(missing[j]);
      PowPeriod(Constant(missing[j]), exponents[q]);
      PowPeriod(Constant(missing[j]), exponents[p]);
    }
    assert a[q] == a[p];
    RowsDiffer(a, q, p);
  }

  /**
   For exponents whose elimination succeeds, reconstruction is right for all data exactly
   when no row was swapped, or no data block is present.
   */
  lemma OrderMatters(tr: ReconstructionTransform, n: nat, w: nat, missing: seq<nat>, present: seq<nat>,
                     exponents: seq<nat>)
    requires IsTransform(tr, FirstConstants(n), missing, present, exponents) && WellFormed(tr.record, |missing|)
    requires Partition(missing, present, n) && w > 0
    ensures (forall blocks: Matrix :: IsMatrix(blocks, n, w) ==>
              RestoredRows(tr, RecoveryRows(FirstConstants(n), exponents, blocks, w), Select(blocks, present), w)
                == Select(blocks, missing))
            <==> InOrder(tr.record.order) || present == []
  {
    hide Partition, RestoredRows, RecoveryRows, TransformOf, FirstConstants, WellFormed, PowerMatrix;
    if InOrder(tr.record.order) || present == [] {
      forall blocks: Matrix | IsMatrix(blocks, n, w)
        ensures RestoredRows(tr, RecoveryRows(FirstConstants(n), exponents, blocks, w), Select(blocks, present), w)
                == Select(blocks, missing)
      {
        RestoredInOrder(tr, FirstConstants(n), blocks, w, missing, present, exponents);
      }
    } else {
      var blocks := Witness(n, present, w);
      PartitionIndices(missing, present, n);
      WitnessPresent(n, present, w);
      RestoredExactly(tr, FirstConstants(n), blocks, w, missing, present, exponents);
      SwapShows(tr, n, w, missing, present, exponents);
    }
  }

  lemma SwapShows(tr: ReconstructionTransform, n: nat, w: nat, missing: seq<nat>, present: seq<nat>,
                  exponents: seq<nat>)
    requires IsTransform(tr, FirstConstants(n), missing, present, exponents) && WellFormed(tr.record, |missing|)
    requires Partition(missing, present, n) && w > 0 && present != [] && !InOrder(tr.record.order)
    ensures exists p :: 0 <= p < |missing| &&
              Combine(tr.coeffs[tr.record.order[p]], OneBlock(|present|, 0, w), w)
              != Combine(tr.coeffs[p], OneBlock(|present|, 0, w), w)
  {
    hide Partition, TransformOf, FirstConstants, PowerMatrix, Combine, OneBlock;
    var p :| 0 <= p < |missing| && tr.record.order[p] != p;
    if Combine(tr.coeffs[tr.record.order[p]], OneBlock(|present|, 0, w), w)
       == Combine(tr.coeffs[p], OneBlock(|present|, 0, w), w) {
      WitnessFails(tr, n, w, missing, present, exponents, p);
    }
  }

  // ----- recovery data that is not genuine

  /** If no swap does harm, the missing blocks come out exactly when the recovery rows that are used are genuine. */
  lemma OnlyGenuineRestores(tr: ReconstructionTransform, c: Row, blocks: Matrix, w: nat, missing: seq<nat>,
                            present: seq<nat>, exponents: seq<nat>, rows: Matrix)
    requires IsTransform(tr, c, missing, present, exponents) && WellFormed(tr.record, |missing|)
    requires IsMatrix(blocks, |c|, w) && Partition(missing, present, |c|) && IsMatrix(rows, |missing|, w)
    requires InOrder(tr.record.order) || present == []
    ensures RestoredRows(tr, rows, Select(blocks, present), w) == Select(blocks, missing)
            <==> rows == RecoveryRows(c, exponents, blocks, w)
  {
    hide RecoveryRow, TransformOf, Replay, PowerMatrix, Partition, InOrder, Place, WellFormed, Sums;
    RestoredInOrder(tr, c, blocks, w, missing, present, exponents);
    var (y, t, genuine) := (Select(blocks, present), tr.record, RecoveryRows(c, exponents, blocks, w));
    if RestoredRows(tr, rows, y, w) == Select(blocks, missing) {
      WellFormedParts(t, |missing|);
      var (u, v) := (Sums(t.order, tr.coeffs, rows, y, w), Sums(t.order, tr.coeffs, genuine, y, w));
      ReplayInjective(|missing|, t.scale, t.elim, u, v, w);
      SumsInjective(t, tr.coeffs, rows, genuine, y, w);
    }
  }

  lemma WellFormedParts(t: Transform, m: nat)
    requires WellFormed(t, m)
    ensures |t.order| == |t.scale| == m && IsMatrix(t.elim, m, m)
    ensures forall i :: 0 <= i < m ==> t.order[i] < m && t.scale[i] != 0
  {
  }

  lemma SumsInjective(t: Transform, coeffs: Matrix, rows: Matrix, rows': Matrix, data: Matrix, w: nat)
    requires WellFormed(t, |rows|) && IsMatrix(rows, |rows|, w) && IsMatrix(rows', |rows|, w)
    requires IsMatrix(data, |data|, w) && IsMatrix(coeffs, |rows|, |data|)
    requires Sums(t.order, coeffs, rows, data, w) == Sums(t.order, coeffs, rows', data, w)
    ensures rows == rows'
  {
    hide Combine, AddRow;
    var (u, v) := (Place(t.order, rows), Place(t.order, rows'));
    forall p | 0 <= p < |rows|
      ensures u[p] == v[p]
    {
      assert Sums(t.order, coeffs, rows, data, w)[p] == Sums(t.order, coeffs, rows', data, w)[p];
      AddRowCancel(u[p], v[p], Combine(coeffs[p], data, w));
    }
    PlaceInjective(t, rows, rows');
  }

  // ----- coefficients that follow the rows would always do

  /** The same transform with the coefficient rows in the order of the rows of the record. */
  function Permuted(tr: ReconstructionTransform): ReconstructionTransform
    requires |tr.record.order| == |tr.coeffs| && forall i :: 0 <= i < |tr.coeffs| ==> tr.record.order[i] < |tr.coeffs|
  {
    ReconstructionTransform(tr.record, Place(tr.record.order, tr.coeffs))
  }

  /** With permuted coefficients the missing blocks are restored whenever the elimination succeeds. */
  lemma PermutedRestores(tr: ReconstructionTransform, c: Row, blocks: Matrix, w: nat,
                         missing: seq<nat>, present: seq<nat>, exponents: seq<nat>)
    requires IsTransform(tr, c, missing, present, exponents) && WellFormed(tr.record, |missing|)
    requires IsMatrix(blocks, |c|, w) && Partition(missing, present, |c|)
    ensures RestoredRows(Permuted(tr), RecoveryRows(c, exponents, blocks, w), Select(blocks, present), w)
            == Select(blocks, missing)
  {
    hide Combine, Partition, RecoveryRow, TransformOf, Pow, AddRow, ZeroRow, Replay, Multiply;
    var (x, y) := (Select(blocks, missing), Select(blocks, present));
    var a := PowerMatrix(Select(c, missing), exponents);
    var t := tr.record;
    ReplaySolves(a, x, w);
    var sums := Sums(t.order, Permuted(tr).coeffs, RecoveryRows(c, exponents, blocks, w), y, w);
    forall p | 0 <= p < |missing|
      ensures sums[p] == Multiply(a, x, w)[t.order[p]]
    {
      PermutedRow(c, blocks, w, missing, present, exponents[t.order[p]]);
      MultiplyRow(a, x, w, t.order[p]);
    }
    assert sums == Place(t.order, Multiply(a, x, w));
  }

  lemma MultiplyRow(a: Matrix, x: Matrix, w: nat, i: nat)
    requires IsMatrix(a, |a|, |x|) && IsMatrix(x, |x|, w) && i < |a|
    ensures Multiply(a, x, w)[i] == Combine(a[i], x, w)
  {
    hide Combine;
  }

  lemma PermutedRow(c: Row, blocks: Matrix, w: nat, missing: seq<nat>, present: seq<nat>, e: nat)
    requires IsMatrix(blocks, |c|, w) && Partition(missing, present, |c|)
    requires IndicesBelow(missing, |c|) && IndicesBelow(present, |c|)
    ensures Accumulated(RecoveryRow(c, e, blocks, w), PowerRow(Select(c, present), e), Select(blocks, present))
         == Combine(PowerRow(Select(c, missing), e), Select(blocks, missing), w)
  {
    hide Combine, Partition, RecoveryRow, Pow, AddRow, ZeroRow;
    RecoverySplit(c, e, blocks, w, missing, present);
    var (u, v) := (Combine(PowerRow(Select(c, missing), e), Select(blocks, missing), w),
                   Combine(PowerRow(Select(c, present), e), Select(blocks, present), w));
    AddRowCancel(u, v, v);
  }

  // ----- more than 32768 data blocks

  /** A matrix with a transform has no two equal columns. */
  lemma ColumnsDiffer(a: Matrix, i: nat, j: nat)
    requires IsMatrix(a, |a|, |a|) && TransformOf(a).Some? && i < |a| && j < |a|
    requires forall r :: 0 <= r < |a| ==> a[r][i] == a[r][j]
    ensures i == j
  {
    hide TransformOf, Combine, OneBlock;
    var (x, y) := (OneBlock(|a|, i, 1), OneBlock(|a|, j, 1));
    forall r | 0 <= r < |a|
      ensures Combine(a[r], x, 1) == Combine(a[r], y, 1)
    {
      CombineOneColumn(a[r], i);
      CombineOneColumn(a[r], j);
    }
    assert Multiply(a, x, 1) == Multiply(a, y, 1);
    hide Multiply;
    ReplaySolves(a, x, 1);
    ReplaySolves(a, y, 1);
    assert x[i][0] == 1 && y[i] == x[i];
  }

  /** Two missing blocks with the same constant make the elimination fail, whatever the exponents. */
  lemma RepeatedConstantFails(n: nat, missing: seq<nat>, exponents: seq<nat>, i: nat, j: nat)
    requires |exponents| == |missing| && IndicesBelow(missing, n)
    requires i < j < |missing| && missing[i] % DISTINCT_CONSTANTS == missing[j] % DISTINCT_CONSTANTS
    ensures TransformOf(PowerMatrix(Select(FirstConstants(n), missing), exponents)).None?
  {
    hide TransformOf, Constant, Pow;
    var c := Select(FirstConstants(n), missing);
    var a := PowerMatrix(c, exponents);
    ConstantsEqual(missing[i], missing[j]);
    assert c[i] == c[j];
    if TransformOf(a).Some? {
      ColumnsDiffer(a, i, j);
    }
  }

  /** For consecutive exponents the transform exists exactly when no two missing blocks have the same constant. */
  lemma TransformExists(n: nat, missing: seq<nat>, s: nat)
    requires IndicesBelow(missing, n)
    ensures var r := TransformOf(PowerMatrix(Select(FirstConstants(n), missing), Consecutive(s, |missing|)));
            && (r.Some? <==> DistinctResidues(missing))
            && (r.Some? ==> InOrder(r.value.order))
  {
    hide TransformOf, PowerMatrix, Constant;
    var c := Select(FirstConstants(n), missing);
    if DistinctResidues(missing) {
      forall i, j | 0 <= i < j < |c|
        ensures c[i] != c[j]
      {
        ConstantsEqual(missing[i], missing[j]);
      }
      forall j | 0 <= j < |c|
        ensures c[j] != 0
      {
        ConstantNonzero(missing[j]);
      }
      ConsecutiveTransform(c, s);
    } else {
      var i, j :| 0 <= i < j < |missing| && missing[i] % DISTINCT_CONSTANTS == missing[j] % DISTINCT_CONSTANTS;
      RepeatedConstantFails(n, missing, Consecutive(s, |missing|), i, j);
    }
  }

  lemma {:induction false} CombineOneColumn(coeffs: Row, k: nat)
    requires k < |coeffs|
    ensures Combine(coeffs, OneBlock(|coeffs|, k, 1), 1) == [coeffs[k]]
    decreases |coeffs|
  {
    hide Add, Mul, Combine;
    var n := |coeffs|;
    var (a, b) := (coeffs[..k], coeffs[k + 1..]);
    assert coeffs == a + [coeffs[k]] + b;
    assert OnesRow(1) == [1] && ZeroRow(1) == [0];
    assert OneBlock(n, k, 1) == ZeroMatrix(k, 1) + [[1]] + ZeroMatrix(n - k - 1, 1);
    CombineSplit(a + [coeffs[k]], b, ZeroMatrix(k, 1) + [[1]], ZeroMatrix(n - k - 1, 1), 1);
    CombineSplit(a, [coeffs[k]], ZeroMatrix(k, 1), [[1]], 1);
    CombineOfZeros(a, 1);
    CombineOfZeros(b, 1);
    CombineOne(coeffs[k], 1);
    hide AddRow, ZeroRow;
    AddRowZero([coeffs[k]]);
  }
}
