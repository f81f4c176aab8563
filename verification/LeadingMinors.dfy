/**
 When the elimination swaps no rows, said of the matrix itself: exactly when every leading
 square of it is nonsingular.  With `Erasures.OrderMatters` this decides from the missing
 blocks and the exponents alone whether reconstruction is right (src/par2_rs.rs).
 */
module LeadingMinors {
  import opened GaloisField
  import opened Options
  import opened Primitive
  import opened LinearAlgebra
  import opened Elimination
  import opened Vandermonde
  import opened Constants
  import opened Encoding
  import opened Reconstruction
  import opened ChunkReconstruction
  import opened Erasures

  /** The first n rows and columns. */
  function Leading(a: Matrix, n: nat): (r: Matrix)
    requires IsMatrix(a, |a|, |a|) && n <= |a|
    ensures IsMatrix(r, n, n)
  {
    seq(n, i requires 0 <= i < n => a[i][..n])
  }

  /** Only zero is mapped to zero. */
  ghost predicate Nonsingular(a: Matrix)
    requires IsMatrix(a, |a|, |a|)
  {
    forall x: Matrix :: IsMatrix(x, |a|, 1) && Multiply(a, x, 1) == ZeroMatrix(|a|, 1) ==> x == ZeroMatrix(|a|, 1)
  }

  ghost predicate LeadingNonsingular(a: Matrix)
    requires IsMatrix(a, |a|, |a|)
  {
    forall n: nat :: n <= |a| ==> Nonsingular(Leading(a, n))
  }

  /** The elimination succeeds exactly on nonsingular matrices. */
  lemma SucceedsExactly(a: Matrix)
    requires IsMatrix(a, |a|, |a|)
    ensures TransformOf(a).Some? <==> Nonsingular(a)
  {
    hide Multiply, TransformOf, Solve;
    var zero := ZeroMatrix(|a|, 1);
    if TransformOf(a).Some? {
      MultiplyZero(a);
      ReplaySolves(a, zero, 1);
      forall x: Matrix | IsMatrix(x, |a|, 1) && Multiply(a, x, 1) == zero
        ensures x == zero
      {
        ReplaySolves(a, x, 1);
      }
    } else {
      var x := FailsOnSingular(a);
    }
  }

  lemma MultiplyZero(a: Matrix)
    requires IsMatrix(a, |a|, |a|)
    ensures Multiply(a, ZeroMatrix(|a|, 1), 1) == ZeroMatrix(|a|, 1)
  {
    hide Combine;
    forall i | 0 <= i < |a|
      ensures Combine(a[i], ZeroMatrix(|a|, 1), 1) == ZeroRow(1)
    {
      CombineOfZeros(a[i], 1);
    }
  }

  // ----- steps without a swap

  /** The first k steps succeed and leave the rows in their order. */
  ghost predicate Unmoved(a: Matrix, k: nat)
    requires IsMatrix(a, |a|, |a|) && k <= |a|
  {
    Eliminated(a, k).Some? && InOrder(Eliminated(a, k).value.t.order)
  }

  lemma UnmovedStart(a: Matrix)
    requires IsMatrix(a, |a|, |a|)
    ensures Unmoved(a, 0) && Eliminated(a, 0).value.a == a
  {
  }

  /** A row that has been used stays where it is, so a swap shows in the rows used. */
  lemma {:induction false} UsedInOrder(a: Matrix, k: nat)
    requires IsMatrix(a, |a|, |a|) && k <= |a| && Eliminated(a, k).Some?
    requires forall j :: 0 <= j < k ==> Eliminated(a, k).value.t.order[j] == j
    ensures InOrder(Eliminated(a, k).value.t.order)
  {
    hide NextState, PivotRow, Replay, Place, Clear;
    if k > 0 {
      var s := Eliminated(a, k - 1).value;
      var order := Eliminated(a, k).value.t.order;
      StepOrder(a, k - 1, s);
      var p := PivotRow(s.a, k - 1, k - 1);
      assert order == Swap(s.t.order, k - 1, p) && order[k - 1] == s.t.order[p];
      UsedInOrder(a, k - 1);
    }
  }

  /** What a step does to the order of the rows. */
  lemma StepOrder(a: Matrix, k: nat, s: State)
    requires k < |a| && Reached(a, k, s) && NextState(a, k, s).Some?
    ensures var p := PivotRow(s.a, k, k);
            p < |a| && s.a[p][k] != 0 && NextState(a, k, s).value.t.order == Swap(s.t.order, k, p)
    ensures PivotRow(s.a, k, k) == k ==> NextState(a, k, s).value == Clear(s, k)
  {
    hide ReplayStep, RecordColumn, Replay, Place;
  }

  /** One more step without a swap: exactly when the entry on the diagonal is not zero. */
  lemma UnmovedStep(a: Matrix, k: nat)
    requires IsMatrix(a, |a|, |a|) && k < |a|
    ensures Unmoved(a, k + 1) <==> Unmoved(a, k) && Eliminated(a, k).value.a[k][k] != 0
    ensures Unmoved(a, k + 1) ==> Eliminated(a, k + 1).value.a == Clear(Eliminated(a, k).value, k).a
  {
    hide ReplayStep, RecordColumn, Replay, Place, Clear;
    if Eliminated(a, k).Some? {
      var s := Eliminated(a, k).value;
      if Unmoved(a, k + 1) {
        StepOrder(a, k, s);
        UsedInOrder(a, k);
      } else if s.a[k][k] != 0 {
        StepOrder(a, k, s);
      }
    }
  }

  lemma {:induction false} UnmovedBefore(a: Matrix, n: nat, k: nat)
    requires IsMatrix(a, |a|, |a|) && n <= k <= |a| && Unmoved(a, k)
    ensures Unmoved(a, n)
    decreases k
  {
    hide Unmoved;
    if n < k {
      UnmovedStep(a, k - 1);
      UnmovedBefore(a, n, k - 1);
    }
  }

  /** Clearing a column does the same to the leading square. */
  lemma ClearLeading(s: State, s': State, n: nat, k: nat)
    requires IsMatrix(s.a, |s.a|, |s.a|) && k < n <= |s.a| && s'.a == Leading(s.a, n) && s.a[k][k] != 0
    requires |s.t.scale| == |s.a| && IsMatrix(s.t.elim, |s.a|, |s.a|)
    requires |s'.t.scale| == n && IsMatrix(s'.t.elim, n, n)
    ensures Clear(s', k).a == Leading(Clear(s, k).a, n)
  {
    hide Add, Mul, Inverse;
    var inv := Inverse(s.a[k][k]);
    assert Scale(inv, s.a[k])[..n] == Scale(inv, s.a[k][..n]);
    forall i | 0 <= i < n
      ensures Clear(s', k).a[i] == Clear(s, k).a[i][..n]
    {
      if i != k {
        AddScaledPrefix(s.a[i], s.a[i][k], Scale(inv, s.a[k]), n);
      }
    }
  }

  lemma AddScaledPrefix(row: Row, f: Symbol, other: Row, n: nat)
    requires |row| == |other| && n <= |row|
    ensures AddRow(row, Scale(f, other))[..n] == AddRow(row[..n], Scale(f, other[..n]))
  {
    hide Add, Mul;
  }

  lemma StateSizes(a: Matrix, k: nat, s: State)
    requires Reached(a, k, s)
    ensures IsMatrix(s.a, |a|, |a|) && |s.t.scale| == |a| && IsMatrix(s.t.elim, |a|, |a|)
  {
  }

  /** As long as nothing is swapped, the leading square goes through the same steps. */
  lemma {:induction false} LeadingSteps(a: Matrix, n: nat, k: nat)
    requires IsMatrix(a, |a|, |a|) && k <= n <= |a|
    ensures Unmoved(Leading(a, n), k) <==> Unmoved(a, k)
    ensures Unmoved(a, k) ==> Eliminated(Leading(a, n), k).value.a == Leading(Eliminated(a, k).value.a, n)
  {
    hide Clear, Reached, NextState, InOrder;
    var b := Leading(a, n);
    if k == 0 {
      UnmovedStart(a);
      UnmovedStart(b);
    } else {
      LeadingSteps(a, n, k - 1);
      UnmovedStep(a, k - 1);
      UnmovedStep(b, k - 1);
      if Unmoved(a, k - 1) {
        var s, s' := Eliminated(a, k - 1).value, Eliminated(b, k - 1).value;
        StateSizes(a, k - 1, s);
        StateSizes(b, k - 1, s');
        assert s'.a[k - 1][k - 1] == s.a[k - 1][k - 1];
        if s.a[k - 1][k - 1] != 0 {
          ClearLeading(s, s', n, k - 1);
        }
      }
    }
  }

  /** The first step that would have to swap, if there is one. */
  lemma {:induction false} FirstSwap(a: Matrix, m: nat) returns (k: nat)
    requires IsMatrix(a, |a|, |a|) && m <= |a| && !Unmoved(a, m)
    ensures k < m && Unmoved(a, k) && Eliminated(a, k).value.a[k][k] == 0
  {
    hide NextState, Replay, Place;
    if Unmoved(a, m - 1) {
      k := m - 1;
      UnmovedStep(a, k);
    } else {
      k := FirstSwap(a, m - 1);
    }
  }

  /** If the diagonal entry is zero, the leading square up to it is singular. */
  lemma ZeroDiagonal(a: Matrix, k: nat)
    requires IsMatrix(a, |a|, |a|) && k < |a| && Unmoved(a, k) && Eliminated(a, k).value.a[k][k] == 0
    ensures !Nonsingular(Leading(a, k + 1))
  {
    hide Nonsingular, NextState, Replay, Place;
    var b := Leading(a, k + 1);
    LeadingSteps(a, k + 1, k);
    var s := Eliminated(b, k).value;
    assert s.a[k][k] == 0;
    assert NextState(b, k, s).None?;
    SucceedsExactly(b);
  }

  /** The transform exists and swaps no rows exactly when every leading square is nonsingular. */
  lemma NoSwapExactly(a: Matrix)
    requires IsMatrix(a, |a|, |a|)
    ensures TransformOf(a).Some? && InOrder(TransformOf(a).value.order) <==> LeadingNonsingular(a)
  {
    hide Nonsingular, Eliminated, Leading;
    if Unmoved(a, |a|) {
      forall n: nat | n <= |a|
        ensures Nonsingular(Leading(a, n))
      {
        UnmovedBefore(a, n, |a|);
        LeadingSteps(a, n, n);
        SucceedsExactly(Leading(a, n));
      }
    } else {
      var k := FirstSwap(a, |a|);
      ZeroDiagonal(a, k);
    }
  }

  // ----- the codec

  /** The transform exists, and no swap does harm: there is none, or there is no present block to add. */
  ghost predicate Restorable(a: Matrix, present: seq<nat>)
    requires IsMatrix(a, |a|, |a|)
  {
    LeadingNonsingular(a) || (present == [] && Nonsingular(a))
  }

  lemma RestorableExactly(a: Matrix, present: seq<nat>)
    requires IsMatrix(a, |a|, |a|)
    ensures TransformOf(a).Some? && (InOrder(TransformOf(a).value.order) || present == []) <==> Restorable(a, present)
    ensures TransformOf(a).Some? <==> Nonsingular(a)
  {
    hide Nonsingular, LeadingNonsingular, TransformOf;
    NoSwapExactly(a);
    SucceedsExactly(a);
  }

  /** Consecutive exponents: restorable, and not singular, exactly when no two missing blocks have the same constant. */
  lemma ConsecutiveRestorable(n: nat, missing: seq<nat>, s: nat, present: seq<nat>)
    requires IndicesBelow(missing, n)
    ensures var a := PowerMatrix(Select(FirstConstants(n), missing), Consecutive(s, |missing|));
            (Restorable(a, present) <==> DistinctResidues(missing)) && (Nonsingular(a) <==> DistinctResidues(missing))
  {
    hide Nonsingular, LeadingNonsingular, TransformOf, DistinctResidues, Restorable, InOrder;
    TransformExists(n, missing, s);
    RestorableExactly(PowerMatrix(Select(FirstConstants(n), missing), Consecutive(s, |missing|)), present);
  }

  /**
   Whether the missing blocks can be restored at all, and whether the code restores them for all
   data, from the constants of the missing blocks and the exponents alone.
   */
  lemma RestoredAllExactly(tr: ReconstructionTransform, n: nat, w: nat, missing: seq<nat>, present: seq<nat>,
                           exponents: seq<nat>)
    requires IsTransform(tr, FirstConstants(n), missing, present, exponents) && WellFormed(tr.record, |missing|)
    requires Partition(missing, present, n) && w > 0
    ensures (forall blocks: Matrix :: IsMatrix(blocks, n, w) ==>
              RestoredRows(tr, RecoveryRows(FirstConstants(n), exponents, blocks, w), Select(blocks, present), w)
                == Select(blocks, missing))
            <==> Restorable(PowerMatrix(Select(FirstConstants(n), missing), exponents), present)
  {
    hide Partition, RestoredRows, RecoveryRows, TransformOf, FirstConstants, WellFormed, PowerMatrix, Restorable,
         InOrder, Nonsingular;
    OrderMatters(tr, n, w, missing, present, exponents);
    RestorableExactly(PowerMatrix(Select(FirstConstants(n), missing), exponents), present);
  }
}
