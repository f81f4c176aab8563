/**
 Gauss-Jordan elimination that records what it does, and the replay of the record on
 data (src/par2_rs.rs).  `Eliminated` and `Replay` are the specification; the methods of
 `Reconstruction` are proved against them.

 The main results: the recorded elimination is a two-sided solver, row swaps included
 (`ReplaySolves`, `ReplayIsSolution`), and it succeeds exactly for the matrices that
 determine the solution (`FailsOnSingular`).
 */
module Elimination {
  import opened GaloisField
  import opened Options
  import opened Primitive
  import opened LinearAlgebra

  /** The record: `order` says which original row sits in which place. */
  datatype Transform = Transform(order: seq<nat>, scale: Row, elim: Matrix)

  datatype State = State(a: Matrix, t: Transform)

  function Swap<T>(s: seq<T>, p: nat, q: nat): (r: seq<T>)
    requires p < |s| && q < |s|
    ensures |r| == |s|
    ensures r[p] == s[q] && r[q] == s[p]
    ensures forall i :: 0 <= i < |s| && i != p && i != q ==> r[i] == s[i]
  {
    s[p := s[q]][q := s[p]]
  }

  // ----- replaying

  ghost predicate WellFormed(t: Transform, m: nat) {
    && |t.order| == m
    && (forall i :: 0 <= i < m ==> t.order[i] < m)
    && (forall i, j :: 0 <= i < j < m ==> t.order[i] != t.order[j])
    && (forall i: nat :: i < m ==> i in t.order)
    && |t.scale| == m
    && (forall i :: 0 <= i < m ==> t.scale[i] != 0)
    && IsMatrix(t.elim, m, m)
  }

  /** Puts each original row where the elimination moved it. */
  function Place(order: seq<nat>, b: Matrix): (v: Matrix)
    requires |order| == |b|
    requires forall i :: 0 <= i < |order| ==> order[i] < |b|
    ensures |v| == |b|
  {
    seq(|b|, p requires 0 <= p < |b| => b[order[p]])
  }

  /** Step k: divide row k by its pivot, and clear column k from the other rows. */
  ghost function ReplayStep(k: nat, scale: Row, elim: Matrix, v: Matrix, w: nat): (r: Matrix)
    requires k < |v| && IsMatrix(v, |v|, w)
    requires |scale| == |v| && IsMatrix(elim, |v|, |v|)
    requires scale[k] != 0
    ensures IsMatrix(r, |v|, w)
  {
    var p := Scale(Inverse(scale[k]), v[k]);
    seq(|v|, i requires 0 <= i < |v| => if i == k then p else AddRow(v[i], Scale(elim[i][k], p)))
  }

  /** The first n steps. */
  ghost function Replay(n: nat, scale: Row, elim: Matrix, v: Matrix, w: nat): (r: Matrix)
    requires n <= |v| && IsMatrix(v, |v|, w)
    requires |scale| == |v| && IsMatrix(elim, |v|, |v|)
    requires forall i :: 0 <= i < n ==> scale[i] != 0
    ensures IsMatrix(r, |v|, w)
  {
    if n == 0 then v else ReplayStep(n - 1, scale, elim, Replay(n - 1, scale, elim, v, w), w)
  }

  /** The whole replay: place the right-hand side, then repeat every step. */
  ghost function Solve(t: Transform, b: Matrix, w: nat): (r: Matrix)
    requires WellFormed(t, |b|) && IsMatrix(b, |b|, w)
    ensures IsMatrix(r, |b|, w)
  {
    Replay(|b|, t.scale, t.elim, Place(t.order, b), w)
  }

  // ----- eliminating

  /** The first row from r on with a nonzero entry in column k, or the number of rows. */
  function PivotRow(a: Matrix, k: nat, r: nat): (p: nat)
    requires IsMatrix(a, |a|, |a|) && k < |a| && r <= |a|
    ensures r <= p <= |a|
    ensures p < |a| ==> a[p][k] != 0
    ensures forall i :: r <= i < p ==> a[i][k] == 0
    decreases |a| - r
  {
    if r == |a| || a[r][k] != 0 then r else PivotRow(a, k, r + 1)
  }

  function SwapRows(s: State, k: nat, p: nat): State
    requires k < |s.a| && p < |s.a|
    requires |s.t.order| == |s.t.scale| == |s.t.elim| == |s.a|
  {
    State(Swap(s.a, k, p), Transform(Swap(s.t.order, k, p), Swap(s.t.scale, k, p), Swap(s.t.elim, k, p)))
  }

  function RecordColumn(elim: Matrix, a: Matrix, k: nat): (r: Matrix)
    requires IsMatrix(a, |a|, |a|) && IsMatrix(elim, |a|, |a|) && k < |a|
    ensures IsMatrix(r, |a|, |a|)
  {
    seq(|a|, i requires 0 <= i < |a| => if i == k then elim[i] else elim[i][k := a[i][k]])
  }

  /** Clears column k, whose pivot is in place, and records the factors. */
  ghost function Clear(s: State, k: nat): State
    requires IsMatrix(s.a, |s.a|, |s.a|) && k < |s.a| && s.a[k][k] != 0
    requires |s.t.scale| == |s.a| && IsMatrix(s.t.elim, |s.a|, |s.a|)
  {
    var scale := s.t.scale[k := s.a[k][k]];
    var elim := RecordColumn(s.t.elim, s.a, k);
    State(ReplayStep(k, scale, elim, s.a, |s.a|), Transform(s.t.order, scale, elim))
  }

  function Start(a: Matrix): State {
    State(a, Transform(seq(|a|, i => i), seq(|a|, i => 1), seq(|a|, i => ZeroRow(|a|))))
  }

  /** The state s is reached from matrix a after k steps. */
  ghost predicate Reached(a: Matrix, k: nat, s: State) {
    && IsMatrix(a, |a|, |a|) && k <= |a|
    && IsMatrix(s.a, |a|, |a|)
    && WellFormed(s.t, |a|)
    && s.a == Replay(k, s.t.scale, s.t.elim, Place(s.t.order, a), |a|)
    && (forall i, j :: 0 <= i < |a| && 0 <= j < k ==> s.a[i][j] == if i == j then 1 else 0)
  }

  // ----- a replay depends only on the recorded part, and commutes with later swaps

  lemma {:induction false} ReplayFrame(n: nat, scale: Row, elim: Matrix, scale': Row, elim': Matrix, v: Matrix, w: nat)
    requires n <= |v| && IsMatrix(v, |v|, w)
    requires |scale| == |scale'| == |v| && IsMatrix(elim, |v|, |v|) && IsMatrix(elim', |v|, |v|)
    requires forall i :: 0 <= i < n ==> scale[i] == scale'[i] != 0
    requires forall i, j :: 0 <= i < |v| && 0 <= j < n ==> elim[i][j] == elim'[i][j]
    ensures Replay(n, scale, elim, v, w) == Replay(n, scale', elim', v, w)
  {
    hide AddRow, Scale, Inverse;
    if n != 0 {
      ReplayFrame(n - 1, scale, elim, scale', elim', v, w);
    }
  }

  lemma ReplayStepSwap(k: nat, scale: Row, elim: Matrix, v: Matrix, w: nat, p: nat, q: nat)
    requires k < p < |v| && k < q < |v| && IsMatrix(v, |v|, w)
    requires |scale| == |v| && IsMatrix(elim, |v|, |v|) && scale[k] != 0
    ensures ReplayStep(k, scale, Swap(elim, p, q), Swap(v, p, q), w) == Swap(ReplayStep(k, scale, elim, v, w), p, q)
  {
    hide AddRow, Scale, Inverse;
  }

  lemma {:induction false} ReplaySwap(n: nat, scale: Row, elim: Matrix, v: Matrix, w: nat, p: nat, q: nat)
    requires n <= p < |v| && n <= q < |v| && IsMatrix(v, |v|, w)
    requires |scale| == |v| && IsMatrix(elim, |v|, |v|)
    requires forall i :: 0 <= i < n ==> scale[i] != 0
    ensures Replay(n, scale, Swap(elim, p, q), Swap(v, p, q), w) == Swap(Replay(n, scale, elim, v, w), p, q)
  {
    hide ReplayStep, Swap;
    if n != 0 {
      ReplaySwap(n - 1, scale, elim, v, w, p, q);
      ReplayStepSwap(n - 1, scale, elim, Replay(n - 1, scale, elim, v, w), w, p, q);
    }
  }

  lemma PlaceSwap(order: seq<nat>, b: Matrix, p: nat, q: nat)
    requires |order| == |b| && p < |b| && q < |b|
    requires forall i :: 0 <= i < |order| ==> order[i] < |b|
    ensures Place(Swap(order, p, q), b) == Swap(Place(order, b), p, q)
  {
  }

  // ----- every step keeps the connection between the matrix and the record

  lemma StartReached(a: Matrix)
    requires IsMatrix(a, |a|, |a|)
    ensures Reached(a, 0, Start(a))
  {
    var s := Start(a);
    forall i: nat | i < |a|
      ensures i in s.t.order
    {
      assert s.t.order[i] == i;
    }
    assert Place(s.t.order, a) == a;
  }

  lemma SwapWellFormed(t: Transform, m: nat, k: nat, p: nat)
    requires WellFormed(t, m) && k < m && p < m
    ensures WellFormed(Transform(Swap(t.order, k, p), Swap(t.scale, k, p), Swap(t.elim, k, p)), m)
  {
    forall i: nat | i < m
      ensures i in Swap(t.order, k, p)
    {
      assert i in t.order;
      var j :| 0 <= j < m && t.order[j] == i;
      assert Swap(t.order, k, p)[if j == k then p else if j == p then k else j] == i;
    }
  }

  lemma SwapReached(a: Matrix, k: nat, s: State, p: nat)
    requires Reached(a, k, s) && k < p < |a|
    ensures Reached(a, k, SwapRows(s, k, p))
  {
    hide AddRow, Scale, Inverse;
    var t, t' := s.t, SwapRows(s, k, p).t;
    SwapWellFormed(t, |a|, k, p);
    PlaceSwap(t.order, a, k, p);
    hide ReplayStep, Place, Swap, Replay;
    ReplayFrame(k, t'.scale, t'.elim, t.scale, t'.elim, Place(t'.order, a), |a|);
    ReplaySwap(k, t.scale, t.elim, Place(t.order, a), |a|, k, p);
  }

  lemma ClearReplay(a: Matrix, k: nat, s: State)
    requires Reached(a, k, s) && k < |a| && s.a[k][k] != 0
    ensures var s' := Clear(s, k);
            WellFormed(s'.t, |a|) && s'.a == Replay(k + 1, s'.t.scale, s'.t.elim, Place(s'.t.order, a), |a|)
  {
    hide AddRow, Scale, Inverse, ReplayStep;
    var t, t' := s.t, Clear(s, k).t;
    ReplayFrame(k, t.scale, t.elim, t'.scale, t'.elim, Place(t.order, a), |a|);
  }

  /** After step k, column k is a unit column, and the columns before it still are. */
  lemma ClearColumn(s: State, k: nat, i: nat, j: nat)
    requires IsMatrix(s.a, |s.a|, |s.a|) && i < |s.a| && j <= k < |s.a| && s.a[k][k] != 0
    requires |s.t.scale| == |s.a| && IsMatrix(s.t.elim, |s.a|, |s.a|)
    requires j < k ==> s.a[k][j] == 0 && s.a[i][j] == if i == j then 1 else 0
    ensures Clear(s, k).a[i][j] == if i == j then 1 else 0
  {
    var inv := Inverse(s.a[k][k]);
    InverseMul(s.a[k][k]);
    hide Add, Mul, Inverse;
    var f := s.a[i][k];
    var p := Scale(inv, s.a[k]);
    var elim := RecordColumn(s.t.elim, s.a, k);
    assert p[j] == if j == k then 1 else 0 by {
      MulZero(inv);
    }
    if i != k {
      assert elim[i][k] == f;
      assert AddRow(s.a[i], Scale(f, p))[j] == Add(s.a[i][j], Mul(p[j], f));
      MulOne(f);
      MulZero(f);
      AddZero(s.a[i][j]);
    }
    hide Scale, AddRow, RecordColumn;
  }

  lemma ClearReached(a: Matrix, k: nat, s: State)
    requires Reached(a, k, s) && k < |a| && s.a[k][k] != 0
    ensures Reached(a, k + 1, Clear(s, k))
  {
    ClearReplay(a, k, s);
    hide Replay, Clear;
    var s' := Clear(s, k);
    assert IsMatrix(s'.a, |a|, |a|);
    forall i, j | 0 <= i < |a| && 0 <= j < k + 1
      ensures s'.a[i][j] == if i == j then 1 else 0
    {
      ClearColumn(s, k, i, j);
    }
  }

  // ----- the whole elimination

  /** The state after k steps, or None if some step finds no pivot. */
  ghost function Eliminated(a: Matrix, k: nat): (r: Option<State>)
    requires IsMatrix(a, |a|, |a|) && k <= |a|
    ensures r.Some? ==> Reached(a, k, r.value)
  {
    if k == 0 then Some(Begun(a)) else StepTo(a, k, Eliminated(a, k - 1))
  }

  ghost function StepTo(a: Matrix, k: nat, before: Option<State>): (r: Option<State>)
    requires 0 < k <= |a| && (before.Some? ==> Reached(a, k - 1, before.value))
    ensures r.Some? ==> Reached(a, k, r.value)
  {
    if before.None? then None else NextState(a, k - 1, before.value)
  }

  ghost function Begun(a: Matrix): (s: State)
    requires IsMatrix(a, |a|, |a|)
    ensures s == Start(a) && Reached(a, 0, s)
  {
    StartReached(a);
    Start(a)
  }

  /** Finds a pivot for column k, swaps its row into place if needed, and clears the column. */
  ghost function NextState(a: Matrix, k: nat, s: State): (r: Option<State>)
    requires k < |a| && Reached(a, k, s)
    ensures r.Some? ==> Reached(a, k + 1, r.value)
    ensures r.None? <==> forall i :: k <= i < |a| ==> s.a[i][k] == 0
  {
    var p := PivotRow(s.a, k, k);
    if p == |a| then None
    else if p == k then
      ClearReached(a, k, s);
      Some(Clear(s, k))
    else
      SwapReached(a, k, s, p);
      var s' := SwapRows(s, k, p);
      ClearReached(a, k, s');
      Some(Clear(s', k))
  }

  /** The transform of a matrix, None when the source reports it singular. */
  ghost function TransformOf(a: Matrix): (r: Option<Transform>)
    requires IsMatrix(a, |a|, |a|)
    ensures r.Some? ==> WellFormed(r.value, |a|)
  {
    match Eliminated(a, |a|)
    case None => None
    case Some(s) => Some(s.t)
  }

  // ----- replay is linear and loses nothing

  lemma ReplayStepMultiply(k: nat, scale: Row, elim: Matrix, v: Matrix, x: Matrix, w: nat)
    requires k < |v| && IsMatrix(v, |v|, |x|) && IsMatrix(x, |x|, w)
    requires |scale| == |v| && IsMatrix(elim, |v|, |v|) && scale[k] != 0
    ensures ReplayStep(k, scale, elim, Multiply(v, x, w), w) == Multiply(ReplayStep(k, scale, elim, v, |x|), x, w)
  {
    hide AddRow, Scale, Inverse, Combine;
    var inv := Inverse(scale[k]);
    var p := Scale(inv, v[k]);
    CombineScale(inv, v[k], x, w);
    forall i | 0 <= i < |v|
      ensures Combine(AddRow(v[i], Scale(elim[i][k], p)), x, w)
           == AddRow(Combine(v[i], x, w), Scale(elim[i][k], Combine(p, x, w)))
    {
      CombineAdd(v[i], Scale(elim[i][k], p), x, w);
      CombineScale(elim[i][k], p, x, w);
    }
  }

  /** Replaying on a product is the product of the replay. */
  lemma {:induction false} ReplayMultiply(n: nat, scale: Row, elim: Matrix, v: Matrix, x: Matrix, w: nat)
    requires n <= |v| && IsMatrix(v, |v|, |x|) && IsMatrix(x, |x|, w)
    requires |scale| == |v| && IsMatrix(elim, |v|, |v|)
    requires forall i :: 0 <= i < n ==> scale[i] != 0
    ensures Replay(n, scale, elim, Multiply(v, x, w), w) == Multiply(Replay(n, scale, elim, v, |x|), x, w)
  {
    hide ReplayStep, Multiply;
    if n != 0 {
      ReplayMultiply(n - 1, scale, elim, v, x, w);
      ReplayStepMultiply(n - 1, scale, elim, Replay(n - 1, scale, elim, v, |x|), x, w);
    }
  }

  lemma ReplayStepInjective(k: nat, scale: Row, elim: Matrix, u: Matrix, v: Matrix, w: nat)
    requires |u| == |v| && k < |v| && IsMatrix(u, |v|, w) && IsMatrix(v, |v|, w)
    requires |scale| == |v| && IsMatrix(elim, |v|, |v|) && scale[k] != 0
    requires ReplayStep(k, scale, elim, u, w) == ReplayStep(k, scale, elim, v, w)
    ensures u == v
  {
    hide AddRow, Scale, Inverse;
    var ru, rv := ReplayStep(k, scale, elim, u, w), ReplayStep(k, scale, elim, v, w);
    assert ru[k] == rv[k];
    ScaleInverse(scale[k], u[k]);
    ScaleInverse(scale[k], v[k]);
    forall i | 0 <= i < |v|
      ensures u[i] == v[i]
    {
      assert ru[i] == rv[i];
      if i != k {
        AddRowCancel(u[i], v[i], Scale(elim[i][k], ru[k]));
      }
    }
  }

  lemma ScaleInverse(f: Symbol, a: Row)
    requires f != 0
    ensures Scale(f, Scale(Inverse(f), a)) == a
  {
    hide Scale, Inverse, Mul;
    ScaleScale(f, Inverse(f), a);
    InverseMul(f);
    ScaleZero(1, a);
  }

  lemma {:induction false} ReplayInjective(n: nat, scale: Row, elim: Matrix, u: Matrix, v: Matrix, w: nat)
    requires |u| == |v| && n <= |v| && IsMatrix(u, |v|, w) && IsMatrix(v, |v|, w)
    requires |scale| == |v| && IsMatrix(elim, |v|, |v|)
    requires forall i :: 0 <= i < n ==> scale[i] != 0
    requires Replay(n, scale, elim, u, w) == Replay(n, scale, elim, v, w)
    ensures u == v
  {
    hide ReplayStep;
    if n != 0 {
      ReplayStepInjective(n - 1, scale, elim, Replay(n - 1, scale, elim, u, w), Replay(n - 1, scale, elim, v, w), w);
      ReplayInjective(n - 1, scale, elim, u, v, w);
    }
  }

  lemma PlaceInjective(t: Transform, b: Matrix, c: Matrix)
    requires |b| == |c| && WellFormed(t, |b|) && Place(t.order, b) == Place(t.order, c)
    ensures b == c
  {
    forall i: nat | i < |b|
      ensures b[i] == c[i]
    {
      assert i in t.order;
      var p :| 0 <= p < |b| && t.order[p] == i;
      assert Place(t.order, b)[p] == b[i] && Place(t.order, c)[p] == c[i];
    }
  }

  lemma SolveInjective(t: Transform, b: Matrix, c: Matrix, w: nat)
    requires |b| == |c| && WellFormed(t, |b|) && IsMatrix(b, |b|, w) && IsMatrix(c, |c|, w)
    requires Solve(t, b, w) == Solve(t, c, w)
    ensures b == c
  {
    hide Replay;
    ReplayInjective(|b|, t.scale, t.elim, Place(t.order, b), Place(t.order, c), w);
    PlaceInjective(t, b, c);
  }

  // ----- main results

  lemma MultiplyIdentity(a: Matrix, x: Matrix, w: nat)
    requires IsIdentity(a, |x|) && IsMatrix(x, |x|, w)
    ensures Multiply(a, x, w) == x
  {
    hide Combine;
    forall i | 0 <= i < |x|
      ensures Combine(a[i], x, w) == x[i]
    {
      CombineUnit(|x|, i, x, w);
    }
  }

  lemma PlaceMultiply(order: seq<nat>, a: Matrix, x: Matrix, w: nat)
    requires |order| == |a| && IsMatrix(a, |a|, |x|) && IsMatrix(x, |x|, w)
    requires forall i :: 0 <= i < |order| ==> order[i] < |a|
    ensures Place(order, Multiply(a, x, w)) == Multiply(Place(order, a), x, w)
  {
    hide Combine;
  }

  /** Replaying on the right-hand side a * x yields x, for every x. */
  lemma ReplaySolves(a: Matrix, x: Matrix, w: nat)
    requires |x| == |a| && IsMatrix(a, |a|, |a|) && IsMatrix(x, |a|, w)
    requires TransformOf(a).Some?
    ensures Solve(TransformOf(a).value, Multiply(a, x, w), w) == x
  {
    hide Replay, Multiply;
    var s := Eliminated(a, |a|).value;
    PlaceMultiply(s.t.order, a, x, w);
    ReplayMultiply(|a|, s.t.scale, s.t.elim, Place(s.t.order, a), x, w);
    assert IsIdentity(s.a, |a|) by {
      forall i | 0 <= i < |a|
        ensures s.a[i] == UnitRow(|a|, i)
      {
      }
    }
    MultiplyIdentity(s.a, x, w);
  }

  /** Whatever the right-hand side b, the replay yields a solution of a * x = b. */
  lemma ReplayIsSolution(a: Matrix, b: Matrix, w: nat)
    requires |b| == |a| && IsMatrix(a, |a|, |a|) && IsMatrix(b, |a|, w)
    requires TransformOf(a).Some?
    ensures Multiply(a, Solve(TransformOf(a).value, b, w), w) == b
  {
    hide Replay, Multiply, Solve;
    var t := TransformOf(a).value;
    var x := Solve(t, b, w);
    ReplaySolves(a, x, w);
    SolveInjective(t, Multiply(a, x, w), b, w);
  }

  // ----- the elimination fails only on matrices that do not determine the solution

  lemma {:induction false} ReplayZero(n: nat, scale: Row, elim: Matrix, m: nat, w: nat)
    requires n <= m && |scale| == m && IsMatrix(elim, m, m)
    requires forall i :: 0 <= i < n ==> scale[i] != 0
    ensures Replay(n, scale, elim, ZeroMatrix(m, w), w) == ZeroMatrix(m, w)
  {
    hide AddRow, Scale, Inverse;
    if n != 0 {
      ReplayZero(n - 1, scale, elim, m, w);
      var zero := ZeroRow(w);
      ScaleZero(Inverse(scale[n - 1]), zero);
      forall i | 0 <= i < m
        ensures AddRow(zero, Scale(elim[i][n - 1], zero)) == zero
      {
        ScaleZero(elim[i][n - 1], zero);
        AddRowZero(zero);
      }
    }
  }

  /** A column vector that the matrix of a state with no pivot in column k maps to zero. */
  function Kernel(a: Matrix, k: nat): (x: Matrix)
    requires IsMatrix(a, |a|, |a|) && k < |a|
    ensures IsMatrix(x, |a|, 1)
  {
    seq(k, j requires 0 <= j < k => [a[j][k]]) + [[1]] + ZeroMatrix(|a| - k - 1, 1)
  }

  lemma KernelRow(a: Matrix, k: nat, i: nat)
    requires IsMatrix(a, |a|, |a|) && k < |a| && i < |a|
    requires forall j :: 0 <= j < k ==> a[i][j] == if i == j then 1 else 0
    requires k <= i ==> a[i][k] == 0
    ensures Combine(a[i], Kernel(a, k), 1) == ZeroRow(1)
  {
    hide Add, Mul, Combine, AddRow, Scale;
    var x := Kernel(a, k);
    var c, d, e := a[i][..k], [a[i][k]], a[i][k + 1..];
    assert a[i] == c + d + e && x == x[..k] + [[1]] + ZeroMatrix(|a| - k - 1, 1);
    CombineSplit(c + d, e, x[..k] + [[1]], ZeroMatrix(|a| - k - 1, 1), 1);
    CombineSplit(c, d, x[..k], [[1]], 1);
    CombineOfZeros(e, 1);
    CombineOne(a[i][k], 1);
    if i < k {
      assert c == UnitRow(k, i);
      CombineUnit(k, i, x[..k], 1);
      assert x[i] == [a[i][k]];
    } else {
      assert c == ZeroRow(k);
      CombineZero(c, x[..k], 1);
      assert ZeroRow(1) == [0];
    }
    AddRowZero([a[i][k]]);
    AddRowZero(ZeroRow(1));
  }

  lemma CombineOne(f: Symbol, g: Symbol)
    ensures Combine([f], [[g]], 1) == [Mul(g, f)]
    ensures Mul(1, f) == f
  {
    hide Add, Mul;
    assert [f][..0] == [];
    AddZero(Mul(g, f));
    MulOne(f);
  }

  /** Some step of a failing elimination is reached and finds no pivot. */
  lemma {:induction false} FailingStep(a: Matrix, n: nat) returns (k: nat, s: State)
    requires IsMatrix(a, |a|, |a|) && n <= |a| && Eliminated(a, n).None?
    ensures k < n && Reached(a, k, s)
    ensures forall i :: k <= i < |a| ==> s.a[i][k] == 0
  {
    hide NextState, Replay, WellFormed, Place;
    if Eliminated(a, n - 1).None? {
      k, s := FailingStep(a, n - 1);
    } else {
      k, s := n - 1, Eliminated(a, n - 1).value;
    }
  }

  /** "Singular matrix" is reported only when a nonzero x has a * x = 0. */
  lemma FailsOnSingular(a: Matrix) returns (x: Matrix)
    requires IsMatrix(a, |a|, |a|) && TransformOf(a).None?
    ensures IsMatrix(x, |a|, 1) && x != ZeroMatrix(|a|, 1)
    ensures Multiply(a, x, 1) == ZeroMatrix(|a|, 1)
  {
    hide Replay, Combine;
    var k, s := FailingStep(a, |a|);
    x := Kernel(s.a, k);
    assert x[k] == [1] && ZeroMatrix(|a|, 1)[k] == [0];
    assert Multiply(s.a, x, 1) == ZeroMatrix(|a|, 1) by {
      forall i | 0 <= i < |a|
        ensures Combine(s.a[i], x, 1) == ZeroRow(1)
      {
        KernelRow(s.a, k, i);
      }
    }
    hide Multiply;
    var t := s.t;
    PlaceMultiply(t.order, a, x, 1);
    ReplayMultiply(k, t.scale, t.elim, Place(t.order, a), x, 1);
    ReplayZero(k, t.scale, t.elim, |a|, 1);
    ReplayInjective(k, t.scale, t.elim, Place(t.order, Multiply(a, x, 1)), ZeroMatrix(|a|, 1), 1);
    PlaceInjective(t, Multiply(a, x, 1), ZeroMatrix(|a|, 1));
  }
}
