/**
 The scalar multiply and multiply-add loops of src/galois/scalar.rs: the reference that the
 SIMD forms are proved equal to.  Slices are arrays updated in place.
 */
module Scalar {
  import opened GaloisField
  import opened GaloisTables
  import opened LinearAlgebra

  /** dst[i] ^ src[i] * f as far as both rows reach, as the source's zip. */
  function MulAdd(dst: Row, src: Row, f: Symbol): (r: Row)
    ensures |r| == |dst|
  {
    seq(|dst|, i requires 0 <= i < |dst| => if i < |src| then Add(dst[i], Mul(src[i], f)) else dst[i])
  }

  lemma MulAddSameLength(dst: Row, src: Row, f: Symbol)
    requires |dst| == |src|
    ensures MulAdd(dst, src, f) == AddRow(dst, Scale(f, src))
  {
    hide Add, Mul;
  }

  /** A zero factor changes nothing. */
  lemma MulAddZero(dst: Row, src: Row)
    ensures MulAdd(dst, src, 0) == dst
  {
    hide Add, Mul;
    forall i | 0 <= i < |dst| && i < |src|
      ensures Add(dst[i], Mul(src[i], 0)) == dst[i]
    {
      MulZero(src[i]);
      AddZero(dst[i]);
    }
  }

  method GfMulSlice(t: Tables, scalar: Symbol, data: array<Symbol>)
    requires t.Valid()
    modifies data
    ensures data[..] == Scale(scalar, old(data[..]))
  {
    hide Mul;
    for i := 0 to data.Length
      invariant forall k :: 0 <= k < i ==> data[k] == Mul(old(data[k]), scalar)
      invariant forall k :: i <= k < data.Length ==> data[k] == old(data[k])
    {
      data[i] := t.GfMul(data[i], scalar);
    }
  }

  method GfMuladd(t: Tables, dst: array<Symbol>, src: array<Symbol>, scalar: Symbol)
    requires t.Valid() && dst != src
    modifies dst
    ensures dst[..] == MulAdd(old(dst[..]), src[..], scalar)
  {
    hide Mul, Add;
    var len := if dst.Length < src.Length then dst.Length else src.Length;
    for i := 0 to len
      invariant forall k :: 0 <= k < i ==> dst[k] == Add(old(dst[k]), Mul(src[k], scalar))
      invariant forall k :: i <= k < dst.Length ==> dst[k] == old(dst[k])
    {
      dst[i] := Add(dst[i], t.GfMul(src[i], scalar));
    }
  }
}
