/**
 Plain encoding (`Par2ReedSolomon::encode`, src/par2_rs.rs): recovery block e is the
 combination of the data blocks with each constant raised to e.
 */
module Encoding {
  import opened GaloisField
  import opened Primitive
  import opened GaloisTables
  import opened LinearAlgebra
  import opened Vandermonde
  import opened Scalar
  import opened Bytes

  datatype Error =
    | WrongBlockCount | OddBlockSize | BlockSizeMismatch
    | OddChunkSize | ChunkTooLarge
    | NothingMissing | TooFewRecoveryBlocks | SingularMatrix | ReadFailed

  datatype Result<+T> = Ok(value: T) | Err(error: Error)

  /** A recovery block: its exponent and its bytes. */
  datatype Recovery = Recovery(exponent: nat, data: seq<Byte>)

  /** The recovery block of exponent e, on symbols. */
  function RecoveryRow(constants: Row, e: nat, blocks: Matrix, w: nat): (r: Row)
    requires IsMatrix(blocks, |constants|, w)
    ensures |r| == w
  {
    Combine(PowerRow(constants, e), blocks, w)
  }

  function AllSymbols(blocks: seq<seq<Byte>>): (r: Matrix)
    ensures |r| == |blocks| && forall i :: 0 <= i < |r| ==> |r[i]| == |blocks[i]| / 2
  {
    seq(|blocks|, i requires 0 <= i < |blocks| => ToSymbols(blocks[i]))
  }

  /** Every block has blockSize bytes. */
  predicate Uniform(blocks: seq<seq<Byte>>, blockSize: nat) {
    forall i :: 0 <= i < |blocks| ==> |blocks[i]| == blockSize
  }

  /** The recovery blocks of exponents 0 up to count - 1. */
  function Encoded(constants: Row, blocks: seq<seq<Byte>>, count: nat, blockSize: nat): (r: seq<Recovery>)
    requires |blocks| == |constants| && Uniform(blocks, blockSize)
    ensures |r| == count
  {
    seq(count, e requires 0 <= e => Recovery(e, ToBytes(RecoveryRow(constants, e, AllSymbols(blocks), blockSize / 2))))
  }

  /** What encode answers, errors first to last as the source checks them. */
  function EncodeResult(constants: Row, blocks: seq<seq<Byte>>, count: nat, blockSize: nat): (r: Result<seq<Recovery>>)
    ensures r.Ok? <==> |blocks| == |constants| && blockSize % 2 == 0 && Uniform(blocks, blockSize)
  {
    if |blocks| != |constants| then Err(WrongBlockCount)
    else if blockSize % 2 != 0 then Err(OddBlockSize)
    else if !Uniform(blocks, blockSize) then Err(BlockSizeMismatch)
    else Ok(Encoded(constants, blocks, count, blockSize))
  }

  /** The first count powers of a, each from the one before. */
  method PowersOf(t: Tables, base: Symbol, count: nat) returns (coeffs: Row)
    requires t.Valid()
    ensures |coeffs| == count && forall e :: 0 <= e < count ==> coeffs[e] == Pow(base, e)
  {
    hide Mul, Tables.Valid;
    coeffs := [];
    var coeff: Symbol := 1;
    for e := 0 to count
      invariant |coeffs| == e && coeff == Pow(base, e)
      invariant forall i :: 0 <= i < e ==> coeffs[i] == Pow(base, i)
    {
      MulComm(Pow(base, e), base);
      coeffs := coeffs + [coeff];
      coeff := t.GfMul(coeff, base);
    }
  }

  /** coeff_matrix[data][recovery]: the constant of a data block raised to the exponent of a recovery block. */
  ghost predicate IsCoeffMatrix(coeffs: Matrix, constants: Row, count: nat) {
    && IsMatrix(coeffs, |constants|, count)
    && forall d, e :: 0 <= d < |constants| && 0 <= e < count ==> coeffs[d][e] == Pow(constants[d], e)
  }

  method CoeffMatrix(t: Tables, constants: Row, count: nat) returns (coeffs: Matrix)
    requires t.Valid()
    ensures IsCoeffMatrix(coeffs, constants, count)
  {
    hide Pow, Tables.Valid;
    coeffs := [];
    for d := 0 to |constants|
      invariant IsMatrix(coeffs, d, count)
      invariant forall i, e :: 0 <= i < d && 0 <= e < count ==> coeffs[i][e] == Pow(constants[i], e)
    {
      var row := PowersOf(t, constants[d], count);
      coeffs := coeffs + [row];
    }
  }

  /** The sum over the first d data blocks. */
  function PartialRecovery(constants: Row, e: nat, blocks: Matrix, w: nat, d: nat): (r: Row)
    requires IsMatrix(blocks, |constants|, w) && d <= |constants|
    ensures |r| == w
  {
    RecoveryRow(constants[..d], e, blocks[..d], w)
  }

  lemma PartialRecoveryNext(constants: Row, e: nat, blocks: Matrix, w: nat, d: nat)
    requires IsMatrix(blocks, |constants|, w) && d < |constants|
    ensures PartialRecovery(constants, e, blocks, w, 0) == ZeroRow(w)
    ensures PartialRecovery(constants, e, blocks, w, d + 1)
         == MulAdd(PartialRecovery(constants, e, blocks, w, d), blocks[d], Pow(constants[d], e))
  {
    hide AddRow, Scale, Pow, MulAdd;
    var c := PowerRow(constants[..d], e);
    assert PowerRow(constants[..d + 1], e) == c + [Pow(constants[d], e)];
    assert blocks[..d + 1] == blocks[..d] + [blocks[d]];
    CombineAppend(c, Pow(constants[d], e), blocks[..d], blocks[d], blocks[..d + 1], w);
    MulAddSameLength(Combine(c, blocks[..d], w), blocks[d], Pow(constants[d], e));
  }

  lemma PartialRecoveryAll(constants: Row, e: nat, blocks: Matrix, w: nat)
    requires IsMatrix(blocks, |constants|, w)
    ensures PartialRecovery(constants, e, blocks, w, 0) == ZeroRow(w)
    ensures PartialRecovery(constants, e, blocks, w, |constants|) == RecoveryRow(constants, e, blocks, w)
  {
    assert constants[..|constants|] == constants && blocks[..|constants|] == blocks;
    hide AddRow, Scale, Pow;
  }

  /** gf_muladd on rows of the same length */
  method MulAddRow(t: Tables, dst: Row, src: Row, f: Symbol) returns (r: Row)
    requires t.Valid()
    ensures r == MulAdd(dst, src, f)
  {
    hide Mul, Add, Tables.Valid;
    var buffer := new Symbol[|dst|](i requires 0 <= i < |dst| => dst[i]);
    var source := new Symbol[|src|](i requires 0 <= i < |src| => src[i]);
    assert buffer[..] == dst && source[..] == src;
    GfMuladd(t, buffer, source, f);
    r := buffer[..];
  }

  method EncodeOne(t: Tables, constants: Row, coeffs: Matrix, e: nat, count: nat, blocks: Matrix, w: nat)
    returns (r: Row)
    requires t.Valid() && IsMatrix(blocks, |constants|, w) && IsCoeffMatrix(coeffs, constants, count) && e < count
    ensures r == RecoveryRow(constants, e, blocks, w)
  {
    hide RecoveryRow, PartialRecovery, Pow, MulAdd, Tables.Valid;
    PartialRecoveryAll(constants, e, blocks, w);
    r := ZeroRow(w);
    for d := 0 to |constants|
      invariant r == PartialRecovery(constants, e, blocks, w, d)
    {
      PartialRecoveryNext(constants, e, blocks, w, d);
      r := MulAddRow(t, r, blocks[d], coeffs[d][e]);
    }
  }

  method Encode(t: Tables, constants: Row, blocks: seq<seq<Byte>>, count: nat, blockSize: nat)
    returns (r: Result<seq<Recovery>>)
    requires t.Valid()
    ensures r == EncodeResult(constants, blocks, count, blockSize)
    ensures |blocks| != |constants| ==> r == Err(WrongBlockCount)
    ensures |blocks| == |constants| && blockSize % 2 != 0 ==> r == Err(OddBlockSize)
    ensures |blocks| == |constants| && blockSize % 2 == 0 ==>
              if forall d :: 0 <= d < |blocks| ==> |blocks[d]| == blockSize then r.Ok? else r == Err(BlockSizeMismatch)
    ensures r.Ok? ==> |r.value| == count && forall e :: 0 <= e < count ==>
                        r.value[e].exponent == e && |r.value[e].data| == blockSize
  {
    hide RecoveryRow, ToSymbols, ToBytes, Tables.Valid;
    if |blocks| != |constants| {
      return Err(WrongBlockCount);
    }
    if blockSize % 2 != 0 {
      return Err(OddBlockSize);
    }
    var rows: Matrix := [];
    for d := 0 to |blocks|
      invariant Uniform(blocks[..d], blockSize)
      invariant |rows| == d && forall i :: 0 <= i < d ==> rows[i] == ToSymbols(blocks[i])
    {
      if |blocks[d]| != blockSize {
        return Err(BlockSizeMismatch);
      }
      rows := rows + [ToSymbols(blocks[d])];
    }
    assert blocks[..|blocks|] == blocks;
    assert rows == AllSymbols(blocks);
    var coeffs := CoeffMatrix(t, constants, count);
    var result: seq<Recovery> := [];
    for e := 0 to count
      invariant |result| == e
      invariant forall i :: 0 <= i < e ==> result[i] == Encoded(constants, blocks, count, blockSize)[i]
    {
      var row := EncodeOne(t, constants, coeffs, e, count, rows, blockSize / 2);
      result := result + [Recovery(e, ToBytes(row))];
    }
    assert result == Encoded(constants, blocks, count, blockSize);
    return Ok(result);
  }
}
