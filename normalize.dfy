/**
 * The module-level `normalize` of plsa.py: divide every row of a matrix by
 * its row sum, refusing a matrix that has a row summing to zero.
 */
module Normalization {
  import opened Sums
  import opened Results

  /** A dense matrix, row by row. */
  type Matrix = seq<seq<real>>

  predicate IsMatrix(m: Matrix, rows: nat, cols: nat)
  {
    |m| == rows && forall i :: 0 <= i < rows ==> |m[i]| == cols
  }

  predicate NonNegativeMatrix(m: Matrix)
  {
    forall i, j :: 0 <= i < |m| && 0 <= j < |m[i]| ==> m[i][j] >= 0.0
  }

  /** Every row is a probability distribution: non-negative and summing to 1. */
  predicate RowStochastic(m: Matrix)
  {
    NonNegativeMatrix(m) && forall i :: 0 <= i < |m| ==> Sum(m[i]) == 1.0
  }

  /** Some row sums to zero: the condition `normalize` rejects. */
  predicate HasZeroRow(m: Matrix)
  {
    exists i :: 0 <= i < |m| && Sum(m[i]) == 0.0
  }

  /** The row with every entry divided by s. */
  function DivideRow(row: seq<real>, s: real): (r: seq<real>)
    requires s != 0.0
    ensures |r| == |row|
    ensures forall j :: 0 <= j < |row| ==> r[j] * s == row[j]
  {
    seq(|row|, j requires 0 <= j < |row| => row[j] / s)
  }

  /** `normalize`: fails on a zero row sum, otherwise divides each row by its sum. */
  function Normalize(m: Matrix): (r: Result<Matrix>)
    ensures r.Ok? ==> |r.value| == |m| && forall i :: 0 <= i < |m| ==> |r.value[i]| == |m[i]|
  {
    if HasZeroRow(m) then Err(ZeroRowSum)
    else Ok(seq(|m|, i requires 0 <= i < |m| => DivideRow(m[i], Sum(m[i]))))
  }

  /** A row divided by its own non-zero sum sums to 1 and keeps its sign. */
  lemma DividedRowSumsToOne(row: seq<real>)
    requires Sum(row) != 0.0
    ensures Sum(DivideRow(row, Sum(row))) == 1.0
    ensures NonNegative(row) ==> NonNegative(DivideRow(row, Sum(row)))
  {
    var s := Sum(row);
    var r := DivideRow(row, s);
    SumScaled(row, r, 1.0 / s);
    if NonNegative(row) {
      SumNonNegative(row);
      assert s > 0.0;
    }
  }

  /**
   * The whole contract of `normalize`: it fails exactly when some row sums to
   * zero; otherwise the result has the same shape, each entry is the input
   * entry divided by its row sum, every row sums to 1 and non-negative
   * input stays non-negative.
   */
  lemma NormalizeSpec(m: Matrix)
    ensures Normalize(m).Err? <==> exists i :: 0 <= i < |m| && Sum(m[i]) == 0.0
    ensures Normalize(m).Err? ==> Normalize(m).error == ZeroRowSum
    ensures Normalize(m).Ok? ==>
      var r := Normalize(m).value;
      && |r| == |m|
      && (forall i :: 0 <= i < |m| ==> |r[i]| == |m[i]| && Sum(r[i]) == 1.0)
      && (forall i, j :: 0 <= i < |m| && 0 <= j < |m[i]| ==> r[i][j] == m[i][j] / Sum(m[i]))
      && (NonNegativeMatrix(m) ==> RowStochastic(r))
  {
    if Normalize(m).Ok? {
      var r := Normalize(m).value;
      forall i | 0 <= i < |m|
        ensures Sum(r[i]) == 1.0
        ensures NonNegativeMatrix(m) ==> NonNegative(r[i])
      {
        DividedRowSumsToOne(m[i]);
        if NonNegativeMatrix(m) {
          assert NonNegative(m[i]);
        }
      }
    }
  }

  /** Normalizing a matrix whose rows already sum to 1 changes nothing. */
  lemma NormalizeIdempotent(m: Matrix)
    requires Normalize(m).Ok?
    ensures Normalize(Normalize(m).value) == Normalize(m)
  {
    NormalizeSpec(m);
    var r := Normalize(m).value;
    NormalizeSpec(r);
    var r2 := Normalize(r).value;
    forall i | 0 <= i < |r| ensures r2[i] == r[i] {
      assert |r2[i]| == |r[i]|;
      forall j | 0 <= j < |r[i]| ensures r2[i][j] == r[i][j] {
        assert r2[i][j] == r[i][j] / 1.0;
      }
    }
    assert r2 == r;
  }

  /** A matrix whose i-th row is `cols` copies of a non-zero value. */
  predicate ConstantRows(m: Matrix, cols: nat)
  {
    forall i :: 0 <= i < |m| ==>
      && |m[i]| == cols && m[i] != [] && m[i][0] != 0.0
      && (forall j :: 0 <= j < cols ==> m[i][j] == m[i][0])
  }

  /** rows x cols copies of v. */
  function Const(rows: nat, cols: nat, v: real): (m: Matrix)
    ensures IsMatrix(m, rows, cols)
  {
    seq(rows, _ => seq(cols, _ => v))
  }

  /**
   * Rows that are constant (and not zero) normalize to the uniform
   * distribution 1/cols, whatever the constant of each row is.
   */
  lemma NormalizeConstantRows(m: Matrix, cols: nat)
    requires cols >= 1 && ConstantRows(m, cols)
    ensures Normalize(m) == Ok(Const(|m|, cols, 1.0 / cols as real))
  {
    forall i | 0 <= i < |m| ensures Sum(m[i]) == cols as real * m[i][0] {
      SumConst(m[i], m[i][0]);
    }
    assert !HasZeroRow(m);
    var r := Normalize(m).value;
    var u := Const(|m|, cols, 1.0 / cols as real);
    forall i | 0 <= i < |m| ensures r[i] == u[i] {
      var v := m[i][0];
      ShareOfEqualParts(v, cols);
      forall j | 0 <= j < cols ensures r[i][j] == u[i][j] {
        assert r[i][j] == v / (cols as real * v);
      }
    }
    assert r == u;
  }

  /** One of n equal non-zero parts is 1/n of their total. */
  lemma ShareOfEqualParts(v: real, n: nat)
    requires v != 0.0 && n >= 1
    ensures v / (n as real * v) == 1.0 / n as real
  {
  }

  /** `rows` copies of one row. */
  function Stack(rows: nat, row: seq<real>): (m: Matrix)
    ensures IsMatrix(m, rows, |row|)
    ensures forall i, j :: 0 <= i < rows && 0 <= j < |row| ==> m[i][j] == row[j]
  {
    seq(rows, _ => row)
  }

  /** Copies of one row that does not sum to zero normalise to copies of the normalised row. */
  lemma NormalizeStack(rows: nat, row: seq<real>)
    requires Sum(row) != 0.0
    ensures Normalize(Stack(rows, row)) == Ok(Stack(rows, DivideRow(row, Sum(row))))
  {
    var m := Stack(rows, row);
    assert forall i :: 0 <= i < rows ==> m[i] == row;
    var r := Normalize(m).value;
    assert forall i :: 0 <= i < rows ==> r[i] == DivideRow(row, Sum(row));
    assert r == Stack(rows, DivideRow(row, Sum(row)));
  }

  /** A matrix with rows and no columns cannot be normalized. */
  lemma NormalizeNoColumns(m: Matrix)
    requires |m| >= 1 && IsMatrix(m, |m|, 0)
    ensures Normalize(m) == Err(ZeroRowSum)
  {
    assert m[0] == [];
  }
}
