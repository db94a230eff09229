// Gauss-Jordan elimination with partial pivoting, stated on values: the
// reduction the in-place algorithm performs, column by column, and what it
// guarantees.

module Elimination {
  import opened LinearAlgebra

  // ---------------------------------------------------------------------------
  // Choosing the pivot row

  /** Scans rows `k..` of column `i` for an entry larger in magnitude than the
      best so far; ties keep the earlier row. */
  function PivotFrom(m: Matrix, n: nat, i: nat, k: nat, best: nat): (p: nat)
    requires IsMatrix(m, n, n + 1) && i <= best < k <= n
    ensures i <= p < n
    decreases n - k
  {
    if k == n then best
    else PivotFrom(m, n, i, k + 1, if Abs(m[k][i]) > Abs(m[best][i]) then k else best)
  }

  /** The partial pivot row of column `i`. */
  function PivotOf(m: Matrix, n: nat, i: nat): (p: nat)
    requires IsMatrix(m, n, n + 1) && i < n
    ensures i <= p < n
  {
    PivotFrom(m, n, i, i + 1, i)
  }

  lemma {:induction false} PivotFromIsPivotRow(m: Matrix, n: nat, i: nat, k: nat, best: nat)
    requires IsMatrix(m, n, n + 1) && i <= best < k <= n
    requires forall q :: i <= q < k ==> Abs(m[q][i]) <= Abs(m[best][i])
    requires forall q :: i <= q < best ==> Abs(m[q][i]) < Abs(m[best][i])
    ensures IsPivotRow(m, i, PivotFrom(m, n, i, k, best))
    decreases n - k
  {
    if k < n {
      var best' := if Abs(m[k][i]) > Abs(m[best][i]) then k else best;
      PivotFromIsPivotRow(m, n, i, k + 1, best');
    }
  }

  /** The scan finds the first row of largest magnitude in column `i`. */
  lemma PivotOfIsPivotRow(m: Matrix, n: nat, i: nat)
    requires IsMatrix(m, n, n + 1) && i < n
    ensures IsPivotRow(m, i, PivotOf(m, n, i))
  {
    PivotFromIsPivotRow(m, n, i, i + 1, i);
  }

  /** The matrix with the pivot row of column `i` brought into row `i`. */
  function Pivoted(m: Matrix, n: nat, i: nat): (m': Matrix)
    requires IsMatrix(m, n, n + 1) && i < n
    ensures IsMatrix(m', n, n + 1)
  {
    var p := PivotOf(m, n, i);
    if p == i then m else SwapRows(m, i, p)
  }

  /** Pivoting keeps the solutions and the reduced columns, and leaves the
      largest candidate of column `i` on the diagonal. */
  lemma PivotedKeeps(m: Matrix, n: nat, i: nat)
    requires UnitColumns(m, n, i) && i < n
    ensures UnitColumns(Pivoted(m, n, i), n, i)
    ensures SameSolutions(m, Pivoted(m, n, i), n)
    ensures forall k :: i <= k < n ==> Abs(Pivoted(m, n, i)[k][i]) <= Abs(Pivoted(m, n, i)[i][i])
  {
    var p := PivotOf(m, n, i);
    PivotOfIsPivotRow(m, n, i);
    var m' := Pivoted(m, n, i);
    if p != i {
      SwapKeepsSolutions(m, n, i, p);
      SwapKeepsUnitColumns(m, n, i, i, p);
      forall k | i <= k < n
        ensures Abs(m'[k][i]) <= Abs(m'[i][i])
      {
        assert m'[k] == if k == i then m[p] else if k == p then m[i] else m[k];
      }
    }
  }

  // ---------------------------------------------------------------------------
  // Clearing a column

  /** Rows `0..k` other than `i`, in order, each minus its entry in column `i`
      times row `i`. */
  function EliminateUpTo(m: Matrix, n: nat, i: nat, k: nat): (m': Matrix)
    requires IsMatrix(m, n, n + 1) && i < n && k <= n
    ensures IsMatrix(m', n, n + 1)
  {
    if k == 0 then m
    else
      var prev := EliminateUpTo(m, n, i, k - 1);
      if k - 1 == i then prev else EliminateRow(prev, k - 1, i, prev[k - 1][i])
  }

  /** Row `i` divided by its non-zero diagonal entry, then eliminated from
      every other row. */
  function Cleared(m: Matrix, n: nat, i: nat): (m': Matrix)
    requires IsMatrix(m, n, n + 1) && i < n && m[i][i] != 0.0
    ensures IsMatrix(m', n, n + 1)
  {
    EliminateUpTo(DivideRow(m, i, m[i][i]), n, i, n)
  }

  lemma {:induction false} EliminateUpToKeeps(m: Matrix, n: nat, i: nat, k: nat)
    requires UnitColumns(m, n, i) && i < n && k <= n && m[i][i] == 1.0
    ensures UnitColumns(EliminateUpTo(m, n, i, k), n, i)
    ensures SameSolutions(m, EliminateUpTo(m, n, i, k), n)
    ensures EliminateUpTo(m, n, i, k)[i] == m[i]
    ensures forall q :: 0 <= q < k && q != i ==> EliminateUpTo(m, n, i, k)[q][i] == 0.0
  {
    if k > 0 {
      EliminateUpToKeeps(m, n, i, k - 1);
      var prev := EliminateUpTo(m, n, i, k - 1);
      if k - 1 != i {
        var next := EliminateRow(prev, k - 1, i, prev[k - 1][i]);
        EliminateKeepsUnitColumns(prev, n, k - 1, i);
        EliminateKeepsSolutions(prev, n, k - 1, i, prev[k - 1][i]);
        SameSolutionsTransitive(m, prev, next, n);
      }
    }
  }

  /** Clearing column `i` keeps the solutions and makes it a unit column. */
  lemma ClearedKeeps(m: Matrix, n: nat, i: nat)
    requires UnitColumns(m, n, i) && i < n && m[i][i] != 0.0
    ensures UnitColumns(Cleared(m, n, i), n, i + 1)
    ensures SameSolutions(m, Cleared(m, n, i), n)
  {
    var d := DivideRow(m, i, m[i][i]);
    DivideKeepsSolutions(m, n, i, m[i][i]);
    DivideKeepsUnitColumns(m, n, i);
    EliminateUpToKeeps(d, n, i, n);
    var e := Cleared(m, n, i);
    SameSolutionsTransitive(m, d, e, n);
    assert forall r :: 0 <= r < n ==> e[r][i] == if r == i then 1.0 else 0.0;
  }

  // ---------------------------------------------------------------------------
  // The whole reduction

  /** How the reduction ends: with every column reduced, or at the first
      column whose pivot is below the threshold, with the matrix reached. */
  datatype Outcome = Reduced(m: Matrix) | Stuck(col: nat, m: Matrix)

  /** Reduces columns `i..n` of the augmented matrix, in order. */
  function Reduce(m: Matrix, n: nat, i: nat): (o: Outcome)
    requires IsMatrix(m, n, n + 1) && i <= n
    ensures IsMatrix(o.m, n, n + 1)
    ensures o.Stuck? ==> i <= o.col < n
    decreases n - i
  {
    if i == n then Reduced(m)
    else
      var p := Pivoted(m, n, i);
      if Abs(p[i][i]) < Threshold then Stuck(i, p)
      else Reduce(Cleared(p, n, i), n, i + 1)
  }

  /** What the reduction keeps: the solution set, and unit columns before the
      column it reaches; when stuck, every candidate there is below the
      threshold. */
  lemma {:induction false} ReduceKeeps(m: Matrix, n: nat, i: nat)
    requires UnitColumns(m, n, i)
    ensures SameSolutions(m, Reduce(m, n, i).m, n)
    ensures Reduce(m, n, i).Reduced? ==> UnitColumns(Reduce(m, n, i).m, n, n)
    ensures Reduce(m, n, i).Stuck? ==>
      var o := Reduce(m, n, i);
      && UnitColumns(o.m, n, o.col)
      && forall k :: o.col <= k < n ==> Abs(o.m[k][o.col]) < Threshold
    decreases n - i
  {
    if i < n {
      var p := Pivoted(m, n, i);
      PivotedKeeps(m, n, i);
      if Abs(p[i][i]) >= Threshold {
        var c := Cleared(p, n, i);
        ClearedKeeps(p, n, i);
        ReduceKeeps(c, n, i + 1);
        SameSolutionsTransitive(p, c, Reduce(c, n, i + 1).m, n);
        SameSolutionsTransitive(m, p, Reduce(c, n, i + 1).m, n);
      }
    }
  }

  /** The last column of a reduced augmented matrix. */
  function LastColumn(m: Matrix, n: nat): (x: Vector)
    requires IsMatrix(m, n, n + 1)
    ensures |x| == n && forall k :: 0 <= k < n ==> x[k] == m[k][n]
  {
    seq(n, k requires 0 <= k < n => m[k][n])
  }

  /** Gauss-Jordan elimination on `[A | b]`: no result when it gets stuck,
      otherwise the last column of the reduced matrix. */
  function GaussJordanResult(a: Matrix, b: Vector): Option<Vector>
    requires IsMatrix(a, |b|, |b|)
  {
    match Reduce(Augment(a, b), |b|, 0)
    case Stuck(_, _) => None
    case Reduced(m) => Some(LastColumn(m, |b|))
  }

  /** A result of the elimination solves `A * x == b`. */
  lemma GaussJordanSolves(a: Matrix, b: Vector)
    requires IsMatrix(a, |b|, |b|) && GaussJordanResult(a, b).Some?
    ensures Solves(a, b, GaussJordanResult(a, b).value)
  {
    var n := |b|;
    var m0 := Augment(a, b);
    ReduceKeeps(m0, n, 0);
    var x := GaussJordanResult(a, b).value;
    IdentitySolvedByLastColumn(Reduce(m0, n, 0).m, n, x);
    AugmentSolves(a, b, x);
  }

  /** No result means the reduction got stuck at some column: the matrix
      reached there has the solutions of `[A | b]`, unit columns before that
      column, and every candidate pivot of it below the threshold. */
  lemma GaussJordanStuck(a: Matrix, b: Vector)
    requires IsMatrix(a, |b|, |b|) && GaussJordanResult(a, b).None?
    ensures
      var o := Reduce(Augment(a, b), |b|, 0);
      && o.Stuck? && o.col < |b|
      && UnitColumns(o.m, |b|, o.col)
      && SameSolutions(Augment(a, b), o.m, |b|)
      && forall k :: o.col <= k < |b| ==> Abs(o.m[k][o.col]) < Threshold
  {
    ReduceKeeps(Augment(a, b), |b|, 0);
  }

  /** Two one-unknown systems worked through: `5x = 5` reduces to `x = 1`,
      and `0x = 5` stops at its zero pivot. */
  lemma GaussJordanOneUnknown()
    ensures GaussJordanResult([[5.0]], [5.0]) == Some([1.0])
    ensures GaussJordanResult([[0.0]], [5.0]) == None
  {
    var m := Augment([[5.0]], [5.0]);
    assert m[0][0] == 5.0 && m[0][1] == 5.0;
    assert PivotOf(m, 1, 0) == 0;
    var d := DivideRow(m, 0, 5.0);
    assert d[0][0] == 1.0 && d[0][1] == 1.0;
    var c := Cleared(m, 1, 0);
    assert c == EliminateUpTo(d, 1, 0, 1) == EliminateUpTo(d, 1, 0, 0) == d;
    assert Reduce(m, 1, 0) == Reduce(c, 1, 1) == Reduced(c);
    assert LastColumn(c, 1)[0] == 1.0;
    assert LastColumn(c, 1) == [1.0];

    var z := Augment([[0.0]], [5.0]);
    assert z[0][0] == 0.0;
    assert PivotOf(z, 1, 0) == 0;
  }
}
