/** The interchangeable solvers: Cramer's rule and Gauss-Jordan elimination
    with partial pivoting. Each turns the circuit's derived system into the
    vector of currents, or into None when there is no system or when a
    determinant or pivot falls below the singularity threshold. */
module Strategies {
  import opened LinearAlgebra
  import opened Circuits
  import opened Elimination

  datatype Strategy = Cramer | GaussJordan

  /** Closed forms for 1x1 and 2x2 matrices; for larger ones the cofactor
      expansion stands in for the library determinant. */
  function Determinant(m: Matrix): (d: real)
    requires IsMatrix(m, |m|, |m|)
    ensures d == Det(m)
  {
    if |m| == 1 then
      Det1(m);
      m[0][0]
    else if |m| == 2 then
      Det2(m);
      m[0][0] * m[1][1] - m[0][1] * m[1][0]
    else
      Det(m)
  }

  /** Cramer's rule: None when `|det A|` is below the threshold; otherwise
      entry `i` is `det(A_i) / det(A)`, `A_i` being a copy of `A` whose
      column `i` is `b`. */
  method CramerSystem(a: Matrix, b: Vector) returns (r: Option<Vector>)
    requires IsMatrix(a, |b|, |b|)
    ensures r.None? <==> Abs(Det(a)) < Threshold
    ensures r.Some? ==> Det(a) != 0.0 && r.value == CramerVector(a, b)
    ensures r.Some? && |b| <= 2 ==> Solves(a, b, r.value)
  {
    var n := |b|;
    var detA := Determinant(a);
    if Abs(detA) < Threshold {
      return None;
    }
    var solutions: Vector := [];
    for i := 0 to n
      invariant |solutions| == i
      invariant forall j :: 0 <= j < i ==> solutions[j] == Det(ReplaceColumn(a, j, b)) / detA
    {
      var ai := ReplaceColumn(a, i, b);
      var detAi := Determinant(ai);
      solutions := solutions + [detAi / detA];
    }
    if n <= 2 {
      CramerSolvesSmall(a, b);
    }
    return Some(solutions);
  }

  // ---------------------------------------------------------------------------
  // Gauss-Jordan elimination on the augmented array

  /** The rows of a two-dimensional array. */
  ghost function Rows(aug: array2<real>): (m: Matrix)
    reads aug
    ensures IsMatrix(m, aug.Length0, aug.Length1)
    ensures forall r, c :: 0 <= r < aug.Length0 && 0 <= c < aug.Length1 ==> m[r][c] == aug[r, c]
  {
    seq(aug.Length0, r requires 0 <= r < aug.Length0 reads aug =>
      seq(aug.Length1, c requires 0 <= c < aug.Length1 reads aug => aug[r, c]))
  }

  /** The first row from `i` on with the largest magnitude in column `i`
      (a later row replaces the candidate only if strictly larger). */
  method FindPivot(aug: array2<real>, i: nat) returns (maxRow: nat)
    requires aug.Length1 == aug.Length0 + 1 && i < aug.Length0
    ensures IsPivotRow(Rows(aug), i, maxRow)
    ensures maxRow == PivotOf(Rows(aug), aug.Length0, i)
  {
    maxRow := i;
    for k := i + 1 to aug.Length0
      invariant i <= maxRow < k
      invariant forall q :: i <= q < k ==> Abs(aug[q, i]) <= Abs(aug[maxRow, i])
      invariant forall q :: i <= q < maxRow ==> Abs(aug[q, i]) < Abs(aug[maxRow, i])
    {
      if Abs(aug[k, i]) > Abs(aug[maxRow, i]) {
        maxRow := k;
      }
    }
    PivotOfIsPivotRow(Rows(aug), aug.Length0, i);
    PivotRowUnique(Rows(aug), i, maxRow, PivotOf(Rows(aug), aug.Length0, i));
  }

  method SwapRowsInPlace(aug: array2<real>, i: nat, j: nat)
    requires i < aug.Length0 && j < aug.Length0
    modifies aug
    ensures Rows(aug) == SwapRows(old(Rows(aug)), i, j)
  {
    ghost var m := Rows(aug);
    ghost var m' := SwapRows(m, i, j);
    for c := 0 to aug.Length1
      invariant forall r, c' :: 0 <= r < aug.Length0 && 0 <= c' < aug.Length1 ==>
        aug[r, c'] == if c' < c then m'[r][c'] else m[r][c']
    {
      var t := aug[i, c];
      aug[i, c] := aug[j, c];
      aug[j, c] := t;
    }
    MatrixEqual(Rows(aug), m', aug.Length0, aug.Length1);
  }

  method DivideRowInPlace(aug: array2<real>, i: nat, pivot: real)
    requires i < aug.Length0 && pivot != 0.0
    modifies aug
    ensures Rows(aug) == DivideRow(old(Rows(aug)), i, pivot)
  {
    ghost var m := Rows(aug);
    ghost var m' := DivideRow(m, i, pivot);
    for c := 0 to aug.Length1
      invariant forall r, c' :: 0 <= r < aug.Length0 && 0 <= c' < aug.Length1 ==>
        aug[r, c'] == if c' < c then m'[r][c'] else m[r][c']
    {
      aug[i, c] := aug[i, c] / pivot;
    }
    MatrixEqual(Rows(aug), m', aug.Length0, aug.Length1);
  }

  method EliminateInPlace(aug: array2<real>, k: nat, i: nat, factor: real)
    requires k < aug.Length0 && i < aug.Length0 && k != i
    modifies aug
    ensures Rows(aug) == EliminateRow(old(Rows(aug)), k, i, factor)
  {
    ghost var m := Rows(aug);
    ghost var m' := EliminateRow(m, k, i, factor);
    for c := 0 to aug.Length1
      invariant forall r, c' :: 0 <= r < aug.Length0 && 0 <= c' < aug.Length1 ==>
        aug[r, c'] == if c' < c then m'[r][c'] else m[r][c']
    {
      aug[k, c] := aug[k, c] - factor * aug[i, c];
    }
    MatrixEqual(Rows(aug), m', aug.Length0, aug.Length1);
  }

  /** The augmented array `[A | b]`, filled row by row. */
  method AugmentedArray(a: Matrix, b: Vector) returns (aug: array2<real>)
    requires IsMatrix(a, |b|, |b|)
    ensures fresh(aug) && aug.Length0 == |b| && aug.Length1 == |b| + 1
    ensures Rows(aug) == Augment(a, b)
  {
    var n := |b|;
    ghost var m0 := Augment(a, b);
    aug := new real[n, n + 1];
    for p := 0 to n
      invariant forall q, c :: 0 <= q < p && 0 <= c < n + 1 ==> aug[q, c] == m0[q][c]
    {
      for c := 0 to n + 1
        invariant forall q, c' :: 0 <= q < p && 0 <= c' < n + 1 ==> aug[q, c'] == m0[q][c']
        invariant forall c' :: 0 <= c' < c ==> aug[p, c'] == m0[p][c']
      {
        aug[p, c] := if c < n then a[p][c] else b[p];
      }
    }
    MatrixEqual(Rows(aug), m0, n, n + 1);
  }

  /** Brings the partial pivot of column `i` into row `i`. */
  method PivotColumn(aug: array2<real>, i: nat) returns (maxRow: nat)
    requires aug.Length1 == aug.Length0 + 1 && i < aug.Length0
    modifies aug
    ensures maxRow == PivotOf(old(Rows(aug)), aug.Length0, i)
    ensures Rows(aug) == Pivoted(old(Rows(aug)), aug.Length0, i)
  {
    maxRow := FindPivot(aug, i);
    if maxRow != i {
      SwapRowsInPlace(aug, i, maxRow);
    }
  }

  /** Divides the pivot row by its (non-zero) pivot, then subtracts from
      every other row, top to bottom, its entry in column `i` times the
      pivot row. */
  method ClearColumn(aug: array2<real>, i: nat)
    requires aug.Length1 == aug.Length0 + 1 && i < aug.Length0 && aug[i, i] != 0.0
    modifies aug
    ensures Rows(aug) == Cleared(old(Rows(aug)), aug.Length0, i)
  {
    var n := aug.Length0;
    var pivot := aug[i, i];
    DivideRowInPlace(aug, i, pivot);
    ghost var divided := Rows(aug);

    for k := 0 to n
      invariant Rows(aug) == EliminateUpTo(divided, n, i, k)
    {
      if k != i {
        var factor := aug[k, i];
        EliminateInPlace(aug, k, i, factor);
      }
    }
  }

  /** Gauss-Jordan elimination with partial pivoting on `[A | b]`, in place.
      It performs exactly the reduction `GaussJordanResult` describes: no
      result at the first column whose pivot is below the threshold, else the
      last column of the reduced matrix, which solves `A * x == b`. */
  method GaussJordanSystem(a: Matrix, b: Vector) returns (r: Option<Vector>)
    requires IsMatrix(a, |b|, |b|)
    ensures r == GaussJordanResult(a, b)
    ensures r.Some? ==> Solves(a, b, r.value)
  {
    var n := |b|;
    var aug := AugmentedArray(a, b);
    ghost var m0 := Rows(aug);

    for i := 0 to n
      invariant Reduce(Rows(aug), n, i) == Reduce(m0, n, 0)
    {
      var _ := PivotColumn(aug, i);
      if Abs(aug[i, i]) < Threshold {
        r := None;
        return;
      }
      ClearColumn(aug, i);
    }

    var solutions: Vector := [];
    for k := 0 to n
      invariant |solutions| == k
      invariant forall q :: 0 <= q < k ==> solutions[q] == aug[q, n]
    {
      solutions := solutions + [aug[k, n]];
    }
    assert solutions == LastColumn(Rows(aug), n);
    r := Some(solutions);
    GaussJordanSolves(a, b);
  }

  // ---------------------------------------------------------------------------
  // The strategies applied to a circuit

  /** Cramer's rule on the circuit's system: None without a system or when
      `|det A|` is below the threshold, else the Cramer vector. */
  method CramerSolve(c: Circuit) returns (r: Option<Vector>)
    ensures c.System().None? ==> r.None?
    ensures c.System().Some? ==>
      var s := c.System().value;
      && (r.None? <==> Abs(Det(s.a)) < Threshold)
      && (r.Some? ==> Det(s.a) != 0.0 && r.value == CramerVector(s.a, s.b))
      && (r.Some? && |s.b| <= 2 ==> Solves(s.a, s.b, r.value))
  {
    var system := c.BuildMeshSystem();
    if system.None? {
      return None;
    }
    r := CramerSystem(system.value.a, system.value.b);
  }

  /** Gauss-Jordan elimination on the circuit's system; a returned vector
      solves it, and so is the current of the circuit's topology. */
  method GaussJordanSolve(c: Circuit) returns (r: Option<Vector>)
    ensures c.System().None? ==> r.None?
    ensures c.System().Some? ==> r == GaussJordanResult(c.System().value.a, c.System().value.b)
    ensures r.Some? ==> c.System().Some? && Solves(c.System().value.a, c.System().value.b, r.value)
    ensures r.Some? && c.Valid() ==> Sum(c.resistors) > 0.0
    ensures r.Some? && c.Valid() && c.circuitType == Series ==> r.value == [c.voltage / Sum(c.resistors)]
    ensures r.Some? && c.Valid() && c.circuitType == Parallel ==>
      |r.value| == |c.resistors| && forall i :: 0 <= i < |c.resistors| ==> r.value[i] == c.voltage / c.resistors[i]
    ensures r.Some? && c.Valid() && c.circuitType == Mesh ==> 
      |r.value| == |c.resistors| && forall i :: 0 <= i < |r.value| ==> r.value[i] == c.voltage / c.resistors[0]
  {
    var system := c.BuildMeshSystem();
    if system.None? {
      return None;
    }
    r := GaussJordanSystem(system.value.a, system.value.b);
    if r.Some? && c.Valid() {
      SystemCurrents(c.voltage, c.resistors, c.circuitType, r.value);
    }
  }

  /** Where both strategies give a vector for at most two unknowns, it is the
      same vector: Cramer's rule succeeds only when `|det A|` is at least the
      threshold, and elimination's result is then the one solution. */
  lemma StrategiesAgree(a: Matrix, b: Vector)
    requires IsMatrix(a, |b|, |b|) && |b| <= 2
    requires GaussJordanResult(a, b).Some? && Abs(Det(a)) >= Threshold
    ensures Det(a) != 0.0
    ensures GaussJordanResult(a, b).value == CramerVector(a, b)
  {
    GaussJordanSolves(a, b);
    SmallSolutionIsCramer(a, b, GaussJordanResult(a, b).value);
  }

  /** The chosen strategy applied to the circuit. Cramer's rule returns the
      Cramer vector of a non-singular system, elimination the result of the
      reduction; for at most two unknowns whatever either returns is the one
      solution, so both return the same vector whenever both succeed. */
  method Solve(strategy: Strategy, c: Circuit) returns (r: Option<Vector>)
    ensures c.System().None? ==> r.None?
    ensures r.Some? && strategy == Cramer ==>
      && c.System().Some?
      && Det(c.System().value.a) != 0.0
      && r.value == CramerVector(c.System().value.a, c.System().value.b)
    ensures c.System().Some? && strategy == GaussJordan ==>
      r == GaussJordanResult(c.System().value.a, c.System().value.b)
    ensures r.Some? && |c.System().value.b| <= 2 ==>
      && Solves(c.System().value.a, c.System().value.b, r.value)
      && (Det(c.System().value.a) != 0.0 ==> r.value == CramerVector(c.System().value.a, c.System().value.b))
  {
    match strategy
    case Cramer =>
      r := CramerSolve(c);
    case GaussJordan =>
      r := GaussJordanSolve(c);
      if r.Some? && |c.System().value.b| <= 2 && Det(c.System().value.a) != 0.0 {
        SmallSolutionIsCramer(c.System().value.a, c.System().value.b, r.value);
      }
  }
}
