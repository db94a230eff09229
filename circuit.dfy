/** The circuit's state (source voltage, ordered resistances, topology), its
    guarded mutators with observer notification, and the square linear system
    `A * x == b` it derives for each topology. */
module Circuits {
  import opened LinearAlgebra

  datatype Topology = Series | Parallel | Mesh

  /** The name under which the interface selects a topology. */
  function Name(t: Topology): string
  {
    match t
    case Series => "serie"
    case Parallel => "paralelo"
    case Mesh => "mallas"
  }

  /** The topology a name selects: exactly the three known names select one,
      and each selects the topology of that name. */
  function TopologyNamed(name: string): (r: Option<Topology>)
    ensures r.Some? <==> name == "serie" || name == "paralelo" || name == "mallas"
    ensures forall t :: r == Some(t) <==> Name(t) == name
  {
    if name == "serie" then Some(Series)
    else if name == "paralelo" then Some(Parallel)
    else if name == "mallas" then Some(Mesh)
    else None
  }

  /** A snapshot of the circuit, as an observer re-reads it. */
  datatype State = State(voltage: real, resistors: seq<real>, circuitType: Topology)

  type ObserverId = nat

  /** One call of an observer's update callback, with the state it then saw. */
  datatype Update = Update(observer: ObserverId, seen: State)

  /** The callbacks one notification makes: every observer, in registration order. */
  function Deliveries(observers: seq<ObserverId>, s: State): (r: seq<Update>)
    ensures |r| == |observers|
    ensures forall k :: 0 <= k < |r| ==> r[k] == Update(observers[k], s)
  {
    seq(|observers|, k requires 0 <= k < |observers| => Update(observers[k], s))
  }

  datatype LinearSystem = LinearSystem(a: Matrix, b: Vector)

  function Sum(s: seq<real>): real
  {
    if s == [] then 0.0 else s[0] + Sum(s[1..])
  }

  predicate AllPositive(s: seq<real>)
  {
    forall i :: 0 <= i < |s| ==> s[i] > 0.0
  }

  /** A sum of positive resistances is positive. */
  lemma {:induction false} SumPositive(s: seq<real>)
    requires |s| >= 1 && AllPositive(s)
    ensures Sum(s) > 0.0
  {
    if |s| > 1 {
      SumPositive(s[1..]);
    }
  }

  /** The n x n zero matrix. */
  function Zeros(n: nat): (m: Matrix)
    ensures IsMatrix(m, n, n)
    ensures forall i, j :: 0 <= i < n && 0 <= j < n ==> m[i][j] == 0.0
  {
    seq(n, i => seq(n, j => 0.0))
  }

  /** Parallel branches: one equation `R_i * I_i == V` per resistor. */
  function ParallelMatrix(r: seq<real>): (m: Matrix)
    ensures IsMatrix(m, |r|, |r|)
  {
    seq(|r|, i requires 0 <= i < |r| => seq(|r|, j requires 0 <= j < |r| => if i == j then r[i] else 0.0))
  }

  /** Entry `(i, j)` of the ladder ("mesh") matrix: mesh `i` shares resistor
      `i + 1` with mesh `i + 1`, and the last mesh has no right neighbour. */
  function MeshEntry(r: seq<real>, i: nat, j: nat): real
    requires i < |r| && j < |r|
  {
    if i == j then (if i + 1 < |r| then r[i] + r[i + 1] else r[i])
    else if j + 1 == i then -r[i]
    else if j == i + 1 then -r[i + 1]
    else 0.0
  }

  function MeshMatrix(r: seq<real>): (m: Matrix)
    ensures IsMatrix(m, |r|, |r|)
  {
    seq(|r|, i requires 0 <= i < |r| => seq(|r|, j requires 0 <= j < |r| => MeshEntry(r, i, j)))
  }

  /** Only the first mesh holds the source. */
  function MeshConstants(voltage: real, n: nat): (b: Vector)
    ensures |b| == n
  {
    seq(n, i => if i == 0 then voltage else 0.0)
  }

  /** The system the circuit derives: none below two resistors; otherwise a
      1x1 sum for series, a diagonal system for parallel, the ladder for mesh. */
  function DeriveSystem(voltage: real, resistors: seq<real>, circuitType: Topology): (r: Option<LinearSystem>)
    ensures r.None? <==> |resistors| < 2
    ensures r.Some? ==> |r.value.b| == (if circuitType == Series then 1 else |resistors|)
    ensures r.Some? ==> IsMatrix(r.value.a, |r.value.b|, |r.value.b|)
  {
    var n := |resistors|;
    if n < 2 then None
    else match circuitType
      case Series => Some(LinearSystem([[Sum(resistors)]], [voltage]))
      case Parallel => Some(LinearSystem(ParallelMatrix(resistors), seq(n, i => voltage)))
      case Mesh => Some(LinearSystem(MeshMatrix(resistors), MeshConstants(voltage, n)))
  }

  class Circuit {
    var voltage: real
    var resistors: seq<real>
    var circuitType: Topology
    /** Registered observers, in registration order. */
    var observers: seq<ObserverId>
    /** Every update callback made so far, in call order. */
    var updates: seq<Update>
    /** How many times the observers have been notified. */
    var notifications: nat

    /** Only positive resistances are ever admitted. */
    ghost predicate Valid()
      reads this
    {
      AllPositive(resistors)
    }

    function Snapshot(): State
      reads this`voltage, this`resistors, this`circuitType
    {
      State(voltage, resistors, circuitType)
    }

    function System(): Option<LinearSystem>
      reads this`voltage, this`resistors, this`circuitType
    {
      DeriveSystem(voltage, resistors, circuitType)
    }

    /** The circuit as the application starts it: 15 V, resistors 7, 5 and 2, in series. */
    constructor ()
      ensures Valid()
      ensures voltage == 15.0 && resistors == [7.0, 5.0, 2.0] && circuitType == Series
      ensures observers == [] && updates == [] && notifications == 0
    {
      voltage := 15.0;
      resistors := [7.0, 5.0, 2.0];
      circuitType := Series;
      observers := [];
      updates := [];
      notifications := 0;
    }

    method AddObserver(o: ObserverId)
      modifies this`observers
      ensures observers == old(observers) + [o]
    {
      observers := observers + [o];
    }

    /** Calls every observer's update, in registration order, with the current state. */
    method NotifyObservers()
      modifies this`updates, this`notifications
      ensures updates == old(updates) + Deliveries(observers, Snapshot())
      ensures notifications == old(notifications) + 1
    {
      var s := Snapshot();
      for k := 0 to |observers|
        invariant updates == old(updates) + Deliveries(observers[..k], s)
        invariant notifications == old(notifications)
      {
        updates := updates + [Update(observers[k], s)];
        assert Deliveries(observers[..k + 1], s) == Deliveries(observers[..k], s) + [Update(observers[k], s)];
      }
      assert observers[..|observers|] == observers;
      notifications := notifications + 1;
    }

    method SetVoltage(v: real)
      modifies this`voltage, this`updates, this`notifications
      ensures voltage == v
      ensures updates == old(updates) + Deliveries(observers, Snapshot())
      ensures notifications == old(notifications) + 1
    {
      voltage := v;
      NotifyObservers();
    }

    /** Only the three known names change the topology (and notify). */
    method SetCircuitType(name: string)
      modifies this`circuitType, this`updates, this`notifications
      ensures circuitType == if TopologyNamed(name).Some? then TopologyNamed(name).value else old(circuitType)
      ensures TopologyNamed(name).Some? ==>
        updates == old(updates) + Deliveries(observers, Snapshot()) && notifications == old(notifications) + 1
      ensures TopologyNamed(name).None? ==> updates == old(updates) && notifications == old(notifications)
    {
      var t := TopologyNamed(name);
      if t.Some? {
        circuitType := t.value;
        NotifyObservers();
      }
    }

    /** A non-positive resistance is ignored without notification. */
    method AddResistor(resistance: real)
      modifies this`resistors, this`updates, this`notifications
      ensures old(Valid()) ==> Valid()
      ensures resistors == if resistance > 0.0 then old(resistors) + [resistance] else old(resistors)
      ensures resistance > 0.0 ==>
        updates == old(updates) + Deliveries(observers, Snapshot()) && notifications == old(notifications) + 1
      ensures resistance <= 0.0 ==> updates == old(updates) && notifications == old(notifications)
    {
      if resistance > 0.0 {
        resistors := resistors + [resistance];
        NotifyObservers();
      }
    }

    /** An index outside `[0, |resistors|)` is ignored without notification. */
    method RemoveResistor(index: int)
      modifies this`resistors, this`updates, this`notifications
      ensures old(Valid()) ==> Valid()
      ensures resistors == if 0 <= index < |old(resistors)|
                           then old(resistors)[..index] + old(resistors)[index + 1..]
                           else old(resistors)
      ensures 0 <= index < |old(resistors)| ==>
        updates == old(updates) + Deliveries(observers, Snapshot()) && notifications == old(notifications) + 1
      ensures !(0 <= index < |old(resistors)|) ==> updates == old(updates) && notifications == old(notifications)
    {
      if 0 <= index < |resistors| {
        resistors := resistors[..index] + resistors[index + 1..];
        NotifyObservers();
      }
    }

    /** Fills freshly made lists entry by entry, as the three topologies prescribe;
        the circuit itself is only read. */
    method BuildMeshSystem() returns (r: Option<LinearSystem>)
      ensures r == DeriveSystem(voltage, resistors, circuitType)
    {
      var n := |resistors|;
      if n < 2 {
        return None;
      }
      var a: Matrix;
      var b: Vector;
      if circuitType == Series {
        a := [[Sum(resistors)]];
        b := [voltage];
      } else if circuitType == Parallel {
        a := Zeros(n);
        for i := 0 to n
          invariant IsMatrix(a, n, n)
          invariant forall p, q :: 0 <= p < n && 0 <= q < n ==>
            a[p][q] == if p == q && p < i then resistors[p] else 0.0
        {
          a := a[i := a[i][i := resistors[i]]];
        }
        MatrixEqual(a, ParallelMatrix(resistors), n, n);
        var v := voltage;
        b := seq(n, i => v);
      } else {
        var meshes := n;
        a := Zeros(meshes);
        b := seq(meshes, i => 0.0);
        b := b[0 := voltage];
        for i := 0 to meshes
          invariant IsMatrix(a, n, n)
          invariant forall p, q :: 0 <= p < n && 0 <= q < n ==>
            a[p][q] == if p < i then MeshEntry(resistors, p, q) else 0.0
        {
          if i == 0 {
            a := a[i := a[i][i := resistors[i] + (if i + 1 < n then resistors[i + 1] else 0.0)]];
          } else if i == meshes - 1 {
            a := a[i := a[i][i := resistors[i]]];
          } else {
            a := a[i := a[i][i := resistors[i] + (if i + 1 < n then resistors[i + 1] else 0.0)]];
          }
          if i > 0 {
            a := a[i := a[i][i - 1 := -resistors[i]]];
          }
          if i < meshes - 1 {
            a := a[i := a[i][i + 1 := -(if i + 1 < n then resistors[i + 1] else 0.0)]];
          }
        }
        MatrixEqual(a, MeshMatrix(resistors), n, n);
        assert b == MeshConstants(voltage, n);
      }
      r := Some(LinearSystem(a, b));
    }
  }

  // ---------------------------------------------------------------------------
  // What the derived systems are and what their solutions are

  /** The ladder matrix is symmetric and tridiagonal, with the resistances of
      adjacent meshes on and beside its diagonal. */
  lemma MeshMatrixShape(r: seq<real>)
    requires |r| >= 2
    ensures var m, n := MeshMatrix(r), |r|;
      && (forall i, j :: 0 <= i < n && 0 <= j < n ==> m[i][j] == m[j][i])
      && (forall i, j :: 0 <= i < n && 0 <= j < n && (i + 1 < j || j + 1 < i) ==> m[i][j] == 0.0)
      && (forall i :: 0 <= i < n - 1 ==> m[i][i] == r[i] + r[i + 1])
      && m[n - 1][n - 1] == r[n - 1]
      && (forall i :: 0 < i < n ==> m[i][i - 1] == -r[i])
      && (forall i :: 0 <= i < n - 1 ==> m[i][i + 1] == -r[i + 1])
  {
  }

  /** Parallel branches obey Ohm's law: the diagonal system's only solution is
      `I_i == V / R_i`. */
  lemma ParallelCurrents(r: seq<real>, voltage: real, x: Vector)
    requires forall i :: 0 <= i < |r| ==> r[i] != 0.0
    ensures Solves(ParallelMatrix(r), seq(|r|, i => voltage), x) <==>
            |x| == |r| && forall i :: 0 <= i < |r| ==> x[i] == voltage / r[i]
  {
    var n, m, b := |r|, ParallelMatrix(r), seq(|r|, i => voltage);
    if |x| == n {
      forall i | 0 <= i < n
        ensures Dot(m[i], x, n) == b[i] <==> x[i] == voltage / r[i]
      {
        DotUnit(m[i], x, i, r[i], n);
        assert Dot(m[i], x, n) == r[i] * x[i] == x[i] * r[i];
        Quotient(x[i], voltage, r[i]);
      }
    }
  }

  /** A single equation `s * I == V` with `s != 0` has the one solution `V / s`. */
  lemma SingleEquation(s: real, voltage: real, x: Vector)
    requires s != 0.0
    ensures Solves([[s]], [voltage], x) <==> x == [voltage / s]
  {
    var a := [[s]];
    if |x| == 1 {
      assert IsMatrix(a, 1, 1) && a[0] == [s];
      assert Dot(a[0], x, 1) == a[0][0] * x[0];
      assert a[0][0] * x[0] == x[0] * s;
      Quotient(x[0], voltage, s);
      assert Solves(a, [voltage], x) <==> x[0] * s == voltage;
      assert x == [voltage / s] <==> x[0] == voltage / s;
    }
  }

  /** In series one current flows, `V / sum(R)`, and the sum is never zero. */
  lemma SeriesCurrent(r: seq<real>, voltage: real, x: Vector)
    requires |r| >= 1 && AllPositive(r)
    ensures Sum(r) > 0.0
    ensures Solves([[Sum(r)]], [voltage], x) <==> x == [voltage / Sum(r)]
  {
    SumPositive(r);
    SingleEquation(Sum(r), voltage, x);
  }

  /** Any solution of a derived system is the current Ohm's law gives:
      `V / sum(R)` in series, `V / R_i` through each parallel branch, and
      `V / R_0` in every mesh of the ladder. */
  lemma SystemCurrents(voltage: real, resistors: seq<real>, t: Topology, x: Vector)
    requires |resistors| >= 2 && AllPositive(resistors)
    requires var s := DeriveSystem(voltage, resistors, t).value; Solves(s.a, s.b, x)
    ensures Sum(resistors) > 0.0
    ensures t == Series ==> x == [voltage / Sum(resistors)]
    ensures t == Parallel ==>
      |x| == |resistors| && forall i :: 0 <= i < |resistors| ==> x[i] == voltage / resistors[i]
    ensures t == Mesh ==> x == seq(|resistors|, _ => voltage / resistors[0])
  {
    SumPositive(resistors);
    match t
    case Series => SeriesCurrent(resistors, voltage, x);
    case Parallel => ParallelCurrents(resistors, voltage, x);
    case Mesh => MeshCurrents(resistors, voltage, x);
  }

  /** The three systems of the circuit as the application starts it
      (15 V; resistors 7, 5 and 2). */
  lemma DefaultSystems()
    ensures DeriveSystem(15.0, [7.0, 5.0, 2.0], Series) == Some(LinearSystem([[14.0]], [15.0]))
    ensures DeriveSystem(15.0, [7.0, 5.0, 2.0], Parallel) ==
      Some(LinearSystem([[7.0, 0.0, 0.0], [0.0, 5.0, 0.0], [0.0, 0.0, 2.0]], [15.0, 15.0, 15.0]))
    ensures DeriveSystem(15.0, [7.0, 5.0, 2.0], Mesh) ==
      Some(LinearSystem([[12.0, -5.0, 0.0], [-5.0, 7.0, -2.0], [0.0, -2.0, 2.0]], [15.0, 0.0, 0.0]))
  {
    var r := [7.0, 5.0, 2.0];
    MatrixEqual(ParallelMatrix(r), [[7.0, 0.0, 0.0], [0.0, 5.0, 0.0], [0.0, 0.0, 2.0]], 3, 3);
    MatrixEqual(MeshMatrix(r), [[12.0, -5.0, 0.0], [-5.0, 7.0, -2.0], [0.0, -2.0, 2.0]], 3, 3);
    assert seq(3, i => 15.0) == [15.0, 15.0, 15.0];
    assert MeshConstants(15.0, 3) == [15.0, 0.0, 0.0];
  }

  /** The default mesh system has exactly one solution: 15/7 A in every mesh. */
  lemma DefaultMeshCurrents(x: Vector)
    ensures Solves([[12.0, -5.0, 0.0], [-5.0, 7.0, -2.0], [0.0, -2.0, 2.0]], [15.0, 0.0, 0.0], x) <==>
            x == [15.0 / 7.0, 15.0 / 7.0, 15.0 / 7.0]
  {
    var a := [[12.0, -5.0, 0.0], [-5.0, 7.0, -2.0], [0.0, -2.0, 2.0]];
    var b := [15.0, 0.0, 0.0];
    var c := 15.0 / 7.0;
    if |x| == 3 {
      Dot3(a[0], x);
      Dot3(a[1], x);
      Dot3(a[2], x);
      if Solves(a, b, x) {
        assert 12.0 * x[0] - 5.0 * x[1] == 15.0;
        assert -5.0 * x[0] + 7.0 * x[1] - 2.0 * x[2] == 0.0;
        assert -2.0 * x[1] + 2.0 * x[2] == 0.0;
        assert x[0] == c && x[1] == c && x[2] == c;
        assert x == [c, c, c];
      }
      if x == [c, c, c] {
        assert forall i :: 0 <= i < 3 ==> Dot(a[i], x, 3) == b[i];
      }
    }
  }

  /** A row of the ladder matrix against `x` has at most three terms. */
  lemma {:induction false} MeshDot(r: seq<real>, i: nat, x: Vector, k: nat)
    requires i < |r| && k <= |r| && |x| == |r|
    ensures Dot(MeshMatrix(r)[i], x, k) ==
      (if 0 < i && i - 1 < k then -r[i] * x[i - 1] else 0.0)
      + (if i < k then MeshEntry(r, i, i) * x[i] else 0.0)
      + (if i + 1 < k then -r[i + 1] * x[i + 1] else 0.0)
  {
    if k > 0 {
      MeshDot(r, i, x, k - 1);
      var j := k - 1;
      var row := MeshMatrix(r)[i];
      assert Dot(row, x, k) == Dot(row, x, j) + row[j] * x[j];
      if j + 1 == i {
        assert row[j] * x[j] == -r[i] * x[i - 1];
      } else if j == i {
        assert row[j] * x[j] == MeshEntry(r, i, i) * x[i];
      } else if j == i + 1 {
        assert row[j] * x[j] == -r[i + 1] * x[i + 1];
      } else {
        assert row[j] == 0.0;
      }
    }
  }

  /** One ladder equation on plain numbers: the mesh current `b` through its
      left resistor `p` (shared with the current `a`) and its right resistor
      `q` (shared with the current `e`). */
  function Ladder(p: real, q: real, a: real, b: real, e: real): real
  {
    -p * a + (p + q) * b + -q * e
  }

  /** Row `i` of the ladder matrix against `x` is a ladder equation; the first
      mesh has no left neighbour and the last no right one. */
  lemma MeshRow(r: seq<real>, x: Vector, i: nat)
    requires |r| >= 2 && i < |r| && |x| == |r|
    ensures Dot(MeshMatrix(r)[i], x, |r|) ==
      Ladder(r[i], if i + 1 < |r| then r[i + 1] else 0.0,
             if 0 < i then x[i - 1] else 0.0, x[i], if i + 1 < |r| then x[i + 1] else 0.0)
  {
    MeshDot(r, i, x, |r|);
  }

  /** A balanced ladder equation whose right side carries the mesh's own
      current (or has no resistor) makes the left current equal it. */
  lemma LadderEqual(p: real, q: real, a: real, b: real, e: real)
    requires p != 0.0 && (b == e || q == 0.0) && Ladder(p, q, a, b, e) == 0.0
    ensures a == b
  {
    assert Ladder(p, q, a, b, e) == p * (b - a) + q * (b - e);
    assert p * (b - a) == 0.0;
  }

  /** Equal currents on both sides of a shared resistor cancel it out. */
  lemma LadderConstant(p: real, q: real, c: real)
    ensures Ladder(p, q, c, c, c) == 0.0
    ensures Ladder(p, q, 0.0, c, c) == p * c
  {
    assert Ladder(p, q, c, c, c) == (-p + (p + q) - q) * c;
    assert Ladder(p, q, 0.0, c, c) == ((p + q) - q) * c;
  }

  /** Working up from the last mesh: the equation of mesh `i` makes its
      current equal to that of mesh `i - 1`, given that mesh `i + 1` already
      carries the current of mesh `i`. */
  lemma {:induction false} MeshTail(r: seq<real>, voltage: real, x: Vector, i: nat)
    requires |r| >= 2 && AllPositive(r)
    requires Solves(MeshMatrix(r), MeshConstants(voltage, |r|), x)
    requires 1 <= i < |r|
    ensures forall j :: i - 1 <= j < |r| ==> x[j] == x[i - 1]
    decreases |r| - i
  {
    var n := |r|;
    MeshRow(r, x, i);
    assert Dot(MeshMatrix(r)[i], x, n) == 0.0;
    if i == n - 1 {
      LadderEqual(r[i], 0.0, x[i - 1], x[i], 0.0);
    } else {
      MeshTail(r, voltage, x, i + 1);
      LadderEqual(r[i], r[i + 1], x[i - 1], x[i], x[i + 1]);
    }
  }

  /** Mesh `i` of the ladder balances when every mesh carries the same
      current `c`, the first one with `R_0 * c == V`. */
  lemma MeshRowBalanced(r: seq<real>, voltage: real, c: real, i: nat)
    requires |r| >= 2 && i < |r| && r[0] * c == voltage
    ensures Dot(MeshMatrix(r)[i], seq(|r|, _ => c), |r|) == MeshConstants(voltage, |r|)[i]
  {
    var n := |r|;
    var x := seq(n, _ => c);
    MeshRow(r, x, i);
    if i == 0 {
      assert x[0] == c && x[1] == c;
      LadderConstant(r[0], r[1], c);
    } else if i + 1 < n {
      assert x[i - 1] == c && x[i] == c && x[i + 1] == c;
      LadderConstant(r[i], r[i + 1], c);
    } else {
      assert x[i - 1] == c && x[i] == c;
      LadderConstant(r[i], 0.0, c);
      assert Ladder(r[i], 0.0, c, c, 0.0) == Ladder(r[i], 0.0, c, c, c);
    }
  }

  /** The first mesh's equation, once the second mesh carries the first
      mesh's current, is `R_0 * I_0 == V`. */
  lemma MeshHead(r: seq<real>, voltage: real, x: Vector)
    requires |r| >= 2 && |x| == |r| && x[1] == x[0]
    requires Dot(MeshMatrix(r)[0], x, |r|) == voltage
    ensures x[0] * r[0] == voltage
  {
    MeshRow(r, x, 0);
    LadderConstant(r[0], r[1], x[0]);
  }

  /** With N meshes for N resistors, the last mesh holds only the resistor it
      shares with its neighbour. Every mesh then carries the same current, and
      the system's one solution is `V / R_0` in every mesh, whatever the other
      resistances are. */
  lemma MeshCurrents(r: seq<real>, voltage: real, x: Vector)
    requires |r| >= 2 && AllPositive(r)
    ensures Solves(MeshMatrix(r), MeshConstants(voltage, |r|), x) <==>
            x == seq(|r|, _ => voltage / r[0])
  {
    var n, m, b := |r|, MeshMatrix(r), MeshConstants(voltage, |r|);
    var c := voltage / r[0];
    Quotient(c, voltage, r[0]);
    if Solves(m, b, x) {
      MeshTail(r, voltage, x, 1);
      MeshHead(r, voltage, x);
      Quotient(x[0], voltage, r[0]);
      assert x == seq(n, _ => c);
    }
    if x == seq(n, _ => c) {
      forall i | 0 <= i < n
        ensures Dot(m[i], x, n) == b[i]
      {
        MeshRowBalanced(r, voltage, c, i);
      }
    }
  }
}
