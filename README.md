# Resistive circuit solver — verified model

This project models the core of a small desktop circuit simulator and
proves properties of the model.

- **The circuit.** It holds a source voltage, an ordered list of
  resistances, and a topology: series (`serie`), parallel (`paralelo`) or
  ladder of meshes (`mallas`).
- **Mutators.** Guarded mutators change that state and notify the
  registered observers.
- **The system builder.** From the state, the circuit derives a square
  linear system `A·x = b` whose solution is the vector of currents.
- **The strategies.** Two interchangeable strategies solve the system:
  - Cramer's rule, with closed-form 1×1 and 2×2 determinants;
  - Gauss-Jordan elimination with partial pivoting on the augmented matrix.

  Each returns no result when there is no system, or when a determinant or
  pivot falls below the singularity threshold `1e-10`.

Numbers are exact `real`s. The threshold is the real `1/10^10`.

Files:
- `linear_algebra.dfy` (module `LinearAlgebra`):
  - matrices and vectors, and what it means to solve a system;
  - the elementary row operations, with proofs that each keeps the solution set;
  - the determinant by cofactor expansion, with its 1×1/2×2 closed forms;
  - the Cramer vector, with proofs for one and two unknowns.
- `circuit.dfy` (module `Circuits`):
  - the `Circuit` class, with its fields, mutators and observer log;
  - the derived system, as a function `DeriveSystem` and as the loop-based
    method `BuildMeshSystem`;
  - lemmas about what the systems' solutions are.
- `elimination.dfy` (module `Elimination`):
  - the Gauss-Jordan reduction stated on values: pivot choice, row exchange,
    normalisation and elimination column by column, stopping at the first
    pivot below the threshold;
  - what that reduction keeps and what its result means.
- `solvers.dfy` (module `Strategies`):
  - Cramer's rule;
  - Gauss-Jordan elimination in place on a `real` two-dimensional array;
  - the two strategies applied to a circuit.

What is proved, in short:
- Every mutator's effect and its notification behaviour.
- The exact shape of each derived system.
- Gauss-Jordan in place on the array does exactly the reduction stated on
  values, step by step. It gives no result precisely when, at some column,
  the pivot brought to the diagonal is below the threshold, and then every
  candidate pivot of that column is below it too. Otherwise it returns the
  last column of the reduced matrix. The reduction keeps the solution set
  and turns the reduced columns into unit columns, so whatever it returns
  solves `A·x = b`.
- Cramer's result is `det(A_i)/det(A)`. For one and two unknowns, that
  vector is the one and only solution, so the two strategies agree there.

Which currents the systems have:
- Series: the one current is `V / ΣR`.
- Parallel: branch `i` carries `V / R_i`.
- Mesh: the code builds N meshes for N resistors. Its docstring describes
  N-1 meshes instead; the model follows the code. The last mesh then holds
  only the resistor it shares with its neighbour. As a result, every mesh
  current equals `V / R_0`, whatever the other resistances are.

## Model

| member | source | states |
|---|---|---|
| Circuits.TopologyNamed | paradigmasFinal/models/circuit.py:44 | exactly the names `serie`, `paralelo`, `mallas` are accepted, each naming its own topology |
| Circuits.Circuit.constructor | paradigmasFinal/models/circuit.py:30-37 | a new circuit has 15 V, resistors 7, 5, 2, series topology, no observers and no notifications |
| Circuits.Circuit.AddObserver | paradigmasFinal/models/circuit.py:12-13 | the observer is appended to the registration list |
| Circuits.Circuit.NotifyObservers | paradigmasFinal/models/circuit.py:15-17 | every registered observer receives one update with the current state, in registration order |
| Circuits.Circuit.SetVoltage | paradigmasFinal/models/circuit.py:39-41 | the voltage becomes the argument, nothing else in the circuit changes, and observers are notified once |
| Circuits.Circuit.SetCircuitType | paradigmasFinal/models/circuit.py:43-46 | a known name sets the topology and notifies once; any other name changes nothing and notifies no one |
| Circuits.Circuit.AddResistor | paradigmasFinal/models/circuit.py:48-51 | a positive resistance is appended at the end with one notification; a non-positive one changes nothing and notifies no one; all resistances stay positive |
| Circuits.Circuit.RemoveResistor | paradigmasFinal/models/circuit.py:53-56 | an index in range removes exactly that element, keeps the others in order and notifies once; any other index changes nothing |
| Circuits.DeriveSystem | paradigmasFinal/models/circuit.py:71-116 | no system below two resistors; otherwise a square system with one unknown in series and one per resistor in the other topologies |
| Circuits.Circuit.BuildMeshSystem | paradigmasFinal/models/circuit.py:58-116 | the lists filled entry by entry are exactly the derived system, and the circuit is not changed |
| Circuits.MeshMatrixShape | paradigmasFinal/models/circuit.py:92-114 | the ladder matrix is symmetric and tridiagonal, with `R_i + R_{i+1}` on the diagonal, `R_{n-1}` in the last corner and `-R_i` beside the diagonal |
| Circuits.SeriesCurrent | paradigmasFinal/models/circuit.py:80-83 | with positive resistances the series sum is positive and the series equation's only solution is `V / ΣR` |
| Circuits.ParallelCurrents | paradigmasFinal/models/circuit.py:85-90 | the diagonal system is solved exactly by the branch currents `V / R_i` |
| Circuits.MeshTail | paradigmasFinal/models/circuit.py:101-114 | in a solution of the ladder system, each mesh from `i - 1` on carries the current of mesh `i - 1` |
| Circuits.MeshCurrents | paradigmasFinal/models/circuit.py:94-114 | with positive resistances the ladder system's only solution is `V / R_0` in every mesh |
| Circuits.SystemCurrents | paradigmasFinal/models/circuit.py:71-114 | any solution of a derived system is the series, parallel or mesh current above |
| Circuits.DefaultSystems | paradigmasFinal/models/circuit.py:80-114 | for 15 V and resistors 7, 5, 2 the systems are `[[14]]·x=[15]`, `diag(7,5,2)·x=[15,15,15]` and `[[12,-5,0],[-5,7,-2],[0,-2,2]]·x=[15,0,0]` |
| Circuits.DefaultMeshCurrents | paradigmasFinal/models/circuit.py:92-114 | the default mesh system is solved by exactly `[15/7, 15/7, 15/7]` |
| LinearAlgebra.Det1 | paradigmasFinal/strategies/resolution_strategies.py:55-56 | the determinant of a 1×1 matrix is its entry |
| LinearAlgebra.Det2 | paradigmasFinal/strategies/resolution_strategies.py:59-60 | the determinant of a 2×2 matrix is `m00·m11 − m01·m10` |
| Strategies.Determinant | paradigmasFinal/strategies/resolution_strategies.py:50-63 | the closed forms for 1×1 and 2×2 agree with the cofactor determinant used for every size |
| LinearAlgebra.ReplaceColumn | paradigmasFinal/strategies/resolution_strategies.py:34-35 | the copy has column `j` equal to `b` and every other entry as in `A` |
| Strategies.CramerSystem | paradigmasFinal/strategies/resolution_strategies.py:22-44 | no result exactly when `\|det A\| < 1e-10`; otherwise entry `i` is `det(A_i)/det(A)`, which solves the system when it has at most two unknowns |
| LinearAlgebra.CramerSolvesSmall | paradigmasFinal/strategies/resolution_strategies.py:31-44 | for one or two unknowns and `det A ≠ 0`, the Cramer vector solves `A·x = b` |
| LinearAlgebra.SmallSolutionIsCramer | paradigmasFinal/strategies/resolution_strategies.py:31-44 | for one or two unknowns and `det A ≠ 0`, every solution equals the Cramer vector |
| Strategies.CramerSolve | paradigmasFinal/strategies/resolution_strategies.py:11-48 | no result without a system; otherwise the result of Cramer's rule on the circuit's system |
| Strategies.AugmentedArray | paradigmasFinal/strategies/resolution_strategies.py:80 | the fresh n×(n+1) array holds `A` with `b` as its last column |
| LinearAlgebra.AugmentSolves | paradigmasFinal/strategies/resolution_strategies.py:80 | solving the augmented matrix is solving `A·x = b` |
| Strategies.FindPivot | paradigmasFinal/strategies/resolution_strategies.py:84-88 | the chosen row has the largest magnitude in column `i` from row `i` on, every earlier candidate is strictly smaller, and it is the row `PivotOf` picks |
| Elimination.PivotOfIsPivotRow | paradigmasFinal/strategies/resolution_strategies.py:84-88 | the scan that replaces its candidate only on a strictly larger magnitude ends on the first row of largest magnitude |
| LinearAlgebra.PivotRowUnique | paradigmasFinal/strategies/resolution_strategies.py:86-88 | because ties keep the earlier row, the pivot row is unique |
| Strategies.SwapRowsInPlace | paradigmasFinal/strategies/resolution_strategies.py:92 | the array afterwards is the old one with rows `i` and `j` exchanged |
| LinearAlgebra.SwapKeepsSolutions | paradigmasFinal/strategies/resolution_strategies.py:92 | exchanging two rows keeps the solution set |
| LinearAlgebra.SwapKeepsUnitColumns | paradigmasFinal/strategies/resolution_strategies.py:90-92 | exchanging rows below the reduced columns keeps those columns unit columns |
| Strategies.PivotColumn | paradigmasFinal/strategies/resolution_strategies.py:84-92 | the array becomes the old one with its pivot row for column `i` exchanged into row `i`, and unchanged when that row is `i` itself |
| Elimination.PivotedKeeps | paradigmasFinal/strategies/resolution_strategies.py:84-92 | bringing the pivot row up keeps the solutions and the reduced columns, and no candidate of the column exceeds the new diagonal entry |
| Strategies.DivideRowInPlace | paradigmasFinal/strategies/resolution_strategies.py:99 | row `i` is divided by the pivot and nothing else changes |
| LinearAlgebra.DivideKeepsSolutions | paradigmasFinal/strategies/resolution_strategies.py:99 | dividing a row by a non-zero number keeps the solution set |
| LinearAlgebra.DivideKeepsUnitColumns | paradigmasFinal/strategies/resolution_strategies.py:98-99 | normalising the pivot row puts 1 on the diagonal and keeps the reduced columns |
| Strategies.EliminateInPlace | paradigmasFinal/strategies/resolution_strategies.py:104-105 | row `k` becomes row `k` minus `factor` times row `i`, and nothing else changes |
| LinearAlgebra.EliminateKeepsSolutions | paradigmasFinal/strategies/resolution_strategies.py:104-105 | subtracting a multiple of another row keeps the solution set |
| LinearAlgebra.EliminateKeepsUnitColumns | paradigmasFinal/strategies/resolution_strategies.py:101-105 | eliminating with the unit pivot row clears entry `(k, i)` and keeps the reduced columns |
| Strategies.ClearColumn | paradigmasFinal/strategies/resolution_strategies.py:98-105 | the array becomes the old one with row `i` divided by its pivot and then each other row, top to bottom, minus its entry in column `i` times the new row `i` |
| Elimination.EliminateUpToKeeps | paradigmasFinal/strategies/resolution_strategies.py:101-105 | eliminating with a unit pivot row keeps the solutions, the reduced columns and the pivot row, and zeroes column `i` in every row done so far |
| Elimination.ClearedKeeps | paradigmasFinal/strategies/resolution_strategies.py:98-105 | clearing column `i` keeps the solution set and makes column `i` a unit column too |
| Elimination.ReduceKeeps | paradigmasFinal/strategies/resolution_strategies.py:83-105 | the reduction keeps the solution set; it ends with the identity on the left, or stuck at a column with unit columns before it and every candidate pivot in it below `1e-10` |
| LinearAlgebra.IdentitySolvedByLastColumn | paradigmasFinal/strategies/resolution_strategies.py:107-110 | once the left block is the identity, the last column solves the augmented system |
| Elimination.GaussJordanSolves | paradigmasFinal/strategies/resolution_strategies.py:83-110 | the last column of the fully reduced matrix solves `A·x = b` |
| Elimination.GaussJordanStuck | paradigmasFinal/strategies/resolution_strategies.py:94-96 | no result means the reduction stopped at a column where, after pivoting, every candidate pivot is below `1e-10`, with the original solutions kept up to there |
| Elimination.GaussJordanOneUnknown | paradigmasFinal/strategies/resolution_strategies.py:83-110 | `5x = 5` gives `[1]` and `0x = 5` gives no result |
| Strategies.GaussJordanSystem | paradigmasFinal/strategies/resolution_strategies.py:73-110 | the in-place elimination returns exactly the reduction's result: none at the first pivot below `1e-10`, else the last column of the reduced matrix, which solves `A·x = b` |
| Strategies.GaussJordanSolve | paradigmasFinal/strategies/resolution_strategies.py:66-114 | no result without a system; otherwise exactly the reduction's result on the circuit's system, which solves it and is the series, parallel or mesh current |
| Strategies.StrategiesAgree | paradigmasFinal/strategies/resolution_strategies.py:22-110 | for at most two unknowns, when elimination succeeds and `\|det A\| ≥ 1e-10`, its result is the Cramer vector |
| Strategies.Solve | paradigmasFinal/strategies/resolution_strategies.py:5-8 | no result without a system; Cramer's strategy returns the Cramer vector of a system with `det A ≠ 0`, elimination returns the reduction's result; for at most two unknowns whatever either returns is the one solution, so both agree when both succeed |

## Left out

- Singleton mechanics are not modelled; the model works on one explicitly constructed circuit. These are `__new__`, `_initialized` and `get_instance` (paradigmasFinal/models/circuit.py:22-28 and 118-123).
- Observers are identified by number. Their callback is an entry in the circuit's update log rather than a call into GUI code.
- The topology is stored as a datatype, not a string. `SetCircuitType` parses the three names the code accepts, so the stored value is always one of them, as in the code.
- `np.linalg.det` for three or more unknowns is a library call. The cofactor-expansion determinant stands in for it.
- Strategies.CramerSystem: the claim that the Cramer vector solves the system is proved only for one and two unknowns. Cramer's rule in general needs the multilinearity of the determinant, which is not proved here.
- Strategies.CramerSolve: for the same reason, its "solves the system" clause covers at most two unknowns.
- Elimination.GaussJordanStuck: a failure is stated through the column where the reduction stopped, not as singularity of `A`. With the threshold, a non-singular system with a tiny pivot also fails, and the converse (a singular system always fails) would need determinant facts not proved here.
- Floating-point rounding is not modelled. Numbers are exact reals, so only the threshold comparisons remain of the numerical behaviour.
- The `try/except` handlers that print and return no result are not modelled. Over exact reals none of the modelled operations raises.
- The numeric strategy (`NumericStrategy`), the GUI, the controller, the translation table and the entry point are not part of this model. They wrap library routines or only present data.
