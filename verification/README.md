# Constraint evaluator of a STARK prover, modelled in Dafny

This project models the constraint-evaluation driver of the winterfell STARK prover
(`ConstraintEvaluator` in `prover/src/monolith/constraints/evaluator.rs`). The driver works in two stages.

- **Construction.** It builds the evaluator from an AIR (the computation's algebraic
  description) and a public coin. It collects the transition-constraint groups and the
  periodic-value table. It also builds the divisor list: the shared transition divisor
  comes first, then one divisor per boundary-constraint group, in the order the AIR returns
  the groups.
- **Evaluation.** At every step of the constraint-evaluation domain, it translates the step
  into an LDE-domain step and a domain value `x`. It reads the two-row trace frame there and
  writes one row of the evaluation table. Column 0 of the row is the merged transition
  value: the fold, from `ZERO`, of every transition group's merge of the raw AIR
  evaluations. Column `k + 1` is boundary group `k`'s value.

The table is filled in one of two ways: sequentially, or, with the `concurrent` feature on
and at least 8192 steps, fragment by fragment. Each fragment is a contiguous range of rows.

The files are:

- `field.dfy` (`Field`): the base and extension field elements are abstract types. The
  operations the driver uses (`ZERO`, `+`, `exp`, `E::from`) are opaque functions. No
  algebraic law is assumed, so every equality proved here holds term for term.
- `collaborators.dfy` (`Collaborators`): the AIR, the trace, the STARK domain, the public
  coin and the constraint groups. Every operation whose code lies outside the driver is an
  opaque function field.
- `table.dfy` (`Table`): the evaluation table, fragments and the tiling of a row range by
  fragments, the fragment split, and `next_power_of_two`.
- `evaluator.dfy` (`Evaluator`): the evaluator itself.

`ExpectedRow` is the independent reference for what the table must hold. It computes the
transition value from a freshly zeroed buffer, and it computes `x^d` afresh for every
boundary group. The imperative methods are proved against it. Those methods cache the
adjustment power, reuse buffers across steps, write rows one at a time, and fill fragment
by fragment.

## Model

| member | source | states |
|---|---|---|
| `Evaluator.New` | prover/src/monolith/constraints/evaluator.rs:40-85 | There is one divisor more than there are boundary groups. Divisor 0 is the transition divisor. Divisor `k + 1` is the divisor of the AIR's `k`-th boundary group, and prepared group `k` is built from that same AIR group, so group order is kept. The transition groups are the ones the AIR returns for the transition coefficient stream. |
| `Evaluator.EvaluateTransitionConstraints` | prover/src/monolith/constraints/evaluator.rs:240-264 | The merged value is the left fold, from `ZERO`, of every transition group's merge, in group order. It is `ZERO` when there are no groups. The raw evaluations are what the AIR produces from an all-zero buffer, so the result depends on the buffer's length only and never on its earlier contents. |
| `Evaluator.EvaluateBoundaryConstraints` | prover/src/monolith/constraints/evaluator.rs:270-291 | The caching loop gives every group `k` exactly the value it would get with its own power `x^(d_k)`, computed afresh. It writes slot `k` for every `k` the zip reaches and leaves later slots alone. At least one group is needed, because `boundary_constraints[0]` is read first. The power is computed once, plus once for each change of adjustment between neighbouring groups. |
| `Evaluator.AdjustmentChangesBound` | prover/src/monolith/constraints/evaluator.rs:279-287 | The caching never computes more powers than there are groups. |
| `Evaluator.AdjustmentChangesUniform` | prover/src/monolith/constraints/evaluator.rs:279-287 | The power is computed exactly once if and only if all groups share one degree adjustment. |
| `Evaluator.EvaluateStep` | prover/src/monolith/constraints/evaluator.rs:150-167 | One step, with reused buffers, produces the reference row. Column 0 is the transition value at the translated LDE step and `x`. Column `k + 1` is boundary group `k`'s value on the frame's current row. The row is as wide as the divisor list. |
| `Evaluator.EvaluateSequential` | prover/src/monolith/constraints/evaluator.rs:137-172 | Every row `step` in `[0, num_rows)` is written exactly once, in increasing order. Every row ends up equal to the reference row for its step, whatever the table held before. The divisors are unchanged. |
| `Evaluator.EvaluateFragment` | prover/src/monolith/constraints/evaluator.rs:194-231 | Fragment row `i` is evaluated at global step `i + offset`, with buffers of the fragment's own. Exactly the fragment's rows are written, each once and in increasing order, and each holds its reference row. Every row outside the fragment is left as it was. |
| `Evaluator.EvaluateFragments` | prover/src/monolith/constraints/evaluator.rs:188-233 | The fragments may be listed in any order. When they partition `[0, num_rows)`, every row is written exactly once, no row is written twice, and the table equals the sequential one. |
| `Evaluator.FragmentWritesDisjoint` | prover/src/monolith/constraints/evaluator.rs:188-191 | In a partition, a fragment's rows are never written by another fragment, earlier or later. So no row is written twice. |
| `Evaluator.EvaluateConcurrent` | prover/src/monolith/constraints/evaluator.rs:179-234 | The table is split into fragments that partition its rows. Over a power-of-two domain there are exactly `num_threads.next_power_of_two()` of them. Every row is written exactly once, and the result is the same table the sequential fill produces. |
| `Evaluator.Evaluate` | prover/src/monolith/constraints/evaluator.rs:92-131 | It panics with the length error if and only if the trace length differs from the LDE domain size. It panics on the boundary index if and only if there is no boundary group and at least one step. Either panic leaves no row written. Otherwise the concurrent path runs exactly when the `concurrent` feature is on and there are at least 8192 steps. Either way, the result has the evaluator's divisors, in column order, and one reference row per step, each written exactly once. So the table does not depend on the path, and below the threshold the concurrent configuration falls back to the sequential fill. |
| `Table.Fragments` | prover/src/monolith/constraints/evaluator.rs:186-189 | The fragments tile the table's rows contiguously, with no gap and no overlap. There are exactly as many fragments as requested when the count divides the row count. |
| `Table.TilesPartition` | prover/src/monolith/constraints/evaluator.rs:188-191 | In a tiling, every row belongs to exactly one fragment. |
| `Table.TilesArePartitions` | prover/src/monolith/constraints/evaluator.rs:188-191 | A contiguous tiling listed in row order is a partition in the order-free sense: fragments lie inside the table, and every row lies in exactly one of them. |
| `Table.FragmentCount` | prover/src/monolith/constraints/evaluator.rs:186-189 | Over a power-of-two domain, the split yields exactly `next_power_of_two(num_threads)` fragments. |
| `Table.NextPowerOfTwo` | prover/src/monolith/constraints/evaluator.rs:186 | The result is the smallest power of two that is at least the argument. |
| `Table.Chunks` | prover/src/monolith/constraints/evaluator.rs:189 | The chunks tile their range. Each chunk has between 1 and `size` rows, and only the last chunk may be shorter. |
| `Table.ConstraintEvaluationTable.UpdateRow` | prover/src/monolith/constraints/evaluator.rs:169-170 | Recording a row at `step` overwrites exactly row `step` with the given evaluations. Every other row and the divisors are kept, and the table keeps its number of rows. |

## Left out

- Rayon's thread pool and `par_iter_mut`. Fragments are processed one after another, in whatever order they are listed, which is the sequential meaning of the fan-out. Disjointness of the fragments (`Partitions`, `FragmentWritesDisjoint`) stands in for the absence of races.
- Debug-only degree checking (`transition_constraint_degrees`, `update_transition_evaluations`, `validate_transition_degrees`). It depends on polynomial interpolation that is not part of this model.
- Field arithmetic, `exp` and `E::from`. These are opaque functions over abstract types.
- The bodies of `ConstraintDivisor::from_transition`, `BoundaryConstraintGroup::new` (and its twiddle `HashMap`), `PeriodicValueTable`, `TraceTable::read_frame_into`, `StarkDomain::ce_step_to_lde_info`, `merge_evaluations`, `group.evaluate` and `air.evaluate_transition`. Each is an opaque pure function. `read_frame_into` is modelled as returning the whole frame it overwrites. The twiddle cache is taken not to affect the groups it builds.
- `New`: the AIR's `evaluate_transition` is required not to change the length of the slice it fills (`KeepsBufferLength`). Rust's slice type guarantees this.
- The public coin's PRNGs. The two coefficient streams are opaque values handed to the AIR.
- `ConstraintEvaluationTable::new` and `ConstraintEvaluationTable::fragments`: their code is not part of this model. `NewTable` builds `ceDomainSize` rows of `ZERO`, which no proof reads. `Fragments` cuts the rows into chunks of `num_rows / num_fragments` rows.
- `Evaluate`: requires the concurrent path's fragment count to be at most the number of rows, because the behaviour of `fragments` for a zero chunk size is not modelled.
- `EvaluateSequential`, `EvaluateFragment`, `EvaluateFragments`, `EvaluateConcurrent`: require at least one boundary group when there are rows, where the source panics at its first step. That panic is modelled once, in `Evaluate`, as `BoundaryIndexOutOfBounds`. It happens before the first `update_row`, and the transition evaluation before it has no visible effect.
- `UpdateRow`: the code of `ConstraintEvaluationTable::update_row` and of the fragment's `update_row` is not part of this model. `update_row(step, row)` is taken to overwrite exactly row `step`, and a fragment's `update_row(i, row)` exactly table row `offset + i`; no other row changes. `EvaluateFragment` records fragment row `i` as `UpdateRow(i + offset, …)` on the whole table.
- `usize` overflow in `next_power_of_two` and in `i + fragment.offset()`. The integers here are unbounded, and thread counts and row offsets stay far below the limit.
