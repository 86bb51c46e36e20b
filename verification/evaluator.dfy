/**
 The constraint evaluator (`ConstraintEvaluator`) of the STARK prover: built once from
 an AIR and the public coin, it evaluates the transition and boundary constraints at
 every step of the constraint-evaluation domain and writes, per step, one row into the
 evaluation table: the merged transition value in column 0, then one merged value per
 boundary group.
 */
module Evaluator {
  import opened Field
  import opened Collaborators
  import opened Table

  /** Below this many constraint-evaluation steps the table is always filled sequentially. */
  const MinConcurrentDomainSize: nat := 8192

  /** The evaluator's state, fixed after construction. */
  datatype ConstraintEvaluator = ConstraintEvaluator(
    ops: FieldOps,
    air: Air,
    boundaryConstraints: seq<BoundaryConstraintGroup>,
    transitionConstraints: seq<TransitionConstraintGroup>,
    periodicRow: nat -> seq<Base>,
    divisors: seq<Divisor>
  ) {
    /** One divisor per table column: the transition divisor, then one per boundary group. */
    ghost predicate Valid() {
      && |divisors| == 1 + |boundaryConstraints|
      && air.KeepsBufferLength()
    }
  }

  /** The build features and thread pool the evaluation runs with: whether the `concurrent`
      feature is on, and the number of threads of the global pool. */
  datatype Config = Config(concurrent: bool, numThreads: nat)

  /** Why `evaluate` panics. */
  datatype EvaluationError =
    | TraceLengthMismatch       // the trace is not as long as the LDE domain
    | BoundaryIndexOutOfBounds  // boundary_constraints[0] with no boundary group

  /** The outcome of `evaluate`: the filled table, or the panic that stopped it. */
  datatype Outcome = Done(table: ConstraintEvaluationTable) | Panic(error: EvaluationError)

  // REFERENCE DEFINITIONS
  // ----------------------------------------------------------------------------------------------

  /** The raw transition evaluations the AIR produces from a zeroed buffer of `width` slots. */
  function TransitionEvaluations(ev: ConstraintEvaluator, frame: Frame, step: nat, width: nat): seq<Base>
  {
    ev.air.evaluateTransition(frame, ev.periodicRow(step), Zeros(ev.ops, width))
  }

  /** Each transition group's merge of the raw evaluations, in group order. */
  function GroupMerges(groups: seq<TransitionConstraintGroup>, evaluations: seq<Base>, x: Base): (ms: seq<Ext>)
    ensures |ms| == |groups|
  {
    seq(|groups|, k requires 0 <= k < |groups| => groups[k].merge(evaluations, x))
  }

  /** The merged transition value at a step: the sum, from ZERO, of every group's merge. */
  function TransitionValue(ev: ConstraintEvaluator, frame: Frame, x: Base, step: nat): Ext
  {
    var evaluations := TransitionEvaluations(ev, frame, step, ev.air.numTransitionConstraints);
    FoldSum(ev.ops, GroupMerges(ev.transitionConstraints, evaluations, x))
  }

  /** The degree-adjustment power `E::from(x^d)`. */
  function AdjustmentPower(ops: FieldOps, x: Base, d: nat): Ext
  {
    ops.lift(ops.exp(x, d))
  }

  /** The value of boundary group `k`, with its adjustment power computed afresh for it. */
  function BoundaryValue(ev: ConstraintEvaluator, k: nat, state: seq<Base>, x: Base, step: nat): Ext
    requires k < |ev.boundaryConstraints|
  {
    var group := ev.boundaryConstraints[k];
    group.evaluate(state, step, x, AdjustmentPower(ev.ops, x, group.degreeAdjustment))
  }

  /** The row the table must hold at `step`: column 0 the merged transition value, column
      `k + 1` the value of boundary group `k`, all at the LDE step and `x` the domain maps
      `step` to. */
  function ExpectedRow(ev: ConstraintEvaluator, trace: TraceTable, domain: StarkDomain, step: nat): seq<Ext>
  {
    var info := domain.ceStepToLdeInfo(step);
    var frame := trace.readFrame(info.0);
    [TransitionValue(ev, frame, info.1, step)]
      + seq(|ev.boundaryConstraints|, k requires 0 <= k < |ev.boundaryConstraints| =>
              BoundaryValue(ev, k, frame.current, info.1, step))
  }

  /** The rows `0 .. numRows - 1` of the table, each as `ExpectedRow` defines it. */
  function ExpectedRows(ev: ConstraintEvaluator, trace: TraceTable, domain: StarkDomain, numRows: nat): seq<seq<Ext>>
  {
    seq(numRows, s requires 0 <= s < numRows => ExpectedRow(ev, trace, domain, s))
  }

  /** How many times group `k`'s degree adjustment differs from group `k - 1`'s, for `0 < k < n`. */
  function AdjustmentChanges(groups: seq<BoundaryConstraintGroup>, n: nat): nat
    requires n <= |groups|
  {
    if n <= 1 then 0
    else AdjustmentChanges(groups, n - 1)
         + (if groups[n - 1].degreeAdjustment != groups[n - 2].degreeAdjustment then 1 else 0)
  }

  /** Caching never costs more exponentiations than groups: at most one per group. */
  lemma {:induction false} AdjustmentChangesBound(groups: seq<BoundaryConstraintGroup>, n: nat)
    requires 0 < n <= |groups|
    ensures 1 + AdjustmentChanges(groups, n) <= n
    decreases n
  {
    if n > 1 {
      AdjustmentChangesBound(groups, n - 1);
    }
  }

  /** When the first `n` groups share one degree adjustment, the power is computed only once;
      and conversely. */
  lemma {:induction false} AdjustmentChangesUniform(groups: seq<BoundaryConstraintGroup>, n: nat)
    requires 0 < n <= |groups|
    ensures AdjustmentChanges(groups, n) == 0 <==>
              forall k :: 0 <= k < n ==> groups[k].degreeAdjustment == groups[0].degreeAdjustment
    decreases n
  {
    if n > 1 {
      AdjustmentChangesUniform(groups, n - 1);
    }
  }

  // CONSTRUCTOR
  // ----------------------------------------------------------------------------------------------

  /** `ConstraintEvaluator::new(air, coin)`. */
  method New(ops: FieldOps, air: Air, coin: PublicCoin) returns (ev: ConstraintEvaluator)
    requires air.KeepsBufferLength()
    ensures ev.Valid()
    ensures ev.ops == ops && ev.air == air && ev.periodicRow == air.periodicRow
    ensures ev.transitionConstraints == air.getTransitionConstraints(coin.transitionPrng)
    ensures ev.divisors[0] == air.transitionDivisor
    ensures var groups := air.getBoundaryConstraints(coin.boundaryPrng);
            && |ev.boundaryConstraints| == |groups|
            && (forall k :: 0 <= k < |groups| ==>
                  && ev.divisors[k + 1] == air.groupDivisor(groups[k])
                  && ev.boundaryConstraints[k] == air.prepareBoundaryGroup(groups[k]))
  {
    var transitionConstraints := air.getTransitionConstraints(coin.transitionPrng);
    var periodicRow := air.periodicRow;
    var divisors := [air.transitionDivisor];
    var groups := air.getBoundaryConstraints(coin.boundaryPrng);
    var boundaryConstraints := [];
    for k := 0 to |groups|
      invariant |divisors| == 1 + k && |boundaryConstraints| == k
      invariant divisors[0] == air.transitionDivisor
      invariant forall j :: 0 <= j < k ==>
                  && divisors[j + 1] == air.groupDivisor(groups[j])
                  && boundaryConstraints[j] == air.prepareBoundaryGroup(groups[j])
    {
      divisors := divisors + [air.groupDivisor(groups[k])];
      boundaryConstraints := boundaryConstraints + [air.prepareBoundaryGroup(groups[k])];
    }
    ev := ConstraintEvaluator(ops, air, boundaryConstraints, transitionConstraints, periodicRow, divisors);
  }

  // EVALUATION HELPERS
  // ----------------------------------------------------------------------------------------------

  /** `evaluate_transition_constraints`: zeroes the buffer, lets the AIR fill it, and folds the
      groups' merges into one value. The merged value depends on the buffer's length only,
      never on what it held before; the buffer is returned as the AIR left it. */
  method EvaluateTransitionConstraints(ev: ConstraintEvaluator, frame: Frame, x: Base, step: nat, buffer: seq<Base>)
    returns (r: Ext, evaluations: seq<Base>)
    ensures evaluations == TransitionEvaluations(ev, frame, step, |buffer|)
    ensures r == FoldSum(ev.ops, GroupMerges(ev.transitionConstraints, evaluations, x))
    ensures |ev.transitionConstraints| == 0 ==> r == ev.ops.extZero
  {
    evaluations := buffer;
    for i := 0 to |evaluations|
      invariant |evaluations| == |buffer|
      invariant forall j :: 0 <= j < i ==> evaluations[j] == ev.ops.baseZero
    {
      evaluations := evaluations[i := ev.ops.baseZero];
    }
    assert evaluations == Zeros(ev.ops, |buffer|);
    var periodicValues := ev.periodicRow(step);
    evaluations := ev.air.evaluateTransition(frame, periodicValues, evaluations);

    ghost var merges := GroupMerges(ev.transitionConstraints, evaluations, x);
    r := ev.ops.extZero;
    for k := 0 to |ev.transitionConstraints|
      invariant r == FoldSum(ev.ops, merges[..k])
    {
      assert merges[..k + 1][..k] == merges[..k];
      r := ev.ops.add(r, ev.transitionConstraints[k].merge(evaluations, x));
    }
    assert merges[..|merges|] == merges;
  }

  /** `evaluate_boundary_constraints`: writes group `k`'s value into `result[k]` for as many
      slots as both the groups and `result` have. The adjustment power is computed for the
      first group and recomputed only when a group's adjustment differs from the previous
      group's, yet every group receives exactly `x^d` for its own `d`. `powers` counts the
      exponentiations: one, plus one per change of adjustment between neighbouring groups. */
  method EvaluateBoundaryConstraints(ev: ConstraintEvaluator, state: seq<Base>, x: Base, step: nat, result: seq<Ext>)
    returns (out: seq<Ext>, ghost powers: nat)
    requires 0 < |ev.boundaryConstraints|
    ensures |out| == |result|
    ensures forall k :: 0 <= k < |result| && k < |ev.boundaryConstraints| ==>
              out[k] == BoundaryValue(ev, k, state, x, step)
    ensures forall k :: |ev.boundaryConstraints| <= k < |result| ==> out[k] == result[k]
    ensures |result| >= |ev.boundaryConstraints| ==>
              powers == 1 + AdjustmentChanges(ev.boundaryConstraints, |ev.boundaryConstraints|)
  {
    var groups := ev.boundaryConstraints;
    var degreeAdjustment := groups[0].degreeAdjustment;
    var xp := ev.ops.lift(ev.ops.exp(x, degreeAdjustment));
    powers := 1;
    out := result;
    var k := 0;
    while k < |groups| && k < |result|
      invariant 0 <= k <= |groups| && k <= |result|
      invariant |out| == |result|
      invariant xp == AdjustmentPower(ev.ops, x, degreeAdjustment)
      invariant degreeAdjustment == groups[if k == 0 then 0 else k - 1].degreeAdjustment
      invariant powers == 1 + AdjustmentChanges(groups, k)
      invariant forall j :: 0 <= j < k ==> out[j] == BoundaryValue(ev, j, state, x, step)
      invariant forall j :: k <= j < |result| ==> out[j] == result[j]
    {
      if groups[k].degreeAdjustment != degreeAdjustment {
        degreeAdjustment := groups[k].degreeAdjustment;
        xp := ev.ops.lift(ev.ops.exp(x, degreeAdjustment));
        powers := powers + 1;
      }
      out := out[k := groups[k].evaluate(state, step, x, xp)];
      k := k + 1;
    }
  }

  /** Evaluates one step into the reused buffers: the transition value into slot 0, the boundary
      values into the slots after it. */
  method EvaluateStep(ev: ConstraintEvaluator, trace: TraceTable, domain: StarkDomain, step: nat,
                      evaluations: seq<Ext>, tEvaluations: seq<Base>)
    returns (row: seq<Ext>, tEvaluations': seq<Base>)
    requires ev.Valid() && 0 < |ev.boundaryConstraints|
    requires |evaluations| == |ev.divisors| && |tEvaluations| == ev.air.numTransitionConstraints
    ensures row == ExpectedRow(ev, trace, domain, step)
    ensures |tEvaluations'| == ev.air.numTransitionConstraints
  {
    // translate the constraint-evaluation step into an LDE step and read the frame there
    var info := domain.ceStepToLdeInfo(step);
    var ldeStep, x := info.0, info.1;
    var frame := trace.readFrame(ldeStep);

    var t;
    t, tEvaluations' := EvaluateTransitionConstraints(ev, frame, x, step, tEvaluations);
    row := evaluations[0 := t];

    var boundary;
    ghost var powers;
    boundary, powers := EvaluateBoundaryConstraints(ev, frame.current, x, step, row[1..]);
    row := [row[0]] + boundary;
  }

  /** `evaluate_sequential`: writes every row `step` of the table exactly once, in increasing
      order of `step` (the ghost `writes` lists the rows written, in order), and leaves every
      row as `ExpectedRow` defines it, whatever the table held before. */
  method EvaluateSequential(ev: ConstraintEvaluator, trace: TraceTable, domain: StarkDomain,
                            table: ConstraintEvaluationTable)
    returns (filled: ConstraintEvaluationTable, ghost writes: seq<nat>)
    requires ev.Valid() && table.divisors == ev.divisors
    requires 0 < |ev.boundaryConstraints| || table.NumRows() == 0
    ensures filled.divisors == table.divisors
    ensures filled.rows == ExpectedRows(ev, trace, domain, table.NumRows())
    ensures writes == Range(0, table.NumRows())
  {
    var evaluations := seq(table.NumColumns(), _ => ev.ops.extZero);
    var tEvaluations := Zeros(ev.ops, ev.air.numTransitionConstraints);
    filled := table;
    writes := [];
    for step := 0 to table.NumRows()
      invariant filled.divisors == table.divisors && |filled.rows| == table.NumRows()
      invariant |evaluations| == |ev.divisors|
      invariant |tEvaluations| == ev.air.numTransitionConstraints
      invariant forall s :: 0 <= s < step ==> filled.rows[s] == ExpectedRow(ev, trace, domain, s)
      invariant writes == Range(0, step)
    {
      evaluations, tEvaluations := EvaluateStep(ev, trace, domain, step, evaluations, tEvaluations);
      filled := filled.UpdateRow(step, evaluations);
      writes := writes + [step];
    }
  }

  /** One fragment's share of `evaluate_concurrent`, with its own buffers: local row `i` is
      evaluated at global step `i + offset` and recorded through the fragment's view. Exactly
      the fragment's rows are written, in increasing order, and each holds its `ExpectedRow`;
      every other row is left as it was. */
  method EvaluateFragment(ev: ConstraintEvaluator, trace: TraceTable, domain: StarkDomain,
                          table: ConstraintEvaluationTable, fragment: Fragment)
    returns (filled: ConstraintEvaluationTable, ghost writes: seq<nat>)
    requires ev.Valid() && table.divisors == ev.divisors
    requires 0 < |ev.boundaryConstraints| || fragment.numRows == 0
    requires fragment.offset + fragment.numRows <= table.NumRows()
    ensures filled.divisors == table.divisors && filled.NumRows() == table.NumRows()
    ensures forall s :: Covers(fragment, s) ==> filled.rows[s] == ExpectedRow(ev, trace, domain, s)
    ensures forall s :: 0 <= s < table.NumRows() && !Covers(fragment, s) ==> filled.rows[s] == table.rows[s]
    ensures writes == Range(fragment.offset, fragment.offset + fragment.numRows)
  {
    filled := table;
    writes := [];
    var evaluations := seq(table.NumColumns(), _ => ev.ops.extZero);
    var tEvaluations := Zeros(ev.ops, ev.air.numTransitionConstraints);
    for i := 0 to fragment.numRows
      invariant filled.divisors == table.divisors && |filled.rows| == table.NumRows()
      invariant |evaluations| == |ev.divisors|
      invariant |tEvaluations| == ev.air.numTransitionConstraints
      invariant forall s :: fragment.offset <= s < fragment.offset + i ==>
                  filled.rows[s] == ExpectedRow(ev, trace, domain, s)
      invariant forall s :: 0 <= s < table.NumRows() && !(fragment.offset <= s < fragment.offset + i) ==>
                  filled.rows[s] == table.rows[s]
      invariant writes == Range(fragment.offset, fragment.offset + i)
    {
      var step := i + fragment.offset;
      evaluations, tEvaluations := EvaluateStep(ev, trace, domain, step, evaluations, tEvaluations);
      filled := filled.UpdateRow(step, evaluations);
      writes := writes + [step];
    }
  }

  /** The fragment fill behind `evaluate_concurrent`, with the fragments processed one after
      another, in whatever order they are listed. When the fragments partition the table, every
      row is written exactly once and the table ends up identical to the one
      `EvaluateSequential` produces. */
  method EvaluateFragments(ev: ConstraintEvaluator, trace: TraceTable, domain: StarkDomain,
                           table: ConstraintEvaluationTable, fragments: seq<Fragment>)
    returns (filled: ConstraintEvaluationTable, ghost writes: seq<nat>)
    requires ev.Valid() && table.divisors == ev.divisors
    requires 0 < |ev.boundaryConstraints| || table.NumRows() == 0
    requires Partitions(fragments, table.NumRows())
    ensures filled.divisors == table.divisors
    ensures filled.rows == ExpectedRows(ev, trace, domain, table.NumRows())
    ensures WrittenOnceEach(writes, table.NumRows())
  {
    var n := table.NumRows();
    filled := table;
    writes := [];
    for j := 0 to |fragments|
      invariant filled.divisors == table.divisors && |filled.rows| == n
      invariant Distinct(writes)
      invariant forall a :: 0 <= a < |writes| ==> writes[a] < n
      // no row written so far belongs to a fragment still to come
      invariant forall a, j' :: 0 <= a < |writes| && j <= j' < |fragments| ==> !Covers(fragments[j'], writes[a])
      invariant forall j0, s :: 0 <= j0 < j && Covers(fragments[j0], s) ==>
                  s in writes && filled.rows[s] == ExpectedRow(ev, trace, domain, s)
    {
      var fragment := fragments[j];
      if fragment.numRows > 0 {
        assert Covers(fragment, fragment.offset);
      }
      ghost var segment;
      filled, segment := EvaluateFragment(ev, trace, domain, filled, fragment);
      FragmentWritesDisjoint(fragments, n, j, writes, segment);
      forall s | Covers(fragment, s)
        ensures s in segment
      {
        assert segment[s - fragment.offset] == s;
      }
      writes := writes + segment;
    }
    forall s | 0 <= s < n
      ensures filled.rows[s] == ExpectedRow(ev, trace, domain, s)
      ensures s in writes
    {
      assert CoveredBy(fragments, s);
    }
  }

  /** Appending fragment `j`'s rows to a log of rows from other fragments keeps the log free of
      repeats, and no row of fragment `j` belongs to a later fragment. */
  lemma FragmentWritesDisjoint(fragments: seq<Fragment>, n: nat, j: nat, writes: seq<nat>, segment: seq<nat>)
    requires Partitions(fragments, n) && j < |fragments|
    requires Distinct(writes)
    requires forall a :: 0 <= a < |writes| ==> !Covers(fragments[j], writes[a])
    requires segment == Range(fragments[j].offset, fragments[j].offset + fragments[j].numRows)
    ensures Distinct(writes + segment)
    ensures forall a, j' :: 0 <= a < |segment| && j < j' < |fragments| ==> !Covers(fragments[j'], segment[a])
  {
    // every row of `segment` lies in fragment `j`, which no row of `writes` does, and no row
    // lies in two fragments
  }

  /** `evaluate_concurrent`: the table cut into `num_threads.next_power_of_two()` fragments (exactly
      that many over a power-of-two domain), each filled as `EvaluateFragments` does. */
  method EvaluateConcurrent(ev: ConstraintEvaluator, trace: TraceTable, domain: StarkDomain,
                            table: ConstraintEvaluationTable, numThreads: nat)
    returns (filled: ConstraintEvaluationTable, ghost writes: seq<nat>, ghost fragments: seq<Fragment>)
    requires ev.Valid() && table.divisors == ev.divisors
    requires 0 < |ev.boundaryConstraints|
    requires NextPowerOfTwo(numThreads) <= table.NumRows()
    ensures filled.divisors == table.divisors
    ensures filled.rows == ExpectedRows(ev, trace, domain, table.NumRows())
    ensures WrittenOnceEach(writes, table.NumRows())
    ensures Partitions(fragments, table.NumRows())
    ensures IsPowerOfTwo(table.NumRows()) ==> |fragments| == NextPowerOfTwo(numThreads)
  {
    var numFragments := NextPowerOfTwo(numThreads);
    var split := Fragments(table.NumRows(), numFragments);
    TilesArePartitions(split, table.NumRows());
    if IsPowerOfTwo(table.NumRows()) {
      FragmentCount(table.NumRows(), numThreads);
    }
    filled, writes := EvaluateFragments(ev, trace, domain, table, split);
    fragments := split;
  }

  // EVALUATOR
  // ----------------------------------------------------------------------------------------------

  /** `evaluate(trace, domain)`. It panics, before any row is written, when the trace length is
      not the LDE domain size, or when there is no boundary group but at least one step to
      evaluate. Otherwise it takes the concurrent path exactly when the `concurrent` feature is on
      and the domain has at least `MinConcurrentDomainSize` steps, and returns the table with the
      evaluator's divisors and one `ExpectedRow` per step, every row written exactly once: the
      same table whichever path runs. */
  method Evaluate(ev: ConstraintEvaluator, trace: TraceTable, domain: StarkDomain, config: Config)
    returns (r: Outcome, ghost writes: seq<nat>, ghost concurrentPath: bool)
    requires ev.Valid()
    requires config.concurrent && MinConcurrentDomainSize <= domain.ceDomainSize ==>
               NextPowerOfTwo(config.numThreads) <= domain.ceDomainSize
    ensures r == Panic(TraceLengthMismatch) <==> trace.length != domain.ldeDomainSize
    ensures r == Panic(BoundaryIndexOutOfBounds) <==>
              && trace.length == domain.ldeDomainSize
              && |ev.boundaryConstraints| == 0
              && 0 < domain.ceDomainSize
    ensures r.Panic? ==> writes == []
    ensures r.Done? ==>
              (concurrentPath <==> config.concurrent && MinConcurrentDomainSize <= domain.ceDomainSize)
    ensures r.Done? ==>
              && r.table.divisors == ev.divisors
              && r.table.rows == ExpectedRows(ev, trace, domain, domain.ceDomainSize)
              && WrittenOnceEach(writes, domain.ceDomainSize)
    ensures r.Done? && !concurrentPath ==> writes == Range(0, domain.ceDomainSize)
  {
    writes, concurrentPath := [], false;
    if trace.length != domain.ldeDomainSize {
      return Panic(TraceLengthMismatch), writes, concurrentPath;
    }
    var table := NewTable(ev.ops, domain.ceDomainSize, ev.divisors);
    if |ev.boundaryConstraints| == 0 && 0 < domain.ceDomainSize {
      // the first step reads the first boundary group before its row is recorded
      return Panic(BoundaryIndexOutOfBounds), writes, concurrentPath;
    }
    var concurrent := config.concurrent && domain.ceDomainSize >= MinConcurrentDomainSize;
    concurrentPath := concurrent;
    if concurrent {
      ghost var fragments;
      table, writes, fragments := EvaluateConcurrent(ev, trace, domain, table, config.numThreads);
    } else {
      table, writes := EvaluateSequential(ev, trace, domain, table);
      RangeWrittenOnceEach(domain.ceDomainSize);
    }
    r := Done(table);
  }
}
