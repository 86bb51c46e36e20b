/**
 The evaluator's collaborators, whose code lies outside the constraint evaluator:
 the AIR (the computation's constraints), the extended execution trace, the STARK
 domain and the public coin. Each collaborator's operations are opaque pure
 functions carried as fields, so that the evaluator is modelled and proved for
 every behaviour they might have.
 */
module Collaborators {
  import opened Field

  /** The vanishing-polynomial descriptor of a constraint group (`ConstraintDivisor`). */
  type Divisor

  /** A pseudo-random coefficient stream derived from the proof transcript. */
  type Prng

  /** A boundary-constraint group as the AIR returns it, before the prover prepares it. */
  type AirBoundaryGroup

  /** The two-row trace window (`EvaluationFrame`): the row at a step and its successor. */
  datatype Frame = Frame(current: seq<Base>, next: seq<Base>)

  /** A transition-constraint group: its random coefficients are folded into `merge`
      (`merge_evaluations(evaluations, x)`). */
  datatype TransitionConstraintGroup = TransitionConstraintGroup(
    merge: (seq<Base>, Base) -> Ext
  )

  /** A prepared boundary-constraint group: its degree-adjustment exponent and
      `evaluate(state, step, x, xp)`, which merges the group's assertions at a step
      given the adjustment power `xp`. */
  datatype BoundaryConstraintGroup = BoundaryConstraintGroup(
    degreeAdjustment: nat,
    evaluate: (seq<Base>, nat, Base, Ext) -> Ext
  )

  /** The public coin: one coefficient stream for transition constraints and one for
      boundary constraints. */
  datatype PublicCoin = PublicCoin(transitionPrng: Prng, boundaryPrng: Prng)

  /** The AIR, reduced to what the evaluator asks of it. */
  datatype Air = Air(
    numTransitionConstraints: nat,
    // air.evaluate_transition(frame, periodic_values, buffer): the buffer after the call
    evaluateTransition: (Frame, seq<Base>, seq<Base>) -> seq<Base>,
    // air.get_transition_constraints(prng)
    getTransitionConstraints: Prng -> seq<TransitionConstraintGroup>,
    // air.get_boundary_constraints(prng)
    getBoundaryConstraints: Prng -> seq<AirBoundaryGroup>,
    // group.divisor()
    groupDivisor: AirBoundaryGroup -> Divisor,
    // BoundaryConstraintGroup::new(group, air.context(), &mut twiddle_map)
    prepareBoundaryGroup: AirBoundaryGroup -> BoundaryConstraintGroup,
    // ConstraintDivisor::from_transition(air.context())
    transitionDivisor: Divisor,
    // PeriodicValueTable::new(&air), read through get_row(step)
    periodicRow: nat -> seq<Base>
  ) {
    /** `evaluate_transition` writes into the slice it is handed and cannot resize it. */
    ghost predicate KeepsBufferLength() {
      forall frame, periodic, buffer :: |evaluateTransition(frame, periodic, buffer)| == |buffer|
    }
  }

  /** The extended execution trace (`TraceTable`). */
  datatype TraceTable = TraceTable(
    length: nat,
    width: nat,
    // read_frame_into(lde_step, &mut frame): the frame after the call
    readFrame: nat -> Frame
  )

  /** The STARK domain: the LDE domain and the constraint-evaluation domain. */
  datatype StarkDomain = StarkDomain(
    ldeDomainSize: nat,
    ceDomainSize: nat,
    // ce_step_to_lde_info(step) == (lde_step, x)
    ceStepToLdeInfo: nat -> (nat, Base)
  )
}
