/**
 The field elements the evaluator works over. The prover is generic in a base field
 (the trace, the domain values and the raw transition evaluations) and an extension
 field (the merged values written to the table). Neither is given a concrete
 representation here: both are abstract types, and the few operations the evaluator
 uses are carried by a `FieldOps` record. No algebraic law (associativity,
 commutativity, identity) is assumed, so every equality proved about the evaluator
 holds exactly, term for term.
 */
module Field {

  /** An element of the base field (`A::BaseElement`). */
  type Base(!new)

  /** An element of the extension field (`E`). */
  type Ext(!new)

  /** The field operations the evaluator calls. */
  datatype FieldOps = FieldOps(
    baseZero: Base,                  // A::BaseElement::ZERO
    exp: (Base, nat) -> Base,        // x.exp(power)
    extZero: Ext,                    // E::ZERO
    add: (Ext, Ext) -> Ext,          // E + E
    lift: Base -> Ext                // E::from(base)
  )

  /** A buffer of `n` base-field zeros, as `vec![ZERO; n]` or `fill(ZERO)` leaves it. */
  function Zeros(ops: FieldOps, n: nat): (z: seq<Base>)
    ensures |z| == n
    ensures forall i :: 0 <= i < n ==> z[i] == ops.baseZero
  {
    seq(n, _ => ops.baseZero)
  }

  /** The left fold `vs.fold(E::ZERO, |acc, v| acc + v)`: ((ZERO + v0) + v1) + ... */
  function FoldSum(ops: FieldOps, vs: seq<Ext>): Ext
    decreases |vs|
  {
    if |vs| == 0 then ops.extZero
    else ops.add(FoldSum(ops, vs[..|vs| - 1]), vs[|vs| - 1])
  }
}
