/**
 * The flow operators the surface-process code calls but does not build:
 * the downhill matrix and its transpose, `cumulative_flow`,
 * `uphill_smoothing` and `streamwise_smoothing`. Each is an arbitrary
 * function on per-node fields that keeps the field's length.
 */
module Flow {
  import opened Numeric

  /** A smoothing operator: the field, the number of rounds, the centre weight. */
  type Smoother = (Field, nat, real) -> Field

  datatype FlowOperators = FlowOperators(
    cumulativeFlow: Field -> Field,
    downhillMult: Field -> Field,
    // An independent parameter: nothing here ties it to the transpose of `downhillMult`.
    downhillMultTranspose: Field -> Field,
    uphillSmoothing: Smoother,
    streamwiseSmoothing: Smoother)

  ghost predicate KeepsLength(f: Field -> Field)
  {
    forall x :: |f(x)| == |x|
  }

  ghost predicate SmootherKeepsLength(f: Smoother)
  {
    forall x, its, c :: |f(x, its, c)| == |x|
  }

  /** Every operator maps a field to a field of the same length, as a square matrix or a per-node filter does. */
  ghost predicate WellShaped(ops: FlowOperators)
  {
    && KeepsLength(ops.cumulativeFlow) && KeepsLength(ops.downhillMult) && KeepsLength(ops.downhillMultTranspose)
    && SmootherKeepsLength(ops.uphillSmoothing) && SmootherKeepsLength(ops.streamwiseSmoothing)
  }
}
