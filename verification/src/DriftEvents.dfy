/** What a detector answers after a sample, and what the per-feature operators report. */
module DriftEvents {

  datatype DriftStatus = STABLE | WARN | DRIFT

  /** `pos`: where the drift started; `ks`: the strength of the signal. */
  datatype FeatureDrift = FeatureDrift(featureId: int, pos: int, ks: real)
}
