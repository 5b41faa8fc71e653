/** Outcomes of the detector's stages: a value, or the reason the stage
    could not produce one (the exceptions numpy raises on the same inputs,
    and the plateau loop that would never end). */
module Results {

  datatype DetectorError =
    | DegenerateInput        // an empty array reached np.max, np.percentile or np.convolve
    | PercentileOutOfRange   // np.percentile was asked for a percentile outside [0, 100]
    | PlateauNotResolved     // the plateau-filling loop of peakFilter would run forever

  datatype Result<+T> = Success(value: T) | Failure(error: DetectorError) {

    predicate IsFailure() {
      Failure?
    }

    function PropagateFailure<U>(): Result<U>
      requires Failure?
    {
      Failure(error)
    }

    function Extract(): T
      requires Success?
    {
      value
    }
  }
}
