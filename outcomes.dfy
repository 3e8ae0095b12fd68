/** The ways a mask computation can fail, and the small wrappers the model returns them in. */
module Outcomes {

  /** The exceptions the modelled `createMask` raises before it has a mask. An empty
      mean vector never reaches it in the program, because fitting the density fails first. */
  datatype MaskError =
    | EmptyMeanVector      // `min()` of an empty mean vector has no identity
    | NegativeSampleCount  // `np.linspace` refuses a negative number of samples
    | NoMinimumFound       // `np.max` of the values at zero minima

  datatype Result<T> = Ok(value: T) | Err(error: MaskError)

  datatype Option<T> = None | Some(value: T)

  /** What a call of `createMask` ends in: normal return, or the exception it raises. */
  datatype Outcome = Pass | Fail(error: MaskError)
}
