/** Failure-compatible wrappers and the error values of the reduction/expansion machinery. */
module Base {

  datatype Option<T> = None | Some(value: T) {
    function GetOr(default: T): T
    {
      match this
      case Some(v) => v
      case None => default
    }
  }

  /** One value per exception the modelled code can raise. */
  datatype Error =
    | KeyError              // an ID that a collaborator dictionary does not hold
    | RegionNotFound        // `regions.get_regi` of an unknown region
    | WrongKind             // a listed condition of another kind (missing attribute)
    | NothingToConcatenate  // `np.concatenate` over an empty list
    | EmptyIndexArrays      // `coo_matrix` whose shape cannot be inferred from zero-size indices
    | NegativeDimension     // `np.ones(-1)` for a floating condition without nodes
    | IndexOutOfRange       // an index outside the current system or array
    | ShapeMismatch         // operands whose sizes do not agree
    | DimensionMismatch     // a Dirichlet array whose size differs from its node count
    | UnsupportedValueType  // a constant Dirichlet value of an unsupported type
    | NotImplemented        // a Dirichlet value neither constant nor time dependent
    | InhomogeneousShape    // `np.max` over arrays of different lengths
    | EmptyReduction        // `np.max` over no element at all
    | MissingSupportData    // a support-data field that is None where inflate needs it
    | NegativeFrequency     // the frequency setter's ValueError
    | ZeroStep              // `np.arange` with step 0
    | UnknownMonitor        // a monitor name missing from `available_monitors`
    | UnknownRhsType        // a right-hand side neither sparse nor an array
    | SolverUnknown         // SolverUnknownError

  datatype Result<T> = Ok(value: T) | Err(error: Error) {
    predicate IsFailure() { Err? }

    function PropagateFailure<U>(): Result<U>
      requires Err?
    {
      Err(error)
    }

    function Extract(): T
      requires Ok?
    {
      value
    }
  }
}
