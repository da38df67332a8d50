/** Outcome of an instruction: the value it produced, or the reason the runtime
    rejected the whole transaction (every failure rolls back every write). */
module Results {

  datatype Error =
    // Anchor account validation
    | AccountNotInitialized    // a named token account does not exist
    | AccountAlreadyInUse      // `init` on an address that already holds an account
    | ConstraintRaw            // a `constraint = ...` expression evaluated to false
    | ConstraintSeeds          // `seeds`/`bump` do not reproduce the given address
    | ConstraintAssociated     // the vault is not the associated token address
    | ConstraintAddress        // `address = ...` does not hold
    // panics inside the instruction body
    | StartTimeInPast          // `assert!(cur_ts <= start_time)`
    | DivisionByZero
    | ArithmeticOverflow       // a checked integer operation overflowed
    // refusals of the token program's transfer
    | InsufficientFunds
    | MintMismatch
    | OwnerMismatch
    | MissingRequiredSignature

  datatype Result<+T> = Success(value: T) | Failure(error: Error) {
    predicate IsFailure() { Failure? }
    function PropagateFailure<U>(): Result<U>
      requires Failure?
    {
      Failure(error)
    }
    function Extract(): T
      requires Success?
    {
      value
    }
  }
}
