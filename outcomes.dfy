/** Failure values for the contract's actions.
    Every `check` in the contract aborts the whole action; the model returns
    the reason as an `Error` and leaves the state untouched. */
module Outcomes {

  /** One constructor per distinct abort reason of the contract. */
  datatype Error =
    | NotConfigured        // the config singleton does not exist
    | WrongTokenContract   // deposit notified by another token contract
    | NonPositiveDeposit   // deposit of a zero or negative amount
    | WrongToken           // deposit in another symbol than the configured one
    | NoAccount            // no users row for the account being debited
    | Overdrawn            // balance smaller than the amount being debited
    | RequestNotFound      // no queue row with the given nonce
    | WorkerNotRegistered  // no workers row for the account
    | CardNotFound         // no cards row with the given id
    | AlreadyStarted       // the worker already has a status entry on the request
    | TooManyWorkers       // the status list is longer than max_workers
    | StatusNotFound       // the worker has no status entry on the request
    | RequestHashMismatch  // sha256 of the request content differs from request_hash
    | AlreadySubmitted     // the worker already owns a results row
    | DuplicateKey         // emplace of a primary key that is already present
    | DivideByZero         // fixed-point divide by a non-positive amount
    | PrecisionMismatch    // fixed-point operands of different precision

  /** Result of an action that returns nothing on success. */
  datatype Outcome = Pass | Fail(error: Error)

  /** Result of a computation that returns a value on success. */
  datatype Result<T> = Ok(value: T) | Err(error: Error)
}
