/** Optional values and the error outcomes shared by every handler of the model. */
module Outcomes {

  datatype Option<+T> = None | Some(value: T)

  /** Why a handler refused a request or failed. The first group answers with
      HTTP 400 in the source, the second with HTTP 500. */
  datatype Error =
    // refusals (400)
    | MissingId            // the id form field is empty
    | BadId                // the id form field is not an integer
    | MissingFields        // a required form field is empty
    | MissingRepeatDays    // a daily template without repeat days
    | BadReward            // the reward is not a positive integer
    | BadCost              // an item cost that is not a positive integer
    | BadStock             // an item stock that is not a non-negative integer
    | CannotSubmit         // completion by someone other than the owner of a claimed task
    | NotCompleted         // verification of a task that is not completed
    | AlreadyClaimed       // the legacy claim of a task that is not available
    | OutOfStock           // purchase of an item whose stock is not positive
    | NotEnoughEmeralds    // purchase the player cannot afford
    // failures (500)
    | NotFound             // a keyed read found no row
    | OwnerMissing         // dereference of a task's absent owner (a Go panic)
    | NullColumn           // a NULL column scanned into a Go int
    | BadStartTime         // an explicit start time in none of the accepted layouts
    | StoreFailure         // a statement of the store failed

  datatype Outcome = Pass | Fail(error: Error)

  datatype Result<+T> = Ok(value: T) | Err(error: Error)
}
