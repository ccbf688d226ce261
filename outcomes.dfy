/** The two Python exceptions the modelled helpers can raise on their inputs. */
module Outcomes {

  datatype Failure =
    | EmptyArgument    // ValueError: `max`/`min` over an empty collection
    | IndexOutOfRange  // IndexError: `[0]` or `[-1]` of an empty list

  /** The value a helper returns, or the exception it raises. */
  datatype Result<T> = Ok(value: T) | Err(failure: Failure)
}
