/** Optional values and the outcome of an operation that may raise. */
module Outcomes {

  /** A nullable value: a nullable database column or an absent request field. */
  datatype Option<+T> = None | Some(value: T)

  /** The exceptions the modelled code can raise. */
  datatype Fault =
    | Unpack          // a polygon entry that is not an [x, y] pair
    | ZeroDivision    // an edge whose nudged vertical span is exactly zero
    | InvalidLookup   // a map filter value that is not an integer

  /** Either a value or the exception that was raised instead. */
  datatype Result<+T> = Ok(value: T) | Err(fault: Fault)
}
