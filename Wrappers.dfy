/** Result and option values, and the error kinds the networking utilities report. */
module Wrappers {

  datatype Option<+T> = None | Some(value: T)

  /** The three failure kinds callers of the utilities can tell apart. */
  datatype Failure =
    | NumberFormat      // a port-range specification that is not a list of integers or integer ranges
    | InvalidArgument   // a port outside 0..65535 or a host name that is not allowed
    | Bind              // no port of the candidate sequence could be bound

  datatype Result<+T> = Ok(value: T) | Err(error: Failure)
}
