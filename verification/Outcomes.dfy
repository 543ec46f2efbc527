/** Results of operations that can raise. */
module Outcomes {
  datatype Result<+T, +E> = Ok(value: T) | Err(error: E)

  datatype Option<+T> = None | Some(value: T) {
    function GetOr(otherwise: T): T {
      if Some? then value else otherwise
    }
  }
}
