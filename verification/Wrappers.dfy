// Result and option types shared by every module of the project.

module Wrappers {

  /** A value, or an error whose message the model does not keep. */
  datatype Result<+T> = Ok(value: T) | Err

  datatype Option<+T> = None | Some(value: T) {
    function UnwrapOr(default: T): T {
      if Some? then value else default
    }
  }
}
