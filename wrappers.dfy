/** Failure-carrying values shared by every module of the model. */
module Wrappers {

  datatype Option<+T> = None | Some(value: T)
  {
    /** `d.get(key, default)` once the lookup is an `Option`. */
    function GetOr(default: T): T
    {
      if Some? then value else default
    }
  }

  datatype Result<+R, +E> = Ok(value: R) | Err(error: E)
}
