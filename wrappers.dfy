/** Option and Result, the two shapes the modelled code uses for "maybe absent" and "may throw". */
module Wrappers {
  datatype Option<T> = None | Some(value: T)
  {
    predicate IsSome() { Some? }
    function GetOr(default: T): T { if Some? then value else default }
  }

  datatype Result<T, E> = Ok(value: T) | Err(error: E)
  {
    predicate IsOk() { Ok? }
  }
}
