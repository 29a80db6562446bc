/** Values that may be missing, and store operations that refuse an empty tenant. */
module Outcomes {

  datatype Option<T> = None | Some(value: T)

  datatype Result<T> = Ok(value: T) | TenantRequired
}
