/** The two sum types the service passes around: `Option` for a lookup that may
    find nothing, and `Result` for a CSV record that may have failed to parse. */
module Wrappers {

  datatype Option<+T> = None | Some(value: T)

  datatype Result<+T, +E> = Ok(value: T) | Err(error: E)
}
