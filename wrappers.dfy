/** Small failure-compatible wrappers shared by the models. */
module Wrappers {

  datatype Option<+T> = None | Some(value: T)

  /** The Python exceptions the modelled scripts can raise and do not catch. */
  datatype PyError =
    | IndexError        // `xs[i]` with `i` outside the list
    | FileNotFound      // an `os.rename` or `open` whose source is gone

  datatype Result<+T> = Ok(value: T) | Err(error: PyError)
}
