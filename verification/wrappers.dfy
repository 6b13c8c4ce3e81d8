/** Optional values and fallible results, standing in for the extension's
    `undefined` returns and for the TypeErrors it raises on missing fields. */
module Wrappers {

  /** `None` is the extension's `undefined`/`null`/silent early return. */
  datatype Option<+T> = None | Some(value: T)

  /** `Fail` stands for a JavaScript exception that aborts the command. */
  datatype Result<+T, +E> = Ok(value: T) | Fail(error: E)
}
