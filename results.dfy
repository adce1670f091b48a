/** Error kinds, results and write-once cache cells shared by the engines. */
module Results {

  /** The exceptions the engines raise, by kind. */
  datatype Error =
    | NotFound         // KeyError: the key is absent, or of a kind the engine rejects in get_loc
    | TypeMismatch     // TypeError: a query of the wrong temporal kind passed to `in`
    | InvalidArgument  // ValueError: e.g. a slice side other than "left" or "right"

  datatype Result<T> = Ok(value: T) | Err(error: Error)

  datatype Option<T> = None | Some(value: T)

  /** A lazily computed flag: not yet computed, or computed once with its value. */
  datatype Cached = Unknown | Known(value: bool)
}
