/** Small wrappers shared by every module of the collector model. */
module Common {

  /** Python's `None` or a value. */
  datatype Option<+T> = None | Some(value: T)

  /** The exceptions the collector raises and never catches. Each one ends
      the process, because `main` has no handler around its loop. */
  datatype Failure =
    | AuthenticationFailed       // authenticate(): reply status other than 200
    | TokenRefreshFailed         // refresh_token(): reply status other than 200
    | MissingKey(key: string)    // KeyError while reading a reply or a record
    | IndexNotComparable         // TypeError from `index > last_index`
    | ConnectionFailed           // the HTTP library raised before any status arrived

  /** A value, or the exception raised while computing it. */
  datatype Result<+T> = Ok(value: T) | Err(failure: Failure)
}
