/** Small value types shared by the model of the questionnaire dashboard. */
module Common {

  /** A value that may be absent (Python's `None`). */
  datatype Option<+T> = None | Some(value: T)

  /** The Python exceptions the modelled handlers can raise on their own. */
  datatype UiError =
    | KeyError(key: string)    // indexing a metadata dict without that key
    | NameError(name: string)  // evaluating a name that is not in scope

  /** A handler result: a value, or the exception that ended the handler. */
  datatype Result<+T> = Ok(value: T) | Err(error: UiError)

  /** The outcome of a handler that returns nothing (`-> None`). */
  datatype Outcome = Pass | Fail(error: UiError)

  /** Concatenation regroups freely; stated once so that call logs can be extended cheaply. */
  lemma AppendAssoc<T>(a: seq<T>, b: seq<T>, c: seq<T>)
    ensures (a + b) + c == a + (b + c)
  {
  }

  /** A prefix one element longer is the shorter prefix and that element. */
  lemma TakeSnoc<T>(s: seq<T>, j: nat)
    requires j < |s|
    ensures s[..j + 1] == s[..j] + [s[j]]
  {
  }
}
