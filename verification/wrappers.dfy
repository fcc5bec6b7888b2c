/** Failure-carrying values for the generator's error returns. */
module Wrappers {

  /** The conventional Some/None datatype. */
  datatype Option<+T> = None | Some(value: T)

  /** An error as the generator reports it. `Wrapped(context, cause)` is what
      `fmt.Errorf("<context>, %w", cause)` produces: the cause stays reachable
      through unwrapping, and the message is the context, a comma and a space,
      then the cause's message. */
  datatype Error = Failure(message: string) | Wrapped(context: string, cause: Error)
  {
    /** The text `err.Error()` returns. */
    function Message(): string
    {
      match this
      case Failure(m) => m
      case Wrapped(c, inner) => c + ", " + inner.Message()
    }
  }

  /** The message of the innermost error, the one first reported. */
  function RootMessage(e: Error): string
  {
    match e
    case Failure(m) => m
    case Wrapped(_, inner) => RootMessage(inner)
  }

  /** Wrapping only ever puts context in front: the text of an error chain
      starts with the outermost context and ends with the message of the
      error first reported. */
  lemma {:induction false} MessageKeepsRoot(e: Error)
    ensures |RootMessage(e)| <= |e.Message()|
    ensures e.Message()[|e.Message()| - |RootMessage(e)|..] == RootMessage(e)
    ensures e.Wrapped? ==> e.Message()[..|e.context| + 2] == e.context + ", "
  {
    match e
    case Failure(m) =>
    case Wrapped(c, inner) =>
      MessageKeepsRoot(inner);
      var m := e.Message();
      assert m == c + ", " + inner.Message();
      assert m[|m| - |inner.Message()|..] == inner.Message();
  }

  /** Either a value or the error that prevented it. */
  datatype Result<+T> = Ok(value: T) | Err(error: Error)
}
