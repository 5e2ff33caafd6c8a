/** Errors returned by the catalog client and by the partition protocols.

    An error is either one the catalog service classified with a code
    (the SDK's `awserr.Error`), an unclassified transport error, or an
    error wrapped with extra context on its way up.  Only an unwrapped
    classified error can be recognised by its code: wrapping hides it,
    exactly as a type assertion on a wrapped error fails in the `awsglue`
    package. */
module GlueErrors {

  /** Code the catalog uses when the partition to create is already there. */
  const ErrCodeAlreadyExists: string := "AlreadyExistsException"

  /** Code the catalog uses when the partition to delete is not there. */
  const ErrCodeEntityNotFound: string := "EntityNotFoundException"

  datatype Error =
    | AwsError(code: string, message: string)
    | PlainError(message: string)
    | Wrapped(context: string, cause: Error)

  /** What a call that returns only an error gives back: nothing, or the error. */
  datatype Outcome = Pass | Fail(error: Error)

  /** What a call that returns a value or an error gives back. */
  datatype Result<T> = Ok(value: T) | Err(error: Error)

  /** Recognises an unwrapped classified error by its code; a wrapped error
      is never recognised. */
  predicate HasAwsCode(e: Error, code: string) {
    e.AwsError? && e.code == code
  }

  predicate IsAlreadyExists(e: Error) {
    HasAwsCode(e, ErrCodeAlreadyExists)
  }

  predicate IsEntityNotFound(e: Error) {
    HasAwsCode(e, ErrCodeEntityNotFound)
  }

  /** The innermost error under any number of wrappings. */
  function Cause(e: Error): (c: Error)
    ensures !c.Wrapped?
    ensures !e.Wrapped? ==> c == e
  {
    match e
    case Wrapped(_, inner) => Cause(inner)
    case _ => e
  }

  /** The error's text: `code: message` for a classified error, the message
      for a plain one, and `context: <inner text>` for a wrapped one. */
  function Text(e: Error): (t: string)
    ensures e.AwsError? ==> e.code + ": " <= t && t[|e.code| + 2..] == e.message
    ensures e.PlainError? ==> t == e.message
    ensures e.Wrapped? ==> e.context + ": " <= t && t[|e.context| + 2..] == Text(e.cause)
  {
    match e
    case AwsError(code, message) => code + ": " + message
    case PlainError(message) => message
    case Wrapped(context, inner) => context + ": " + Text(inner)
  }

  /** Wrapping never loses the cause: the outer error has the inner one's cause. */
  lemma CauseOfWrapped(context: string, e: Error)
    ensures Cause(Wrapped(context, e)) == Cause(e)
  {
  }

  /** The text of a wrapped error ends with the text of its cause, so a
      caller reading the message still sees the original failure. */
  lemma {:induction false} CauseTextIsSuffix(e: Error)
    ensures |Text(Cause(e))| <= |Text(e)|
    ensures Text(e)[|Text(e)| - |Text(Cause(e))|..] == Text(Cause(e))
  {
    match e
    case Wrapped(context, inner) =>
      CauseTextIsSuffix(inner);
      var outer := context + ": ";
      assert Text(e) == outer + Text(inner);
      assert Text(e)[|outer|..] == Text(inner);
    case _ =>
  }
}
