/** The five typed errors of the models package, and the result type the engine returns. */
module Errors {

  /** One constructor per Go error struct; each carries its `Message`. */
  datatype Error =
    | MangaNotFoundError(message: string)
    | ChapterNotFoundError(message: string)
    | PageNotFoundError(message: string)
    | MetadataError(message: string)
    | ValidationError(message: string)

  /** A Go `(value, error)` pair where exactly one side is meaningful. */
  datatype Result<T> = Ok(value: T) | Err(error: Error)

  /** The fixed text that `Error()` puts before the message, per kind. */
  function KindPrefix(e: Error): string
  {
    match e
    case MangaNotFoundError(_) => "manga not found: "
    case ChapterNotFoundError(_) => "chapter not found: "
    case PageNotFoundError(_) => "page not found: "
    case MetadataError(_) => "metadata error: "
    case ValidationError(_) => "validation error: "
  }

  /** `Error()`: the kind's prefix followed by the message. */
  function ErrorString(e: Error): (s: string)
    ensures |s| > |e.message| && s[|s| - |e.message|..] == e.message
  {
    KindPrefix(e) + e.message
  }

  function NewMangaNotFoundError(message: string): (e: Error)
    ensures IsMangaNotFoundError(e) && e.message == message
  {
    MangaNotFoundError(message)
  }

  function NewChapterNotFoundError(message: string): (e: Error)
    ensures IsChapterNotFoundError(e) && e.message == message
  {
    ChapterNotFoundError(message)
  }

  function NewPageNotFoundError(message: string): (e: Error)
    ensures IsPageNotFoundError(e) && e.message == message
  {
    PageNotFoundError(message)
  }

  function NewMetadataError(message: string): (e: Error)
    ensures IsMetadataError(e) && e.message == message
  {
    MetadataError(message)
  }

  function NewValidationError(message: string): (e: Error)
    ensures IsValidationError(e) && e.message == message
  {
    ValidationError(message)
  }

  /** The `Is*Error` type tests. */
  predicate IsMangaNotFoundError(e: Error) { e.MangaNotFoundError? }
  predicate IsChapterNotFoundError(e: Error) { e.ChapterNotFoundError? }
  predicate IsPageNotFoundError(e: Error) { e.PageNotFoundError? }
  predicate IsMetadataError(e: Error) { e.MetadataError? }
  predicate IsValidationError(e: Error) { e.ValidationError? }

  /** How many of the five type tests accept `e`. */
  function KindsAccepting(e: Error): nat
  {
    (if IsMangaNotFoundError(e) then 1 else 0) +
    (if IsChapterNotFoundError(e) then 1 else 0) +
    (if IsPageNotFoundError(e) then 1 else 0) +
    (if IsMetadataError(e) then 1 else 0) +
    (if IsValidationError(e) then 1 else 0)
  }

  /** The kinds are mutually exclusive and exhaustive: exactly one type test accepts each error. */
  lemma ExactlyOneKind(e: Error)
    ensures KindsAccepting(e) == 1
  {
  }

  /** `Error()` loses nothing: its text determines both the kind and the message. */
  lemma ErrorStringInjective(e1: Error, e2: Error)
    requires ErrorString(e1) == ErrorString(e2)
    ensures e1 == e2
  {
    var s := ErrorString(e1);
    var p1, p2 := KindPrefix(e1), KindPrefix(e2);
    assert s[0] == p1[0] == p2[0];
    assert s[1] == p1[1] == p2[1];
    assert p1 == p2;
    assert s[|p1|..] == e1.message;
    assert s[|p2|..] == e2.message;
  }
}
