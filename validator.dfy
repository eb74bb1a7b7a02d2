/** The error values the models put into a failed response
    (libs/validator.ts), together with the other issue shapes the models
    return: the literal password-mismatch issue of sign-in and the issues
    produced by schema validation. */
module Validator {

  datatype Issue =
    | Message(path: string, message: string)
    | Expectation(path: string, expected: string, value: string)
    | SchemaIssue(path: string)   // a schema check failed on this field

  const FailedToCreatePrefix: string := "Failed to create "
  const AlreadyExistsPrefix: string := "Already exists "
  const NotFoundMessage: string := "Not found"

  /** `failedToCreateError(path)`: the message names the path after a fixed prefix. */
  function FailedToCreateError(path: string): (e: Issue)
    ensures e.Message? && e.path == path
    ensures |e.message| == |FailedToCreatePrefix| + |path|
    ensures e.message[..|FailedToCreatePrefix|] == FailedToCreatePrefix
    ensures e.message[|FailedToCreatePrefix|..] == path
  {
    Message(path, FailedToCreatePrefix + path)
  }

  /** `uniqueValidationError(path)`: the message names the path after a fixed prefix. */
  function UniqueValidationError(path: string): (e: Issue)
    ensures e.Message? && e.path == path
    ensures |e.message| == |AlreadyExistsPrefix| + |path|
    ensures e.message[..|AlreadyExistsPrefix|] == AlreadyExistsPrefix
    ensures e.message[|AlreadyExistsPrefix|..] == path
  {
    Message(path, AlreadyExistsPrefix + path)
  }

  /** `notFoundError(path)`: the message does not mention the path. */
  function NotFoundError(path: string): (e: Issue)
    ensures e.Message? && e.path == path
    ensures e.message == NotFoundMessage
  {
    Message(path, NotFoundMessage)
  }

  /** The path can be read back from each constructor's message, so two
      different paths never give the same error (not so for NotFoundError,
      whose message is the same for every path). */
  lemma ConstructorsInjective(p: string, q: string)
    ensures FailedToCreateError(p).message == FailedToCreateError(q).message ==> p == q
    ensures UniqueValidationError(p).message == UniqueValidationError(q).message ==> p == q
    ensures NotFoundError(p).message == NotFoundError(q).message
  {
  }

  /** For one and the same path the three constructors give three different
      messages: they differ in their first character. */
  lemma MessagesDistinct(p: string)
    ensures FailedToCreateError(p).message != UniqueValidationError(p).message
    ensures FailedToCreateError(p).message != NotFoundError(p).message
    ensures UniqueValidationError(p).message != NotFoundError(p).message
  {
    assert FailedToCreateError(p).message[0] == 'F';
    assert UniqueValidationError(p).message[0] == 'A';
    assert NotFoundError(p).message[0] == 'N';
  }

  /** The issues of a schema check on one field: none when the field is valid. */
  function Check(path: string, ok: bool): seq<Issue>
  {
    if ok then [] else [SchemaIssue(path)]
  }
}
