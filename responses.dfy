/** The `{ success, value }` record every model returns (types.d.ts), and
    one model step: the tables after an operation together with its response. */
module Responses {
  import opened Validator
  import opened Db

  /** `success: true` with a value; `success: false` with a list of issues;
      or `success: false` with a single issue as its value (as `leave` does). */
  datatype Response<+T> =
    | Success(value: T)
    | Failure(issues: seq<Issue>)
    | FailureValue(issue: Issue)

  datatype Step<+T> = Step(tables: Tables, response: Response<T>)
}
