/** Values shared by both test suites: optional values (C# null), the exceptions
    the test code can raise, and the verdict a test method ends with. */
module Outcomes {

  /** A C# reference that may be null: `None` is null. */
  datatype Option<+T> = None | Some(value: T)

  /** A computation that either yields a value or throws. */
  datatype Result<+T> = Success(value: T) | Failure(error: Failure)

  /** The .NET exceptions the modelled code can throw. */
  datatype Failure =
    | JsonError            // JsonConvert.DeserializeObject rejects the response body
    | ArgumentNull         // List.AddRange(null)
    | NoElements           // Enumerable.First on an empty sequence or with no match
    | NullReference        // a member access through a null reference
    | ArgumentOutOfRange   // String.Substring with a negative start index

  /** How one test method ends: every assertion held, an `Assert` failed,
      or an exception escaped before the assertions were reached. */
  datatype Verdict = Passed | AssertionFailed | Threw(error: Failure)
}
