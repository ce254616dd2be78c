/**
 The test-case records the session holds. The JSON reader hands back loosely
 typed rows, so every field is a cell that may be missing, empty, a string, or
 a list of strings.
 */
module Records {

  /**
   One field of a parsed record: `Absent` when the object had no such key,
   `Null` for the empty value the table reader fills in, `Text` for a string,
   `Items` for a list of strings.
   */
  datatype Cell = Absent | Null | Text(s: string) | Items(xs: seq<string>)

  /** A generated test case, one object of the model's JSON array. */
  datatype TestCase = TestCase(
    title: Cell,
    preconditions: Cell,
    severity: Cell,
    steps: Cell,
    expected: Cell,
    tags: Cell)
}
