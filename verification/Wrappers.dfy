/** Types shared by the other modules. */
module Wrappers {
  type Byte = n: nat | n < 256

  datatype Option<+T> = None | Some(value: T)

  /** Nothing occurs twice. */
  ghost predicate Distinct<T>(s: seq<T>) {
    forall i, j :: 0 <= i < j < |s| ==> s[i] != s[j]
  }
}
