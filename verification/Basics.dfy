/** Stock types and functions that several models use. */
module Basics {
  datatype Option<T> = None | Some(value: T)

  newtype Byte = b: int | 0 <= b < 256

  function Min(a: nat, b: nat): nat { if a < b then a else b }

  function Max(a: nat, b: nat): nat { if a < b then b else a }

  ghost predicate NoRepeats<T>(s: seq<T>) {
    forall i, j :: 0 <= i < j < |s| ==> s[i] != s[j]
  }
}
