/** What the modules of this project share. */
module Wrappers {
  datatype Option<+T> = None | Some(value: T)

  /** The sequence repeats no element. */
  ghost predicate NoDup<T>(s: seq<T>) {
    forall i, j :: 0 <= i < j < |s| ==> s[i] != s[j]
  }
}
