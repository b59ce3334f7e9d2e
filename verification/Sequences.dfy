/**
 What several modules say about sequences and optional values.
 */
module Sequences {

  datatype Option<T> = None | Some(value: T)

  ghost predicate Distinct<A>(s: seq<A>) {
    forall i, j :: 0 <= i < j < |s| ==> s[i] != s[j]
  }
}
