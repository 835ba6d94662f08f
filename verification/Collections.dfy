/** What several components use of containers. */
module Collections {
  datatype Option<T> = None | Some(value: T)

  ghost predicate Unique<T>(s: seq<T>) {
    forall i, j :: 0 <= i < j < |s| ==> s[i] != s[j]
  }
}
