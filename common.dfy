/** Small shared vocabulary: Java's nullable references and duplicate-free sequences. */
module Common {

  /** A reference that may be null (`None`). */
  datatype Option<T> = None | Some(value: T)

  /** No element occurs twice. */
  predicate Distinct<T(==)>(s: seq<T>)
  {
    forall i, j :: 0 <= i < j < |s| ==> s[i] != s[j]
  }
}
