/** What the modules of the project share: result types, and elements and repetition in sequences. */
module Common {
  datatype Option<+T> = None | Some(value: T)

  datatype Result<+T, +E> = Ok(value: T) | Err(error: E)

  predicate Distinct<T(==)>(s: seq<T>) {
    forall i, j :: 0 <= i < j < |s| ==> s[i] != s[j]
  }

  function Elements<T(==)>(s: seq<T>): set<T> { set x <- s }

  /** The second of two parts has no repetition and nothing of the first. */
  lemma DistinctParts<T>(a: seq<T>, b: seq<T>)
    requires Distinct(a + b)
    ensures Distinct(b) && forall x <- a :: x !in b
  {
    var c := a + b;
    assert forall i :: 0 <= i < |b| ==> b[i] == c[|a| + i];
    assert forall i :: 0 <= i < |a| ==> a[i] == c[i];
  }
}
