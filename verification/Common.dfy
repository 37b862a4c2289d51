/** What several modules have in common. */
module Common {
  datatype Option<T> = None | Some(value: T)

  ghost function Min(a: int, b: int): int {
    if a < b then a else b
  }

  ghost predicate NoDup<T>(s: seq<T>) {
    forall i, j :: 0 <= i < j < |s| ==> s[i] != s[j]
  }

  /** All but the k-th */
  ghost function Others<T>(s: seq<T>, k: nat): seq<T>
    requires k < |s|
  {
    s[..k] + s[k + 1..]
  }
}
