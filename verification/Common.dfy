/** What several components need. */
module Common {
  datatype Option<T> = None | Some(value: T)

  type Byte = b: int | 0 <= b < 256

  const NUL: char := '\0'

  function Min(a: nat, b: nat): nat {
    if a < b then a else b
  }

  predicate Once<T(==)>(s: seq<T>) {
    forall i, j :: 0 <= i < j < |s| ==> s[i] != s[j]
  }
}
