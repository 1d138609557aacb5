/** Notions that several parts share. */
module Common {

  type byte = b: int | 0 <= b < 0x100

  datatype Option<T> = None | Some(value: T)

  /** No element is there twice. */
  ghost predicate NoDup<T>(s: seq<T>) {
    forall i, j :: 0 <= i < j < |s| ==> s[i] != s[j]
  }
}
