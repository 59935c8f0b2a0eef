/** Small shared vocabulary: an optional value and facts about sequences
    used as collections. */
module Common {

  datatype Option<+T> = None | Some(value: T)

  /** The elements of a sequence, as a set. */
  function Elems<T>(s: seq<T>): set<T> {
    set x | x in s
  }

  /** No element occurs twice. */
  predicate NoDup<T(==)>(s: seq<T>) {
    forall i, j :: 0 <= i < j < |s| ==> s[i] != s[j]
  }
}
