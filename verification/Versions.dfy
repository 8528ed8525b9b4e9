/** Look-up in a numbered history. */
module Versions {
  import opened Wrappers

  /** The first item with this number. */
  function FindVersion<T>(items: seq<T>, number: T -> int, version: int): Option<T> {
    if items == [] then None
    else if number(items[0]) == version then Some(items[0])
    else FindVersion(items[1..], number, version)
  }

  /** In a history numbered without gaps the search is indexing. */
  lemma {:induction false} FindNumbered<T>(items: seq<T>, number: T -> int, first: int, version: int)
    requires forall i :: 0 <= i < |items| ==> number(items[i]) == first + i
    ensures FindVersion(items, number, version)
         == if first <= version < first + |items| then Some(items[version - first]) else None
  {
    if items != [] && number(items[0]) != version {
      FindNumbered(items[1..], number, first + 1, version);
    }
  }
}
