/** Facts about lists of words used by both the table and the ranking. */
module Sequences {

  predicate DistinctKeys(keys: seq<string>)
  {
    forall i, j :: 0 <= i < j < |keys| ==> keys[i] != keys[j]
  }

  function KeySet(keys: seq<string>): set<string>
  {
    set i | 0 <= i < |keys| :: keys[i]
  }

  function Min(a: int, b: int): (r: int) { if a <= b then a else b }

  function Max(a: int, b: int): (r: int) { if a <= b then b else a }

  /** The key set of a non-empty list is its first key together with the key set of the rest. */
  lemma KeySetCons(keys: seq<string>)
    requires keys != []
    ensures KeySet(keys) == {keys[0]} + KeySet(keys[1..])
  {
  }

  /** A list of distinct keys has a distinct tail that does not hold its head. */
  lemma DistinctTail(keys: seq<string>)
    requires keys != [] && DistinctKeys(keys)
    ensures DistinctKeys(keys[1..]) && keys[0] !in KeySet(keys[1..])
  {
    var rest := keys[1..];
    forall i | 0 <= i < |rest| ensures rest[i] == keys[i + 1] {
    }
  }
}
