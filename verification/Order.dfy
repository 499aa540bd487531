/** Two orders on sequences of keys. */
module Order {

  /** Each key is below all later ones. */
  ghost predicate Strict(keys: seq<int>) {
    forall i, j :: 0 <= i < j < |keys| ==> keys[i] < keys[j]
  }

  /** Equal keys may stand next to each other. */
  ghost predicate Ascending(keys: seq<int>) {
    forall i, j :: 0 <= i < j < |keys| ==> keys[i] <= keys[j]
  }
}
