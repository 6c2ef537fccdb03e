/** What all kinds of leaves share: the key of an empty slot, and the shift that
    makes room for a record in a sorted leaf. */
module LeafSlots {

  const NULL_KEY: nat := 0

  /** Slots i..j shifted up by one and x put at i; slot j is overwritten. */
  function Shifted<T>(s: seq<T>, i: nat, j: nat, x: T): (t: seq<T>)
    requires i <= j < |s|
    ensures |t| == |s|
  {
    s[..i] + [x] + s[i..j] + s[j + 1..]
  }

  lemma ShiftedAt<T>(s: seq<T>, i: nat, j: nat, x: T, u: nat)
    requires i <= j < |s| && u < |s|
    ensures Shifted(s, i, j, x)[u] == if u < i then s[u] else if u == i then x else if u <= j then s[u - 1] else s[u]
  {
  }
}
