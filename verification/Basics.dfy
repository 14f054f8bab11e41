/** Small facts about products and sequences that several modules need. */
module Basics {

  lemma MulMonotone(x: int, y: int, z: int)
    requires x <= y && 0 <= z
    ensures x * z <= y * z
  {
  }

  lemma NextMultiple(q: int, d: int)
    ensures (q + 1) * d == q * d + d
  {
  }

  lemma Associate<T>(a: seq<T>, b: seq<T>, c: seq<T>)
    ensures (a + b) + c == a + (b + c)
  {
  }

  /** How many of the first k are not number j. */
  function Others(j: nat, k: nat): nat {
    if k > j then k - 1 else k
  }
}
