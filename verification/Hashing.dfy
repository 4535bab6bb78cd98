/**
 The hash function as a parameter.

 Nothing is assumed of it but its 32-byte output. Where a property rests on collision
 resistance, the lemma names the finite set of strings that were hashed and assumes
 only that the function does not collide on that set.
 */
module Hashing {
  import opened Bytes

  const HASH_SIZE := 32

  type Digest = d: bytes | |d| == HASH_SIZE witness seq(HASH_SIZE, i => 0)

  type HashFn = bytes -> Digest

  /** The pairs of inputs that a proof compares; it only guides instantiation. */
  ghost predicate Compared(x: bytes, y: bytes) { true }

  ghost predicate InjectiveOn(h: HashFn, inputs: set<bytes>) {
    forall x, y {:trigger Compared(x, y)} :: x in inputs && y in inputs && h(x) == h(y) ==> x == y
  }

  lemma NoCollision(h: HashFn, inputs: set<bytes>, x: bytes, y: bytes)
    requires InjectiveOn(h, inputs) && x in inputs && y in inputs && h(x) == h(y)
    ensures x == y
  {
    assert Compared(x, y);
  }

  lemma InjectiveOnSubset(h: HashFn, small: set<bytes>, large: set<bytes>)
    requires small <= large && InjectiveOn(h, large)
    ensures InjectiveOn(h, small)
  {
    forall x, y | x in small && y in small && h(x) == h(y) ensures x == y {
      NoCollision(h, large, x, y);
    }
  }
}
