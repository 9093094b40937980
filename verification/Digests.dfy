/** Hashes. A digest is unbounded, because no injective pair hash exists on 32-byte words;
    the pair hash itself is a parameter of every definition. */
module Digests {

  datatype Digest = Digest(value: nat)

  type PairHash = (Digest, Digest) -> Digest

  /** The all-zero word, the value of an empty leaf. */
  const HASH_ZERO := Digest(0)

  /** The source precomputes the zero hashes of this many levels. */
  const MAX_HEIGHT: nat := 64

  ghost predicate Injective(H: PairHash) {
    forall a, b, c, d :: H(a, b) == H(c, d) ==> a == c && b == d
  }

  /** A digest ranks above the two it was made from. */
  ghost predicate Ranks(H: PairHash, rank: Digest -> nat) {
    forall a, b :: rank(a) < rank(H(a, b)) && rank(b) < rank(H(a, b))
  }

  /** No digest is made from itself, through any number of hashes. */
  ghost predicate Acyclic(H: PairHash) {
    exists rank :: Ranks(H, rank)
  }

  /** The root of a tree of height `h` without leaves. */
  function Zero(H: PairHash, h: nat): Digest {
    if h == 0 then HASH_ZERO else H(Zero(H, h - 1), Zero(H, h - 1))
  }

  predicate ZeroTable(H: PairHash, zeroHashes: seq<Digest>) {
    |zeroHashes| == MAX_HEIGHT + 1 && forall h :: 0 <= h <= MAX_HEIGHT ==> zeroHashes[h] == Zero(H, h)
  }

  method GenerateZeroHashes(H: PairHash, height: nat) returns (zeroHashes: seq<Digest>)
    ensures |zeroHashes| == height + 1
    ensures forall h :: 0 <= h <= height ==> zeroHashes[h] == Zero(H, h)
  {
    zeroHashes := [HASH_ZERO];
    for i := 1 to height + 1
      invariant |zeroHashes| == i
      invariant forall h :: 0 <= h < i ==> zeroHashes[h] == Zero(H, h)
    {
      zeroHashes := zeroHashes + [H(zeroHashes[i - 1], zeroHashes[i - 1])];
    }
  }
}
