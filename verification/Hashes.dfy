/** The assumptions on the pair hash hold together: there is a hash that is injective and makes no digest from
    itself. */
module Hashes {
  import opened Digests

  /** The numbers `(2 * x + 1) * 2^y`, each in one way. */
  function Pairing(x: nat, y: nat): (p: nat)
    ensures p > x && p > y
  {
    if y == 0 then 2 * x + 1 else 2 * Pairing(x, y - 1)
  }

  lemma {:induction false} PairingTells(a: nat, b: nat, c: nat, d: nat)
    requires Pairing(a, b) == Pairing(c, d)
    ensures a == c && b == d
    decreases b
  {
    if b > 0 && d > 0 {
      PairingTells(a, b - 1, c, d - 1);
    }
  }

  function PairingHash(a: Digest, b: Digest): Digest {
    Digest(Pairing(a.value, b.value))
  }

  lemma HashesExist()
    ensures Injective(PairingHash) && Acyclic(PairingHash)
  {
    forall a: Digest, b: Digest, c: Digest, d: Digest | PairingHash(a, b) == PairingHash(c, d)
      ensures a == c && b == d
    {
      PairingTells(a.value, b.value, c.value, d.value);
    }
    var rank := (x: Digest) => x.value;
    assert Ranks(PairingHash, rank);
  }
}
