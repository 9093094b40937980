/** Positions in a binary tree: the ancestor of leaf `i` at level `h` has position `i >> h`. */
module Levels {

  /** `i >> h`. */
  function Up(i: nat, h: nat): nat {
    if h == 0 then i else Up(i, h - 1) / 2
  }

  /** `(i >> h) & 1`, written in the source also as `i & (1 << h) > 0`. */
  predicate Bit(i: nat, h: nat) {
    Up(i, h) % 2 == 1
  }

  /** The position next to `i` under the same parent. */
  function Sibling(i: nat): nat {
    if i % 2 == 1 then i - 1 else i + 1
  }

  function Pow2(h: nat): (p: nat)
    ensures p >= 1
  {
    if h == 0 then 1 else 2 * Pow2(h - 1)
  }

  lemma {:induction false} UpShift(i: nat, h: nat)
    ensures Up(i, h + 1) == Up(i / 2, h)
  {
    if h > 0 {
      UpShift(i, h - 1);
    }
  }

  lemma {:induction false} UpMonotone(i: nat, j: nat, h: nat)
    requires i <= j
    ensures Up(i, h) <= Up(j, h)
  {
    if h > 0 {
      UpMonotone(i, j, h - 1);
    }
  }

  lemma {:induction false} UpSuccessor(i: nat, h: nat)
    ensures Up(i, h) <= Up(i + 1, h) <= Up(i, h) + 1
  {
    if h > 0 {
      UpSuccessor(i, h - 1);
    }
  }

  /** A tree of height `h` has room for the indices below `2^h` and no others. */
  lemma {:induction false} Capacity(i: nat, h: nat)
    ensures Up(i, h) == 0 <==> i < Pow2(h)
  {
    if h > 0 {
      UpShift(i, h - 1);
      Capacity(i / 2, h - 1);
    }
  }
}
