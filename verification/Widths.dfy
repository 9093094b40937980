/** The widths behind the constants: counts are 32-bit, nonces 64-bit, and a global index has the flag above two
    32-bit words. */
module Widths {
  import opened Levels
  import ExitTree
  import GlobalIndex
  import NonceCache

  lemma {:induction false} Pow2Adds(a: nat, b: nat)
    ensures Pow2(a + b) == Pow2(a) * Pow2(b)
  {
    if a > 0 {
      Pow2Adds(a - 1, b);
    }
  }

  lemma Doubled(h: nat, p: nat)
    requires Pow2(h) == p
    ensures Pow2(h + h) == p * p
  {
    Pow2Adds(h, h);
  }

  lemma Sixteen()
    ensures Pow2(4) == 16
  {
    assert Pow2(2) == 4;
  }

  lemma Bits()
    ensures ExitTree.COUNT_LIMIT == Pow2(32) && NonceCache.LIMIT == Pow2(64)
    ensures GlobalIndex.WORD == Pow2(32) && GlobalIndex.FLAG == Pow2(64) && GlobalIndex.LIMIT == Pow2(256)
  {
    hide Pow2;
    Sixteen();
    Doubled(4, 16);
    Doubled(8, 0x100);
    Doubled(16, 0x1_0000);
    Doubled(32, GlobalIndex.WORD);
    Doubled(64, GlobalIndex.FLAG);
    Doubled(128, GlobalIndex.FLAG * GlobalIndex.FLAG);
  }
}
