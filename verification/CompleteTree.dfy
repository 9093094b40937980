/** The reference definition: the complete binary tree over a leaf list padded with zero leaves. */
module CompleteTree {
  import opened Levels
  import opened Digests

  function LeafAt(leaves: seq<Digest>, i: nat): Digest {
    if i < |leaves| then leaves[i] else HASH_ZERO
  }

  /** The node at position `i` of level `h`; level 0 holds the leaves. */
  function Node(H: PairHash, leaves: seq<Digest>, h: nat, i: nat): Digest {
    if h == 0 then LeafAt(leaves, i)
    else H(Node(H, leaves, h - 1, 2 * i), Node(H, leaves, h - 1, 2 * i + 1))
  }

  function Root(H: PairHash, leaves: seq<Digest>, height: nat): Digest {
    Node(H, leaves, height, 0)
  }

  /** A node depends only on the leaves below it. */
  lemma {:induction false} NodeAgree(H: PairHash, a: seq<Digest>, b: seq<Digest>, h: nat, i: nat)
    requires forall j: nat :: Up(j, h) == i ==> LeafAt(a, j) == LeafAt(b, j)
    ensures Node(H, a, h, i) == Node(H, b, h, i)
  {
    if h == 0 {
      assert Up(i, 0) == i;
    } else {
      forall j: nat | Up(j, h - 1) == 2 * i || Up(j, h - 1) == 2 * i + 1
        ensures LeafAt(a, j) == LeafAt(b, j)
      {
        assert Up(j, h) == i;
      }
      NodeAgree(H, a, b, h - 1, 2 * i);
      NodeAgree(H, a, b, h - 1, 2 * i + 1);
    }
  }

  lemma {:induction false} NodeOfEmpty(H: PairHash, h: nat, i: nat)
    ensures Node(H, [], h, i) == Zero(H, h)
  {
    if h > 0 {
      NodeOfEmpty(H, h - 1, 2 * i);
      NodeOfEmpty(H, h - 1, 2 * i + 1);
    }
  }

  /** Right of the last leaf's ancestor every node is a zero hash. */
  lemma NodeBeyond(H: PairHash, leaves: seq<Digest>, h: nat, i: nat)
    requires |leaves| > 0 ==> Up(|leaves| - 1, h) < i
    ensures Node(H, leaves, h, i) == Zero(H, h)
  {
    forall j: nat | Up(j, h) == i
      ensures LeafAt(leaves, j) == LeafAt([], j)
    {
      if j < |leaves| {
        UpMonotone(j, |leaves| - 1, h);
      }
    }
    NodeAgree(H, leaves, [], h, i);
    NodeOfEmpty(H, h, i);
  }

  /** Cutting or adding leaves from `m` on does not change a node whose last leaf is before `m`. */
  lemma NodeOfPrefix(H: PairHash, leaves: seq<Digest>, m: nat, h: nat, i: nat)
    requires m <= |leaves|
    requires m < |leaves| ==> i < Up(m, h)
    ensures Node(H, leaves[..m], h, i) == Node(H, leaves, h, i)
  {
    forall j: nat | Up(j, h) == i
      ensures LeafAt(leaves[..m], j) == LeafAt(leaves, j)
    {
      if m <= j < |leaves| {
        UpMonotone(m, j, h);
      }
    }
    NodeAgree(H, leaves[..m], leaves, h, i);
  }

  /** Explicit zero leaves at the end are the padding the tree has anyway. */
  lemma NodeOfPadded(H: PairHash, leaves: seq<Digest>, zeros: seq<Digest>, h: nat, i: nat)
    requires forall k :: 0 <= k < |zeros| ==> zeros[k] == HASH_ZERO
    ensures Node(H, leaves + zeros, h, i) == Node(H, leaves, h, i)
  {
    NodeAgree(H, leaves + zeros, leaves, h, i);
  }

  /** For an injective hash a root determines every leaf below it. */
  lemma {:induction false} NodeDeterminesLeaves(H: PairHash, a: seq<Digest>, b: seq<Digest>, h: nat, i: nat, j: nat)
    requires Injective(H)
    requires Node(H, a, h, i) == Node(H, b, h, i)
    requires Up(j, h) == i
    ensures LeafAt(a, j) == LeafAt(b, j)
  {
    if h > 0 {
      var below := Up(j, h - 1);
      assert below == 2 * i || below == 2 * i + 1;
      NodeDeterminesLeaves(H, a, b, h - 1, below, j);
    }
  }
}
