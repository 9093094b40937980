/** Folding a leaf with the siblings on its path, and what a sibling list that folds to a root is worth. */
module MerkleProofs {
  import opened Levels
  import opened Digests
  import opened CompleteTree

  /** The parent of `node` at position `i`. */
  function Parent(H: PairHash, node: Digest, sibling: Digest, i: nat): Digest {
    if i % 2 == 1 then H(sibling, node) else H(node, sibling)
  }

  /** Folds upwards from position `i`, one sibling a level. */
  function Climb(H: PairHash, node: Digest, siblings: seq<Digest>, i: nat): Digest
    decreases |siblings|
  {
    if siblings == [] then node
    else Climb(H, Parent(H, node, siblings[0], i), siblings[1..], i / 2)
  }

  /** The siblings met from position `i` of level `h` upwards through `n` levels. */
  function SiblingsFrom(H: PairHash, leaves: seq<Digest>, h: nat, i: nat, n: nat): (siblings: seq<Digest>)
    ensures |siblings| == n
    decreases n
  {
    if n == 0 then []
    else [Node(H, leaves, h, Sibling(i))] + SiblingsFrom(H, leaves, h + 1, i / 2, n - 1)
  }

  /** The sibling list of leaf `i` in the complete tree. */
  function ProofOf(H: PairHash, leaves: seq<Digest>, i: nat, height: nat): (proof: seq<Digest>)
    ensures |proof| == height
  {
    SiblingsFrom(H, leaves, 0, i, height)
  }

  /** Its entry for level `k` is the neighbour of the leaf's ancestor there. */
  lemma {:induction false} SiblingsFromAt(H: PairHash, leaves: seq<Digest>, h: nat, i: nat, n: nat, k: nat)
    requires k < n
    ensures SiblingsFrom(H, leaves, h, i, n)[k] == Node(H, leaves, h + k, Sibling(Up(i, k)))
    decreases n
  {
    if k > 0 {
      SiblingsFromAt(H, leaves, h + 1, i / 2, n - 1, k - 1);
      UpShift(i, k - 1);
      assert h + 1 + (k - 1) == h + k;
    }
  }

  lemma SiblingsFromNone(H: PairHash, leaves: seq<Digest>, i: nat)
    ensures SiblingsFrom(H, leaves, 0, i, 0) == []
  {
  }

  lemma {:induction false} SiblingsFromExtend(H: PairHash, leaves: seq<Digest>, h: nat, i: nat, n: nat)
    ensures SiblingsFrom(H, leaves, h, i, n + 1)
         == SiblingsFrom(H, leaves, h, i, n) + [Node(H, leaves, h + n, Sibling(Up(i, n)))]
    decreases n
  {
    if n > 0 {
      SiblingsFromExtend(H, leaves, h + 1, i / 2, n - 1);
      UpShift(i, n - 1);
      assert h + 1 + (n - 1) == h + n;
    }
  }

  method CalculateRoot(H: PairHash, leaf: Digest, proof: seq<Digest>, index: nat, height: nat) returns (root: Digest)
    requires height <= |proof|
    ensures root == Climb(H, leaf, proof[..height], index)
  {
    root := leaf;
    for h := 0 to height
      invariant Climb(H, root, proof[h..height], Up(index, h)) == Climb(H, leaf, proof[..height], index)
    {
      assert proof[h..height][1..] == proof[h + 1..height];
      if Bit(index, h) {
        root := H(proof[h], root);
      } else {
        root := H(root, proof[h]);
      }
    }
  }

  lemma ParentInTree(H: PairHash, leaves: seq<Digest>, h: nat, i: nat)
    ensures Parent(H, Node(H, leaves, h, i), Node(H, leaves, h, Sibling(i)), i) == Node(H, leaves, h + 1, i / 2)
  {
    if i % 2 == 1 {
      assert i == 2 * (i / 2) + 1;
    } else {
      assert i == 2 * (i / 2);
    }
  }

  lemma {:induction false} ClimbInTree(H: PairHash, leaves: seq<Digest>, h: nat, i: nat, n: nat)
    ensures Climb(H, Node(H, leaves, h, i), SiblingsFrom(H, leaves, h, i, n), i) == Node(H, leaves, h + n, Up(i, n))
    decreases n
  {
    if n > 0 {
      ParentInTree(H, leaves, h, i);
      ClimbInTree(H, leaves, h + 1, i / 2, n - 1);
      UpShift(i, n - 1);
      assert SiblingsFrom(H, leaves, h, i, n)[1..] == SiblingsFrom(H, leaves, h + 1, i / 2, n - 1);
      assert h + 1 + (n - 1) == h + n;
    }
  }

  /** Completeness: the sibling list of any position below the capacity folds to the root. */
  lemma ProofFolds(H: PairHash, leaves: seq<Digest>, i: nat, height: nat)
    requires i < Pow2(height)
    ensures Climb(H, LeafAt(leaves, i), ProofOf(H, leaves, i, height), i) == Root(H, leaves, height)
  {
    Capacity(i, height);
    ClimbInTree(H, leaves, 0, i, height);
  }

  /** Binding: at one index and height a root admits one leaf and one sibling list. */
  lemma {:induction false} ProofsBind(H: PairHash, a: Digest, b: Digest, p: seq<Digest>, q: seq<Digest>, i: nat)
    requires Injective(H)
    requires |p| == |q|
    requires Climb(H, a, p, i) == Climb(H, b, q, i)
    ensures a == b && p == q
    decreases |p|
  {
    if p != [] {
      ProofsBind(H, Parent(H, a, p[0], i), Parent(H, b, q[0], i), p[1..], q[1..], i / 2);
      assert p == [p[0]] + p[1..] && q == [q[0]] + q[1..];
    }
  }

  /** Soundness and uniqueness together: what folds to the root of `leaves` at index `i` is
      leaf `i` with its own sibling list. */
  lemma OnlyTheLeafFolds(H: PairHash, leaves: seq<Digest>, i: nat, height: nat, leaf: Digest, proof: seq<Digest>)
    requires Injective(H)
    requires i < Pow2(height) && |proof| == height
    ensures Climb(H, leaf, proof, i) == Root(H, leaves, height)
       <==> leaf == LeafAt(leaves, i) && proof == ProofOf(H, leaves, i, height)
  {
    ProofFolds(H, leaves, i, height);
    if Climb(H, leaf, proof, i) == Root(H, leaves, height) {
      ProofsBind(H, leaf, LeafAt(leaves, i), proof, ProofOf(H, leaves, i, height), i);
    }
  }
}
