/** Building a tree level by level from a leaf list. */
module LevelBuilder {
  import opened Levels
  import opened Digests
  import opened CompleteTree
  import opened MerkleProofs

  /** A stored node: its hash and the two children. */
  datatype Link = Link(key: Digest, left: Digest, right: Digest)

  function LinkAt(H: PairHash, leaves: seq<Digest>, h: nat, i: nat): Link {
    Link(Node(H, leaves, h + 1, i), Node(H, leaves, h, 2 * i), Node(H, leaves, h, 2 * i + 1))
  }

  /** An empty list is built as one zero leaf. */
  function Last(leaves: seq<Digest>): nat {
    if |leaves| == 0 then 0 else |leaves| - 1
  }

  /** `level` holds the nodes of level `h` up to the ancestor of the last leaf. */
  ghost predicate IsLevel(H: PairHash, leaves: seq<Digest>, h: nat, level: seq<Digest>) {
    |level| == Up(Last(leaves), h) + 1 &&
    forall i :: 0 <= i < |level| ==> level[i] == Node(H, leaves, h, i)
  }

  /** `links` are the stored nodes of level `h + 1` up to the ancestor of the last leaf. */
  ghost predicate IsLinkLevel(H: PairHash, leaves: seq<Digest>, h: nat, links: seq<Link>) {
    |links| == Up(Last(leaves), h + 1) + 1 &&
    forall i :: 0 <= i < |links| ==> links[i] == LinkAt(H, leaves, h, i)
  }

  method BuildIntermediate(H: PairHash, level: seq<Digest>) returns (links: seq<Link>, hashes: seq<Digest>)
    requires |level| % 2 == 0
    ensures |links| == |hashes| == |level| / 2
    ensures forall i :: 0 <= i < |hashes| ==>
      hashes[i] == H(level[2 * i], level[2 * i + 1]) && links[i] == Link(hashes[i], level[2 * i], level[2 * i + 1])
  {
    links, hashes := [], [];
    var i := 0;
    while i < |level|
      invariant i % 2 == 0 && i <= |level|
      invariant |links| == |hashes| == i / 2
      invariant forall k :: 0 <= k < |hashes| ==>
        hashes[k] == H(level[2 * k], level[2 * k + 1]) && links[k] == Link(hashes[k], level[2 * k], level[2 * k + 1])
    {
      var hash := H(level[i], level[i + 1]);
      links := links + [Link(hash, level[i], level[i + 1])];
      hashes := hashes + [hash];
      i := i + 2;
    }
  }

  /** One turn of the loop shared by the builders: pad to an even length. */
  method PadLevel(H: PairHash, zeroHashes: seq<Digest>, ghost leaves: seq<Digest>, h: nat, level: seq<Digest>)
    returns (even: seq<Digest>)
    requires ZeroTable(H, zeroHashes) && h <= MAX_HEIGHT
    requires IsLevel(H, leaves, h, level)
    ensures |even| == 2 * (Up(Last(leaves), h + 1) + 1)
    ensures forall i :: 0 <= i < |even| ==> even[i] == Node(H, leaves, h, i)
  {
    even := level;
    if |even| % 2 == 1 {
      NodeBeyond(H, leaves, h, |level|);
      even := even + [zeroHashes[h]];
    }
  }

  /** The hashes of the pairs of one level are the next level. */
  lemma NextLevel(H: PairHash, leaves: seq<Digest>, h: nat, even: seq<Digest>, links: seq<Link>, hashes: seq<Digest>)
    requires |even| == 2 * (Up(Last(leaves), h + 1) + 1) && |links| == |hashes| == |even| / 2
    requires forall i :: 0 <= i < |even| ==> even[i] == Node(H, leaves, h, i)
    requires forall i :: 0 <= i < |hashes| ==>
      hashes[i] == H(even[2 * i], even[2 * i + 1]) && links[i] == Link(hashes[i], even[2 * i], even[2 * i + 1])
    ensures IsLevel(H, leaves, h + 1, hashes) && IsLinkLevel(H, leaves, h, links)
  {
  }

  lemma FirstLevel(H: PairHash, leaves: seq<Digest>)
    ensures IsLevel(H, leaves, 0, if |leaves| == 0 then [HASH_ZERO] else leaves)
  {
  }

  /** Builds every level; the nodes are the ones the store receives. It fails if more than one root is
      left at the top. */
  method BuildNodes(H: PairHash, zeroHashes: seq<Digest>, height: nat, leaves: seq<Digest>)
    returns (ok: bool, root: Digest, nodes: seq<seq<Link>>)
    requires ZeroTable(H, zeroHashes) && height <= MAX_HEIGHT
    ensures ok <==> height >= 1 && |leaves| <= Pow2(height)
    ensures ok ==> root == Root(H, leaves, height)
    ensures |nodes| == height && forall h :: 0 <= h < height ==> IsLinkLevel(H, leaves, h, nodes[h])
  {
    hide Node;
    FirstLevel(H, leaves);
    root, nodes := HASH_ZERO, [];
    var level := if |leaves| == 0 then [zeroHashes[0]] else leaves;
    var ns: seq<Link> := [];
    for h := 0 to height
      invariant IsLevel(H, leaves, h, level)
      invariant |nodes| == h && forall k :: 0 <= k < h ==> IsLinkLevel(H, leaves, k, nodes[k])
      invariant if h == 0 then ns == [] else ns == nodes[h - 1]
    {
      var even := PadLevel(H, zeroHashes, leaves, h, level);
      ns, level := BuildIntermediate(H, even);
      NextLevel(H, leaves, h, even, ns, level);
      nodes := nodes + [ns];
    }
    Capacity(Last(leaves), height);
    ok := |ns| == 1;
    if ok {
      root := ns[0].key;
    }
  }

  /** `buildMTRoot`: an error exactly for a list longer than the capacity. */
  method BuildMTRoot(H: PairHash, zeroHashes: seq<Digest>, height: nat, leaves: seq<Digest>)
    returns (ok: bool, root: Digest)
    requires ZeroTable(H, zeroHashes) && height <= MAX_HEIGHT
    ensures ok <==> height >= 1 && |leaves| <= Pow2(height)
    ensures ok ==> root == Root(H, leaves, height)
  {
    var nodes;
    ok, root, nodes := BuildNodes(H, zeroHashes, height, leaves);
  }

  datatype SiblingsResult =
    | Siblings(siblings: seq<Digest>, root: Digest)
    | MoreThanOneRoot
    | IndexOutOfRange  // the source panics

  /** The entry beside position `i` of a level of even length. */
  method ReadSibling(level: seq<Digest>, i: nat) returns (inRange: bool, sibling: Digest)
    requires |level| % 2 == 0 && |level| > 0
    ensures inRange <==> i < |level|
    ensures inRange ==> Sibling(i) < |level| && sibling == level[Sibling(i)]
  {
    inRange, sibling := false, HASH_ZERO;
    if i % 2 == 1 {
      if i - 1 >= |level| {
        return;
      }
      sibling := level[i - 1];
    } else {
      if i + 1 >= |level| {
        return;
      }
      sibling := level[i + 1];
    }
    inRange := true;
  }

  /** `ComputeSiblings`. The index may point one past an odd list, at the padding leaf. */
  method ComputeSiblings(H: PairHash, zeroHashes: seq<Digest>, index: nat, leaves: seq<Digest>, height: nat)
    returns (r: SiblingsResult)
    requires ZeroTable(H, zeroHashes) && height <= MAX_HEIGHT
    ensures r.IndexOutOfRange? <==> height >= 1 && index / 2 > Last(leaves) / 2
    ensures r.Siblings? <==> height >= 1 && index / 2 <= Last(leaves) / 2 && |leaves| <= Pow2(height)
    ensures r.Siblings? ==> r.root == Root(H, leaves, height) && r.siblings == ProofOf(H, leaves, index, height)
  {
    hide SiblingsFrom;
    hide Node;
    FirstLevel(H, leaves);
    SiblingsFromNone(H, leaves, index);
    var level := if |leaves| == 0 then [zeroHashes[0]] else leaves;
    var siblings: seq<Digest> := [];
    var ns: seq<Link> := [];
    var i := index;
    for h := 0 to height
      invariant IsLevel(H, leaves, h, level)
      invariant i == Up(index, h)
      invariant h > 0 ==> index / 2 <= Last(leaves) / 2 && i < |level|
      invariant siblings == ProofOf(H, leaves, index, h)
      invariant if h == 0 then ns == [] else IsLinkLevel(H, leaves, h - 1, ns)
    {
      var even := PadLevel(H, zeroHashes, leaves, h, level);
      SiblingsFromExtend(H, leaves, 0, index, h);
      var inRange, sibling := ReadSibling(even, i);
      if !inRange {
        return IndexOutOfRange;
      }
      siblings := siblings + [sibling];
      ns, level := BuildIntermediate(H, even);
      NextLevel(H, leaves, h, even, ns, level);
      i := i / 2;
    }
    Capacity(Last(leaves), height);
    if |ns| != 1 {
      return MoreThanOneRoot;
    }
    r := Siblings(siblings, ns[0].key);
  }
}
