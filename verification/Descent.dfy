/** Walking from a root down to a leaf through stored nodes, as rebuilding and proving both do. */
module Descent {
  import opened Levels
  import opened Digests
  import opened CompleteTree
  import opened MerkleProofs
  import opened LevelBuilder

  function Child(link: Link, bit: bool): Digest {
    if bit then link.right else link.left
  }

  /** The node to look up after the steps `links` towards leaf `index`. */
  function Cursor(root: Digest, index: nat, height: nat, links: seq<Link>): Digest
    requires |links| <= height
  {
    if links == [] then root else Child(links[|links| - 1], Bit(index, height - |links|))
  }

  /** Each step looks up the cursor and finds two children that hash to it. */
  ghost predicate IsDescent(H: PairHash, root: Digest, index: nat, height: nat, links: seq<Link>) {
    |links| <= height &&
    (links == [] ||
     var before, link := links[..|links| - 1], links[|links| - 1];
     && IsDescent(H, root, index, height, before)
     && link.key == Cursor(root, index, height, before)
     && link.key == H(link.left, link.right))
  }

  lemma DescentExtends(H: PairHash, root: Digest, index: nat, height: nat, links: seq<Link>, link: Link)
    requires IsDescent(H, root, index, height, links) && |links| < height
    requires link.key == Cursor(root, index, height, links) && link.key == H(link.left, link.right)
    ensures IsDescent(H, root, index, height, links + [link])
  {
    assert (links + [link])[..|links|] == links;
  }

  /** From a node of a complete tree the walk meets the nodes of that tree and nothing else. */
  lemma {:induction false} DescentStaysInTree(H: PairHash, leaves: seq<Digest>, index: nat, height: nat,
      links: seq<Link>)
    requires Injective(H)
    requires IsDescent(H, Node(H, leaves, height, Up(index, height)), index, height, links)
    ensures Cursor(Node(H, leaves, height, Up(index, height)), index, height, links)
         == Node(H, leaves, height - |links|, Up(index, height - |links|))
    ensures links != [] ==> links[|links| - 1] == LinkAt(H, leaves, height - |links|, Up(index, height - |links| + 1))
    decreases |links|
  {
    if links != [] {
      DescentStaysInTree(H, leaves, index, height, links[..|links| - 1]);
    }
  }

  /** The siblings left aside, bottom first. */
  function Aside(index: nat, height: nat, links: seq<Link>): (siblings: seq<Digest>)
    requires |links| <= height
    ensures |siblings| == |links|
  {
    if links == [] then []
    else [Child(links[|links| - 1], !Bit(index, height - |links|))] + Aside(index, height, links[..|links| - 1])
  }

  lemma {:induction false} AsideAt(index: nat, height: nat, links: seq<Link>, k: nat)
    requires k < |links| <= height
    ensures Aside(index, height, links)[k] == Child(links[|links| - 1 - k], !Bit(index, height - |links| + k))
  {
    if k > 0 {
      AsideAt(index, height, links[..|links| - 1], k - 1);
    }
  }

  /** Whatever the root, where the walk ends folds back to it with the siblings left aside. */
  lemma {:induction false} DescentFoldsBack(H: PairHash, root: Digest, index: nat, height: nat, links: seq<Link>)
    requires IsDescent(H, root, index, height, links)
    ensures root ==
      Climb(H, Cursor(root, index, height, links), Aside(index, height, links), Up(index, height - |links|))
    decreases |links|
  {
    if links != [] {
      var before, link := links[..|links| - 1], links[|links| - 1];
      DescentFoldsBack(H, root, index, height, before);
      assert Aside(index, height, links)[1..] == Aside(index, height, before);
      assert Up(index, height - |links|) / 2 == Up(index, height - |before|);
    }
  }
}
