/** Serving Merkle proofs from the tables through a cache of nodes. */
module ProofService {
  import opened Levels
  import opened Digests
  import opened CompleteTree
  import opened MerkleProofs
  import opened LevelBuilder
  import opened Storage
  import opened StoredTree
  import opened Descent
  import opened ExitTree

  /** Two walks from one root towards one leaf coincide as far as both go. */
  lemma {:induction false} DescentsAgree(H: PairHash, root: Digest, index: nat, height: nat, a: seq<Link>, b: seq<Link>)
    requires Injective(H) && |a| <= |b|
    requires IsDescent(H, root, index, height, a) && IsDescent(H, root, index, height, b)
    ensures a == b[..|a|]
    decreases |b|
  {
    if |a| < |b| {
      DescentsAgree(H, root, index, height, a, b[..|b| - 1]);
      assert b[..|b| - 1][..|a|] == b[..|a|];
    } else if a != [] {
      var k := |a| - 1;
      DescentsAgree(H, root, index, height, a[..k], b[..k]);
      assert a[..k] == b[..k][..k] == b[..k];
      assert a == a[..k] + [a[k]] && b == b[..k] + [b[k]];
    }
  }

  /** The walk through the tables alone that finds every node. */
  ghost predicate StoredWalk(H: PairHash, db: DB, root: Digest, index: nat, height: nat, links: seq<Link>) {
    && IsDescent(H, root, index, height, links) && |links| == height
    && forall k :: 0 <= k < height ==> LinkStored(db, links[k])
  }

  lemma StoredHasRows(db: DB, link: Link)
    requires LinkStored(db, link)
    ensures RowsOf(db, link.key) != {}
  {
    var row :| row in db.rht && row.link == link;
    assert row in RowsOf(db, link.key);
  }

  lemma {:induction false} PrefixIsDescent(H: PairHash, root: Digest, index: nat, height: nat, links: seq<Link>, k: nat)
    requires IsDescent(H, root, index, height, links) && k <= |links|
    ensures IsDescent(H, root, index, height, links[..k])
    decreases |links|
  {
    if k < |links| {
      PrefixIsDescent(H, root, index, height, links[..|links| - 1], k);
      assert links[..|links| - 1][..k] == links[..k];
    } else {
      assert links[..k] == links;
    }
  }

  /** A walk stuck above the bottom rules out a stored walk. */
  lemma StuckMeansUnstored(H: PairHash, db: DB, root: Digest, index: nat, height: nat, stuck: seq<Link>,
                           links: seq<Link>)
    requires Injective(H)
    requires IsDescent(H, root, index, height, stuck) && |stuck| < height
    requires RowsOf(db, Cursor(root, index, height, stuck)) == {}
    ensures !StoredWalk(H, db, root, index, height, links)
  {
    if StoredWalk(H, db, root, index, height, links) {
      var k := |stuck|;
      PrefixIsDescent(H, root, index, height, links, k + 1);
      assert links[..k + 1][..k] == links[..k];
      DescentsAgree(H, root, index, height, stuck, links[..k + 1]);
      StoredHasRows(db, links[k]);
    }
  }

  /** The nodes on the path of leaf `i`, from the root down through `k` levels. */
  function PathDown(H: PairHash, leaves: seq<Digest>, i: nat, height: nat, k: nat): (links: seq<Link>)
    requires k <= height
    ensures |links| == k
  {
    if k == 0 then []
    else PathDown(H, leaves, i, height, k - 1) + [LinkAt(H, leaves, height - k, Up(i, height - k + 1))]
  }

  lemma WalkStarts(H: PairHash, root: Digest, index: nat, height: nat)
    ensures IsDescent(H, root, index, height, [])
  {
  }

  lemma LinkOnPath(H: PairHash, leaves: seq<Digest>, h: nat, i: nat)
    ensures var link := LinkAt(H, leaves, h, Up(i, h + 1));
      && link.key == Node(H, leaves, h + 1, Up(i, h + 1)) == H(link.left, link.right)
      && Child(link, Bit(i, h)) == Node(H, leaves, h, Up(i, h))
  {
  }

  lemma {:induction false} PathDownIsDescent(H: PairHash, leaves: seq<Digest>, i: nat, height: nat, k: nat)
    requires k <= height
    ensures IsDescent(H, Node(H, leaves, height, Up(i, height)), i, height, PathDown(H, leaves, i, height, k))
    ensures Cursor(Node(H, leaves, height, Up(i, height)), i, height, PathDown(H, leaves, i, height, k))
         == Node(H, leaves, height - k, Up(i, height - k))
  {
    hide IsDescent;
    hide Node;
    hide LinkAt;
    hide Bit;
    hide Up;
    if k == 0 {
      WalkStarts(H, Node(H, leaves, height, Up(i, height)), i, height);
    } else {
      LinkOnPath(H, leaves, height - k, i);
      var root, before := Node(H, leaves, height, Up(i, height)), PathDown(H, leaves, i, height, k - 1);
      PathDownIsDescent(H, leaves, i, height, k - 1);
      DescentExtends(H, root, i, height, before, LinkAt(H, leaves, height - k, Up(i, height - k + 1)));
    }
  }

  lemma {:induction false} PathDownStored(H: PairHash, height: nat, network: nat, db: DB, leaves: seq<Digest>,
                                          ids: seq<nat>, m: nat, i: nat, k: nat)
    requires Stored(H, height, network, db, leaves, ids)
    requires i < m <= |leaves| && k <= height
    ensures forall j :: 0 <= j < k ==> LinkStored(db, PathDown(H, leaves[..m], i, height, k)[j])
  {
    if k > 0 {
      PathDownStored(H, height, network, db, leaves, ids, m, i, k - 1);
      PathNodeStored(H, height, network, db, leaves, ids, m, i, height - k);
    }
  }

  /** The tables of a stored tree hold a complete walk for every leaf under every stored root. */
  lemma StoredWalkExists(H: PairHash, height: nat, network: nat, db: DB, leaves: seq<Digest>, ids: seq<nat>, m: nat,
                         i: nat)
    requires Stored(H, height, network, db, leaves, ids)
    requires i < m <= |leaves| && m <= Pow2(height)
    ensures StoredWalk(H, db, Root(H, leaves[..m], height), i, height, PathDown(H, leaves[..m], i, height, height))
  {
    Capacity(i, height);
    PathDownIsDescent(H, leaves[..m], i, height, height);
    PathDownStored(H, height, network, db, leaves, ids, m, i, height);
  }

  lemma WalkFoldsBack(H: PairHash, root: Digest, index: nat, height: nat, links: seq<Link>)
    requires IsDescent(H, root, index, height, links) && |links| == height
    ensures Climb(H, Cursor(root, index, height, links), Aside(index, height, links), index) == root
  {
    DescentFoldsBack(H, root, index, height, links);
  }

  /** Sibling by sibling, from the leaf upwards. */
  lemma ReadIsAside(index: nat, height: nat, links: seq<Link>, siblings: seq<Digest>)
    requires |links| == |siblings| == height
    requires forall k :: 0 <= k < height ==> siblings[k] == Child(links[height - 1 - k], !Bit(index, k))
    ensures siblings == Aside(index, height, links)
  {
    forall k | 0 <= k < height
      ensures siblings[k] == Aside(index, height, links)[k]
    {
      AsideAt(index, height, links, k);
    }
  }

  class BridgeService {
    const H: PairHash
    const height: nat
    /** The LRU cache; which entries it drops is left open. */
    var cache: map<Digest, (Digest, Digest)>

    /** A cached node need not be stored any more, but its children still hash to it. */
    ghost predicate CacheSound()
      reads this
    {
      forall key :: key in cache ==> key == H(cache[key].0, cache[key].1)
    }

    constructor (H: PairHash, height: nat)
      requires 1 <= height <= MAX_HEIGHT
      ensures this.H == H && this.height == height && CacheSound()
    {
      this.H, this.height, cache := H, height, map[];
    }

    /** `getNode`. */
    method GetNode(db: DB, parent: Digest) returns (ok: bool, left: Digest, right: Digest)
      requires Sound(H, db) && CacheSound()
      modifies this`cache
      ensures CacheSound()
      ensures ok <==> parent in old(cache) || RowsOf(db, parent) != {}
      ensures if ok then H(left, right) == parent else cache == old(cache)
    {
      if parent in cache {
        return true, cache[parent].0, cache[parent].1;
      }
      ok, left, right := Get(db, parent);
      if ok {
        var evicted: set<Digest> := *;
        cache := cache[parent := (left, right)] - evicted;
      }
    }

    /** `getProof`. What it returns folds from some leaf to the root; it fails only where the
        tables lack a node, so it never does worse than the tables alone, nor differently. */
    method GetProof(db: DB, index: nat, root: Digest)
      returns (ok: bool, siblings: seq<Digest>, ghost leaf: Digest, ghost links: seq<Link>)
      requires Injective(H) && 1 <= height && Sound(H, db) && CacheSound()
      modifies this`cache
      ensures CacheSound()
      ensures IsDescent(H, root, index, height, links)
      ensures ok ==>
        |links| == height && siblings == Aside(index, height, links) && leaf == Cursor(root, index, height, links)
      ensures ok ==> |siblings| == height && Climb(H, leaf, siblings, index) == root
      ensures !ok ==> |links| < height && RowsOf(db, Cursor(root, index, height, links)) == {}
      ensures !ok ==> Cursor(root, index, height, links) !in cache
      ensures forall walk :: StoredWalk(H, db, root, index, height, walk) ==>
        ok && siblings == Aside(index, height, walk)
    {
      hide IsDescent;
      hide Aside;
      hide Climb;
      hide Bit;
      ok, siblings, links, leaf := true, [], [], root;
      WalkStarts(H, root, index, height);
      var cur := root;
      for h := height downto 0
        invariant CacheSound()
        invariant |siblings| == |links| == height - h
        invariant IsDescent(H, root, index, height, links) && cur == Cursor(root, index, height, links)
        invariant forall k :: 0 <= k < |siblings| ==> siblings[k] == Child(links[k], !Bit(index, height - 1 - k))
      {
        var left, right;
        ok, left, right := GetNode(db, cur);
        if !ok {
          forall walk
            ensures !StoredWalk(H, db, root, index, height, walk)
          {
            StuckMeansUnstored(H, db, root, index, height, links, walk);
          }
          return false, [], leaf, links;
        }
        DescentExtends(H, root, index, height, links, Link(cur, left, right));
        links := links + [Link(cur, left, right)];
        if Bit(index, h) {
          siblings, cur := siblings + [left], right;
        } else {
          siblings, cur := siblings + [right], left;
        }
      }
      leaf := cur;
      siblings := Reverse(siblings);
      ReadIsAside(index, height, links, siblings);
      WalkFoldsBack(H, root, index, height, links);
      forall walk | StoredWalk(H, db, root, index, height, walk)
        ensures siblings == Aside(index, height, walk)
      {
        DescentsAgree(H, root, index, height, links, walk);
        assert walk[..height] == walk;
      }
      ok := true;
    }
  }
}
