/** Storing a whole leaf list as a tree and reading it back from its root. */
module LeafVectors {
  import opened Levels
  import opened Digests
  import opened CompleteTree
  import opened LevelBuilder
  import opened Storage
  import opened StoredTree

  /** Every node above the list is stored, up to the ancestor of the last leaf of each level. */
  ghost predicate LevelStored(H: PairHash, db: DB, leaves: seq<Digest>, h: nat) {
    forall i: nat :: i <= Up(Last(leaves), h + 1) ==> LinkStored(db, LinkAt(H, leaves, h, i))
  }

  /** Children hash to their parent; injectivity then makes them unique. */
  ghost predicate HashesSound(H: PairHash, db: DB) {
    Injective(H) && forall row :: row in db.rht ==> row.link.key == H(row.link.left, row.link.right)
  }

  /** The tables hold the whole tree of the list under its root. */
  ghost predicate ListStored(H: PairHash, height: nat, db: DB, leaves: seq<Digest>, root: Digest) {
    && HashesSound(H, db)
    && |leaves| <= Pow2(height)
    && root == Root(H, leaves, height)
    && forall h :: 0 <= h < height ==> LevelStored(H, db, leaves, h)
  }

  /** The nodes of level `h + 1` up to the last leaf's ancestor, and those of all levels. */
  function LevelLinks(H: PairHash, leaves: seq<Digest>, h: nat): seq<Link> {
    seq(Up(Last(leaves), h + 1) + 1, i requires 0 <= i => LinkAt(H, leaves, h, i))
  }

  function TreeLinks(H: PairHash, leaves: seq<Digest>, height: nat): seq<Link> {
    if height == 0 then [] else TreeLinks(H, leaves, height - 1) + LevelLinks(H, leaves, height - 1)
  }

  lemma {:induction false} LinkInTree(H: PairHash, leaves: seq<Digest>, height: nat, h: nat, i: nat)
    requires h < height && i <= Up(Last(leaves), h + 1)
    ensures LinkAt(H, leaves, h, i) in TreeLinks(H, leaves, height)
  {
    if h == height - 1 {
      assert LevelLinks(H, leaves, h)[i] == LinkAt(H, leaves, h, i);
    } else {
      LinkInTree(H, leaves, height - 1, h, i);
    }
  }

  lemma {:induction false} TreeLinksHash(H: PairHash, leaves: seq<Digest>, height: nat, k: nat)
    requires k < |TreeLinks(H, leaves, height)|
    ensures var link := TreeLinks(H, leaves, height)[k]; link.key == H(link.left, link.right)
  {
    if k < |TreeLinks(H, leaves, height - 1)| {
      TreeLinksHash(H, leaves, height - 1, k);
    } else {
      var i := k - |TreeLinks(H, leaves, height - 1)|;
      assert TreeLinks(H, leaves, height)[k] == LevelLinks(H, leaves, height - 1)[i];
    }
  }

  /** Written as a whole, the tree is stored as a whole. */
  lemma TreeWritten(H: PairHash, height: nat, db: DB, leaves: seq<Digest>, id: nat)
    requires HashesSound(H, db) && |leaves| <= Pow2(height)
    ensures ListStored(H, height, BulkSet(db, TreeLinks(H, leaves, height), id), leaves, Root(H, leaves, height))
  {
    hide TreeLinks;
    var links := TreeLinks(H, leaves, height);
    var db' := BulkSet(db, links, id);
    forall link | link in links
      ensures link.key == H(link.left, link.right)
    {
      var k :| 0 <= k < |links| && links[k] == link;
      TreeLinksHash(H, leaves, height, k);
    }
    forall h, i: nat | 0 <= h < height && i <= Up(Last(leaves), h + 1)
      ensures LinkStored(db', LinkAt(H, leaves, h, i))
    {
      LinkInTree(H, leaves, height, h, i);
      assert NodeRow(LinkAt(H, leaves, h, i), id) in db'.rht;
    }
  }

  /** The list can be stored with the deposit: it fits, the deposit has no root yet, and no two nodes to
      store, nor one already stored with the deposit, share a key. */
  ghost predicate CanStore(H: PairHash, height: nat, db: DB, id: nat, leaves: seq<Digest>) {
    |leaves| <= Pow2(height) && !RootTaken(db, id) && Storable(db, TreeLinks(H, leaves, height), id)
  }

  /** `updateLeaf`. It fails exactly for what cannot be stored, or where a write fails. */
  method UpdateLeaf(H: PairHash, zeroHashes: seq<Digest>, height: nat, db: DB, depositID: nat, network: nat,
                    leaves: seq<Digest>, setRootFails: bool, bulkSetFails: bool)
    returns (ok: bool, db': DB, count: nat)
    requires ZeroTable(H, zeroHashes) && 1 <= height <= MAX_HEIGHT && HashesSound(H, db)
    ensures ok <==> CanStore(H, height, db, depositID, leaves) && !setRootFails && !bulkSetFails
    ensures ok ==> db'.roots == db.roots[depositID := RootRow(Root(H, leaves, height), network)] && count == |leaves|
    ensures db'.deposits == db.deposits
    ensures ok ==> db'.rht == db.rht + set link | link in TreeLinks(H, leaves, height) :: NodeRow(link, depositID)
    ensures ok ==> ListStored(H, height, db', leaves, Root(H, leaves, height))
    ensures !ok ==> db' == db
  {
    var root, nodes;
    ok, root, nodes := BuildNodes(H, zeroHashes, height, leaves);
    db', count := db, 0;
    if !ok {
      return;
    }
    if setRootFails || RootTaken(db, depositID) {
      return false, db, 0;
    }
    db' := SetRoot(db, depositID, RootRow(root, network));
    var nodesToStore: seq<Link> := [];
    for h := 0 to height
      invariant nodesToStore == TreeLinks(H, leaves, h)
    {
      for i := 0 to |nodes[h]|
        invariant nodesToStore == TreeLinks(H, leaves, h) + nodes[h][..i]
      {
        nodesToStore := nodesToStore + [nodes[h][i]];
      }
      assert nodes[h][..|nodes[h]|] == nodes[h];
      assert IsLinkLevel(H, leaves, h, nodes[h]);
      assert nodes[h] == LevelLinks(H, leaves, h);
    }
    if bulkSetFails || !Storable(db', nodesToStore, depositID) {
      return false, db, 0;
    }
    TreeWritten(H, height, db', leaves, depositID);
    db' := BulkSet(db', nodesToStore, depositID);
    count := |leaves|;
  }

  lemma {:induction false} LowestLevelFirst(H: PairHash, leaves: seq<Digest>, height: nat, i: nat)
    requires height >= 1 && i <= Up(Last(leaves), 1)
    ensures i < |TreeLinks(H, leaves, height)| && TreeLinks(H, leaves, height)[i] == LinkAt(H, leaves, 0, i)
  {
    hide LinkAt;
    hide Up;
    if height == 1 {
      assert TreeLinks(H, leaves, 1) == TreeLinks(H, leaves, 0) + LevelLinks(H, leaves, 0) == LevelLinks(H, leaves, 0);
    } else {
      LowestLevelFirst(H, leaves, height - 1, i);
    }
  }

  /** A list in which a pair of leaves comes twice cannot be stored, although it fits. */
  lemma RepeatedPairFails(H: PairHash, height: nat, db: DB, id: nat, leaves: seq<Digest>, i: nat, j: nat)
    requires height >= 1 && i < j && 2 * j + 1 < |leaves|
    requires leaves[2 * i] == leaves[2 * j] && leaves[2 * i + 1] == leaves[2 * j + 1]
    ensures !CanStore(H, height, db, id, leaves)
  {
    assert Up(Last(leaves), 1) == Last(leaves) / 2;
    LowestLevelFirst(H, leaves, height, i);
    LowestLevelFirst(H, leaves, height, j);
    assert LinkAt(H, leaves, 0, i).key == H(leaves[2 * i], leaves[2 * i + 1]) == LinkAt(H, leaves, 0, j).key;
  }

  lemma RepeatedPairWitness(H: PairHash, db: DB, id: nat, a: Digest, b: Digest)
    ensures |[a, b, a, b]| <= Pow2(2) && !CanStore(H, 2, db, id, [a, b, a, b])
  {
    assert Pow2(2) == 2 * Pow2(1);
    RepeatedPairFails(H, 2, db, id, [a, b, a, b], 0, 1);
  }

  /** The first `n` entries are the nodes of level `h`, the others are zero hashes. */
  ghost predicate NodesThenZeros(H: PairHash, leaves: seq<Digest>, h: nat, n: nat, level: seq<Digest>) {
    && n <= |level|
    && (forall i :: 0 <= i < n ==> level[i] == Node(H, leaves, h, i))
    && (forall i :: n <= i < |level| ==> level[i] == Zero(H, h))
  }

  /** Reading below the `j`-th entry of level `h + 1` finds its children; a missing entry is padding. */
  lemma ReadChildren(H: PairHash, db: DB, leaves: seq<Digest>, h: nat, cur: seq<Digest>, j: nat,
                     found: bool, left: Digest, right: Digest)
    requires HashesSound(H, db) && LevelStored(H, db, leaves, h)
    requires NodesThenZeros(H, leaves, h + 1, Up(Last(leaves), h + 1) + 1, cur) && j < |cur|
    requires found <==> RowsOf(db, cur[j]) != {}
    requires found ==> exists row :: row in db.rht && row.link == Link(cur[j], left, right)
    ensures j <= Up(Last(leaves), h + 1) ==>
      found && left == Node(H, leaves, h, 2 * j) && right == Node(H, leaves, h, 2 * j + 1)
    ensures j > Up(Last(leaves), h + 1) ==> cur[j] == Zero(H, h + 1)
    ensures j > Up(Last(leaves), h + 1) && found ==> left == Zero(H, h) && right == Zero(H, h)
  {
    if j <= Up(Last(leaves), h + 1) {
      var link := LinkAt(H, leaves, h, j);
      assert LinkStored(db, link);
      var row :| row in db.rht && row.link == link;
      assert row in RowsOf(db, cur[j]);
    }
  }

  /** Half way through a level. */
  ghost predicate ReadTo(H: PairHash, leaves: seq<Digest>, h: nat, j: nat, level: seq<Digest>) {
    var k := Up(Last(leaves), h + 1) + 1;
    && NodesThenZeros(H, leaves, h, 2 * (if j <= k then j else k), level)
    && (j <= k ==> |level| == 2 * j)
  }

  lemma ReadNext(H: PairHash, leaves: seq<Digest>, h: nat, j: nat, level: seq<Digest>, children: seq<Digest>)
    requires ReadTo(H, leaves, h, j, level)
    requires if j <= Up(Last(leaves), h + 1) then children == [Node(H, leaves, h, 2 * j), Node(H, leaves, h, 2 * j + 1)]
             else children == [] || children == [Zero(H, h), Zero(H, h)]
    ensures ReadTo(H, leaves, h, j + 1, level + children)
  {
  }

  /** A walk of `depth` stored nodes leads from the root to the node. */
  ghost predicate Below(db: DB, root: Digest, node: Digest, depth: nat)
    decreases depth
  {
    if depth == 0 then node == root
    else exists row ::
      row in db.rht && (row.link.left == node || row.link.right == node) && Below(db, root, row.link.key, depth - 1)
  }

  /** The children of the last stored node may reach one past the last leaf's ancestor. */
  lemma PaddingIsZero(H: PairHash, leaves: seq<Digest>, h: nat, level: seq<Digest>)
    requires NodesThenZeros(H, leaves, h, 2 * (Up(Last(leaves), h + 1) + 1), level)
    ensures NodesThenZeros(H, leaves, h, Up(Last(leaves), h) + 1, level)
  {
    var n := Up(Last(leaves), h) + 1;
    if n < 2 * (Up(Last(leaves), h + 1) + 1) {
      NodeBeyond(H, leaves, h, n);
    }
  }

  /** One turn of the outer loop of `getLeaves`, for the nodes `depth` below the root. */
  method ReadLevel(H: PairHash, zeroHashes: seq<Digest>, db: DB, h: nat, cur: seq<Digest>, ghost root: Digest,
                   ghost depth: nat,
                   ghost leaves: seq<Digest>, ghost sound: bool)
    returns (ok: bool, level: seq<Digest>, ghost node: Digest)
    requires ZeroTable(H, zeroHashes) && h < MAX_HEIGHT
    requires forall j :: 0 <= j < |cur| ==> Below(db, root, cur[j], depth)
    requires sound ==> HashesSound(H, db) && LevelStored(H, db, leaves, h)
    requires sound ==> NodesThenZeros(H, leaves, h + 1, Up(Last(leaves), h + 1) + 1, cur)
    ensures ok <==> forall j :: 0 <= j < |cur| ==> RowsOf(db, cur[j]) != {} || cur[j] in zeroHashes
    ensures ok ==> forall j :: 0 <= j < |level| ==> Below(db, root, level[j], depth + 1)
    ensures !ok ==> RowsOf(db, node) == {} && node !in zeroHashes && Below(db, root, node, depth)
    ensures sound ==> ok && NodesThenZeros(H, leaves, h, Up(Last(leaves), h) + 1, level)
  {
    level, node := [], root;
    for j := 0 to |cur|
      invariant forall i :: 0 <= i < |level| ==> Below(db, root, level[i], depth + 1)
      invariant forall i :: 0 <= i < j ==> RowsOf(db, cur[i]) != {} || cur[i] in zeroHashes
      invariant sound ==> ReadTo(H, leaves, h, j, level)
    {
      var found, left, right := Get(db, cur[j]);
      if sound {
        ReadChildren(H, db, leaves, h, cur, j, found, left, right);
        ReadNext(H, leaves, h, j, level, if found then [left, right] else []);
      }
      if !found {
        var isZero := false;
        for z := 0 to |zeroHashes|
          invariant isZero <==> exists y :: 0 <= y < z && zeroHashes[y] == cur[j]
        {
          if zeroHashes[z] == cur[j] {
            isZero := true;
          }
        }
        assert sound ==> zeroHashes[h + 1] == cur[j];
        if !isZero {
          return false, [], cur[j];
        }
        assert level + [] == level;
      } else {
        assert Below(db, root, left, depth + 1) && Below(db, root, right, depth + 1) by {
          var row :| row in db.rht && row.link == Link(cur[j], left, right);
        }
        level := level + [left, right];
      }
    }
    ok := true;
    if sound {
      PaddingIsZero(H, leaves, h, level);
    }
  }

  /** `getLeaves`: from the nodes of a stored list it never fails, and returns the list followed
      only by zero leaves, although zero subtrees need not be stored. */
  method GetLeaves(H: PairHash, zeroHashes: seq<Digest>, height: nat, db: DB, root: Digest, ghost leaves: seq<Digest>)
    returns (ok: bool, result: seq<Digest>, ghost node: Digest, ghost depth: nat)
    requires ZeroTable(H, zeroHashes) && 1 <= height <= MAX_HEIGHT
    ensures ListStored(H, height, db, leaves, root) ==> ok && leaves <= result
    ensures ListStored(H, height, db, leaves, root) ==> forall i :: |leaves| <= i < |result| ==> result[i] == HASH_ZERO
    ensures ok ==> RowsOf(db, root) != {} || root in zeroHashes
    ensures ok ==> forall i :: 0 <= i < |result| ==> Below(db, root, result[i], height)
    ensures !ok ==> depth < height && Below(db, root, node, depth) && RowsOf(db, node) == {} && node !in zeroHashes
  {
    ghost var sound := ListStored(H, height, db, leaves, root);
    result, node, depth := [root], root, 0;
    Capacity(Last(leaves), height);
    for h := height downto 0
      invariant sound ==> NodesThenZeros(H, leaves, h, Up(Last(leaves), h) + 1, result)
      invariant if h == height then result == [root] else RowsOf(db, root) != {} || root in zeroHashes
      invariant depth == height - h && forall i :: 0 <= i < |result| ==> Below(db, root, result[i], depth)
    {
      assert h + 1 == height ==> result[0] == root;
      ok, result, node := ReadLevel(H, zeroHashes, db, h, result, root, depth, leaves, sound);
      if !ok {
        return;
      }
      depth := depth + 1;
    }
    ok := true;
  }

  /** The unique index on network and count, as an invariant of the tables. */
  ghost predicate CountsUnique(db: DB) {
    forall a, b :: a in db.deposits && b in db.deposits && a != b ==>
      db.deposits[a].network != db.deposits[b].network || db.deposits[a].count != db.deposits[b].count
  }

  /** The deposit is the last of a tree of `n` leaves. */
  ghost predicate IsLast(db: DB, id: nat, network: nat, n: nat) {
    id in db.deposits && db.deposits[id].network == network && db.deposits[id].count + 1 == n
  }

  /** The row of the root is found by the count of the list exactly if the deposit is the last of that many. */
  lemma RootFoundByCount(H: PairHash, db: DB, db': DB, id: nat, row: RootRow, n: nat)
    requires Sound(H, db) && CountsUnique(db) && n > 0 && (id in db.deposits ==> db.deposits[id].network == row.network)
    requires db'.deposits == db.deposits && db'.roots == db.roots[id := row]
    ensures id in RootIdsAt(db', row.network, n - 1) <==> IsLast(db, id, row.network, n)
    ensures IsLast(db, id, row.network, n) ==> RootIdsAt(db', row.network, n - 1) == {id}
  {
  }

  /** `updateLeaf` followed by `getLeaves`, which looks its root up by the count of the tree. A list is read back, with
      its own root, if it is empty or the deposit is the last of as many as it has leaves; and only then is it the
      row of that deposit that is read. */
  method UpdateAndReadBack(H: PairHash, zeroHashes: seq<Digest>, height: nat, db: DB, depositID: nat, network: nat,
                           leaves: seq<Digest>, setRootFails: bool, bulkSetFails: bool)
    returns (stored: bool, found: bool, ok: bool, result: seq<Digest>, ghost id: nat)
    requires ZeroTable(H, zeroHashes) && 1 <= height <= MAX_HEIGHT && Injective(H) && Sound(H, db) && CountsUnique(db)
    requires depositID in db.deposits ==> db.deposits[depositID].network == network
    ensures stored <==> CanStore(H, height, db, depositID, leaves) && !setRootFails && !bulkSetFails
    ensures stored && (leaves == [] || IsLast(db, depositID, network, |leaves|)) ==>
      && found && ok && leaves <= result
      && forall i :: |leaves| <= i < |result| ==> result[i] == HASH_ZERO
    ensures stored && leaves != [] ==> (found && id == depositID <==> IsLast(db, depositID, network, |leaves|))
  {
    found, ok, result, id := false, false, [], 0;
    var db', count;
    stored, db', count :=
      UpdateLeaf(H, zeroHashes, height, db, depositID, network, leaves, setRootFails, bulkSetFails);
    if !stored {
      return;
    }
    var root;
    if count == 0 {
      found, root := true, zeroHashes[height];
      NodeOfEmpty(H, height, 0);
    } else {
      found, root, id := GetRoot(db', count - 1, network);
      RootFoundByCount(H, db, db', depositID, RootRow(Root(H, leaves, height), network), |leaves|);
    }
    if !found {
      return;
    }
    ghost var node, depth;
    ok, result, node, depth := GetLeaves(H, zeroHashes, height, db', root, leaves);
  }
}
