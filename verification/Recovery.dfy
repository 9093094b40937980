/** Resetting tables and tree to a block after a reorganisation. */
module Recovery {
  import opened Digests
  import opened Frontier
  import opened Storage
  import opened StoredTree
  import opened ExitTree
  import opened DepositRuns
  import opened Chains

  /** The deposits up to a block past every stored one are counted 0 to `|ids| - 1`. */
  lemma NumberOfDeposits(H: PairHash, height: nat, db: DB, network: nat, leaves: seq<Digest>, ids: seq<nat>, block: nat,
                         n: nat)
    requires Stored(H, height, network, db, leaves, ids)
    requires forall id :: id in db.deposits && db.deposits[id].network == network ==> db.deposits[id].block <= block
    requires n == 0 || exists id :: id in DepositIds(db, network, block) && db.deposits[id].count + 1 == n
    requires forall id :: id in DepositIds(db, network, block) ==> db.deposits[id].count < n
    ensures n == |ids| == |leaves|
  {
    if |ids| > 0 {
      assert IsDeposit(db, ids[|ids| - 1], network, |ids| - 1, leaves[|ids| - 1]);
      assert ids[|ids| - 1] in DepositIds(db, network, block);
    }
  }

  /** `resetState`: cuts the tables, counts what is left and rebuilds the tree from it. It asks
      nothing of the tree in memory, so it also repairs one that a rolled back block left ahead. A
      statement or the commit may fail; after the latter the tree is that of the cut tables already.
      If it succeeds it is a cut of a run. */
  method ResetState(tree: MerkleTree, db: DB, blockNumber: nat, fails: bool, commitFails: bool)
    returns (ok: bool, db': DB)
    requires tree.Shaped() && Injective(tree.H) && |tree.leaves| < COUNT_LIMIT
    requires Sound(tree.H, db) && Stored(tree.H, tree.height, tree.networkID, db, tree.leaves, tree.ids)
    modifies tree
    ensures tree.Shaped() && (ok <==> !fails && !commitFails)
    ensures ok ==> db' == Reset(db, blockNumber, tree.networkID)
    ensures ok ==> var m := Survivors(db, old(tree.ids), blockNumber);
      tree.View() == Reread(tree.H, tree.height, old(tree.leaves)[..m], old(tree.ids)[..m])
    ensures ok ==> Mirrors(tree.H, tree.height, tree.networkID, db', tree.View())
    ensures ok ==> OthersKept(tree.H, tree.height, tree.networkID, db, db')
    ensures ok ==>
      Next(tree.H, tree.height, Alone(tree.networkID, db, old(tree.View())), Cut(tree.networkID, blockNumber))
        == Alone(tree.networkID, db', tree.View())
    ensures !ok ==> db' == db && tree.leaves == old(tree.leaves) && tree.ids == old(tree.ids)
    ensures !ok && fails ==> tree.View() == old(tree.View())
    ensures !ok && !fails ==> var m := Survivors(db, old(tree.ids), blockNumber);
      tree.View() == Tree(old(tree.leaves), old(tree.ids), m, Rebuilt(tree.H, old(tree.leaves)[..m], tree.height))
    ensures !ok ==>
      || tree.View() == old(tree.View()) || tree.count < |tree.leaves|
      || Mirrors(tree.H, tree.height, tree.networkID, db, tree.View())
  {
    hide Survivors;
    hide Rebuilt;
    hide IsFrontier;
    hide Sound;
    hide DepositStored;
    if fails {
      return false, db;
    }
    assert |tree.ids| == |tree.leaves|;
    db' := Reset(db, blockNumber, tree.networkID);
    ghost var m := Survivors(db, tree.ids, blockNumber);
    ghost var before := tree.View();
    ghost var leaves, ids := tree.leaves[..m], tree.ids[..m];
    ResetKeepsStored(tree.H, tree.height, tree.networkID, db, tree.leaves, tree.ids, blockNumber);
    forall n, other | n != tree.networkID && Mirrors(tree.H, tree.height, n, db, other)
      ensures Mirrors(tree.H, tree.height, n, db', other)
    {
      ResetKeepsOthers(tree.H, tree.height, db, blockNumber, tree.networkID, n, other);
    }
    var depositCnt := GetNumberDeposits(db', tree.networkID, blockNumber);
    NumberOfDeposits(tree.H, tree.height, db', tree.networkID, leaves, ids, blockNumber, depositCnt);
    ghost var root, links;
    ok, root, links := tree.ResetLeaf(db', depositCnt, leaves, ids);
    if commitFails {
      tree.leaves, tree.ids := before.leaves, before.ids;
      assert m == |before.leaves| ==> leaves == before.leaves;
      return false, db;
    }
  }

  /** A restart of the service reads the tree again. If the count can be queried it is a restart of a run. */
  method RestartTree(db: DB, H: PairHash, height: nat, networkID: nat, queryFails: bool, ghost t: Tree)
    returns (ok: bool, tree: MerkleTree)
    requires 1 <= height <= MAX_HEIGHT && Injective(H) && Sound(H, db)
    requires Stored(H, height, networkID, db, t.leaves, t.ids) && |t.leaves| < COUNT_LIMIT
    ensures fresh(tree) && tree.H == H && tree.height == height && tree.networkID == networkID
    ensures tree.leaves == t.leaves && tree.ids == t.ids && tree.count == (if queryFails then 1 else |t.leaves|)
    ensures (ok <==> !queryFails || t.leaves != []) && (ok ==> tree.Shaped())
    ensures ok ==> (Mirrors(H, height, networkID, db, tree.View()) <==> !queryFails || |t.leaves| == 1)
    ensures !queryFails ==>
      Next(H, height, Alone(networkID, db, t), Restart(networkID)) == Alone(networkID, db, tree.View())
  {
    hide Sound;
    hide Stored;
    hide Rebuilt;
    ghost var root, links;
    ok, tree, root, links := NewMerkleTree(db, H, height, networkID, queryFails, t.leaves, t.ids);
    assert t.leaves[..|t.leaves|] == t.leaves;
  }

  function RowOf(network: nat, b: Block): BlockRow {
    BlockRow(network, b.number, b.hash)
  }

  /** The block table of a network holds the given blocks. */
  ghost predicate TableHolds(db: DB, network: nat, blocks: seq<Block>) {
    && (forall k :: 0 <= k < |blocks| ==> RowOf(network, blocks[k]) in db.blocks)
    && (forall row :: row in db.blocks && row.network == network ==>
          exists k :: 0 <= k < |blocks| && row == RowOf(network, blocks[k]))
  }

  /** The rows of the other networks. */
  function Foreign(db: DB, network: nat): set<BlockRow> {
    set row | row in db.blocks && row.network != network
  }

  lemma AddBlockHolds(db: DB, network: nat, blocks: seq<Block>, b: Block)
    requires TableHolds(db, network, blocks) && !HashTaken(db, b.hash)
    ensures TableHolds(AddBlock(db, RowOf(network, b)), network, blocks + [b])
    ensures Foreign(AddBlock(db, RowOf(network, b)), network) == Foreign(db, network)
  {
    var db', all := AddBlock(db, RowOf(network, b)), blocks + [b];
    forall row | row in db'.blocks && row.network == network
      ensures exists k :: 0 <= k < |all| && row == RowOf(network, all[k])
    {
      if row in db.blocks {
        var k :| 0 <= k < |blocks| && row == RowOf(network, blocks[k]);
        assert all[k] == blocks[k];
      } else {
        assert row == RowOf(network, all[|blocks|]);
      }
    }
  }

  /** Cutting the table is cutting the list of blocks. */
  lemma ResetCutsTable(db: DB, network: nat, blocks: seq<Block>, n: nat)
    requires TableHolds(db, network, blocks) && Increasing(blocks)
    ensures TableHolds(Reset(db, n, network), network, KeepUpTo(blocks, n))
    ensures Foreign(Reset(db, n, network), network) == Foreign(db, network)
  {
    hide CountUpTo;
    var kept, db' := KeepUpTo(blocks, n), Reset(db, n, network);
    KeepSplits(blocks, n);
    forall k | 0 <= k < |kept|
      ensures RowOf(network, kept[k]) in db'.blocks
    {
      assert kept[k] == blocks[k];
    }
    forall row | row in db'.blocks && row.network == network
      ensures exists k :: 0 <= k < |kept| && row == RowOf(network, kept[k])
    {
      var k :| 0 <= k < |blocks| && row == RowOf(network, blocks[k]);
      assert blocks[k].number <= n;
      assert kept[k] == blocks[k];
    }
  }

  /** The rows of the blocks from `p` on. */
  function RowsFrom(network: nat, blocks: seq<Block>, p: nat): set<BlockRow>
    requires p <= |blocks|
  {
    set k | p <= k < |blocks| :: RowOf(network, blocks[k])
  }

  lemma {:induction false} CountRows(network: nat, blocks: seq<Block>, p: nat)
    requires Increasing(blocks) && p <= |blocks|
    ensures |RowsFrom(network, blocks, p)| == |blocks| - p
    decreases |blocks| - p
  {
    if p < |blocks| {
      CountRows(network, blocks, p + 1);
      var rest, row := RowsFrom(network, blocks, p + 1), RowOf(network, blocks[p]);
      assert row !in rest;
      assert RowsFrom(network, blocks, p) == rest + {row};
    }
  }

  lemma TableSize(db: DB, network: nat, blocks: seq<Block>)
    requires TableHolds(db, network, blocks) && Increasing(blocks)
    ensures RowsOfNetwork(db, network) == RowsFrom(network, blocks, 0) && |RowsOfNetwork(db, network)| == |blocks|
  {
    CountRows(network, blocks, 0);
  }

  lemma AboveAre(network: nat, blocks: seq<Block>, p: nat, above: set<BlockRow>)
    requires Increasing(blocks) && p < |blocks|
    requires ComesAfter(RowsFrom(network, blocks, 0), above, RowOf(network, blocks[p]))
    ensures above == RowsFrom(network, blocks, p + 1)
  {
    forall k | 0 <= k < |blocks|
      ensures RowOf(network, blocks[k]) in above <==> k > p
    {
      assert RowOf(network, blocks[k]) in RowsFrom(network, blocks, 0);
      if k > p {
        assert blocks[k].number > blocks[p].number;
      } else if k < p {
        assert blocks[k].number < blocks[p].number;
      }
    }
  }

  lemma InRows(rows: set<BlockRow>, above: set<BlockRow>, row: BlockRow)
    requires ComesAfter(rows, above, row)
    ensures row in rows
  {
  }

  /** Reading the table with an offset is reading the list from its end. */
  lemma PreviousIs(db: DB, network: nat, blocks: seq<Block>, row: BlockRow, above: set<BlockRow>)
    requires TableHolds(db, network, blocks) && Increasing(blocks) && ComesAfter(RowsOfNetwork(db, network), above, row)
    ensures |above| < |blocks| && row == RowOf(network, blocks[|blocks| - 1 - |above|])
  {
    hide ComesAfter;
    TableSize(db, network, blocks);
    assert row in db.blocks && row.network == network by {
      assert row in RowsOfNetwork(db, network) by { InRows(RowsOfNetwork(db, network), above, row); }
    }
    var p :| 0 <= p < |blocks| && row == RowOf(network, blocks[p]);
    AboveAre(network, blocks, p, above);
    CountRows(network, blocks, p + 1);
  }
}
