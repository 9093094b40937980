/** The exit tree follows the chain: it is the tree of the deposits in the blocks that are stored. */
module ChainMirror {
  import opened Levels
  import opened Digests
  import opened CompleteTree
  import opened Storage
  import opened StoredTree
  import opened ExitTree
  import opened DepositRuns
  import opened Chains
  import opened ChainSteps
  import opened Recovery

  /** The deposits among the events of a block. */
  type DepositsIn = seq<nat> -> seq<NewDeposit>

  function ChainLeaves(D: DepositsIn, blocks: seq<Block>): seq<Digest> {
    if blocks == [] then []
    else ChainLeaves(D, blocks[..|blocks| - 1]) + LeavesOf(D(blocks[|blocks| - 1].events))
  }

  /** The number of the block of each deposit. */
  function ChainNumbers(D: DepositsIn, blocks: seq<Block>): (numbers: seq<nat>)
    ensures |numbers| == |ChainLeaves(D, blocks)|
  {
    if blocks == [] then []
    else
      var b := blocks[|blocks| - 1];
      ChainNumbers(D, blocks[..|blocks| - 1]) + seq(|D(b.events)|, _ => b.number)
  }

  /** The block table holds the blocks, the tree's deposits are theirs, and the deposits' rows name the block. */
  ghost predicate Linked(D: DepositsIn, db: DB, network: nat, t: Tree, blocks: seq<Block>) {
    && TableHolds(db, network, blocks)
    && t.leaves == ChainLeaves(D, blocks)
    && |t.ids| == |t.leaves|
    && forall j :: 0 <= j < |t.ids| ==>
          t.ids[j] in db.deposits && db.deposits[t.ids[j]].block == ChainNumbers(D, blocks)[j]
  }

  /** The tables hold the blocks and the tree of their deposits. */
  ghost predicate Tables(D: DepositsIn, H: PairHash, height: nat, network: nat, db: DB, t: Tree, blocks: seq<Block>) {
    Sound(H, db) && Stored(H, height, network, db, t.leaves, t.ids) && Linked(D, db, network, t, blocks)
  }

  /** One more block appends its own deposits. */
  lemma OneMoreBlock(D: DepositsIn, blocks: seq<Block>, b: Block)
    ensures ChainLeaves(D, blocks + [b]) == ChainLeaves(D, blocks) + LeavesOf(D(b.events))
    ensures ChainNumbers(D, blocks + [b]) == ChainNumbers(D, blocks) + seq(|D(b.events)|, _ => b.number)
  {
    assert (blocks + [b])[..|blocks + [b]| - 1] == blocks;
  }

  lemma NoBlocks(D: DepositsIn)
    ensures ChainLeaves(D, []) == [] && ChainNumbers(D, []) == []
  {
  }

  lemma {:induction false} LeavesSplit(D: DepositsIn, low: seq<Block>, high: seq<Block>)
    ensures ChainLeaves(D, low + high) == ChainLeaves(D, low) + ChainLeaves(D, high)
    ensures ChainNumbers(D, low + high) == ChainNumbers(D, low) + ChainNumbers(D, high)
    decreases |high|
  {
    hide ChainLeaves;
    hide ChainNumbers;
    if high == [] {
      NoBlocks(D);
      assert low + high == low;
    } else {
      var first, b := high[..|high| - 1], high[|high| - 1];
      LeavesSplit(D, low, first);
      OneMoreBlock(D, first, b);
      OneMoreBlock(D, low + first, b);
      assert first + [b] == high && low + first + [b] == low + high;
    }
  }

  lemma {:induction false} NumbersWithin(D: DepositsIn, blocks: seq<Block>, lo: nat, hi: nat)
    requires forall k :: 0 <= k < |blocks| ==> lo <= blocks[k].number < hi
    ensures forall j :: 0 <= j < |ChainNumbers(D, blocks)| ==> lo <= ChainNumbers(D, blocks)[j] < hi
  {
    if blocks != [] {
      NumbersWithin(D, blocks[..|blocks| - 1], lo, hi);
    }
  }

  lemma {:induction false} NumbersAbove(D: DepositsIn, blocks: seq<Block>, lo: nat)
    requires forall k :: 0 <= k < |blocks| ==> lo <= blocks[k].number
    ensures forall j :: 0 <= j < |ChainNumbers(D, blocks)| ==> lo <= ChainNumbers(D, blocks)[j]
  {
    if blocks != [] {
      NumbersAbove(D, blocks[..|blocks| - 1], lo);
    }
  }

  lemma BoundaryIs(db: DB, ids: seq<nat>, low: seq<nat>, high: seq<nat>, n: nat)
    requires |ids| == |low| + |high|
    requires forall j :: 0 <= j < |ids| ==> ids[j] in db.deposits && db.deposits[ids[j]].block == (low + high)[j]
    requires forall j :: 0 <= j < |low| ==> low[j] <= n
    requires forall j :: 0 <= j < |high| ==> high[j] > n
    requires forall j :: 0 <= j < |ids| ==> (db.deposits[ids[j]].block <= n <==> j < Survivors(db, ids, n))
    ensures Survivors(db, ids, n) == |low|
  {
    assert |low| > 0 ==> (low + high)[|low| - 1] == low[|low| - 1];
    assert |high| > 0 ==> (low + high)[|low|] == high[0];
  }

  /** A change of the tables by other networks: the rows of this one stay. */
  ghost predicate OwnRowsKept(network: nat, db: DB, db': DB) {
    && RowsOfNetwork(db, network) == RowsOfNetwork(db', network)
    && (forall id :: id in db.deposits && db.deposits[id].network == network ==>
          && id in db'.deposits && db'.deposits[id] == db.deposits[id]
          && (id in db.roots ==> id in db'.roots && db'.roots[id] == db.roots[id])
          && forall link :: HasNode(db, link, id) ==> HasNode(db', link, id))
    && (forall id :: id in db'.deposits && db'.deposits[id].network == network ==>
          id in db.deposits && db'.deposits[id] == db.deposits[id])
  }

  lemma OwnRowsAreEnough(D: DepositsIn, H: PairHash, height: nat, network: nat, db: DB, db': DB, t: Tree,
                         blocks: seq<Block>)
    requires Tables(D, H, height, network, db, t, blocks) && OwnRowsKept(network, db, db') && Sound(H, db')
    ensures Tables(D, H, height, network, db', t, blocks)
  {
    hide ChainLeaves;
    hide ChainNumbers;
    assert forall j :: 0 <= j < |t.ids| ==> IsDeposit(db, t.ids[j], network, j, t.leaves[j]);
    forall j | 0 <= j < |t.ids|
      ensures DepositStored(H, height, network, db', t.leaves[..j + 1], t.ids[j])
    {
      assert DepositStored(H, height, network, db, t.leaves[..j + 1], t.ids[j]);
    }
    assert TableHolds(db', network, blocks) by {
      forall k | 0 <= k < |blocks|
        ensures RowOf(network, blocks[k]) in db'.blocks
      {
        assert RowOf(network, blocks[k]) in RowsOfNetwork(db, network);
      }
      forall row | row in db'.blocks && row.network == network
        ensures exists k :: 0 <= k < |blocks| && row == RowOf(network, blocks[k])
      {
        assert row in RowsOfNetwork(db', network);
      }
    }
  }

  /** The number of deposits of the chain above the genesis number and up to a block. */
  function Total(D: DepositsIn, gen: nat, chain: Chain, n: nat): nat {
    |ChainLeaves(D, Events(chain, gen + 1, n + 1))|
  }

  /** The contract numbers its deposits 0, 1, ... and there is room for all of them. */
  ghost predicate Counted(D: DepositsIn, gen: nat, chain: Chain) {
    && (forall n :: gen < n < |chain| ==> CountedFrom(D(chain[n].events), Total(D, gen, chain, n - 1)))
    && forall n :: gen <= n < |chain| ==> Total(D, gen, chain, n) < COUNT_LIMIT
  }

  lemma TotalStep(D: DepositsIn, gen: nat, chain: Chain, n: nat)
    requires gen < n
    ensures Total(D, gen, chain, n) ==
      Total(D, gen, chain, n - 1) + if EventAt(chain, n) == [] then 0 else |D(chain[n].events)|
  {
    hide ChainLeaves;
    hide ChainNumbers;
    var before := Events(chain, gen + 1, n);
    assert Events(chain, gen + 1, n + 1) == before + EventAt(chain, n);
    if EventAt(chain, n) == [] {
      assert before + EventAt(chain, n) == before;
    } else {
      OneMoreBlock(D, before, BlockAt(chain, n));
    }
  }

  lemma {:induction false} TotalGrows(D: DepositsIn, gen: nat, chain: Chain, m: nat, n: nat)
    requires gen <= m <= n
    ensures Total(D, gen, chain, m) <= Total(D, gen, chain, n)
    decreases n
  {
    hide Total;
    if m < n {
      TotalGrows(D, gen, chain, m, n - 1);
      TotalStep(D, gen, chain, n);
    }
  }

  /** Blocks without events add no deposits. */
  lemma TotalSame(D: DepositsIn, gen: nat, chain: Chain, n: nat, a: nat, b: nat)
    requires gen <= n <= a && n <= b && Events(chain, n + 1, a + 1) == Events(chain, n + 1, b + 1)
    ensures Total(D, gen, chain, a) == Total(D, gen, chain, b)
  {
    hide Events;
    hide ChainLeaves;
    EventsSplit(chain, gen + 1, n + 1, a + 1);
    EventsSplit(chain, gen + 1, n + 1, b + 1);
  }

  /** Some of the chain's event blocks have no more deposits than all of them. */
  lemma {:induction false} PartLeaves(D: DepositsIn, gen: nat, chain: Chain, n: nat, blocks: seq<Block>)
    requires gen <= n && Increasing(blocks)
    requires forall k :: 0 <= k < |blocks| ==> IsEvent(chain, blocks[k]) && gen < blocks[k].number <= n
    ensures |ChainLeaves(D, blocks)| <= Total(D, gen, chain, n)
    decreases n
  {
    hide ChainLeaves;
    hide ChainNumbers;
    hide Total;
    if blocks == [] {
      NoBlocks(D);
    } else {
      var front, b := blocks[..|blocks| - 1], blocks[|blocks| - 1];
      assert front + [b] == blocks;
      assert n > gen;
      TotalStep(D, gen, chain, n);
      if b.number == n {
        OneMoreBlock(D, front, b);
        PartLeaves(D, gen, chain, n - 1, front);
      } else {
        PartLeaves(D, gen, chain, n - 1, blocks);
      }
    }
  }

  /** The tree in memory agrees with the tables, or expects another deposit than the chain's next one:
      too early a one after a reset that was not committed, too late a one after a block that was not. */
  ghost predicate Held(H: PairHash, height: nat, t: Tree, total: nat) {
    InMemory(H, height, t) || t.count < |t.leaves| || (t.count > |t.leaves| && |t.leaves| == total)
  }

  /** Going back to the last stored block changes nothing about that. */
  lemma HeldAtNewest(D: DepositsIn, H: PairHash, height: nat, t: Tree, gen: nat, force: bool, blocks: seq<Block>,
                     chain: Chain, last: Block)
    requires FollowsWith(gen, force, blocks, chain, last) && t.leaves == ChainLeaves(D, blocks)
    requires Held(H, height, t, Total(D, gen, chain, last.number))
    ensures Held(H, height, t, Total(D, gen, chain, Newest(gen, blocks).number))
  {
    hide ChainLeaves;
    hide Total;
    hide InMemory;
    FollowsNewest(gen, force, blocks, chain, last);
    var n := Newest(gen, blocks).number;
    TotalGrows(D, gen, chain, n, last.number);
    PartLeaves(D, gen, chain, n, blocks);
  }

  lemma DepositsUpTo(D: DepositsIn, H: PairHash, height: nat, network: nat, db: DB, t: Tree, blocks: seq<Block>, n: nat)
    requires Tables(D, H, height, network, db, t, blocks)
    requires forall k :: 0 <= k < |blocks| ==> blocks[k].number < n
    ensures UpTo(db, network, n)
  {
    hide ChainLeaves;
    hide ChainNumbers;
    NumbersWithin(D, blocks, 0, n);
    forall id | id in db.deposits && db.deposits[id].network == network
      ensures db.deposits[id].block <= n
    {
      assert t.ids[db.deposits[id].count] == id;
    }
  }

  /** The rows of a block and of all its deposits. */
  lemma BlockLinks(D: DepositsIn, db: DB, db1: DB, db': DB, network: nat, t: Tree, t': Tree, blocks: seq<Block>,
                   b: Block)
    requires Linked(D, db, network, t, blocks) && TableHolds(db1, network, blocks + [b]) && db'.blocks == db1.blocks
    requires db1.deposits == db.deposits && RowsAdded(db1, t.ids, db', t'.ids, b.number)
    requires t'.leaves == t.leaves + LeavesOf(D(b.events)) && |t'.ids| == |t'.leaves|
    ensures Linked(D, db', network, t', blocks + [b])
  {
    hide ChainLeaves;
    hide ChainNumbers;
    OneMoreBlock(D, blocks, b);
    assert forall j :: 0 <= j < |t.ids| ==> t'.ids[j] == t.ids[j];
  }

  lemma StoredLengths(H: PairHash, height: nat, network: nat, db: DB, leaves: seq<Digest>, ids: seq<nat>)
    requires Stored(H, height, network, db, leaves, ids)
    ensures |leaves| == |ids| && forall j :: 0 <= j < |ids| ==> ids[j] in db.deposits
  {
    assert forall j :: 0 <= j < |ids| ==> IsDeposit(db, ids[j], network, j, leaves[j]);
  }

  lemma NothingAdded(db: DB, ids: seq<nat>, block: nat)
    requires forall j :: 0 <= j < |ids| ==> ids[j] in db.deposits
    ensures RowsAdded(db, ids, db, ids, block)
  {
  }

  /** One block, its row and its deposits, in one transaction. `total` is the number of deposits the chain has
      before it. A tree that is out of count, or tables that miss a deposit, take no further one. */
  method StoreBlock(D: DepositsIn, tree: MerkleTree, db: DB, b: Block, addBlockFails: bool, f: Attempt,
                    ghost blocks: seq<Block>, ghost total: nat)
    returns (ok: bool, db': DB)
    requires |f.faults| == |D(b.events)|
    requires tree.Shaped() && Tables(D, tree.H, tree.height, tree.networkID, db, tree.View(), blocks)
    requires Held(tree.H, tree.height, tree.View(), total) && |tree.leaves| <= total
    requires CountedFrom(D(b.events), total) && total + |D(b.events)| < COUNT_LIMIT
    requires forall k :: 0 <= k < |blocks| ==> blocks[k].number < b.number
    modifies tree
    ensures tree.Shaped()
    ensures ok <==>
      && !addBlockFails && !f.laterFails
      && (D(b.events) == []
          || (&& old(InMemory(tree.H, tree.height, tree.View()))
              && TakesAll(tree.H, tree.height, old(tree.leaves), D(b.events), f.faults)))
    ensures ok && !HashTaken(db, b.hash) ==>
      && Tables(D, tree.H, tree.height, tree.networkID, db', tree.View(), blocks + [b])
      && Foreign(db', tree.networkID) == Foreign(db, tree.networkID)
    ensures ok ==> OthersKept(tree.H, tree.height, tree.networkID, db, db')
    ensures D(b.events) == [] || !old(InMemory(tree.H, tree.height, tree.View())) || old(|tree.leaves|) != total ==>
      tree.View() == old(tree.View())
    ensures ok && D(b.events) != [] ==>
      && old(InMemory(tree.H, tree.height, tree.View())) && old(|tree.leaves|) == total
      && InMemory(tree.H, tree.height, tree.View())
    ensures !ok ==> db' == db && Tables(D, tree.H, tree.height, tree.networkID, db, tree.View(), blocks)
    ensures Held(tree.H, tree.height, tree.View(), if ok then total + |D(b.events)| else total)
  {
    hide ChainLeaves;
    hide ChainNumbers;
    hide Frontier.IsFrontier;
    hide Sound;
    hide Stored;
    hide RowsAdded;
    hide PathDistinct;
    if addBlockFails {
      return false, db;
    }
    ghost var before := tree.View();
    var row := RowOf(tree.networkID, b);
    var db1 := AddBlock(db, row);
    TablesAlike(tree.H, tree.height, tree.networkID, db, db1, tree.leaves, tree.ids);
    DepositsUpTo(D, tree.H, tree.height, tree.networkID, db, before, blocks, b.number);
    ghost var agreed := InMemory(tree.H, tree.height, before);
    ghost var added;
    ok, db', added := ProcessDeposits(tree, db1, b.number, D(b.events), f.faults, f.laterFails);
    if !ok {
      db' := db;
      assert added > 0 && agreed ==> Takes(tree.H, tree.height, before.leaves, D(b.events), f.faults, 0);
      return;
    }
    forall n, other | n != tree.networkID && Mirrors(tree.H, tree.height, n, db, other)
      ensures Mirrors(tree.H, tree.height, n, db', other)
    {
      BlockKeepsMirrors(tree.H, tree.height, n, db, other, row);
    }
    if !HashTaken(db, b.hash) {
      AddBlockHolds(db, tree.networkID, blocks, b);
      if agreed {
        StoredLengths(tree.H, tree.height, tree.networkID, db', tree.leaves, tree.ids);
        BlockLinks(D, db, db1, db', tree.networkID, before, tree.View(), blocks, b);
      } else {
        assert before.leaves + LeavesOf([]) == before.leaves;
        NothingAdded(db1, before.ids, b.number);
        BlockLinks(D, db, db1, db', tree.networkID, before, tree.View(), blocks, b);
      }
    }
  }

  /** The deposits that survive a reset are those of the blocks that survive it. */
  lemma SurvivorsAreKept(D: DepositsIn, db: DB, network: nat, t: Tree, blocks: seq<Block>, n: nat)
    requires Linked(D, db, network, t, blocks) && Increasing(blocks)
    requires forall j, k :: 0 <= j < k < |t.ids| ==> db.deposits[t.ids[j]].block <= db.deposits[t.ids[k]].block
    ensures var kept, m := KeepUpTo(blocks, n), Survivors(db, t.ids, n);
      && m == |ChainLeaves(D, kept)| && t.leaves[..m] == ChainLeaves(D, kept)
      && ChainNumbers(D, blocks)[..m] == ChainNumbers(D, kept)
  {
    hide CountUpTo;
    hide ChainLeaves;
    hide ChainNumbers;
    var low, high := KeepUpTo(blocks, n), blocks[CountUpTo(blocks, n)..];
    KeepSplits(blocks, n);
    assert low + high == blocks;
    LeavesSplit(D, low, high);
    NumbersWithin(D, low, 0, n + 1);
    NumbersAbove(D, high, n + 1);
    SurvivorsAre(db, t.ids, n);
    BoundaryIs(db, t.ids, ChainNumbers(D, low), ChainNumbers(D, high), n);
  }

  /** The reset keeps tables and blocks linked. If it is not committed the tree may be left at the earlier count. */
  method ResetBlocks(D: DepositsIn, tree: MerkleTree, db: DB, n: nat, fails: bool, commitFails: bool,
                     ghost blocks: seq<Block>)
    returns (ok: bool, db': DB)
    requires tree.Shaped() && Injective(tree.H) && |tree.leaves| < COUNT_LIMIT
    requires Tables(D, tree.H, tree.height, tree.networkID, db, tree.View(), blocks) && Increasing(blocks)
    modifies tree
    ensures tree.Shaped() && (ok <==> !fails && !commitFails)
    ensures ok ==> InMemory(tree.H, tree.height, tree.View())
    ensures ok ==> Tables(D, tree.H, tree.height, tree.networkID, db', tree.View(), KeepUpTo(blocks, n))
    ensures ok ==> Foreign(db', tree.networkID) == Foreign(db, tree.networkID)
    ensures ok ==> OthersKept(tree.H, tree.height, tree.networkID, db, db')
    ensures !ok ==> db' == db && Tables(D, tree.H, tree.height, tree.networkID, db, tree.View(), blocks)
    ensures !ok ==> forall total :: old(Held(tree.H, tree.height, tree.View(), total)) ==>
      Held(tree.H, tree.height, tree.View(), total)
  {
    hide CountUpTo;
    hide ChainLeaves;
    hide ChainNumbers;
    hide Survivors;
    hide TableHolds;
    hide Frontier.IsFrontier;
    ghost var t := tree.View();
    ResetCutsTable(db, tree.networkID, blocks, n);
    SurvivorsAreKept(D, db, tree.networkID, t, blocks, n);
    SurvivorsAre(db, t.ids, n);
    ok, db' := ResetState(tree, db, n, fails, commitFails);
    if ok {
      ghost var m := Survivors(db, t.ids, n);
      assert forall j :: 0 <= j < m ==> tree.ids[j] == t.ids[j] && t.ids[j] in db'.deposits;
    }
  }

  /** The tables hold the root of every prefix of the deposits, and no other roots of the network. */
  ghost predicate RootsAre(H: PairHash, height: nat, network: nat, db: DB, deposits: seq<Digest>) {
    && (forall m :: 0 <= m < |deposits| && m < Pow2(height) ==>
          && RootIdsAt(db, network, m) != {}
          && forall id :: id in RootIdsAt(db, network, m) ==> db.roots[id].root == Root(H, deposits[..m + 1], height))
    && forall m :: m >= |deposits| ==> RootIdsAt(db, network, m) == {}
  }

  /** Every block row of the network is on the chain. */
  ghost predicate RowsOnChain(db: DB, network: nat, chain: Chain) {
    forall row :: row in db.blocks && row.network == network ==>
      row.number < |chain| && chain[row.number].hash == row.hash
  }

  lemma StoredRootsAre(H: PairHash, height: nat, network: nat, db: DB, leaves: seq<Digest>, ids: seq<nat>)
    requires Sound(H, db) && Stored(H, height, network, db, leaves, ids)
    ensures RootsAre(H, height, network, db, leaves)
  {
    forall m | 0 <= m < |leaves| && m < Pow2(height)
      ensures RootIdsAt(db, network, m) != {}
      ensures forall id :: id in RootIdsAt(db, network, m) ==> db.roots[id].root == Root(H, leaves[..m + 1], height)
    {
      RootOfCount(H, height, network, db, leaves, ids, m + 1);
      Capacity(m, height);
    }
  }

  /** Whatever chain storage follows, the rows of its blocks are on that chain; once in step with it, the
      roots are those of the chain's own deposits above the genesis number. */
  lemma TreeFollowsChain(D: DepositsIn, H: PairHash, height: nat, network: nat, db: DB, t: Tree,
                         gen: nat, force: bool, blocks: seq<Block>, chain: Chain, last: Block)
    requires Tables(D, H, height, network, db, t, blocks) && FollowsWith(gen, force, blocks, chain, last)
    ensures RowsOnChain(db, network, chain)
    ensures InStepWith(gen, force, blocks, chain, last) ==>
      RootsAre(H, height, network, db, ChainLeaves(D, Events(chain, gen + 1, last.number + 1)))
  {
    hide Events;
    hide ChainLeaves;
    StoredOnChain(gen, force, blocks, chain, last);
    StoredRootsAre(H, height, network, db, t.leaves, t.ids);
  }
}
