/** Following a growing and reorganising chain: the query window, the reorg check and the reset. */
module Synchronizer {
  import opened Digests
  import opened Storage
  import opened StoredTree
  import opened ExitTree
  import opened DepositRuns
  import opened Chains
  import opened ChainSteps
  import opened Recovery
  import opened ChainMirror
  import opened Rounds

  datatype ReorgCheck = NoReorg | Reorged(block: Block) | CheckFailed

  datatype Received = NotReceived | Received(hash: nat)

  /** The window: everything up to `scanned` was queried, and after `last` it had no events. */
  ghost predicate Window(gen: nat, force: bool, chain: Chain, last: Block, synced: bool, scanned: nat, fromBlock: nat) {
    && Anchored(gen, force, chain, last)
    && last.number <= scanned < |chain|
    && Events(chain, last.number + 1, scanned + 1) == []
    && (force ==> scanned == last.number)
    && fromBlock == if synced && !force then last.number else scanned + 1
  }

  /** What was stored up to `scanned` and what is stored from `last` up to `hi` join without overlap. */
  lemma WindowsJoin(chain: Chain, first: nat, last: nat, scanned: nat, hi: nat)
    requires first <= last <= scanned && last <= hi
    requires Events(chain, last + 1, scanned + 1) == []
    ensures Events(chain, first + 1, scanned + 1) + Events(chain, last + 1, hi + 1)
         == Events(chain, first + 1, if hi <= scanned then scanned + 1 else hi + 1)
    ensures hi <= scanned ==> Events(chain, last + 1, hi + 1) == []
  {
    hide Events;
    if hi <= scanned {
      EventsSplit(chain, last + 1, hi + 1, scanned + 1);
    } else {
      EventsSplit(chain, last + 1, scanned + 1, hi + 1);
      EventsSplit(chain, first + 1, scanned + 1, hi + 1);
    }
  }

  /** A chain of the bridge: hashes identify blocks, here and among those of other networks, and the deposits
      are counted. */
  ghost predicate SuitableChain(D: DepositsIn, gen: nat, others: iset<nat>, chain: Chain) {
    && gen < |chain| && Distinct(chain) && Counted(D, gen, chain)
    && forall n :: 0 <= n < |chain| ==> chain[n].hash !in others
  }

  /** The chains of a run, any two with one history up to every common hash. */
  ghost predicate SuitableChains(D: DepositsIn, gen: nat, others: iset<nat>, chains: seq<Chain>) {
    && (forall k :: 0 <= k < |chains| ==> SuitableChain(D, gen, others, chains[k]))
    && (forall j, k :: 0 <= j < |chains| && 0 <= k < |chains| ==> OneHistory(chains[j], chains[k]))
  }

  /** The block rows of other networks carry their hashes. */
  ghost predicate HashesApart(network: nat, others: iset<nat>, db: DB) {
    forall row :: row in Foreign(db, network) ==> row.hash in others
  }

  /** What other networks do to the tables meanwhile. */
  ghost predicate Harmless(H: PairHash, network: nat, others: iset<nat>, f: DB -> DB) {
    forall db :: Sound(H, db) && HashesApart(network, others, db) ==>
      Sound(H, f(db)) && HashesApart(network, others, f(db)) && OwnRowsKept(network, db, f(db))
  }

  function ChainsOf(rounds: seq<Round>): (chains: seq<Chain>)
    ensures |chains| == |rounds| && forall k :: 0 <= k < |rounds| ==> chains[k] == rounds[k].chain
  {
    seq(|rounds|, k requires 0 <= k < |rounds| => rounds[k].chain)
  }

  class ClientSynchronizer {
    const genBlockNumber: nat
    const syncChunkSize: nat
    const forceSyncChunk: bool
    /** The deposits among the events of a block. */
    const D: DepositsIn
    const tree: MerkleTree
    var synced: bool
    var db: DB
    /** The blocks in the block table of this network, oldest first. */
    ghost var blocks: seq<Block>
    /** The hashes of blocks of other networks. */
    ghost const others: iset<nat>

    constructor (genBlockNumber: nat, syncChunkSize: nat, forceSyncChunk: bool, D: DepositsIn, tree: MerkleTree, db: DB,
                 ghost blocks: seq<Block>, ghost others: iset<nat>)
      ensures this.genBlockNumber == genBlockNumber && this.syncChunkSize == syncChunkSize
      ensures this.forceSyncChunk == forceSyncChunk && this.D == D && this.tree == tree && this.db == db
      ensures !synced && this.blocks == blocks && this.others == others
    {
      this.genBlockNumber, this.syncChunkSize, this.forceSyncChunk := genBlockNumber, syncChunkSize, forceSyncChunk;
      this.D, this.tree, this.db := D, tree, db;
      synced, this.blocks, this.others := false, blocks, others;
    }

    function Genesis(): Block {
      Block(genBlockNumber, 0, [])
    }

    ghost function LastStored(): Block
      reads `blocks
    {
      Newest(genBlockNumber, blocks)
    }

    /** The block is the genesis or agrees with the chain. */
    ghost predicate Agrees(chain: Chain, b: Block) {
      AgreesWith(genBlockNumber, chain, b)
    }

    ghost predicate Follows(chain: Chain, last: Block)
      reads `blocks
    {
      FollowsWith(genBlockNumber, forceSyncChunk, blocks, chain, last)
    }

    ghost predicate InStep(chain: Chain, last: Block)
      reads `blocks
    {
      InStepWith(genBlockNumber, forceSyncChunk, blocks, chain, last)
    }

    ghost predicate Behind(chain: Chain, last: Block)
      reads `blocks
    {
      BehindWith(genBlockNumber, forceSyncChunk, blocks, chain, last)
    }

    ghost predicate Suitable(chain: Chain) {
      SuitableChain(D, genBlockNumber, others, chain)
    }

    /** The tables hold the stored blocks and the tree of their deposits. */
    ghost predicate Stands()
      reads `db, `blocks, tree
    {
      && tree.Shaped() && Injective(tree.H)
      && Tables(D, tree.H, tree.height, tree.networkID, db, tree.View(), blocks)
      && HashesApart(tree.networkID, others, db)
    }

    /** Besides, the tree in memory agrees with them or expects another deposit than the next of the chain
        after block `n`. */
    ghost predicate Backed(chain: Chain, n: nat)
      reads `db, `blocks, tree
    {
      Stands() && Held(tree.H, tree.height, tree.View(), Total(D, genBlockNumber, chain, n))
    }

    /** The tree would take the chain's next deposit after block `n`. */
    ghost predicate Open(chain: Chain, n: nat)
      reads `db, `blocks, tree
    {
      InMemory(tree.H, tree.height, tree.View()) && |tree.leaves| == Total(D, genBlockNumber, chain, n)
    }

    /** Nothing stands in the way of storing the chain's blocks after block `n`: no call fails, no digest is made from
        itself, and the tree would take the next deposit. */
    ghost predicate Ready(calm: bool, chain: Chain, n: nat)
      reads `db, `blocks, tree
    {
      calm && Acyclic(tree.H) && Open(chain, n)
    }

    /** `GetPreviousBlock` and, for no offset, `GetLastBlock`. */
    method ReadBlock(offset: nat) returns (found: bool, b: Block)
      requires TableHolds(db, tree.networkID, blocks) && Increasing(blocks)
      ensures found <==> offset < |blocks|
      ensures found ==> b == Header(blocks[|blocks| - 1 - offset])
    {
      b := Genesis();
      var row;
      ghost var above;
      found, row, above := GetPreviousBlock(db, tree.networkID, offset);
      TableSize(db, tree.networkID, blocks);
      if found {
        PreviousIs(db, tree.networkID, blocks, row, above);
        b := Block(row.number, row.hash, []);
      }
    }

    /** The first comparison: with the block received by the query, or else with the chain. */
    ghost predicate FirstAgrees(chain: Chain, latest: Block, received: Received) {
      || latest.number <= genBlockNumber
      || if received.Received? then received.hash == latest.hash else OnChain(chain, latest)
    }

    /** The newest stored block that is compared after the first comparison fails is the second one;
        `at` is the newest from there on that agrees with the chain, -1 for none. */
    ghost predicate NewestAgreeing(chain: Chain, at: int)
      reads `blocks
    {
      && -1 <= at && (at == -1 || at < |blocks| - 1)
      && (at >= 0 ==> Agrees(chain, blocks[at]))
      && forall p :: at < p < |blocks| - 1 && p >= 0 ==> !Agrees(chain, blocks[p])
    }

    /** `checkReorg`: walks back one stored block at a time until one agrees with the chain. */
    method CheckReorg(chain: Chain, latest: Block, received: Received, head0: nat, calm: bool)
      returns (r: ReorgCheck, head: nat, ghost at: int)
      requires head0 < |chain| && TableHolds(db, tree.networkID, blocks) && Increasing(blocks)
      requires latest.number <= genBlockNumber || forall j :: 0 <= j < |blocks| - 1 && blocks[j].hash == latest.hash ==>
        received.NotReceived? && blocks[j].number == latest.number
      ensures head0 <= head < |chain|
      ensures r.NoReorg? ==> FirstAgrees(chain, latest, received)
      ensures r.NoReorg? && received.NotReceived? ==> latest.number <= head
      ensures r.Reorged? ==> !FirstAgrees(chain, latest, received) && NewestAgreeing(chain, at)
      ensures r.Reorged? ==> at < |blocks| && r.block == ReturnTo(genBlockNumber, blocks, at)
      ensures received.Received? && FirstAgrees(chain, latest, received) ==> r.NoReorg?
      ensures calm && latest.number <= head0 && (forall j :: 0 <= j < |blocks| - 1 ==> blocks[j].number <= head0) ==>
        !r.CheckFailed?
    {
      hide TableHolds;
      hide Increasing;
      head, at := head0, |blocks| - 1;
      var depth, reorgedBlock, block := 0, latest, received;
      while true
        invariant at == |blocks| - 1 - depth && head0 <= head < |chain|
        invariant depth == 0 ==> reorgedBlock == latest && block == received
        invariant depth > 0 ==> 0 <= at && reorgedBlock == Header(blocks[at]) && block == NotReceived
        invariant depth > 0 ==> !FirstAgrees(chain, latest, received)
        invariant forall p :: at < p < |blocks| - 1 ==> !Agrees(chain, blocks[p])
        decreases at + 1
      {
        if block == NotReceived {
          var h :| head <= h < |chain|;
          head := h;
          var fails := *;
          if !calm && fails {
            return CheckFailed, head, at;
          }
          if reorgedBlock.number > head {
            return CheckFailed, head, at;
          }
          block := Received(chain[reorgedBlock.number].hash);
        }
        if block.hash != reorgedBlock.hash && reorgedBlock.number > genBlockNumber {
          depth := depth + 1;
          at := at - 1;
          var fails := *;
          if !calm && fails {
            return CheckFailed, head, at;
          }
          var found, previous := ReadBlock(depth);
          if !found {
            at := -1;
            return Reorged(Genesis()), head, at;
          }
          reorgedBlock := previous;
        } else {
          break;
        }
        block := NotReceived;
      }
      if latest.hash != reorgedBlock.hash {
        return Reorged(reorgedBlock), head, at;
      }
      r := NoReorg;
    }

    /** The query of one window, answered by the chain `asked`, and what is done with its first block. Once synced
        the window starts at `last`, whose block comes first and is dropped; a genesis without events is filled in.
        An empty answer, or one whose first block is not `last`, means that the chain has left `last`. */
    method QueryWindow(asked: Chain, last: Block, ghost scanned: nat, fromBlock: nat, toBlock: nat, fails: bool,
                       ghost branch: Chain)
      returns (ok: bool, q: seq<Block>, received: Received, empty: bool)
      requires Window(genBlockNumber, forceSyncChunk, branch, last, synced, scanned, fromBlock)
      requires genBlockNumber < |asked| && fromBlock <= toBlock < |asked|
      requires OneHistory(branch, asked) && SameNumbers(branch, asked)
      requires (asked == branch || (synced && !forceSyncChunk))
      ensures ok <==> !fails
      ensures empty ==> ok && synced && !forceSyncChunk && last.number > genBlockNumber && !OnChain(asked, last)
      ensures ok && !empty ==> (received.Received? <==> synced && !forceSyncChunk)
      ensures ok && !empty && FirstAgrees(asked, last, received) ==>
        Anchored(genBlockNumber, forceSyncChunk, asked, last) && q == Events(asked, last.number + 1, toBlock + 1)
      ensures ok && Agrees(asked, last) ==> !empty && FirstAgrees(asked, last, received)
    {
      hide Events;
      hide OneHistory;
      hide SameNumbers;
      q, received, empty := Events(asked, fromBlock, toBlock + 1), NotReceived, false;
      if fails {
        return false, q, received, false;
      }
      if synced && !forceSyncChunk {
        if last.number == genBlockNumber {
          FirstIsLast(genBlockNumber, asked, last, toBlock, q);
        } else {
          FirstOfOther(genBlockNumber, branch, asked, last, toBlock, q);
        }
      } else {
        EventsSplit(asked, last.number + 1, scanned + 1, toBlock + 1);
      }
      if fromBlock == genBlockNumber && !forceSyncChunk {
        if |q| == 0 || q[0].number != genBlockNumber {
          q := [Block(0, 0, [])] + q;
        }
      } else if fromBlock < genBlockNumber {
        return false, q, received, false;
      }
      if synced && !forceSyncChunk {
        if |q| == 0 {
          return true, q, received, true;
        }
        received := Received(q[0].hash);
        q := q[1..];
      }
      ok := true;
    }

    lemma LeavesFit(chain: Chain, last: Block)
      requires Suitable(chain) && Follows(chain, last) && Stands()
      ensures |tree.leaves| <= Total(D, genBlockNumber, chain, last.number) < COUNT_LIMIT
    {
      hide ChainLeaves;
      hide Total;
      PartLeaves(D, genBlockNumber, chain, last.number, blocks);
    }

    /** `resetState`. */
    method ResetState(blockNumber: nat, calm: bool, ghost chain: Chain, ghost last: Block) returns (ok: bool)
      requires Suitable(chain) && Follows(chain, last) && Backed(chain, last.number)
      modifies this`db, this`blocks, tree
      ensures blocks == if ok then KeepUpTo(old(blocks), blockNumber) else old(blocks)
      ensures Stands() && (calm ==> ok)
      ensures if ok then InMemory(tree.H, tree.height, tree.View()) else Backed(chain, last.number)
    {
      hide CountUpTo;
      hide Linked;
      hide Total;
      hide InMemory;
      hide Stored;
      hide Sound;
      LeavesFit(chain, last);
      var fails, commitFails, db' := *, *, db;
      ok, db' := ResetBlocks(D, tree, db, blockNumber, !calm && fails, !calm && commitFails, blocks);
      if ok {
        db, blocks := db', KeepUpTo(blocks, blockNumber);
      }
    }

    /** The deposits of the chain's next event block carry the counts after those stored. */
    lemma NextDeposits(chain: Chain, b: Block, stored: seq<Block>)
      requires Suitable(chain) && IsEvent(chain, b) && b.number > genBlockNumber && Increasing(stored)
      requires forall k :: 0 <= k < |stored| ==>
        IsEvent(chain, stored[k]) && genBlockNumber < stored[k].number < b.number
      ensures var total := Total(D, genBlockNumber, chain, b.number - 1);
        && |ChainLeaves(D, stored)| <= total && CountedFrom(D(b.events), total)
        && Total(D, genBlockNumber, chain, b.number) == total + |D(b.events)| < COUNT_LIMIT
    {
      hide Events;
      hide ChainLeaves;
      hide Total;
      hide CountedFrom;
      PartLeaves(D, genBlockNumber, chain, b.number - 1, stored);
      TotalStep(D, genBlockNumber, chain, b.number);
      assert Counted(D, genBlockNumber, chain);
    }

    /** Its hash is new to the block table. */
    lemma HashIsNew(chain: Chain, b: Block)
      requires Suitable(chain) && Stands() && IsEvent(chain, b)
      requires forall k :: 0 <= k < |blocks| ==> IsEvent(chain, blocks[k]) && blocks[k].number < b.number
      ensures !HashTaken(db, b.hash)
    {
      hide ChainLeaves;
      hide ChainNumbers;
      hide Stored;
      hide Sound;
      forall row | row in db.blocks
        ensures row.hash != b.hash
      {
        if row.network == tree.networkID {
          var k :| 0 <= k < |blocks| && row == RowOf(tree.networkID, blocks[k]);
        } else {
          assert row in Foreign(db, tree.networkID);
        }
      }
    }

    /** Blocks without events make no difference to the tree. */
    lemma BackedSame(chain: Chain, n: nat, a: nat, b: nat)
      requires Backed(chain, a)
      requires genBlockNumber <= n <= a && n <= b && Events(chain, n + 1, a + 1) == Events(chain, n + 1, b + 1)
      ensures Backed(chain, b) && (Open(chain, a) <==> Open(chain, b))
      ensures Total(D, genBlockNumber, chain, a) == Total(D, genBlockNumber, chain, b)
    {
      TotalSame(D, genBlockNumber, chain, n, a, b);
    }

    lemma ReadyIs(calm: bool, chain: Chain, n: nat)
      ensures Ready(calm, chain, n) <==> calm && Acyclic(tree.H) && Open(chain, n)
    {
    }

    /** One block of those that are event blocks of the chain. */
    method ProcessBlock(ghost chain: Chain, b: Block, calm: bool) returns (ok: bool)
      requires Suitable(chain) && IsEvent(chain, b) && b.number > genBlockNumber && Increasing(blocks)
      requires forall k :: 0 <= k < |blocks| ==>
        IsEvent(chain, blocks[k]) && genBlockNumber < blocks[k].number < b.number
      requires Backed(chain, b.number - 1)
      modifies this`db, this`blocks, tree
      ensures blocks == if ok then old(blocks) + [b] else old(blocks)
      ensures Backed(chain, if ok then b.number else b.number - 1)
      ensures !old(Open(chain, b.number - 1)) ==>
        && tree.View() == old(tree.View()) && !Open(chain, if ok then b.number else b.number - 1)
        && (ok ==>
              && D(b.events) == []
              && Total(D, genBlockNumber, chain, b.number) == Total(D, genBlockNumber, chain, b.number - 1))
      ensures old(Open(chain, b.number - 1)) && ok ==> Open(chain, b.number)
      ensures old(Ready(calm, chain, b.number - 1)) ==> ok
    {
      hide Events;
      hide Total;
      hide ChainLeaves;
      hide Sound;
      hide Stored;
      hide TableHolds;
      hide InMemory;
      NextDeposits(chain, b, blocks);
      HashIsNew(chain, b);
      ghost var total := Total(D, genBlockNumber, chain, b.number - 1);
      assert |tree.leaves| <= total;
      var fails, db' := *, db;
      var f := AnyAttempt(calm, |D(b.events)|);
      if calm && Acyclic(tree.H) {
        CountsDecide(tree.H, tree.height, tree.leaves, D(b.events), f.faults);
      }
      OneMoreBlock(D, blocks, b);
      ok, db' := StoreBlock(D, tree, db, b, !calm && fails, f, blocks, total);
      if ok {
        db, blocks := db', blocks + [b];
      }
    }

    /** One turn of the loop of `processBlockRange`. */
    method ProcessNext(ghost chain: Chain, q: seq<Block>, i: nat, ghost base: seq<Block>, ghost last: Block,
                       ghost toBlock: nat, ghost done: nat, calm: bool)
      returns (ok: bool, ghost upTo: nat)
      requires Suitable(chain) && FollowsWith(genBlockNumber, forceSyncChunk, base, chain, last)
      requires last.number <= toBlock < |chain|
      requires q == Events(chain, last.number + 1, toBlock + 1) && i < |q| && blocks == base + q[..i]
      requires last.number <= done <= toBlock && q[..i] == Events(chain, last.number + 1, done + 1)
      requires Backed(chain, done)
      modifies this`db, this`blocks, tree
      ensures last.number <= upTo <= toBlock && Backed(chain, upTo)
      ensures q[..if ok then i + 1 else i] == Events(chain, last.number + 1, upTo + 1)
      ensures blocks == base + q[..if ok then i + 1 else i]
      ensures !old(Open(chain, done)) ==>
        && tree.View() == old(tree.View()) && !Open(chain, upTo)
        && Total(D, genBlockNumber, chain, upTo) == Total(D, genBlockNumber, chain, done)
      ensures old(Open(chain, done)) && ok ==> Open(chain, upTo)
      ensures old(Ready(calm, chain, done)) ==> ok
    {
      hide *;
      NextEvent(genBlockNumber, forceSyncChunk, base, chain, last, toBlock, i);
      AboveGenesis(genBlockNumber, forceSyncChunk, base, chain, last);
      var b := q[i];
      BackedSame(chain, last.number, done, b.number - 1);
      ReadyIs(calm, chain, done);
      ReadyIs(calm, chain, b.number - 1);
      ok := ProcessBlock(chain, b, calm);
      upTo := if ok then b.number else b.number - 1;
      assert base + q[..i] + [b] == base + q[..i + 1];
    }

    /** `processBlockRange`: one transaction per block; a failure keeps the blocks before it. The last
        failure is one of those after all blocks are stored. */
    method ProcessBlockRange(chain: Chain, q: seq<Block>, calm: bool, ghost last: Block, ghost toBlock: nat)
      returns (ok: bool, ghost upTo: nat)
      requires Suitable(chain) && FollowsWith(genBlockNumber, forceSyncChunk, blocks, chain, last)
      requires Backed(chain, last.number)
      requires last.number <= toBlock < |chain| && q == Events(chain, last.number + 1, toBlock + 1)
      modifies this`db, this`blocks, tree
      ensures last.number <= upTo <= toBlock && (ok ==> upTo == toBlock)
      ensures blocks == old(blocks) + Events(chain, last.number + 1, upTo + 1)
      ensures Backed(chain, upTo)
      ensures !old(Open(chain, last.number)) ==>
        && tree.View() == old(tree.View()) && !Open(chain, upTo)
        && Total(D, genBlockNumber, chain, upTo) == Total(D, genBlockNumber, chain, last.number)
      ensures old(Open(chain, last.number)) && ok ==> Open(chain, upTo)
      ensures old(Ready(calm, chain, last.number)) ==> ok
    {
      hide *;
      AboveGenesis(genBlockNumber, forceSyncChunk, blocks, chain, last);
      ReadyIs(calm, chain, last.number);
      ghost var open := Open(chain, last.number);
      upTo := last.number;
      EventsEmpty(chain, last.number + 1);
      for i := 0 to |q|
        invariant last.number <= upTo <= toBlock && q[..i] == Events(chain, last.number + 1, upTo + 1)
        invariant blocks == old(blocks) + q[..i] && Backed(chain, upTo)
        invariant !open ==> tree.View() == old(tree.View()) && !Open(chain, upTo)
        invariant !open ==> Total(D, genBlockNumber, chain, upTo) == Total(D, genBlockNumber, chain, last.number)
        invariant open ==> Open(chain, upTo)
      {
        ReadyIs(calm, chain, upTo);
        ok, upTo := ProcessNext(chain, q, i, old(blocks), last, toBlock, upTo, calm);
        if !ok {
          return;
        }
      }
      assert q[..|q|] == q;
      BackedSame(chain, last.number, upTo, toBlock);
      upTo := toBlock;
      var fails := *;
      ok := calm || !fails;
    }

    lemma LongEnough(chain: Chain)
      requires Suitable(chain)
      ensures genBlockNumber < |chain|
    {
    }

    /** What a positive reorg check says about the stored blocks. */
    lemma ReorgFacts(chain: Chain, last: Block, at: int, branch: Chain)
      requires Suitable(chain) && OneHistory(branch, chain) && Follows(branch, last) && NewestAgreeing(chain, at)
      requires -1 <= at < |blocks|
      ensures var block := ReturnTo(genBlockNumber, blocks, at);
        var kept := KeepUpTo(blocks, block.number);
        && FollowsWith(genBlockNumber, forceSyncChunk, kept, chain, block) && block == Newest(genBlockNumber, kept)
        && (InStep(branch, LastStored()) ==> InStepWith(genBlockNumber, forceSyncChunk, kept, chain, block))
        && ReturnsTo(blocks, chain, at)
        && (OnlyOffChainAbove(blocks, chain, block.number) <==> blocks == [] || !OnChain(chain, blocks[|blocks| - 1]))
        && (InStep(branch, last) && !forceSyncChunk && last.number > genBlockNumber && !OnChain(chain, last) ==>
              OnlyOffChainAbove(blocks, chain, block.number))
    {
      hide Events;
      hide OneHistory;
      hide OnlyOffChainAbove;
      hide KeepUpTo;
      hide SuitableChain;
      LongEnough(chain);
      assert forall p :: 0 <= p < |blocks| ==> blocks[p].number > genBlockNumber;
      ReorgCut(genBlockNumber, forceSyncChunk, blocks, branch, chain, last, at);
      NothingGoodIsCut(genBlockNumber, forceSyncChunk, blocks, branch, chain, last, at);
      if InStep(branch, last) && !forceSyncChunk && last.number > genBlockNumber && !OnChain(chain, last) {
        NewestIsOffChain(genBlockNumber, blocks, branch, chain, last);
      }
    }

    /** Lines that follow a positive reorg check. */
    method FollowReorg(chain: Chain, last: Block, block: Block, calm: bool, ghost at: int, ghost branch: Chain)
      returns (last': Block, ok: bool)
      requires Suitable(branch) && Suitable(chain) && OneHistory(branch, chain)
      requires Follows(branch, last) && Backed(branch, last.number)
      requires NewestAgreeing(chain, at) && at < |blocks| && block == ReturnTo(genBlockNumber, blocks, at)
      modifies `db, `blocks, tree
      ensures blocks == if ok then KeepUpTo(old(blocks), block.number) else old(blocks)
      ensures ok ==> last' == block == LastStored() && Follows(chain, block) && Backed(chain, block.number)
      ensures ok ==> InMemory(tree.H, tree.height, tree.View())
      ensures ReturnsTo(old(blocks), chain, at) && (calm ==> ok)
      ensures ok && old(InStep(branch, LastStored())) ==> InStep(chain, block)
      ensures OnlyOffChainAbove(old(blocks), chain, block.number)
         <==> old(blocks) == [] || !OnChain(chain, old(blocks)[|old(blocks)| - 1])
      ensures old(InStep(branch, last)) && !forceSyncChunk && last.number > genBlockNumber && !OnChain(chain, last) ==>
        OnlyOffChainAbove(old(blocks), chain, block.number)
      ensures !ok ==> Backed(branch, last.number)
    {
      hide SuitableChain;
      hide OneHistory;
      hide OnlyOffChainAbove;
      hide Total;
      hide Tables;
      hide InMemory;
      hide KeepUpTo;
      hide FollowsWith;
      hide InStepWith;
      hide HashesApart;
      hide ReturnTo;
      hide ReturnsTo;
      ReorgFacts(chain, last, at, branch);
      ok := ResetState(block.number, calm, branch, last);
      last' := if ok then block else last;
    }

    /** The new `last` after a window was stored: its last event block, or with forced chunks the block
        at the end of the window, which is kept in memory only. */
    method Advance(chain: Chain, last0: Block, toBlock: nat, q: seq<Block>, fails: bool, ghost before: seq<Block>)
      returns (last: Block, ok: bool)
      requires FollowsWith(genBlockNumber, forceSyncChunk, before, chain, last0) && last0.number <= toBlock < |chain|
      requires q == Events(chain, last0.number + 1, toBlock + 1) && blocks == before + q
      ensures ok ==> Follows(chain, last) && last.number <= toBlock && Events(chain, last.number + 1, toBlock + 1) == []
      ensures ok && forceSyncChunk ==> last.number == toBlock
      ensures ok ==> last0.number <= last.number
      ensures ok <==> !(forceSyncChunk && fails)
    {
      hide Events;
      last, ok := last0, true;
      FollowsStoring(genBlockNumber, forceSyncChunk, before, chain, last, toBlock);
      if q != [] {
        EventIs(chain, last.number + 1, toBlock + 1, |q| - 1);
      }
      if |q| > 0 && !forceSyncChunk {
        last := q[|q| - 1];
      } else if forceSyncChunk {
        if fails {
          return last, false;
        }
        EventsEmpty(chain, toBlock + 1);
        last := Block(toBlock, chain[toBlock].hash, []);
      }
    }

    lemma BackedAtNewest(chain: Chain, last: Block)
      requires Follows(chain, last) && Backed(chain, last.number)
      ensures Follows(chain, LastStored()) && Backed(chain, LastStored().number)
    {
      hide Sound;
      hide Stored;
      hide TableHolds;
      hide Total;
      hide ChainLeaves;
      hide InMemory;
      hide Held;
      FollowsNewest(genBlockNumber, forceSyncChunk, blocks, chain, last);
      HeldAtNewest(D, tree.H, tree.height, tree.View(), genBlockNumber, forceSyncChunk, blocks, chain, last);
    }

    /** What a round starts from. */
    lemma RoundStarts(branch: Chain, last: Block)
      requires Suitable(branch) && Follows(branch, last) && Backed(branch, last.number)
      ensures TableHolds(db, tree.networkID, blocks) && Increasing(blocks)
      ensures forall j :: 0 <= j < |blocks| - 1 ==> blocks[j].hash != last.hash
      ensures Follows(branch, LastStored()) && Backed(branch, LastStored().number)
      ensures InStep(branch, last) ==> InStep(branch, LastStored())
      ensures Behind(branch, last) ==>
        !InStep(branch, last) && InStep(branch, LastStored()) && last.number > genBlockNumber
    {
      hide Events;
      hide Total;
      hide Sound;
      hide Stored;
      hide TableHolds;
      hide ChainLeaves;
      hide Held;
      BackedAtNewest(branch, last);
      OlderHashesDiffer(genBlockNumber, forceSyncChunk, blocks, branch, last);
      if InStep(branch, last) {
        StepAtLastStored(genBlockNumber, forceSyncChunk, blocks, branch, last);
      }
      if Behind(branch, last) {
        BehindIsOut(genBlockNumber, forceSyncChunk, blocks, branch, last);
      }
    }

    lemma OneChain(chain: Chain)
      requires Suitable(chain)
      ensures OneHistory(chain, chain) && SameNumbers(chain, chain)
    {
      hide Counted;
      assert Distinct(chain);
    }

    /** Different stored blocks have different hashes. */
    lemma HashesDiffer(branch: Chain, last: Block)
      requires Suitable(branch) && Follows(branch, last)
      ensures forall j, k :: 0 <= j < |blocks| && 0 <= k < |blocks| && blocks[j].hash == blocks[k].hash ==>
        blocks[j].number == blocks[k].number
    {
      hide Counted;
      assert Distinct(branch);
      assert forall j :: 0 <= j < |blocks| ==> IsEvent(branch, blocks[j]);
    }

    /** An empty answer is taken for a reorg: back to the newest stored block on the chain below the newest one, or to
        the genesis. With less than two stored blocks storage is emptied and the block returned has number zero. */
    method FollowEmptyAnswer(chain: Chain, last: Block, head0: nat, calm: bool, ghost branch: Chain)
      returns (last': Block, ok: bool, head: nat, ghost at: int)
      requires Suitable(branch) && Suitable(chain) && OneHistory(branch, chain) && head0 < |chain|
      requires Follows(branch, last) && Backed(branch, last.number)
      modifies `db, `blocks, tree
      ensures head0 <= head < |chain|
      ensures ok ==>
        && blocks == KeepUpTo(old(blocks), last'.number) && InMemory(tree.H, tree.height, tree.View())
        && Follows(chain, LastStored()) && Backed(chain, LastStored().number)
        && (if |old(blocks)| < 2 then last' == Block(0, 0, []) && blocks == [] else last' == LastStored())
      ensures ok && |old(blocks)| >= 2 ==>
        ReturnsTo(old(blocks), chain, at) && last' == ReturnTo(genBlockNumber, old(blocks), at)
      ensures !ok ==> blocks == old(blocks) && Backed(branch, last.number)
      ensures calm && last.number <= head0 ==> ok
    {
      hide SuitableChain;
      hide OneHistory;
      hide OnlyOffChainAbove;
      hide Total;
      hide Tables;
      hide InMemory;
      hide KeepUpTo;
      hide InStepWith;
      hide HashesApart;
      hide TableHolds;
      RoundStarts(branch, last);
      HashesDiffer(branch, last);
      LongEnough(chain);
      last', head, at := last, head0, -1;
      var fails := *;
      if !calm && fails {
        return last', false, head, at;
      }
      var found, prevBlock := ReadBlock(1);
      if !found {
        prevBlock := Block(0, 0, []);
      }
      var check;
      check, head, at := CheckReorg(chain, prevBlock, NotReceived, head, calm);
      if check.CheckFailed? {
        return last', false, head, at;
      }
      if !found {
        NothingUpTo(genBlockNumber, forceSyncChunk, blocks, branch, chain, last);
        ok := ResetState(0, calm, branch, last);
        last' := if ok then prevBlock else last;
      } else if check.NoReorg? {
        at := |blocks| - 2;
        last', ok := FollowReorg(chain, last, prevBlock, calm, at, branch);
      } else {
        last', ok := FollowReorg(chain, last, check.block, calm, at, branch);
      }
    }

    /** With `last` on both chains it does not matter which one is followed. */
    lemma BackedCarriesOver(branch: Chain, chain: Chain, last: Block, stored: seq<Block>)
      requires FollowsWith(genBlockNumber, forceSyncChunk, stored, branch, last) && Agrees(chain, last)
      requires OneHistory(branch, chain) && genBlockNumber < |chain|
      ensures FollowsWith(genBlockNumber, forceSyncChunk, stored, chain, last)
      ensures InStepWith(genBlockNumber, forceSyncChunk, stored, chain, last)
         <==> InStepWith(genBlockNumber, forceSyncChunk, stored, branch, last)
      ensures Backed(branch, last.number) <==> Backed(chain, last.number)
      ensures Open(branch, last.number) <==> Open(chain, last.number)
    {
      hide Sound;
      hide Stored;
      hide Tables;
      hide ChainLeaves;
      hide InMemory;
      hide FollowsWith;
      hide InStepWith;
      hide Events;
      CarriesOver(genBlockNumber, forceSyncChunk, stored, branch, chain, last);
    }

    lemma NumbersBelow(branch: Chain, last: Block)
      requires Follows(branch, last)
      ensures forall j :: 0 <= j < |blocks| ==> blocks[j].number <= last.number
    {
    }

    /** One turn of the loop of `syncBlocks`, from the query to the new `last`. Before it storage follows `branch`;
        the query is answered by the chain `asked`, the headers of the second reorg check by `chain`. Once synced,
        blocks are stored only if the chain that was asked has the last block; else storage is reset, to a block
        of the chain that was checked. With one and the same chain nothing is reset. */
    method StoreWindow(asked: Chain, chain: Chain, last0: Block, ghost scanned: nat, fromBlock: nat, toBlock: nat,
                       head0: nat, calm: bool, ghost branch: Chain)
      returns (last: Block, ok: bool, head: nat, reset: bool, ghost upTo: nat, ghost at: int)
      requires Window(genBlockNumber, forceSyncChunk, branch, last0, synced, scanned, fromBlock)
      requires Suitable(branch) && Suitable(asked) && Suitable(chain) && OneHistory(branch, asked)
      requires OneHistory(branch, chain)
      requires SameNumbers(branch, asked) && (asked == branch || (synced && !forceSyncChunk))
      requires Follows(branch, last0) && Backed(branch, last0.number)
      requires fromBlock <= toBlock < |asked| && head0 < |chain| && (asked == branch ==> scanned <= toBlock)
      requires last0.number <= toBlock
      modifies `db, `blocks, tree
      ensures head0 <= head < |chain|
      ensures !reset ==>
        last0.number <= upTo <= toBlock && blocks == old(blocks) + Events(asked, last0.number + 1, upTo + 1)
      ensures !reset && Agrees(asked, last0) ==> Backed(asked, upTo)
      ensures !reset && !Agrees(asked, last0) ==> !ok && blocks == old(blocks) && Backed(branch, last0.number)
      ensures !reset && !old(Open(branch, last0.number)) ==> tree.View() == old(tree.View())
      ensures !reset && !old(Open(branch, last0.number)) && Agrees(asked, last0) ==>
        !Open(asked, upTo) && Total(D, genBlockNumber, asked, upTo) == Total(D, genBlockNumber, asked, last0.number)
      ensures ok && !reset ==> upTo == toBlock && Follows(asked, last) && last0.number <= last.number
      ensures ok && !reset ==> Window(genBlockNumber, forceSyncChunk, asked, last, synced, toBlock,
                                      if synced && !forceSyncChunk then last.number else toBlock + 1)
      ensures ok && reset ==>
        && blocks == KeepUpTo(old(blocks), last.number) && InMemory(tree.H, tree.height, tree.View())
        && Follows(chain, LastStored()) && Backed(chain, LastStored().number)
      ensures ok && reset ==>
        || (ReturnsTo(old(blocks), chain, at) && last == ReturnTo(genBlockNumber, old(blocks), at) == LastStored())
        || (|old(blocks)| < 2 && last == Block(0, 0, []) && blocks == [])
      ensures reset ==> synced && !Agrees(if forceSyncChunk then chain else asked, last0)
      ensures old(Open(branch, last0.number)) && ok && !reset ==> Open(asked, upTo)
      ensures calm && last0.number <= head0 && reset ==> ok
      ensures old(Ready(calm, branch, last0.number)) && last0.number <= head0 && !reset ==> ok
      ensures !ok && reset ==> blocks == old(blocks) && Backed(branch, last0.number)
      ensures asked == branch == chain ==> !reset
    {
      hide Events;
      hide Total;
      hide Backed;
      hide Open;
      hide FollowsWith;
      hide SuitableChain;
      hide TableHolds;
      hide Increasing;
      hide OneHistory;
      hide SameNumbers;
      hide InMemory;
      hide KeepUpTo;
      hide InStepWith;
      hide BehindWith;
      hide OnlyOffChainAbove;
      hide ReturnsTo;
      hide ReturnTo;
      RoundStarts(branch, last0);
      NumbersBelow(branch, last0);
      LongEnough(asked);
      last, head, upTo, reset, at := last0, head0, last0.number, false, -1;
      if Agrees(asked, last0) {
        BackedCarriesOver(branch, asked, last0, blocks);
        ReadyIs(calm, asked, last0.number);
        ReadyIs(calm, branch, last0.number);
      }
      EventsEmpty(asked, last.number + 1);
      var fails := *;
      var q, received, empty;
      ok, q, received, empty := QueryWindow(asked, last, scanned, fromBlock, toBlock, !calm && fails, branch);
      if !ok {
        ReadyIs(calm, branch, last0.number);
        return;
      }
      if synced {
        if empty {
          reset := true;
          last, ok, head, at := FollowEmptyAnswer(chain, last, head, calm, branch);
          return;
        }
        var check;
        check, head, at := CheckReorg(chain, last, received, head, calm);
        if check.CheckFailed? {
          ReadyIs(calm, branch, last0.number);
          return last, false, head, reset, upTo, at;
        }
        if check.Reorged? {
          reset := true;
          last, ok := FollowReorg(chain, last, check.block, calm, at, branch);
          return;
        }
      }
      ok, upTo := ProcessBlockRange(asked, q, calm, last, toBlock);
      if !ok {
        return;
      }
      fails := *;
      last, ok := Advance(asked, last, toBlock, q, !calm && fails, old(blocks));
      if ok {
        AboveGenesis(genBlockNumber, forceSyncChunk, blocks, asked, last);
      }
    }

    /** From `base` on the chain's event blocks after `first` and up to `upTo` were stored. */
    ghost predicate Added(base: seq<Block>, chain: Chain, first: nat, upTo: nat)
      reads `db, `blocks, tree
    {
      first <= upTo < |chain| && blocks == base + Events(chain, first + 1, upTo + 1) && Backed(chain, upTo)
    }

    /** The tree is the same as before, and would not take the next deposit; there was none on the way. */
    ghost predicate Untouched(before: Tree, chain: Chain, first: nat, upTo: nat)
      reads `db, `blocks, tree
    {
      && tree.View() == before && !Open(chain, upTo)
      && Total(D, genBlockNumber, chain, upTo) == Total(D, genBlockNumber, chain, first)
    }

    lemma NothingAdded(chain: Chain, first: nat)
      requires first < |chain| && Backed(chain, first)
      ensures Added(blocks, chain, first, first)
      ensures (!Open(chain, first) ==> Untouched(tree.View(), chain, first, first))
    {
      EventsEmpty(chain, first + 1);
      assert blocks + [] == blocks;
    }

    /** One window, seen from the start of the loop. */
    method NextWindow(chain: Chain, last0: Block, ghost first: nat, ghost base: seq<Block>, ghost before: Tree,
                      ghost open: bool,
                      ghost scanned: nat, fromBlock: nat, toBlock: nat, head0: nat, calm: bool)
      returns (last: Block, ok: bool, head: nat, ghost upTo: nat)
      requires Window(genBlockNumber, forceSyncChunk, chain, last0, synced, scanned, fromBlock)
      requires Suitable(chain) && Follows(chain, last0) && genBlockNumber <= first <= last0.number
      requires fromBlock <= toBlock < |chain| && scanned <= toBlock && head0 < |chain|
      requires Added(base, chain, first, scanned)
      requires if open then Open(chain, scanned) else Untouched(before, chain, first, scanned)
      modifies this`db, this`blocks, tree
      ensures head0 <= head < |chain| && scanned <= upTo <= toBlock
      ensures Added(base, chain, first, upTo) && (!open ==> Untouched(before, chain, first, upTo))
      ensures ok ==> upTo == toBlock && Follows(chain, last) && first <= last.number
      ensures ok ==> Window(genBlockNumber, forceSyncChunk, chain, last, synced, toBlock,
                            if synced && !forceSyncChunk then last.number else toBlock + 1)
      ensures open && ok ==> Open(chain, upTo)
      ensures open && calm && Acyclic(tree.H) && last0.number <= head0 ==> ok
    {
      hide Events;
      hide FollowsWith;
      hide Total;
      hide Suitable;
      hide Backed;
      hide Open;
      EventsEmpty(chain, last0.number + 1);
      BackedSame(chain, last0.number, scanned, last0.number);
      OneChain(chain);
      ReadyIs(calm, chain, last0.number);
      var reset;
      ghost var at;
      last, ok, head, reset, upTo, at :=
        StoreWindow(chain, chain, last0, scanned, fromBlock, toBlock, head0, calm, chain);
      WindowsJoin(chain, first, last0.number, scanned, upTo);
      if upTo < scanned {
        BackedSame(chain, last0.number, upTo, scanned);
        upTo := scanned;
      }
    }

    /** The loop of `syncBlocks`. It ends because every window but the last ends further on. Whatever is
        stored before `last0`, exactly the chain's event blocks after it are added, up to the head if
        nothing fails. A tree that would not take the next deposit takes none. */
    method SyncWindows(chain: Chain, last0: Block, known: nat, head0: nat, calm: bool)
      returns (last: Block, ok: bool, ghost upTo: nat)
      requires syncChunkSize > 0 || forceSyncChunk || !synced
      requires Suitable(chain) && Follows(chain, last0) && Backed(chain, last0.number)
      requires last0.number <= head0 && known <= head0 < |chain|
      modifies `synced, `db, `blocks, tree
      ensures Added(old(blocks), chain, last0.number, upTo)
      ensures !old(Open(chain, last0.number)) ==> Untouched(old(tree.View()), chain, last0.number, upTo)
      ensures ok ==> Follows(chain, last) && last.number <= upTo && Events(chain, last.number + 1, upTo + 1) == []
      ensures ok ==> synced && known <= upTo
      ensures old(Open(chain, last0.number)) && ok ==> Open(chain, upTo)
      ensures old(Ready(calm, chain, last0.number)) ==> ok
    {
      hide Events;
      hide FollowsWith;
      hide Anchored;
      hide Total;
      hide Suitable;
      hide Backed;
      hide Open;
      hide Added;
      hide Untouched;
      NothingAdded(chain, last0.number);
      AboveGenesis(genBlockNumber, forceSyncChunk, blocks, chain, last0);
      ReadyIs(calm, chain, last0.number);
      ghost var open := Open(chain, last0.number);
      last, upTo := last0, last0.number;
      EventsEmpty(chain, last.number + 1);
      var head, lastKnownBlock := head0, known;
      var fromBlock: nat := if synced && !forceSyncChunk then last.number else last.number + 1;
      var toBlock := fromBlock + syncChunkSize;
      while true
        invariant Window(genBlockNumber, forceSyncChunk, chain, last, synced, upTo, fromBlock)
        invariant Follows(chain, last) && genBlockNumber <= last0.number <= last.number
        invariant syncChunkSize > 0 || forceSyncChunk || !synced
        invariant upTo < toBlock && known <= lastKnownBlock <= head < |chain| && upTo <= head
        invariant Added(old(blocks), chain, last0.number, upTo)
        invariant if open then Open(chain, upTo) else Untouched(old(tree.View()), chain, last0.number, upTo)
        decreases |chain| - upTo
      {
        if toBlock > lastKnownBlock {
          var fails := *;
          if !calm && fails {
            return last, false, upTo;
          }
          var h :| head <= h < |chain|;
          head, lastKnownBlock := h, h;
          if toBlock > lastKnownBlock {
            toBlock := lastKnownBlock;
            if !synced {
              if !forceSyncChunk {
                fromBlock := last.number;
              }
              synced := true;
            }
          }
        }
        if fromBlock > toBlock {
          return last, true, upTo;
        }
        last, ok, head, upTo := NextWindow(chain, last, last0.number, old(blocks), old(tree.View()), open, upTo,
                                           fromBlock, toBlock, head, calm);
        if !ok {
          return;
        }
        if lastKnownBlock <= toBlock {
          synced := true;
          break;
        } else if !synced || forceSyncChunk {
          fromBlock := toBlock + 1;
          toBlock := fromBlock + syncChunkSize;
        } else {
          fromBlock := last.number;
          toBlock := toBlock + syncChunkSize;
        }
      }
      ok := true;
    }

    /** After windows that stored something, storage follows the chain at its own last block. */
    lemma AfterWindows(base: seq<Block>, chain: Chain, first: Block, upTo: nat)
      requires FollowsWith(genBlockNumber, forceSyncChunk, base, chain, first) && first.number <= upTo < |chain|
      requires blocks == base + Events(chain, first.number + 1, upTo + 1) && blocks != base
      requires Backed(chain, upTo)
      ensures Follows(chain, LastStored()) && Backed(chain, LastStored().number)
      ensures InStep(chain, LastStored()) <==> InStepWith(genBlockNumber, forceSyncChunk, base, chain, first)
    {
      hide Events;
      hide Backed;
      hide Open;
      hide Total;
      var q := Events(chain, first.number + 1, upTo + 1);
      FollowsStoring(genBlockNumber, forceSyncChunk, base, chain, first, upTo);
      assert q != [];
      assert (base + q)[|base| + |q| - 1] == q[|q| - 1];
      EventsEmpty(chain, LastStored().number + 1);
      BackedSame(chain, LastStored().number, upTo, LastStored().number);
      StepsStoring(genBlockNumber, forceSyncChunk, base, chain, first, upTo, LastStored());
    }

    /** The windows after a reorg check that found none. */
    method GoOn(chain: Chain, last0: Block, known: nat, head: nat, calm: bool, ghost branch: Chain)
      returns (last: Block, ok: bool, ghost upTo: nat)
      requires syncChunkSize > 0 || forceSyncChunk || !synced
      requires known <= head < |chain| && last0.number <= head
      requires Suitable(branch) && Suitable(chain) && OneHistory(branch, chain)
      requires Follows(branch, last0) && Backed(branch, last0.number) && Agrees(chain, last0)
      modifies `synced, `db, `blocks, tree
      ensures last0.number <= upTo < |chain| && blocks == old(blocks) + Events(chain, last0.number + 1, upTo + 1)
      ensures ok ==> synced && known <= upTo && Follows(chain, last) && Backed(chain, last.number)
      ensures ok ==> (InStep(chain, last) <==> old(InStep(branch, last0)))
      ensures old(InStep(branch, last0)) ==> blocks == Events(chain, genBlockNumber + 1, upTo + 1)
      ensures !old(Open(branch, last0.number)) ==>
        && tree.View() == old(tree.View())
        && Total(D, genBlockNumber, chain, upTo) == Total(D, genBlockNumber, chain, last0.number)
      ensures !ok && blocks == old(blocks) ==> Follows(branch, LastStored()) && Backed(branch, LastStored().number)
      ensures !ok && blocks != old(blocks) ==>
        && Follows(chain, LastStored()) && Backed(chain, LastStored().number)
        && (InStep(chain, LastStored()) <==> old(InStep(branch, last0)))
      ensures old(Open(branch, last0.number)) && ok ==> Open(chain, last.number)
      ensures old(Ready(calm, branch, last0.number)) ==> ok
    {
      hide Events;
      hide Total;
      hide FollowsWith;
      hide Backed;
      hide Open;
      hide Suitable;
      hide OneHistory;
      hide Anchored;
      LongEnough(chain);
      BackedCarriesOver(branch, chain, last0, blocks);
      AboveGenesis(genBlockNumber, forceSyncChunk, blocks, chain, last0);
      ReadyIs(calm, branch, last0.number);
      ReadyIs(calm, chain, last0.number);
      last, ok, upTo := SyncWindows(chain, last0, known, head, calm);
      GapsStay(genBlockNumber, old(blocks), chain, last0.number, upTo);
      if ok {
        AboveGenesis(genBlockNumber, forceSyncChunk, blocks, chain, last);
        EventsEmpty(chain, last.number + 1);
        BackedSame(chain, last.number, upTo, last.number);
        StepsStoring(genBlockNumber, forceSyncChunk, old(blocks), chain, last0, upTo, last);
      } else if blocks == old(blocks) {
        assert Events(chain, last0.number + 1, upTo + 1) == [];
        EventsEmpty(chain, last0.number + 1);
        BackedSame(chain, last0.number, upTo, last0.number);
        BackedCarriesOver(branch, chain, last0, blocks);
        BackedAtNewest(branch, last0);
      } else {
        AfterWindows(old(blocks), chain, last0, upTo);
      }
    }

    /** `syncBlocks`. `chain` is what the node has by the end of the call: the head it reports grows
        during the call, but no block is replaced. Before the call storage follows `branch`, which the
        chain may have left. Every remote or storage call may fail. */
    method SyncBlocks(chain: Chain, lastBlockSynced: Block, lastKnownBlock: nat, calm: bool, ghost branch: Chain)
      returns (last: Block, ok: bool, ghost reset: bool, ghost upTo: nat, ghost at: int)
      requires syncChunkSize > 0 || forceSyncChunk || !synced
      requires lastKnownBlock < |chain|
      requires Suitable(branch) && Suitable(chain) && OneHistory(branch, chain)
      requires Follows(branch, lastBlockSynced) && Backed(branch, lastBlockSynced.number)
      modifies `synced, `db, `blocks, tree
      ensures ok ==> Follows(chain, last) && Backed(chain, last.number)
      ensures ok ==> (reset <==> !Agrees(chain, lastBlockSynced))
      ensures ok && !reset ==>
        && synced && lastKnownBlock <= upTo < |chain| && lastBlockSynced.number <= upTo
        && blocks == old(blocks) + Events(chain, lastBlockSynced.number + 1, upTo + 1)
        && (InStep(chain, last) <==> old(InStep(branch, lastBlockSynced)))
      ensures ok && !reset && old(InStep(branch, lastBlockSynced)) ==>
        blocks == Events(chain, genBlockNumber + 1, upTo + 1)
      ensures ok && !reset && !old(Open(branch, lastBlockSynced.number)) ==>
        && tree.View() == old(tree.View())
        && Total(D, genBlockNumber, chain, upTo) == Total(D, genBlockNumber, chain, lastBlockSynced.number)
      ensures ok && reset ==>
        && blocks == KeepUpTo(old(blocks), last.number) && last == LastStored()
        && InMemory(tree.H, tree.height, tree.View())
        && (old(InStep(branch, LastStored())) ==> InStep(chain, last))
      ensures ok && reset ==>
        ReturnsTo(old(blocks), chain, at) && last == ReturnTo(genBlockNumber, old(blocks), at)
      ensures ok && reset ==>
        && (OnlyOffChainAbove(old(blocks), chain, last.number)
            <==> old(blocks) == [] || !OnChain(chain, old(blocks)[|old(blocks)| - 1]))
        && (old(InStep(branch, lastBlockSynced)) && !forceSyncChunk ==>
              OnlyOffChainAbove(old(blocks), chain, last.number))
      ensures ok && old(Behind(branch, lastBlockSynced)) ==> (InStep(chain, last) <==> !OnChain(chain, lastBlockSynced))
      ensures !ok ==> var now := if blocks == old(blocks) then branch else chain;
        && Follows(now, LastStored()) && Backed(now, LastStored().number)
        && (old(InStep(branch, lastBlockSynced)) ==> InStep(now, LastStored()))
      ensures !ok && blocks != old(blocks) ==>
        && (InStep(chain, LastStored()) <==> old(InStep(branch, lastBlockSynced)))
        && lastBlockSynced.number <= upTo < |chain|
        && blocks == old(blocks) + Events(chain, lastBlockSynced.number + 1, upTo + 1)
      ensures old(Open(branch, lastBlockSynced.number)) && ok && !reset ==> Open(chain, last.number)
      ensures calm && lastBlockSynced.number <= lastKnownBlock && !Agrees(chain, lastBlockSynced) ==> ok
      ensures old(Ready(calm, branch, lastBlockSynced.number)) && lastBlockSynced.number <= lastKnownBlock ==> ok
    {
      hide OnlyOffChainAbove;
      hide Events;
      hide Total;
      hide FollowsWith;
      hide InStepWith;
      hide BehindWith;
      hide Backed;
      hide Open;
      hide Suitable;
      hide OneHistory;
      hide TableHolds;
      hide Increasing;
      hide InMemory;
      hide KeepUpTo;
      hide ReturnsTo;
      hide ReturnTo;
      last, reset, upTo, at := lastBlockSynced, false, 0, -1;
      RoundStarts(branch, last);
      NumbersBelow(branch, last);
      ReadyIs(calm, branch, last.number);
      var fails := *;
      if !calm && fails {
        return last, false, reset, upTo, at;
      }
      var check, head;
      check, head, at := CheckReorg(chain, last, NotReceived, lastKnownBlock, calm);
      if check.CheckFailed? {
        return last, false, reset, upTo, at;
      }
      if check.Reorged? {
        reset := true;
        last, ok := FollowReorg(chain, last, check.block, calm, at, branch);
        if !ok {
          BackedAtNewest(branch, lastBlockSynced);
        }
        return last, ok, reset, upTo, at;
      }
      last, ok, upTo := GoOn(chain, last, lastKnownBlock, head, calm, branch);
    }

    /** The cut after a lagging head. */
    method FollowHead(head: nat, last: Block, calm: bool, ghost chain: Chain) returns (cut: bool)
      requires Suitable(chain) && Follows(chain, last) && Backed(chain, last.number)
      requires last == LastStored() && head < last.number
      modifies this`db, this`blocks, tree
      ensures blocks == if cut then KeepUpTo(old(blocks), head) else old(blocks)
      ensures (cut ==> InMemory(tree.H, tree.height, tree.View())) && (calm ==> cut)
      ensures Follows(chain, last) && Backed(chain, last.number)
      ensures old(InStep(chain, last)) ==> InStep(chain, last) || (cut && Behind(chain, last))
    {
      hide Events;
      hide CountUpTo;
      hide Total;
      hide Tables;
      hide InMemory;
      if InStep(chain, last) {
        LaggingHead(genBlockNumber, forceSyncChunk, blocks, chain, last, head);
      }
      FollowsAfterCut(genBlockNumber, forceSyncChunk, blocks, chain, last, head);
      cut := ResetState(head, calm, chain, last);
    }

    lemma BackedReads(chain: Chain, last: Block)
      requires Follows(chain, last) && Backed(chain, last.number)
      ensures TableHolds(db, tree.networkID, blocks) && Increasing(blocks)
    {
    }

    /** In step, a tree that agrees with the tables would take the next deposit. */
    lemma InStepIsOpen(chain: Chain, last: Block)
      requires Stands() && InStep(chain, last) && InMemory(tree.H, tree.height, tree.View())
      ensures Open(chain, last.number)
    {
      hide ChainLeaves;
      hide Events;
    }

    lemma OpenIsInMemory(chain: Chain, n: nat)
      requires Open(chain, n)
      ensures InMemory(tree.H, tree.height, tree.View())
    {
    }

    lemma BackedStands(chain: Chain, n: nat)
      requires Backed(chain, n)
      ensures Stands()
    {
    }

    /** The last block in storage, or the genesis block where there is none. */
    method ReadLast() returns (last: Block)
      requires TableHolds(db, tree.networkID, blocks) && Increasing(blocks)
      ensures last == LastStored()
    {
      var found, b := ReadBlock(0);
      last := if found then b else Genesis();
    }

    /** The call of `syncBlocks`, as a round. */
    method SyncOnce(r: Round, last0: Block, calm: bool, ghost branch: Chain, ghost m: Moment)
      returns (last: Block, ok: bool, ghost m': Moment)
      requires syncChunkSize > 0 || forceSyncChunk || !synced
      requires Suitable(branch) && Suitable(r.chain) && OneHistory(branch, r.chain) && r.head < |r.chain|
      requires Follows(branch, last0) && Backed(branch, last0.number)
      requires m.chain == branch && m.last == last0 && m.blocks == blocks
      modifies `synced, `db, `blocks, tree
      ensures m'.blocks == blocks && m'.last == (if ok then last else LastStored()) && m'.ok == ok
      ensures Follows(m'.chain, m'.last) && Backed(m'.chain, m'.last.number)
      ensures !m'.lagged && IsRound(genBlockNumber, forceSyncChunk, m, r, m')
      ensures ok && !synced ==> last == LastStored() && !Agrees(r.chain, last0)
      ensures calm && Acyclic(tree.H) && old(InStep(branch, last0) && InMemory(tree.H, tree.height, tree.View()))
              && last0.number <= r.head ==>
        ok && InMemory(tree.H, tree.height, tree.View())
    {
      hide OnlyOffChainAbove;
      hide Events;
      hide Total;
      hide FollowsWith;
      hide Backed;
      hide Open;
      hide SuitableChain;
      hide OneHistory;
      hide InMemory;
      hide KeepUpTo;
      hide InStepWith;
      hide BehindWith;
      hide Steps;
      hide OnChain;
      hide TableHolds;
      hide Increasing;
      hide ReturnsTo;
      hide ReturnTo;
      var chain := r.chain;
      RoundStarts(branch, last0);
      LongEnough(chain);
      BackedStands(branch, last0.number);
      if InStep(branch, last0) && InMemory(tree.H, tree.height, tree.View()) {
        InStepIsOpen(branch, last0);
      }
      ReadyIs(calm, branch, last0.number);
      ghost var reset, upTo, at;
      last, ok, reset, upTo, at := SyncBlocks(chain, last0, r.head, calm, branch);
      if ok && Open(chain, last.number) {
        OpenIsInMemory(chain, last.number);
      }
      ghost var grew := !ok && blocks != old(blocks);
      ghost var now := if ok || grew then chain else branch;
      m' := Moment(now, if ok then last else LastStored(), blocks, ok, grew, false, blocks, upTo, at);
      RoundEnds(genBlockNumber, forceSyncChunk, m, chain, m');
    }

    /** The call of `syncBlocks` and, if it fails, the last block read from storage again. */
    method SyncAndReread(r: Round, last0: Block, calm: bool, ghost branch: Chain, ghost m: Moment)
      returns (last: Block, stopped: bool, ghost m': Moment)
      requires syncChunkSize > 0 || forceSyncChunk || !synced
      requires Suitable(branch) && Suitable(r.chain) && OneHistory(branch, r.chain) && r.head < |r.chain|
      requires Follows(branch, last0) && Backed(branch, last0.number)
      requires m.chain == branch && m.last == last0 && m.blocks == blocks
      modifies `synced, `db, `blocks, tree
      ensures m'.blocks == blocks && (!stopped ==> m'.last == last) && (calm ==> !stopped)
      ensures Follows(m'.chain, m'.last) && Backed(m'.chain, m'.last.number)
      ensures !m'.lagged && IsRound(genBlockNumber, forceSyncChunk, m, r, m')
      ensures !stopped && !synced ==> last == LastStored() && (m'.ok ==> !Agrees(r.chain, last0))
      ensures calm && Acyclic(tree.H) && old(InStep(branch, last0) && InMemory(tree.H, tree.height, tree.View()))
              && last0.number <= r.head ==>
        m'.ok && InMemory(tree.H, tree.height, tree.View())
    {
      hide *;
      var ok;
      last, ok, m' := SyncOnce(r, last0, calm, branch, m);
      stopped := false;
      if !ok {
        BackedReads(m'.chain, LastStored());
        var fails := *;
        stopped := !calm && fails;
        if !stopped {
          last := ReadLast();
        }
      }
    }

    /** One turn of the loop of `Sync`. If the last block cannot be read, or the head of layer 1 lags, the
        loop ends. A layer-2 synchronizer that is not synced cuts storage to a lagging head. */
    method SyncRound(r: Round, last0: Block, calm: bool, ghost branch: Chain, ghost m: Moment)
      returns (last: Block, stopped: bool, ghost m': Moment)
      requires syncChunkSize > 0 || forceSyncChunk || !synced
      requires Suitable(branch) && Suitable(r.chain) && OneHistory(branch, r.chain) && r.head < |r.chain|
      requires Follows(branch, last0) && Backed(branch, last0.number)
      requires m.chain == branch && m.last == last0 && m.blocks == blocks
      modifies `synced, `db, `blocks, tree
      ensures m'.blocks == blocks && (!stopped ==> m'.last == last)
      ensures Follows(m'.chain, m'.last) && Backed(m'.chain, m'.last.number)
      ensures IsRound(genBlockNumber, forceSyncChunk, m, r, m')
      ensures m'.lagged ==> !synced && tree.networkID != 0
      ensures !stopped && !synced && r.reported.Head? && r.reported.number < m'.last.number ==>
        tree.networkID != 0 && (calm ==> m'.lagged)
      ensures calm && stopped ==>
        tree.networkID == 0 && !synced && r.reported.Head? && r.reported.number < m'.last.number
      ensures calm && Acyclic(tree.H) && old(InStep(branch, last0) && InMemory(tree.H, tree.height, tree.View()))
              && last0.number <= r.head && (r.reported.Head? ==> r.reported.number == |r.chain| - 1) ==>
        m'.ok && !stopped && !m'.lagged && InMemory(tree.H, tree.height, tree.View())
    {
      hide Events;
      hide Total;
      hide FollowsWith;
      hide Backed;
      hide Open;
      hide SuitableChain;
      hide OneHistory;
      hide InStepWith;
      hide BehindWith;
      hide KeepUpTo;
      hide InMemory;
      hide ReturnsTo;
      LongEnough(r.chain);
      last, stopped, m' := SyncAndReread(r, last0, calm, branch, m);
      AboveGenesis(genBlockNumber, forceSyncChunk, blocks, m'.chain, m'.last);
      if !stopped && !synced && r.reported.Head? {
        var lastKnownBlock := r.reported.number;
        if last.number == lastKnownBlock {
          synced := true;
        }
        if last.number > lastKnownBlock {
          if tree.networkID == 0 {
            return last, true, m';
          }
          var cut := FollowHead(lastKnownBlock, last, calm, m'.chain);
          m' := m'.(blocks := blocks, lagged := cut);
        }
      }
    }

    /** Other networks change the tables. */
    method Meanwhile(f: DB -> DB, ghost chain: Chain, ghost n: nat)
      requires Backed(chain, n) && Harmless(tree.H, tree.networkID, others, f)
      modifies `db
      ensures Backed(chain, n) && db == f(old(db))
    {
      hide Linked;
      hide Stored;
      hide Total;
      hide Sound;
      hide OwnRowsKept;
      OwnRowsAreEnough(D, tree.H, tree.height, tree.networkID, db, f(db), tree.View(), blocks);
      db := f(db);
    }

    lemma TwoSuitable(all: seq<Chain>, c: Chain, d: Chain)
      requires SuitableChains(D, genBlockNumber, others, all) && c in all && d in all
      ensures Suitable(c) && Suitable(d) && OneHistory(c, d)
    {
      hide SuitableChain;
      hide OneHistory;
    }

    /** All event blocks of the chain are stored. */
    ghost predicate HasAll(chain: Chain)
      reads `blocks
    {
      blocks == Events(chain, genBlockNumber + 1, |chain|)
    }

    /** The chain stays, no call fails, and there is a round to reset and one to store, or the last block is on the
        chain. */
    ghost predicate Quiet(calm: bool, rounds: seq<Round>, branch: Chain)
      reads `db, `blocks, tree
    {
      && calm && Acyclic(tree.H) && rounds != [] && Steady(rounds, rounds[0].chain)
      && InStep(branch, LastStored()) && InMemory(tree.H, tree.height, tree.View())
      && LastStored().number < |rounds[0].chain|
      && (|rounds| >= 2 || Agrees(rounds[0].chain, LastStored()))
    }

    lemma StartIs(chain: Chain, last: Block, stored: seq<Block>)
      ensures var m := StartAt(chain, last, stored); m.chain == chain && m.last == last && m.blocks == stored
    {
    }

    lemma QuietStarts(calm: bool, rounds: seq<Round>, branch: Chain, m: Moment)
      requires m.last == LastStored()
      ensures Quiet(calm, rounds, branch) ==>
        && calm && Acyclic(tree.H) && rounds != [] && Steady(rounds, rounds[0].chain)
        && InStep(branch, m.last) && InMemory(tree.H, tree.height, tree.View())
        && m.last.number < |rounds[0].chain|
        && (|rounds| >= 2 || Agrees(rounds[0].chain, LastStored()))
    {
    }

    lemma InStepIs(chain: Chain, last: Block)
      ensures InStep(chain, last) <==> InStepWith(genBlockNumber, forceSyncChunk, blocks, chain, last)
    {
    }

    lemma SteadyIs(rounds: seq<Round>, chain: Chain, k: nat)
      requires k < |rounds|
      ensures Steady(rounds, chain) ==>
        && rounds[k].chain == chain && rounds[k].head == |chain| - 1
        && (rounds[k].reported.Head? ==> rounds[k].reported.number == |chain| - 1)
    {
    }

    lemma ChainOfRound(rounds: seq<Round>, branch: Chain, k: nat)
      requires k < |rounds|
      ensures rounds[k].chain in [branch] + ChainsOf(rounds)
    {
      assert ([branch] + ChainsOf(rounds))[k + 1] == rounds[k].chain;
    }

    lemma QuietRound(m: Moment, r: Round, m': Moment)
      requires IsRound(genBlockNumber, forceSyncChunk, m, r, m') && m'.blocks == blocks && m'.ok && !m'.lagged
      requires InStepWith(genBlockNumber, forceSyncChunk, m.blocks, m.chain, m.last) && r.head == |r.chain| - 1
      ensures InStep(m'.chain, m'.last) && m'.chain == r.chain && m'.last.number < |r.chain|
      ensures Agrees(r.chain, m.last) || m.chain == r.chain ==> HasAll(r.chain)
    {
      SteadyRound(genBlockNumber, forceSyncChunk, m, r, m');
    }

    /** `Sync`, one call a round from the last block in storage; `rounds[k]` is what round `k` meets, with chains that
        are related by nothing but common hashes, and `meanwhile[k]` what other networks store before it. If no call
        fails and the chain stays, all its event blocks are stored in the end. */
    method Sync(rounds: seq<Round>, meanwhile: seq<DB -> DB>, calm: bool, ghost branch: Chain)
      returns (last: Block, stopped: bool, ghost trace: seq<Moment>)
      requires syncChunkSize > 0 || forceSyncChunk
      requires SuitableChains(D, genBlockNumber, others, [branch] + ChainsOf(rounds)) && |meanwhile| == |rounds|
      requires forall k :: 0 <= k < |rounds| ==> rounds[k].head < |rounds[k].chain|
      requires Follows(branch, LastStored()) && Backed(branch, LastStored().number)
      requires forall k :: 0 <= k < |rounds| ==> Harmless(tree.H, tree.networkID, others, meanwhile[k])
      modifies `synced, `db, `blocks, tree
      ensures IsTrace(genBlockNumber, forceSyncChunk, trace, rounds) && (!stopped ==> |trace| == |rounds| + 1)
      ensures trace[0] == StartAt(branch, old(LastStored()), old(blocks))
      ensures var m := trace[|trace| - 1];
        && m.blocks == blocks && (!stopped ==> m.last == last)
        && Follows(m.chain, m.last) && Backed(m.chain, m.last.number)
      ensures old(Quiet(calm, rounds, branch)) ==>
        && !stopped && HasAll(rounds[0].chain) && trace[|trace| - 1].chain == rounds[0].chain
        && InStep(rounds[0].chain, last)
    {
      hide *;
      ghost var all := [branch] + ChainsOf(rounds);
      assert all[0] == branch;
      ghost var m := StartAt(branch, LastStored(), blocks);
      StartIs(branch, LastStored(), blocks);
      trace := [m];
      TraceStarts(genBlockNumber, forceSyncChunk, m, rounds);
      BackedReads(branch, LastStored());
      ghost var quiet := Quiet(calm, rounds, branch);
      QuietStarts(calm, rounds, branch, m);
      ghost var chain := if rounds == [] then branch else rounds[0].chain;
      ghost var agreed := Agrees(chain, LastStored());
      var fails := *;
      stopped := !calm && fails;
      last := Genesis();
      if !stopped {
        last := ReadLast();
      }
      for k := 0 to |rounds|
        invariant 1 <= |trace| <= k + 1 && (!stopped ==> |trace| == k + 1 && m.last == last)
        invariant m == trace[|trace| - 1] && m.blocks == blocks
        invariant trace[0] == StartAt(branch, old(LastStored()), old(blocks))
        invariant Follows(m.chain, m.last) && Backed(m.chain, m.last.number)
        invariant m.chain in all && IsTrace(genBlockNumber, forceSyncChunk, trace, rounds)
        invariant quiet ==> !stopped && InStep(m.chain, m.last) && InMemory(tree.H, tree.height, tree.View())
        invariant quiet ==> m.last.number < |chain| && (k >= 1 ==> m.chain == chain)
        invariant quiet && (k >= 2 || (k >= 1 && agreed)) ==> HasAll(chain)
        invariant quiet && k == 0 ==> m.last == old(LastStored())
      {
        if stopped {
          break;
        }
        ChainOfRound(rounds, branch, k);
        TwoSuitable(all, m.chain, rounds[k].chain);
        Meanwhile(meanwhile[k], m.chain, m.last.number);
        SteadyIs(rounds, chain, k);
        InStepIs(m.chain, m.last);
        ghost var m';
        last, stopped, m' := SyncRound(rounds[k], last, calm, m.chain, m);
        RoundChain(genBlockNumber, forceSyncChunk, m, rounds[k], m');
        TraceGrows(genBlockNumber, forceSyncChunk, trace, rounds, m');
        if quiet {
          QuietRound(m, rounds[k], m');
        }
        trace, m := trace + [m'], m';
      }
    }
  }

  /** The tree that some stored blocks should have; only its leaves and ids matter here. */
  ghost function TreeOf(D: DepositsIn, blocks: seq<Block>, ids: seq<nat>): Tree {
    Tree(ChainLeaves(D, blocks), ids, 0, [])
  }

  /** The tables between two lives of the service. */
  ghost predicate Saved(D: DepositsIn, H: PairHash, height: nat, network: nat, others: iset<nat>, db: DB,
                        blocks: seq<Block>, ids: seq<nat>) {
    Tables(D, H, height, network, db, TreeOf(D, blocks, ids), blocks) && HashesApart(network, others, db)
  }

  /** What a run guarantees about the tables where it ends. */
  ghost predicate Good(D: DepositsIn, H: PairHash, height: nat, network: nat, gen: nat, force: bool, db: DB,
                       m: Moment) {
    && MomentFollows(gen, force, m) && RowsOnChain(db, network, m.chain)
    && (MomentInStep(gen, force, m) ==>
          RootsAre(H, height, network, db, ChainLeaves(D, Events(m.chain, gen + 1, m.last.number + 1))))
  }

  lemma SavedIsGood(D: DepositsIn, H: PairHash, height: nat, network: nat, others: iset<nat>, gen: nat, force: bool,
                    db: DB, blocks: seq<Block>, ids: seq<nat>, m: Moment)
    requires Saved(D, H, height, network, others, db, blocks, ids) && m.blocks == blocks && MomentFollows(gen, force, m)
    ensures Good(D, H, height, network, gen, force, db, m)
  {
    hide Tables;
    hide FollowsWith;
    hide InStepWith;
    hide RootsAre;
    hide RowsOnChain;
    hide Events;
    TreeFollowsChain(D, H, height, network, db, TreeOf(D, blocks, ids), gen, force, blocks, m.chain, m.last);
  }

  /** The tables tell the truth about one of the chains: the block rows are some of its event blocks, and the
      roots are those of the deposits in these blocks. */
  ghost predicate Truthful(D: DepositsIn, H: PairHash, height: nat, network: nat, gen: nat, db: DB, chains: seq<Chain>)
  {
    exists chain: Chain, blocks: seq<Block> ::
      && chain in chains && TableHolds(db, network, blocks) && Increasing(blocks)
      && (forall k :: 0 <= k < |blocks| ==> IsEvent(chain, blocks[k]) && blocks[k].number > gen)
      && RootsAre(H, height, network, db, ChainLeaves(D, blocks))
  }

  lemma SavedIsTruthful(D: DepositsIn, H: PairHash, height: nat, network: nat, others: iset<nat>, gen: nat, force: bool,
                        db: DB, blocks: seq<Block>, ids: seq<nat>, m: Moment, chains: seq<Chain>)
    requires Saved(D, H, height, network, others, db, blocks, ids) && m.blocks == blocks && MomentFollows(gen, force, m)
    requires m.chain in chains
    ensures Truthful(D, H, height, network, gen, db, chains)
  {
    hide RootsAre;
    hide TableHolds;
    hide ChainLeaves;
    StoredRootsAre(H, height, network, db, ChainLeaves(D, blocks), ids);
  }

  /** A tree read back is backed, even if its count could not be queried. */
  lemma RereadIsHeld(D: DepositsIn, H: PairHash, height: nat, network: nat, db: DB, t: Tree, failed: bool, total: nat)
    requires Sound(H, db) && Stored(H, height, network, db, t.leaves, t.ids)
    requires t.count == (if failed then 1 else |t.leaves|) && (failed ==> t.leaves != [])
    requires Mirrors(H, height, network, db, t) <==> !failed || |t.leaves| == 1
    ensures Held(H, height, t, total)
  {
    hide Sound;
    hide Stored;
    hide InMemory;
  }

  lemma LeavesInRange(D: DepositsIn, gen: nat, force: bool, others: iset<nat>, blocks: seq<Block>, chain: Chain)
    requires FollowsWith(gen, force, blocks, chain, Newest(gen, blocks)) && SuitableChain(D, gen, others, chain)
    ensures |ChainLeaves(D, blocks)| < COUNT_LIMIT
  {
    hide ChainLeaves;
    hide Total;
    PartLeaves(D, gen, chain, Newest(gen, blocks).number, blocks);
  }

  lemma TreeDoesNotMatter(D: DepositsIn, H: PairHash, height: nat, network: nat, db: DB, t: Tree, u: Tree,
                          blocks: seq<Block>)
    requires t.leaves == u.leaves && t.ids == u.ids
    ensures Tables(D, H, height, network, db, t, blocks) <==> Tables(D, H, height, network, db, u, blocks)
  {
  }

  lemma TreeIsOf(D: DepositsIn, H: PairHash, height: nat, network: nat, db: DB, t: Tree, blocks: seq<Block>)
    requires Tables(D, H, height, network, db, t, blocks)
    ensures t.leaves == ChainLeaves(D, blocks)
  {
  }

  /** What one life of the service meets: its rounds, whether calls may fail in them, and whether the query for the
      count of the tree fails at the start. */
  datatype Life = Life(rounds: seq<Round>, calm: bool, queryFails: bool)

  /** Nothing fails, the chain stays, and there are rounds enough: one to store its blocks, and one before to reset
      storage if that is on a branch the chain has left. */
  ghost predicate Undisturbed(gen: nat, life: Life, last: Block) {
    && life.calm && !life.queryFails && life.rounds != []
    && var chain := life.rounds[0].chain;
       && Steady(life.rounds, chain) && last.number < |chain|
       && (|life.rounds| >= 2 || AgreesWith(gen, chain, last))
  }

  /** The tables hold exactly the event blocks of the chain above the genesis number, and the roots of all its
      deposits. */
  ghost predicate Complete(D: DepositsIn, H: PairHash, height: nat, network: nat, gen: nat, db: DB, chain: Chain) {
    && TableHolds(db, network, Events(chain, gen + 1, |chain|))
    && RootsAre(H, height, network, db, ChainLeaves(D, Events(chain, gen + 1, |chain|)))
  }

  lemma SavedIsComplete(D: DepositsIn, H: PairHash, height: nat, network: nat, others: iset<nat>, gen: nat, db: DB,
                        ids: seq<nat>, chain: Chain)
    requires Saved(D, H, height, network, others, db, Events(chain, gen + 1, |chain|), ids)
    ensures Complete(D, H, height, network, gen, db, chain)
  {
    hide RootsAre;
    hide TableHolds;
    hide ChainLeaves;
    hide Events;
    StoredRootsAre(H, height, network, db, ChainLeaves(D, Events(chain, gen + 1, |chain|)), ids);
  }

  lemma TraceLength(gen: nat, force: bool, trace: seq<Moment>, rounds: seq<Round>)
    requires IsTrace(gen, force, trace, rounds)
    ensures 1 <= |trace| <= |rounds| + 1
  {
  }

  lemma EndInAll(gen: nat, force: bool, trace: seq<Moment>, rounds: seq<Round>, branch: Chain)
    requires IsTrace(gen, force, trace, rounds) && trace[0].chain == branch
    ensures trace[|trace| - 1].chain in [branch] + ChainsOf(rounds)
  {
    hide IsTrace;
    TraceLength(gen, force, trace, rounds);
    TraceChains(gen, force, trace, rounds, |trace| - 1);
    var end, all := trace[|trace| - 1].chain, [branch] + ChainsOf(rounds);
    if end == branch {
      assert all[0] == end;
    } else {
      var k :| 0 <= k < |rounds| && end == rounds[k].chain;
      assert all[k + 1] == end;
    }
  }

  /** One life of the service: the tree read from the tables, then `Sync`. Undisturbed it ends with all event blocks of
      the chain stored. */
  method Serve(H: PairHash, height: nat, networkID: nat, genBlockNumber: nat, syncChunkSize: nat, forceSyncChunk: bool,
               D: DepositsIn, db: DB, life: Life, meanwhile: seq<DB -> DB>,
               ghost others: iset<nat>, ghost blocks: seq<Block>, ghost ids: seq<nat>, ghost branch: Chain)
    returns (started: bool, db': DB, ghost blocks': seq<Block>, ghost ids': seq<nat>, ghost trace: seq<Moment>)
    requires Injective(H) && 1 <= height <= MAX_HEIGHT && (syncChunkSize > 0 || forceSyncChunk)
    requires SuitableChains(D, genBlockNumber, others, [branch] + ChainsOf(life.rounds))
    requires forall k :: 0 <= k < |life.rounds| ==> life.rounds[k].head < |life.rounds[k].chain|
    requires |meanwhile| == |life.rounds|
    requires forall k :: 0 <= k < |meanwhile| ==> Harmless(H, networkID, others, meanwhile[k])
    requires Saved(D, H, height, networkID, others, db, blocks, ids)
    requires FollowsWith(genBlockNumber, forceSyncChunk, blocks, branch, Newest(genBlockNumber, blocks))
    ensures started <==> !life.queryFails || ChainLeaves(D, blocks) != []
    ensures !started ==> db' == db
    ensures IsTrace(genBlockNumber, forceSyncChunk, trace, life.rounds)
    ensures trace[0] == StartAt(branch, Newest(genBlockNumber, blocks), blocks)
    ensures Saved(D, H, height, networkID, others, db', blocks', ids') && trace[|trace| - 1].blocks == blocks'
    ensures Good(D, H, height, networkID, genBlockNumber, forceSyncChunk, db', trace[|trace| - 1])
    ensures Truthful(D, H, height, networkID, genBlockNumber, db', [branch] + ChainsOf(life.rounds))
    ensures Acyclic(H) && Undisturbed(genBlockNumber, life, Newest(genBlockNumber, blocks))
            && InStepWith(genBlockNumber, forceSyncChunk, blocks, branch, Newest(genBlockNumber, blocks)) ==>
      Complete(D, H, height, networkID, genBlockNumber, db', life.rounds[0].chain)
  {
    hide FollowsWith;
    hide InStepWith;
    hide Sound;
    hide Stored;
    hide Linked;
    hide Harmless;
    hide Truthful;
    hide Good;
    hide Complete;
    hide Total;
    hide Held;
    hide ChainLeaves;
    hide Events;
    hide SuitableChain;
    hide IsTrace;
    hide InMemory;
    hide Next;
    ghost var all := [branch] + ChainsOf(life.rounds);
    db', blocks', ids' := db, blocks, ids;
    ghost var start := StartAt(branch, Newest(genBlockNumber, blocks), blocks);
    trace := [start];
    TraceStarts(genBlockNumber, forceSyncChunk, start, life.rounds);
    assert all[0] == branch;
    LeavesInRange(D, genBlockNumber, forceSyncChunk, others, blocks, branch);
    var tree;
    started, tree := RestartTree(db, H, height, networkID, life.queryFails, TreeOf(D, blocks, ids));
    if !started {
      SavedIsGood(D, H, height, networkID, others, genBlockNumber, forceSyncChunk, db', blocks', ids', start);
      SavedIsTruthful(D, H, height, networkID, others, genBlockNumber, forceSyncChunk, db', blocks', ids', start, all);
      return;
    }
    var s := new ClientSynchronizer(genBlockNumber, syncChunkSize, forceSyncChunk, D, tree, db, blocks, others);
    RereadIsHeld(D, H, height, networkID, db, tree.View(), life.queryFails,
                 Total(D, genBlockNumber, branch, s.LastStored().number));
    TreeDoesNotMatter(D, H, height, networkID, db, tree.View(), TreeOf(D, blocks, ids), blocks);
    var last, stopped;
    last, stopped, trace := s.Sync(life.rounds, meanwhile, life.calm, branch);
    db', blocks', ids' := s.db, s.blocks, tree.ids;
    TreeIsOf(D, H, height, networkID, db', tree.View(), blocks');
    TreeDoesNotMatter(D, H, height, networkID, db', tree.View(), TreeOf(D, blocks', ids'), blocks');
    TraceLength(genBlockNumber, forceSyncChunk, trace, life.rounds);
    ghost var end := trace[|trace| - 1];
    SavedIsGood(D, H, height, networkID, others, genBlockNumber, forceSyncChunk, db', blocks', ids', end);
    EndInAll(genBlockNumber, forceSyncChunk, trace, life.rounds, branch);
    SavedIsTruthful(D, H, height, networkID, others, genBlockNumber, forceSyncChunk, db', blocks', ids', end, all);
    if life.rounds != [] && s.HasAll(life.rounds[0].chain) {
      SavedIsComplete(D, H, height, networkID, others, genBlockNumber, db', ids', life.rounds[0].chain);
    }
  }

  lemma EmptyIsSaved(D: DepositsIn, H: PairHash, height: nat, network: nat, others: iset<nat>, gen: nat, force: bool,
                     chain: Chain)
    requires gen < |chain|
    ensures Saved(D, H, height, network, others, DB({}, map[], map[], {}, 0), [], [])
    ensures InStepWith(gen, force, [], chain, Newest(gen, [])) && FollowsWith(gen, force, [], chain, Newest(gen, []))
  {
    NoBlocks(D);
    EventsEmpty(chain, gen + 1);
  }

  /** A life starts where the one before ended, from the last stored block, the first one from nothing. If the one
      before ended in step or was put behind at last, it starts in step. */
  ghost predicate IsLife(gen: nat, force: bool, first: Chain, traces: seq<seq<Moment>>, j: nat)
    requires j < |traces|
  {
    && traces[j] != []
    && (j == 0 ==> traces[j][0] == StartAt(first, Newest(gen, []), []))
    && (j > 0 ==>
          && traces[j - 1] != []
          && var end := traces[j - 1][|traces[j - 1]| - 1];
             && traces[j][0] == StartAt(end.chain, Newest(gen, end.blocks), end.blocks)
             && (Sane(gen, force, end) ==> MomentInStep(gen, force, traces[j][0])))
  }

  lemma LifeStarts(gen: nat, force: bool, first: Chain, traces: seq<seq<Moment>>, j: nat)
    requires j < |traces| && traces[j] != []
    requires j == 0 ==> traces[j][0] == StartAt(first, Newest(gen, []), [])
    requires j > 0 ==> traces[j - 1] != []
    requires j > 0 ==> var end := traces[j - 1][|traces[j - 1]| - 1];
      traces[j][0] == StartAt(end.chain, Newest(gen, end.blocks), end.blocks)
    ensures IsLife(gen, force, first, traces, j)
  {
    if j > 0 {
      var end := traces[j - 1][|traces[j - 1]| - 1];
      if Sane(gen, force, end) {
        RestartRepairs(gen, force, end, traces[j][0]);
      }
    }
  }

  lemma LivesKept(gen: nat, force: bool, first: Chain, traces: seq<seq<Moment>>, trace: seq<Moment>)
    requires forall i :: 0 <= i < |traces| ==> IsLife(gen, force, first, traces, i)
    ensures forall i :: 0 <= i < |traces| ==> IsLife(gen, force, first, traces + [trace], i)
  {
    forall i | 0 <= i < |traces|
      ensures IsLife(gen, force, first, traces + [trace], i)
    {
      assert IsLife(gen, force, first, traces, i);
      assert (traces + [trace])[i] == traces[i] && (i > 0 ==> (traces + [trace])[i - 1] == traces[i - 1]);
    }
  }

  lemma GoodFollows(D: DepositsIn, H: PairHash, height: nat, network: nat, gen: nat, force: bool, db: DB, m: Moment)
    requires Good(D, H, height, network, gen, force, db, m)
    ensures MomentFollows(gen, force, m) && FollowsWith(gen, force, m.blocks, m.chain, Newest(gen, m.blocks))
  {
    FollowsNewest(gen, force, m.blocks, m.chain, m.last);
  }

  lemma LongEnoughFor(D: DepositsIn, gen: nat, others: iset<nat>, chain: Chain)
    requires SuitableChain(D, gen, others, chain)
    ensures gen < |chain|
  {
  }

  lemma SuitablePart(D: DepositsIn, gen: nat, others: iset<nat>, all: seq<Chain>, branch: Chain, chains: seq<Chain>)
    requires SuitableChains(D, gen, others, all) && branch in all && forall k :: 0 <= k < |chains| ==> chains[k] in all
    ensures SuitableChains(D, gen, others, [branch] + chains)
  {
    hide SuitableChain;
    hide OneHistory;
    var part := [branch] + chains;
    forall j, k | 0 <= j < |part| && 0 <= k < |part|
      ensures OneHistory(part[j], part[k]) && SuitableChain(D, gen, others, part[j])
    {
      assert part[j] in all && part[k] in all;
    }
  }

  /** The whole service from empty tables, started again and again. Whatever the node has in each round, whatever
      fails and whatever other networks store meanwhile, the block rows are on the chain followed, and in step
      with it the roots are those of its deposits. A restart goes on from the last stored block, which repairs a
      storage left behind by a lagging head; then an undisturbed life stores all blocks of the chain. */
  method ServeWithRestarts(H: PairHash, height: nat, networkID: nat, genBlockNumber: nat, syncChunkSize: nat,
                           forceSyncChunk: bool, D: DepositsIn, lives: seq<Life>, meanwhile: seq<seq<DB -> DB>>,
                           ghost others: iset<nat>, ghost all: seq<Chain>)
    returns (db: DB, ghost traces: seq<seq<Moment>>)
    requires Injective(H) && 1 <= height <= MAX_HEIGHT && (syncChunkSize > 0 || forceSyncChunk)
    requires SuitableChains(D, genBlockNumber, others, all) && all != [] && |meanwhile| == |lives|
    requires forall j :: 0 <= j < |lives| ==> |meanwhile[j]| == |lives[j].rounds|
    requires forall j, k :: 0 <= j < |lives| && 0 <= k < |lives[j].rounds| ==>
      lives[j].rounds[k].chain in all && lives[j].rounds[k].head < |lives[j].rounds[k].chain|
    requires forall j, k :: 0 <= j < |lives| && 0 <= k < |meanwhile[j]| ==>
      Harmless(H, networkID, others, meanwhile[j][k])
    ensures |traces| == |lives|
    ensures forall j :: 0 <= j < |lives| ==> IsTrace(genBlockNumber, forceSyncChunk, traces[j], lives[j].rounds)
    ensures forall j :: 0 <= j < |lives| ==> IsLife(genBlockNumber, forceSyncChunk, all[0], traces, j)
    ensures |lives| > 0 ==> var trace := traces[|lives| - 1];
      trace != [] && Good(D, H, height, networkID, genBlockNumber, forceSyncChunk, db, trace[|trace| - 1])
    ensures Truthful(D, H, height, networkID, genBlockNumber, db, all)
    ensures |lives| > 0 && Acyclic(H) ==>
      var life, trace := lives[|lives| - 1], traces[|lives| - 1];
      trace != [] && Undisturbed(genBlockNumber, life, trace[0].last)
        && MomentInStep(genBlockNumber, forceSyncChunk, trace[0]) ==>
        Complete(D, H, height, networkID, genBlockNumber, db, life.rounds[0].chain)
  {
    hide Saved;
    hide Truthful;
    hide Good;
    hide Complete;
    hide Steady;
    hide Harmless;
    hide FollowsWith;
    hide InStepWith;
    hide BehindWith;
    hide IsRound;
    hide SuitableChain;
    hide OneHistory;
    db, traces := DB({}, map[], map[], {}, 0), [];
    ghost var blocks: seq<Block>, ids: seq<nat>, branch := [], [], all[0];
    LongEnoughFor(D, genBlockNumber, others, branch);
    EmptyIsSaved(D, H, height, networkID, others, genBlockNumber, forceSyncChunk, branch);
    SavedIsTruthful(D, H, height, networkID, others, genBlockNumber, forceSyncChunk, db, [], [],
                    StartAt(branch, Newest(genBlockNumber, []), []), all);
    for j := 0 to |lives|
      invariant |traces| == j && branch in all && Saved(D, H, height, networkID, others, db, blocks, ids)
      invariant FollowsWith(genBlockNumber, forceSyncChunk, blocks, branch, Newest(genBlockNumber, blocks))
      invariant forall i :: 0 <= i < j ==> IsTrace(genBlockNumber, forceSyncChunk, traces[i], lives[i].rounds)
      invariant forall i :: 0 <= i < j ==> IsLife(genBlockNumber, forceSyncChunk, all[0], traces, i)
      invariant Truthful(D, H, height, networkID, genBlockNumber, db, all)
      invariant if j == 0 then branch == all[0] && blocks == []
                else var end := traces[j - 1][|traces[j - 1]| - 1]; end.chain == branch && end.blocks == blocks
      invariant j > 0 ==>
        Good(D, H, height, networkID, genBlockNumber, forceSyncChunk, db, traces[j - 1][|traces[j - 1]| - 1])
      invariant j > 0 && Acyclic(H) && Undisturbed(genBlockNumber, lives[j - 1], traces[j - 1][0].last)
                && MomentInStep(genBlockNumber, forceSyncChunk, traces[j - 1][0]) ==>
        Complete(D, H, height, networkID, genBlockNumber, db, lives[j - 1].rounds[0].chain)
    {
      SuitablePart(D, genBlockNumber, others, all, branch, ChainsOf(lives[j].rounds));
      var started;
      ghost var trace;
      started, db, blocks, ids, trace :=
        Serve(H, height, networkID, genBlockNumber, syncChunkSize, forceSyncChunk, D, db, lives[j], meanwhile[j],
              others, blocks, ids, branch);
      EndInAll(genBlockNumber, forceSyncChunk, trace, lives[j].rounds, branch);
      LivesKept(genBlockNumber, forceSyncChunk, all[0], traces, trace);
      traces := traces + [trace];
      branch := trace[|trace| - 1].chain;
      GoodFollows(D, H, height, networkID, genBlockNumber, forceSyncChunk, db, trace[|trace| - 1]);
      SavedIsTruthful(D, H, height, networkID, others, genBlockNumber, forceSyncChunk, db, blocks, ids,
                      trace[|trace| - 1], all);
      LifeStarts(genBlockNumber, forceSyncChunk, all[0], traces, j);
    }
  }
}
