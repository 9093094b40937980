# Bridge service: exit trees, proofs and synchronization

A Dafny model of the parts of the bridge service on which a claim depends. The service follows two
chains that may reorganise, keeps the exit tree of each network next to a database, and hands out
Merkle proofs. The project states what these parts promise together, over every input and every
sequence of events, and proves it.

## The model

- **Hashes** (`Digests`, `Hashes`). The pair hash is a parameter `H`. Where one root must mean one tree, `H` is
  assumed injective; digests are unbounded, since no injective pair hash exists on 32-byte words. That all blocks are
  stored in the end needs, besides, that no digest is made from itself, because a path with a repeated key cannot be
  inserted. There is such a hash (`Hashes.HashesExist`).
- **Failures**. Which statement or remote call fails is an input of the operation, which then fails exactly for these
  and for its own reasons. In the synchronizer, whose calls are many, the input is `calm`: any call may fail, or none.
- **Reference tree** (`CompleteTree`, `Levels`). `Node(H, leaves, h, i)` is the complete tree padded with
  zero leaves. Every other form of the tree is proved equal to it: the batch builders
  (`LevelBuilder`), the append with one sibling per level (`Frontier`), the tree read back from
  storage (`ExitTree`, `LeafVectors`), the proofs (`MerkleProofs`, `ProofService`).
- **Storage** (`Storage`, `StoredTree`). Tables are values and a transaction is the value it sees, so a
  rollback drops a value. All networks share the tables. A node may be stored many times, once
  for each deposit whose path has it, and a lookup may return any of these rows. Deleting a block deletes
  its deposits, their roots and their nodes.
- **Runs** (`DepositRuns`, `Recovery`). Stored blocks, committed deposits, deposits lost to a failed write,
  reorganisations and restarts of any number of networks, in any order. The operations are these events, and what a run
  leaves is a fold over its events.
- **Synchronizer** (`Chains`, `ChainSteps`, `ChainMirror`, `Rounds`, `Synchronizer`). A chain is a sequence of blocks; a hash
  commits to everything before it. During one call the head may grow at each query; between calls the chain may
  be replaced. Remote calls and storage calls may fail at any point. The synchronizer works on the tables
  and on the tree of its network: it reads block rows back, and stores and cuts blocks together with their deposits.
  Chains are those of a bridge: the contract counts its deposits 0, 1, and so on, and block hashes identify
  blocks, also among the rows of the other networks.
- **Claims** (`RollupExits`, `RollupReorgs`, `GlobalIndex`, `ClaimProofs`), **events** (`EventOrder`), **nonces** (`NonceCache`)
  and **grouped claims** (`PendingTxs`).

The comment on `checkReorg` says that parent hashes are compared as well; the code compares only the hash
of the block, and so does the model.

## Properties that do not hold as promised

For each of these the code is modelled as it is, and the exact condition is proved.

- The append has no capacity check. It is right for every next leaf exactly below `2^height` leaves
  (`Frontier.CapacityIsExact`).
- A block whose transaction fails after some of its deposits were added leaves the tree ahead of the tables. After any
  failure the two agree if and only if the first deposit is not taken, that is if its count is not the next one, one of
  its own statements fails, or its path repeats a key (`DepositRuns.ProcessDeposits`, with the input
  `DepositRuns.GapLeavesTreeAhead`). Else every retry is refused (`DepositRuns.ProcessWithRetries`), and so is every
  later deposit of the chain (`Synchronizer.ClientSynchronizer.SyncBlocks`), until a reset or restart repairs the
  tree (`Recovery.ResetState`, `ExitTree.NewMerkleTree`). The tables stay right throughout.
- A tree is rebuilt at a restart as that of one deposit if the count cannot be queried, because the error is reported
  as count zero. It agrees with the tables if and only if the query succeeds or there is exactly one deposit
  (`ExitTree.NewMerkleTree`).
- Storing a leaf list fails within the capacity where two nodes share a key, since all nodes are written with one
  deposit id. It succeeds exactly if the list fits, the id has no root, and no key repeats
  (`LeafVectors.UpdateLeaf`, with the family `LeafVectors.RepeatedPairFails`). The list is then looked up by its length:
  the row just written is the one read if and only if the deposit is the last of that many
  (`LeafVectors.UpdateAndReadBack`).
- A rollup leaf vector that returns after a different one is not stored again, so the older leaf stays the
  latest. The stored vector is up to date exactly if no vector returns
  (`RollupExits.UpToDateExactly`, with the counterexample `RollupExits.ReturningLeafIsLost`).
- `ComputeSiblings` reads out of range exactly for an index past the even length of the leaf list, before
  its caller compares the index with the length (`LevelBuilder.ComputeSiblings`).
- Undoing nonce zero wraps around. The next nonce is the expected one exactly if the undone nonce is at least
  one or the chain is still at zero (`NonceCache.NextAfterUndo`).
- A node whose head is below the last synced block makes a layer-2 synchronizer cut storage but keep that block
  in memory. The next round that succeeds is in step again if and only if the node no longer has the kept block;
  else the cut blocks are lost (`Synchronizer.ClientSynchronizer.SyncRound`, over runs
  `Rounds.LostOnlyAfterLag`, with the input `ChainSteps.LaggingHeadWitness`); a restart in between repairs it
  (`Rounds.RestartRepairs`).
- A reorganisation does cut good blocks: the newest stored block is taken for the last one synced and always cut, even
  where the last one is a block kept in memory, as with forced chunks or after a lagging head. Nothing on the chain is
  cut if and only if the newest stored block is off it (`ChainSteps.NothingGoodIsCut`, with the input
  `ChainSteps.GoodBlockIsCutWitness`).
- Before the service is synced, and with forced chunks, the answer of a query is stored without comparing it with the
  last block. If the chain was replaced in between, what is stored follows the chain that answered if and only if that
  chain has the newest stored block (`ChainSteps.MixedBranches`, with the input `ChainSteps.MixedBranchesWitness`).
  Once synced the second reorg check excludes it (`Synchronizer.ClientSynchronizer.StoreWindow`).
- Logs of a block that do not come together are replayed more than once: the replay is exact if
  and only if they do (`EventOrder.ReplayIsExact`).
- The last log of a new group of claims is not inserted. Storage agrees on the logs if and only if those of new groups
  are empty (`PendingTxs.LogsAgree`).

## Model

| member | source | states |
|---|---|---|
| `Levels.Capacity` | bridgectrl/merkletree.go:88-103 | the bits above `height` are clear exactly for indices below `2^height` |
| `Digests.GenerateZeroHashes` | bridgectrl/hash.go:27-37 | entry `h` is the root of the empty tree of height `h` |
| `CompleteTree.NodeOfPadded` | bridgectrl/merkletree.go:272-278 | explicit zero leaves at the end change no node |
| `CompleteTree.NodeDeterminesLeaves` | bridgectrl/merkletree.go:263-285 | with an injective hash equal roots mean equal leaves at every position |
| `MerkleProofs.SiblingsFromAt` | bridgectrl/merkletree.go:355-394 | the entry of a sibling list for a level is the node beside the leaf's ancestor there |
| `MerkleProofs.CalculateRoot` | bridgectrl/merkletree.go:396-410 | the loop computes the fold of the leaf with the first `height` siblings |
| `MerkleProofs.ProofFolds` | bridgectrl/merkletree.go:396-410 | the sibling list of any position below the capacity folds to the root |
| `MerkleProofs.ProofsBind` | bridgectrl/merkletree.go:396-410 | two proofs of one root at one index have the same leaf and the same siblings |
| `MerkleProofs.OnlyTheLeafFolds` | bridgectrl/merkletree.go:396-410 | a leaf and a list fold to the root of `leaves` at `i` if and only if they are leaf `i` and its sibling list |
| `LevelBuilder.BuildIntermediate` | bridgectrl/merkletree.go:175-187 | hashes and stored nodes of all adjacent pairs |
| `LevelBuilder.BuildNodes` | bridgectrl/merkletree.go:189-209 | every level holds the nodes of the reference tree up to the last leaf's ancestor; an error exactly beyond the capacity |
| `LevelBuilder.BuildMTRoot` | bridgectrl/merkletree.go:263-285 | the root of the reference tree, an error exactly beyond `2^height` leaves |
| `LevelBuilder.ComputeSiblings` | bridgectrl/merkletree.go:355-394 | when it panics, fails or succeeds; on success the reference root and the sibling list of the index |
| `Frontier.AppendCorrect` | bridgectrl/merkletree.go:113-142 | an append keeps the frontier invariant and computes root and path of the reference tree |
| `Frontier.AppendedRoot` | bridgectrl/merkletree.go:113-158 | below the capacity the appended root is the root of the whole list |
| `Frontier.CapacityIsExact` | bridgectrl/merkletree.go:113-116 | the append is right for every next leaf if and only if there is room |
| `Frontier.FailedAppendHarmless` | bridgectrl/merkletree.go:128-155 | a failed append changes only the sibling at the lowest zero bit of the count, keeps the frontier, and any retry has the right root |
| `Frontier.RebuiltIsFrontier` | bridgectrl/merkletree.go:63-111 | the left children on the last leaf's path form a frontier |
| `Frontier.SameFuture` | bridgectrl/merkletree.go:160-165 | any two frontiers of the same leaves give equal roots for every continuation, those of the reference tree |
| `Frontier.IncrementalMatchesBatch` | bridgectrl/merkletree.go:113-158 | appending one by one gives after each step the root of the list so far |
| `ExitTree.Reverse` | bridgectrl/merkletree.go:105-108 | the list reversed |
| `ExitTree.NewMerkleTree` | bridgectrl/merkletree.go:40-61 | the count is that of the newest deposit with a root, plus one, or 1 if the query fails; the siblings are read from the stored nodes, or the missing root or node is named; from the tables of a tree it succeeds if and only if the query does or there is a deposit, and agrees with them if and only if the query does or there is exactly one |
| `ExitTree.MerkleTree.InitSiblings` | bridgectrl/merkletree.go:63-111 | follows stored nodes from the stored root to the last leaf and keeps the left children; fails exactly where a root or node is missing |
| `ExitTree.MerkleTree.Rebuild` | bridgectrl/merkletree.go:58-60 | the siblings are the left children on a stored walk to the last leaf; from tables of a tree it succeeds if and only if they hold as many deposits as the count, with the frontier of these, in agreement if and only if these are all; an error names the missing root or node |
| `ExitTree.MerkleTree.GetRoot` | bridgectrl/merkletree.go:167-173 | the zero root for an empty tree, else the root stored with the last deposit |
| `ExitTree.MerkleTree.ClimbToRoot` | bridgectrl/merkletree.go:117-142 | the loop computes root, siblings and path of the append |
| `ExitTree.MerkleTree.AddLeaf` | bridgectrl/merkletree.go:113-158 | it succeeds if and only if the index is the count, no write fails, the deposit has no root and no key on the path repeats or is taken; the rows written, the count and the siblings, in each case |
| `ExitTree.MerkleTree.ResetLeaf` | bridgectrl/merkletree.go:160-165 | the count is the new one even on an error; the siblings are read from the stored nodes; from tables that hold that many deposits the tree of these, in agreement with the tables |
| `ExitTree.DescentGoesOn` | bridgectrl/merkletree.go:88-103 | a walk from a stored root towards one of its leaves always finds the next node |
| `ExitTree.RootOfCount` | db/pgstorage/pgstorage.go:434-443 | the root found for a count is the root over that many leaves |
| `Storage.Get` | db/pgstorage/pgstorage.go:452-463 | some row with the key, if there is one |
| `Storage.GetRoot` | db/pgstorage/pgstorage.go:434-443 | a root stored with a deposit of that count and network |
| `Storage.GetLastDepositCount` | db/pgstorage/pgstorage.go:550-562 | the count of the deposit with the highest id that has a root, none if there is none; a failed query reads as count zero |
| `Storage.GetNumberDeposits` | db/pgstorage/pgstorage.go:190-196 | one more than the highest count up to the block |
| `Storage.GetPreviousBlock` | db/pgstorage/pgstorage.go:178-188 | the row that has exactly `offset` others of the network above it |
| `StoredTree.DepositKeepsMirror` | bridgectrl/merkletree.go:144-157 | a committed deposit keeps tree and tables in agreement |
| `StoredTree.DepositKeepsOthers` | bridgectrl/merkletree.go:144-157 | and leaves the trees of all other networks in agreement |
| `StoredTree.ResetKeepsStored` | db/pgstorage/pgstorage.go:170-176 | after a reset the tables hold the tree of the surviving deposits |
| `StoredTree.ResetKeepsOthers` | db/pgstorage/pgstorage.go:170-176 | and still those of all other networks |
| `StoredTree.PathNodeStored` | bridgectrl/merkletree.go:144-154 | every node on the path of a leaf under any stored root is stored, with its children in the tree of that root |
| `StoredTree.FreshIsStorable` | db/pgstorage/migrations/0006.sql:2-3 | in sound tables a deposit with a fresh id can be stored if and only if no two nodes on its path share a key |
| `StoredTree.AcyclicPaths` | db/pgstorage/migrations/0006.sql:2-3 | which is so for every list if no digest is made from itself |
| `Hashes.HashesExist` | bridgectrl/hash.go:13-22 | some pair hash is injective and makes no digest from itself |
| `DepositRuns.ProcessDeposit` | synchronizer/synchronizer.go:849-884 | it succeeds if and only if the count is the next one, no statement fails and the path can be stored, else a refused deposit leaves the tables and at most one sibling changed; from agreement a success is the event `Commit`, a failure nothing or the event `Lose` |
| `DepositRuns.ProcessDeposits` | synchronizer/synchronizer.go:452-555 | a block's deposits and whatever follows in one transaction: from agreement it succeeds if and only if every deposit is taken in turn and nothing fails later, and after a failure memory and tables agree if and only if the first deposit is not taken; a tree that expects another count takes none |
| `DepositRuns.CountsDecide` | synchronizer/synchronizer.go:506-514 | without failures, and where no digest is made from itself, a deposit is taken if and only if its count is the next one |
| `DepositRuns.GapLeavesTreeAhead` | synchronizer/synchronizer.go:506-514 | counts `c` and `c + 2` leave the tree one ahead |
| `DepositRuns.ProcessWithRetries` | synchronizer/synchronizer.go:150-165 | after a failure with the first deposit taken every further attempt is refused, with tree and tables unchanged; else a later attempt succeeds if and only if one has no failure and none before it took the first deposit |
| `DepositRuns.EventKeepsInv` | bridgectrl/bridgectrl.go:61-78 | every stored block, commit, loss, reorganisation and restart keeps all trees in agreement |
| `DepositRuns.RunKeepsInv` | bridgectrl/bridgectrl.go:61-78 | so does every sequence of them from empty tables |
| `DepositRuns.RunKeepsBlocks` | db/pgstorage/pgstorage.go:170-176 | over every such sequence each deposit belongs to a stored block of its network |
| `DepositRuns.NextIsLocal` | bridgectrl/bridgectrl.go:61-78 | an event depends on the tree of its network only, and changes no other tree |
| `DepositRuns.BlockCanCommit` | synchronizer/synchronizer.go:455-514 | from every state a block can be stored and then a deposit of it committed |
| `DepositRuns.RunIsLedger` | synchronizer/synchronizer.go:452-639 | over every run the leaves of each tree, with the blocks of their rows, are the fold of the events: a commit appends, a cut drops those of later blocks, nothing else changes them |
| `DepositRuns.EveryStoredRootProves` | server/service.go:68-117 | after every such sequence the root of each prefix of the committed and not cut deposits is stored, and has for each of its leaves a walk that is never stuck and ends in the one proof that folds to the root |
| `Descent.DescentStaysInTree` | server/service.go:75-109 | a walk from a node of the reference tree meets only nodes of that tree |
| `Descent.DescentFoldsBack` | server/service.go:75-109 | from any root, the leaf reached folds back to it with the siblings left aside |
| `ProofService.StoredWalkExists` | server/service.go:68-117 | the tables of a stored tree hold a complete walk for every leaf under every stored root |
| `ProofService.StuckMeansUnstored` | server/service.go:75-79 | where a walk with cache is stuck, the tables alone have no complete walk |
| `ProofService.BridgeService.GetNode` | server/service.go:52-66 | the children hash to the parent, cached or stored; fails exactly if it is neither |
| `ProofService.BridgeService.GetProof` | server/service.go:68-117 | `height` siblings that fold to the root, equal to those of the tables alone whenever these suffice; it fails only at a node that is neither cached nor stored |
| `LeafVectors.UpdateLeaf` | bridgectrl/merkletree.go:189-225 | stores the whole tree under its root, if and only if the list fits, the deposit has no root, no key repeats and no write fails |
| `LeafVectors.RepeatedPairFails` | db/pgstorage/migrations/0006.sql:2-3 | a list in which a pair of leaves comes twice cannot be stored |
| `LeafVectors.RepeatedPairWitness` | db/pgstorage/migrations/0006.sql:2-3 | so `a, b, a, b` fails, although it fits |
| `LeafVectors.ReadLevel` | bridgectrl/merkletree.go:234-253 | the children of a level: its nodes, then zero hashes, all below the root; an error exactly if an entry is neither stored nor a zero hash |
| `LeafVectors.GetLeaves` | bridgectrl/merkletree.go:231-261 | from the root of a stored list it never fails and returns the list followed only by zero leaves; every leaf returned is below the root, and an error names a node below the root that is neither stored nor a zero hash |
| `LeafVectors.RootFoundByCount` | bridgectrl/merkletree.go:228-230 | the root of a stored list is found by its length if and only if the deposit is the last of that many |
| `LeafVectors.UpdateAndReadBack` | bridgectrl/merkletree.go:189-261 | the list is stored if and only if it can be and no write fails; it is then read back if it is empty or the deposit is the last of as many; else another row is read, or none |
| `RollupExits.LatestIsNewest` | db/pgstorage/pgstorage.go:522-548 | the latest row of each rollup is its row in the newest vector, numbered without gaps |
| `RollupExits.PadRollups` | bridgectrl/merkletree.go:328-334 | empty rollups up to the new id, the others unchanged |
| `RollupExits.StoreLeaves` | bridgectrl/merkletree.go:287-307 | the vector is stored under its root unless a vector with that root is; it fails exactly beyond the capacity, where the query fails, or where an insert that is needed fails |
| `RollupExits.AddRollupExitLeaf` | bridgectrl/merkletree.go:313-353 | the mismatch error cannot occur; a panic exactly for id zero once the rows are read; an error exactly for an id beyond the capacity, a failed read or query, or a failed insert of a new vector; else the rows of the new vector |
| `RollupExits.RootsTell` | bridgectrl/merkletree.go:287-297 | vectors have equal roots if and only if they are equal up to zero padding |
| `RollupExits.CallExact` | bridgectrl/merkletree.go:287-353 | a call leaves the newest stored vector the expected one if and only if the new vector does not return to an earlier one |
| `RollupExits.UpToDateExactly` | bridgectrl/merkletree.go:287-353 | the same over whole runs of calls |
| `RollupExits.StoredVectorHoldsLastLeaves` | bridgectrl/merkletree.go:287-353 | position `r - 1` holds the leaf last given for rollup `r`, zero if none |
| `RollupExits.ReturningLeafIsLost` | bridgectrl/merkletree.go:292-305 | after leaves `a`, `b`, `a` the stored leaf is `b` |
| `RollupReorgs.AddIsEntry` | bridgectrl/merkletree.go:313-353 | a call on the table with blocks adds the rows of one vector, or none |
| `RollupReorgs.CutKeeps` | db/pgstorage/migrations/0007.sql:5-12 | exactly the rows of blocks up to the number are left, in their order |
| `RollupReorgs.CallsSplit` | db/pgstorage/migrations/0007.sql:5-12 | of calls in order of blocks exactly those up to the number are kept |
| `RollupReorgs.CutIsDropping` | db/pgstorage/migrations/0007.sql:5-12 | deleting the rows of later blocks leaves the table of the earlier calls |
| `RollupReorgs.TableIsOfSurvivors` | db/pgstorage/migrations/0007.sql:5-12 | over every run of calls and reorganisations the table is that of the calls left |
| `RollupReorgs.LatestHoldsLastLeaves` | db/pgstorage/pgstorage.go:522-548 | so the latest leaves are the last ones given by these calls, if no vector returns among them |
| `GlobalIndex.DecodeReads` | etherman/etherman.go:834-851 | decoding reads the two low words and one byte above them |
| `GlobalIndex.GenerateGlobalIndex` | etherman/etherman.go:853-869 | the bytes spell the flag or the rollup index above the local index |
| `GlobalIndex.DecodeGenerated` | etherman/etherman.go:834-869 | decoding undoes generation, within 65 bits |
| `GlobalIndex.GenerateDecoded` | etherman/etherman.go:834-869 | generation undoes decoding exactly on the indices that can be generated |
| `Widths.Bits` | bridgectrl/merkletree.go:25-25 | counts are below 2^32 and nonces below 2^64; the words of a global index have 32 bits, the flag is bit 64 of 256 |
| `ClaimProofs.GetRollupExitProof` | server/service.go:119-150 | a proof it returns folds the rollup's leaf to the root; it is returned whenever the rows of the root are a vector with the rollup; it panics exactly for an index past the rows of the root, rounded up to even |
| `ClaimProofs.EmptyProof` | server/service.go:297-303 | 32 zero hashes |
| `ClaimProofs.ChooseLocalRoot` | server/service.go:170-193 | the root the deposit is proved against: the mainnet root, or the rollup's leaf with its own proof; when it panics |
| `ClaimProofs.VerifiesAtIndex` | server/xlayer_helpers.go:14-19 | folding at the deposit's indices is folding at the indices decoded from its global index |
| `ClaimProofs.GlobalIndexIs` | server/xlayer_helpers.go:14-19 | the flag and the count for mainnet, else the network less one above the count |
| `ClaimProofs.GetClaimProof` | server/service.go:152-196 | a claim it returns passes the contract's check at the deposit's global index, only for the deposit's own leaf, and its parts fold to the local root at the count and on to the rollup root at the network less one; it returns one whenever the tables suffice; when it panics |
| `ClaimProofs.VectorReadByRoot` | db/pgstorage/pgstorage.go:484-504 | a recorded vector is read back whole by its root |
| `ClaimProofs.StoredDepositsAreProvable` | server/service.go:152-196 | a deposit under a stored root that is the mainnet root, or its rollup's leaf in a recorded vector, can be claimed |
| `Chains.EventsComplete` | synchronizer/synchronizer.go:323-335 | every block of the range that has events is among its event blocks |
| `Chains.KeepEvents` | db/pgstorage/pgstorage.go:170-176 | cutting the stored event blocks back to a number gives those up to it |
| `ChainSteps.CarriesOver` | synchronizer/synchronizer.go:273-286 | if the last block is on the new chain, storage follows that chain, and is in step with it if and only if it was before |
| `ChainSteps.FollowsAfterReset` | synchronizer/synchronizer.go:585-602 | cut back to a stored block that is on the chain, storage follows the chain, with or without gaps |
| `ChainSteps.StepAfterReset` | synchronizer/synchronizer.go:585-602 | if it was complete up to its own last block, it is in step |
| `ChainSteps.StepAtLastStored` | synchronizer/synchronizer.go:154-165 | reading the last block from storage again keeps storage in step |
| `ChainSteps.GapsStay` | synchronizer/synchronizer.go:288-444 | storing the events after a block makes storage complete if and only if it was complete up to that block |
| `ChainSteps.NothingGoodIsCut` | synchronizer/synchronizer.go:676-696 | in every mode, the stored blocks above the one returned to are all off the chain if and only if the newest stored block is |
| `ChainSteps.NewestIsOffChain` | synchronizer/synchronizer.go:676-696 | that is so without forced chunks in step |
| `ChainSteps.GoodBlockIsCutWitness` | synchronizer/synchronizer.go:676-696 | with forced chunks the only stored block is cut although it is on the chain |
| `ChainSteps.ReorgCut` | synchronizer/synchronizer.go:278-285 | cut back to the block returned, storage follows the new chain, in step with it if it was complete |
| `ChainSteps.FirstIsLast` | synchronizer/synchronizer.go:336-351 | a window that starts at the last block, with the genesis placeholder, has that block first and only new ones after it |
| `ChainSteps.FirstOfOther` | synchronizer/synchronizer.go:346-376 | the answer of another chain is empty only if that chain has left the last block, and starts with its hash if and only if it has it |
| `ChainSteps.MixedBranches` | synchronizer/synchronizer.go:323-400 | stored without a check, the answer of another chain leaves storage on that chain if and only if it has the newest stored block |
| `ChainSteps.MixedBranchesWitness` | synchronizer/synchronizer.go:323-400 | two chains on which blocks of both are stored |
| `ChainSteps.LaggingHead` | synchronizer/synchronizer.go:184-196 | a reset to a lagging head leaves storage complete up to its own last block, behind the block kept in memory, in all modes |
| `ChainSteps.BehindIsOut` | synchronizer/synchronizer.go:184-196 | then it is not in step: the kept block itself is missing |
| `ChainSteps.LaggingHeadWitness` | synchronizer/synchronizer.go:184-196 | with two event blocks and the head at the first one, going on from the second loses it |
| `ChainSteps.StoredOnChain` | synchronizer/synchronizer.go:641-648 | every stored block is on the chain that storage follows |
| `Synchronizer.ClientSynchronizer.ReadBlock` | db/pgstorage/pgstorage.go:73-85 | the block read with an offset is the one so far from the end of the stored blocks |
| `Synchronizer.ClientSynchronizer.CheckReorg` | synchronizer/synchronizer.go:649-712 | terminates; no reorg only if the block agrees, else the newest earlier stored block that agrees, or genesis; it fails only if a call fails or the head is below a stored block |
| `Synchronizer.ClientSynchronizer.QueryWindow` | synchronizer/synchronizer.go:323-352 | for the chain that answers: an empty answer means that it has left the last block, an agreeing one that it is exactly what follows the last block on it, in every mode |
| `Synchronizer.ClientSynchronizer.ResetState` | synchronizer/synchronizer.go:585-639 | the blocks up to the number with the tables and the tree of their deposits, or the tables unchanged, which needs a failing call |
| `Synchronizer.ClientSynchronizer.ProcessBlock` | synchronizer/synchronizer.go:455-555 | one block with its deposits, or tables unchanged; a tree that takes the chain's next deposit stores every block if no call fails; one that does not stores only blocks without deposits, and is not changed |
| `Synchronizer.ClientSynchronizer.ProcessBlockRange` | synchronizer/synchronizer.go:452-582 | exactly the event blocks up to some block are added, all of them on success, and the tables still hold the tree of the stored blocks' deposits |
| `Synchronizer.ClientSynchronizer.FollowReorg` | synchronizer/synchronizer.go:278-285 | after the reset, which fails only if a call does, storage follows the new chain and is in step with it if it was complete; nothing on the chain was cut if and only if the newest stored block is off it |
| `Synchronizer.ClientSynchronizer.FollowEmptyAnswer` | synchronizer/synchronizer.go:352-376 | with two or more stored blocks the block returned, and storage cut to it, is the newest on the chain among those below the newest one, or the genesis; else storage is emptied and the block returned has number zero |
| `Synchronizer.ClientSynchronizer.Advance` | synchronizer/synchronizer.go:401-418 | the new last block has no events after it in the window |
| `Synchronizer.ClientSynchronizer.StoreWindow` | synchronizer/synchronizer.go:323-418 | one window with the chain replaced before the query and before the second check: once synced, blocks are stored only if the chain that was asked has the last block, and are exactly those that follow it there; else storage is reset, to the newest block on the chain that was checked among those below the newest one, or to the genesis; with one chain nothing is reset |
| `Synchronizer.ClientSynchronizer.SyncWindows` | synchronizer/synchronizer.go:288-444 | the loop terminates; whatever is stored before the last block, exactly the event blocks after it are added, up to the head on success, in all three modes; it succeeds if no call fails and the tree takes the next deposit |
| `Synchronizer.ClientSynchronizer.GoOn` | synchronizer/synchronizer.go:287-444 | the result is in step with the new chain if and only if storage was in step before |
| `Synchronizer.ClientSynchronizer.SyncBlocks` | synchronizer/synchronizer.go:264-444 | the event blocks after the last one are added, or storage is reset to the newest agreeing block, which happens if and only if the last block left the chain; from in step exactly the chain's event blocks above genesis up to the head are stored; from behind it is in step if and only if the kept block left the chain; a reset cuts nothing on the chain if and only if the newest stored block is off it; a failure, which needs a failing call, leaves a prefix; a tree out of count takes no deposit until a reset |
| `Synchronizer.ClientSynchronizer.FollowHead` | synchronizer/synchronizer.go:189-196 | storage is cut to exactly the blocks up to the lagging head, or unchanged if a call fails; from in step it is then in step or behind |
| `Synchronizer.ClientSynchronizer.SyncRound` | synchronizer/synchronizer.go:147-197 | one round from any state, with the heads the node reports as inputs: exactly the blocks added, the block a reset goes to and the cut to a lagging head, and what this does to a storage that is in step or behind; without failing calls it stops exactly where layer 1 lags |
| `Synchronizer.ClientSynchronizer.Meanwhile` | synchronizer/synchronizer.go:584-602 | what other networks store between two rounds changes nothing for this one |
| `Synchronizer.ClientSynchronizer.Sync` | synchronizer/synchronizer.go:119-212 | every round of a run is such a round, with other networks storing in between; the tables hold the tree of the stored blocks' deposits throughout; if no call fails and the chain stays, all its event blocks are stored |
| `Rounds.SteadyRound` | synchronizer/synchronizer.go:147-197 | a round from in step that succeeds on a chain that stays ends with exactly its event blocks, if the last block is on it |
| `Rounds.LostOnlyAfterLag` | synchronizer/synchronizer.go:141-212 | over whole runs in which failed rounds from behind store nothing, storage is in step after every round, or just put behind, if and only if no round goes on from a block kept after a lagging head |
| `Rounds.RestartRepairs` | synchronizer/synchronizer.go:124-137 | a restart after that is in step |
| `Synchronizer.Serve` | synchronizer/synchronizer.go:119-212 | one life of the service from any such tables: the tree read back, then the rounds; if no call fails and the chain stays, it ends with exactly the event blocks of the chain up to its head, and the roots of all their deposits |
| `Synchronizer.ServeWithRestarts` | synchronizer/synchronizer.go:119-212 | from empty tables over any number of lives, with nothing assumed but the chains and the other networks: the block rows are always event blocks of one of the chains and the roots those of the deposits in them, in step those of all its deposits; a life starts in step if the one before ended in step or just put behind, and one in which no call fails and the chain stays then stores all of it |
| `Recovery.ResetState` | synchronizer/synchronizer.go:584-639 | it succeeds if and only if no statement and no commit fails, and is then the event `Cut`: tables cut, the tree that of exactly the remaining deposits and expecting the next count, other networks unchanged; a failure leaves the tables, and after a failed commit the tree expects too early a count or agrees |
| `Recovery.RestartTree` | bridgectrl/merkletree.go:40-61 | a restart whose count query succeeds is the event `Restart`; it agrees with the tables if and only if the query succeeds or there is exactly one deposit |
| `Recovery.ResetCutsTable` | db/pgstorage/pgstorage.go:170-176 | the block table holds the blocks that are kept, and the other networks' rows |
| `Recovery.AddBlockHolds` | db/pgstorage/pgstorage.go:88-106 | a block with a new hash is added to the block table and nothing else |
| `Recovery.PreviousIs` | db/pgstorage/pgstorage.go:178-188 | reading the table with an offset is reading the list of blocks from its end |
| `ChainMirror.StoreBlock` | synchronizer/synchronizer.go:452-555 | the row of a block and its deposits, or nothing; from agreement it succeeds if and only if every deposit is taken and no statement fails; a deposit is taken only if tree, tables and chain agree on the count; other networks keep their trees |
| `ChainMirror.ResetBlocks` | synchronizer/synchronizer.go:584-639 | the reset keeps tables, tree and blocks linked; it succeeds if and only if no statement and no commit fails |
| `ChainMirror.SurvivorsAreKept` | db/pgstorage/pgstorage.go:170-176 | the deposits that survive a reset are those of the blocks that survive it |
| `ChainMirror.PartLeaves` | db/pgstorage/pgstorage.go:170-176 | some of a chain's event blocks have no more deposits than all of them |
| `ChainMirror.OwnRowsAreEnough` | db/pgstorage/pgstorage.go:170-176 | the tables of a network depend on its own rows only |
| `ChainMirror.TreeFollowsChain` | bridgectrl/bridgectrl.go:61-78 | the rows are on the chain; in step, the root of every prefix of the chain's own deposits is stored, and no other root |
| `EventOrder.ProcessEvent` | etherman/etherman.go:623-665 | the log is appended to its block's list of its kind and its position recorded |
| `EventOrder.HandledAt` | etherman/etherman.go:323-360 | the handled logs are as many as there are, and each stands after as many as were handled before it |
| `EventOrder.ReadEvents` | etherman/etherman.go:297-320 | the grouping of all handled logs; an error exactly if one cannot be parsed |
| `EventOrder.ProcessBlock` | synchronizer/synchronizer.go:477-542 | the loop replays one block in the recorded order, with the bounds errors |
| `EventOrder.ProcessBlockRange` | synchronizer/synchronizer.go:452-555 | the loop replays all blocks |
| `EventOrder.ContiguousIsDistinct` | etherman/etherman.go:643-658 | the grouped blocks have different hashes if and only if the logs of each block come together |
| `EventOrder.CountOfLogs` | etherman/etherman.go:659-664 | at least as many events are replayed as there were logs, and more if a block comes back |
| `EventOrder.ReplayIsExact` | synchronizer/synchronizer.go:455-542 | the replay is the handled logs in their order, without bounds errors, if and only if the logs of each block come together |
| `EventOrder.ReadAndReplay` | etherman/etherman.go:297-320 | reading and then replaying fails exactly for a log that cannot be parsed; else it gives the handled logs in their order if and only if the logs of each block come together |
| `NonceCache.Cache.GetNextNonce` | claimtxman/nonce_cache.go:34-46 | fails exactly if the node does; the nonce issued and the new cache, other senders unchanged |
| `NonceCache.Cache.Remove` | claimtxman/nonce_cache.go:48-50 | only the sender's entry is removed |
| `NonceCache.Cache.Decr` | claimtxman/xlayer_nonce_cache.go:5-18 | fails exactly if the node does; the sender's entry after the undo, other senders and a sender without entry unchanged |
| `NonceCache.NextAfterUndo` | claimtxman/xlayer_nonce_cache.go:5-18 | the next nonce is the larger of the undone one and the chain's if and only if the undone one is not zero or the chain is at zero |
| `NonceCache.NeverBelowChain` | claimtxman/nonce_cache.go:34-46 | in every regular run no nonce issued is below the chain's |
| `NonceCache.KeptNoncesIncrease` | claimtxman/nonce_cache.go:34-46 | in every regular run kept nonces are strictly increasing |
| `PendingTxs.Pending.GenerateNewGroupID` | claimtxman/pending_txs.go:33-36 | a new id is free while the last id bounds the groups |
| `PendingTxs.Pending.AddGroup` | claimtxman/pending_txs.go:48-54 | a group already present is kept |
| `PendingTxs.GroupChanges` | claimtxman/pending_txs.go:98-113 | exactly the new and the changed groups, each once |
| `PendingTxs.TxChanges` | claimtxman/pending_txs.go:114-134 | exactly the new and the changed transactions of a group; an error for one unknown to an old group |
| `PendingTxs.GenerateStoreUpdate` | claimtxman/pending_txs.go:96-136 | the difference of two states, with its only error, whatever the order of visits |
| `PendingTxs.Execute` | claimtxman/store_changes.go:32-63 | the storage after all statements; an error, with storage unchanged, exactly if an added group exists |
| `PendingTxs.GroupRows` | claimtxman/store_changes.go:32-49 | each group row after the changes: added, updated, or untouched |
| `PendingTxs.AddedRow` | claimtxman/pending_txs.go:98-106 | the row of a new group has the data of the new state, the deposits of its transactions in order, and the time of the update |
| `PendingTxs.KeptRow` | claimtxman/pending_txs.go:107-112 | a group whose entry did not change has the same row as before; else the new body and log, with the deposits it had |
| `PendingTxs.TxRows` | claimtxman/store_changes.go:51-61 | each grouped transaction's row agrees with the new state, and is untouched if not written |
| `PendingTxs.OtherTxRows` | claimtxman/store_changes.go:51-61 | rows of deposits in no group are untouched |
| `PendingTxs.KeptTx` | claimtxman/pending_txs.go:114-134 | a transaction that is the same in all its groups has the same row as before |
| `PendingTxs.DiffApply` | claimtxman/pending_txs.go:96-136 | storage that agreed with the old state agrees with the new one after the changes |
| `PendingTxs.LogsAgree` | db/pgstorage/pgstorage_monitored_txs_group.go:28-87 | it agrees on the last logs, too, if and only if those of the added groups are empty |

## Left out

- Keccak and the contents of leaf hashes; block times, update times, message pushing, metrics and logging.
- `BridgeController`: the lookup of a network's tree and its error for an unknown network would only add easy members.
- The conversion of events to deposits: `ChainMirror` takes it as a function of a block's events.
- Tree height 0: the loops of the source would start at level 255; heights are 1 to 64, the levels with zero hashes.
- I/O errors while siblings are read back from tables that hold them.
- `GetClaimProofbyGER` and `GetClaimProofForCompressed`: they differ from `GetClaimProof` in how the exit roots are looked up.
- Synchronizer.ClientSynchronizer.SyncWindows: the windows of one call are answered by one chain; `StoreWindow` says what a window does when it is replaced. With chunk size zero, once synced and without forced chunks, the loop need not end. Where calls may fail it is left open which of them does, here and in the methods that call it; without failing calls the result is exact.
- Synchronizer.ClientSynchronizer.SyncBlocks: the block number zero that `FollowEmptyAnswer` may return is not followed into the next call.
- Synchronizer.ClientSynchronizer.Sync: other networks store between rounds, not between the transactions of one.
- The trusted exit roots, the channels to the claim manager and `GlobalExitRoot` processing.
- NonceCache.KeptNoncesIncrease: leaves out evictions, explicit removals, undoing nonce zero (see `NextAfterUndo`) and nonces at the 64-bit limit.
- DepositRuns.ProcessDeposits: says nothing about a tree out of count whose count the first deposit happens to meet; the synchronizer never gets there. It stays below 2^32 deposits, where `AddLeaf` wraps the count.
- ChainMirror.StoreBlock: says nothing of a block whose hash another network has stored, to which the source then attaches the deposits.
- `NewPendingTxs` and `SetGroupDBEntry`; that `GenerateStoreUpdate` also writes the times and deposit ids into the new state.
- PendingTxs.DiffApply: agreement is on the columns read back, with the last log apart in `LogsAgree`; update times are not compared.
- The life cycle of monitored transactions and grouped claims, the RPC client, the HTTP and gRPC servers.
