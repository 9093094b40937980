/** Claim proofs end to end: what the service returns is what the bridge contract checks. */
module ClaimProofs {
  import opened Levels
  import opened Digests
  import opened CompleteTree
  import opened MerkleProofs
  import opened LevelBuilder
  import opened Storage
  import opened StoredTree
  import opened ProofService
  import opened RollupExits
  import opened GlobalIndex

  datatype ExitRoots = ExitRoots(mainnet: Digest, rollup: Digest)

  /** The check of the bridge contract: the indices come from the global index alone. */
  ghost predicate Verifies(H: PairHash, globalIndex: nat, leaf: Digest, merkleProof: seq<Digest>,
                           rollupProof: seq<Digest>, roots: ExitRoots)
    requires globalIndex < LIMIT
  {
    var (mainnetFlag, rollupIndex, localIndex) := DecodeGlobalIndex(globalIndex);
    if mainnetFlag then Climb(H, leaf, merkleProof, localIndex) == roots.mainnet
    else Climb(H, Climb(H, leaf, merkleProof, localIndex), rollupProof, rollupIndex) == roots.rollup
  }

  /** `getGlobalIndex`: for network 0 the subtraction wraps around and the result is not used. */
  function GlobalIndexOf(networkID: nat, depositCount: nat): nat
    requires networkID < WORD
  {
    Packed(networkID == 0, (networkID + WORD - 1) % WORD, depositCount)
  }

  /** The flag alone for mainnet, and else the rollup index, which is one less than the network, above the count. */
  lemma GlobalIndexIs(networkID: nat, depositCount: nat)
    requires networkID < WORD
    ensures GlobalIndexOf(networkID, depositCount)
         == if networkID == 0 then FLAG + depositCount else WORD * (networkID - 1) + depositCount
  {
    assert networkID > 0 ==> (networkID + WORD - 1) % WORD == networkID - 1;
  }

  /** Stable insertion by rollup id. */
  function Insert(list: seq<RollupRow>, row: RollupRow): seq<RollupRow> {
    if list == [] || list[|list| - 1].rollupID <= row.rollupID then list + [row]
    else Insert(list[..|list| - 1], row) + [list[|list| - 1]]
  }

  /** `GetRollupExitLeavesByRoot`. */
  function LeavesByRoot(rows: seq<RollupRow>, root: Digest): seq<RollupRow> {
    if rows == [] then []
    else
      var before, row := LeavesByRoot(rows[..|rows| - 1], root), rows[|rows| - 1];
      if row.root == root then Insert(before, row) else before
  }

  function Column(rows: seq<RollupRow>): seq<Digest> {
    seq(|rows|, i requires 0 <= i < |rows| => rows[i].leaf)
  }

  /** The rows stored for the root are a vector of that root which has the rollup. */
  ghost predicate RollupProvable(H: PairHash, height: nat, rows: seq<RollupRow>, rollupIndex: nat, root: Digest) {
    var leaves := LeavesByRoot(rows, root);
    rollupIndex < |leaves| <= Pow2(height) && Root(H, Column(leaves), height) == root
  }

  datatype RollupProof =
    | RollupProof(siblings: seq<Digest>, leaf: Digest)
    | Failed
    | Panics

  /** The index is past the rows of the root, the odd one out rounded up: the source then panics. */
  predicate PastRows(rows: seq<RollupRow>, rollupIndex: nat, root: Digest) {
    var n := |LeavesByRoot(rows, root)|;
    rollupIndex / 2 > (if n == 0 then 0 else n - 1) / 2
  }

  /** `getRollupExitProof`. */
  method GetRollupExitProof(H: PairHash, zeroHashes: seq<Digest>, height: nat, rows: seq<RollupRow>, rollupIndex: nat,
                            root: Digest)
    returns (r: RollupProof)
    requires ZeroTable(H, zeroHashes) && 1 <= height <= MAX_HEIGHT
    ensures r.RollupProof? ==> |r.siblings| == height && Climb(H, r.leaf, r.siblings, rollupIndex) == root
    ensures r.RollupProof? ==>
      rollupIndex < |LeavesByRoot(rows, root)| && r.leaf == LeavesByRoot(rows, root)[rollupIndex].leaf
    ensures RollupProvable(H, height, rows, rollupIndex, root) ==> r.RollupProof?
    ensures r.Panics? <==> PastRows(rows, rollupIndex, root)
  {
    var leaves := LeavesByRoot(rows, root);
    var ls: seq<Digest> := [];
    for i := 0 to |leaves|
      invariant |ls| == i && forall k :: 0 <= k < i ==> ls[k] == leaves[k].leaf
    {
      ls := ls + [leaves[i].leaf];
    }
    assert ls == Column(leaves);
    var c := ComputeSiblings(H, zeroHashes, rollupIndex, ls, height);
    if c.IndexOutOfRange? {
      return Panics;
    } else if c.MoreThanOneRoot? {
      return Failed;
    } else if root != c.root {
      return Failed;
    } else if |c.siblings| == 0 || |ls| == 0 {
      return Failed;
    } else if |ls| <= rollupIndex {
      return Failed;  // not synced yet
    }
    ProofFolds(H, ls, rollupIndex, height);
    r := RollupProof(c.siblings, ls[rollupIndex]);
  }

  method EmptyProof() returns (proof: seq<Digest>)
    ensures |proof| == 32 && forall k :: 0 <= k < 32 ==> proof[k] == HASH_ZERO
  {
    proof := [];
    for i := 0 to 32
      invariant |proof| == i && forall k :: 0 <= k < i ==> proof[k] == HASH_ZERO
    {
      proof := proof + [HASH_ZERO];
    }
  }

  datatype ClaimProof =
    | Claim(merkleProof: seq<Digest>, rollupProof: seq<Digest>, localRoot: Digest)
    | NoClaim
    | ClaimPanics

  ghost predicate LeafStored(rows: seq<RollupRow>, rollupIndex: nat, root: Digest, leaf: Digest) {
    rollupIndex < |LeavesByRoot(rows, root)| && leaf == LeavesByRoot(rows, root)[rollupIndex].leaf
  }

  /** The branch on the network: the root the deposit is proved against, and the proof of that root. */
  method ChooseLocalRoot(s: BridgeService, zeroHashes: seq<Digest>, rows: seq<RollupRow>, networkID: nat,
                         roots: ExitRoots)
    returns (r: RollupProof)
    requires ZeroTable(s.H, zeroHashes) && 1 <= s.height <= MAX_HEIGHT
    ensures networkID == 0 ==> r == RollupProof(seq(32, _ => HASH_ZERO), roots.mainnet)
    ensures networkID > 0 && r.RollupProof? ==>
      |r.siblings| == s.height && Climb(s.H, r.leaf, r.siblings, networkID - 1) == roots.rollup
    ensures networkID > 0 && r.RollupProof? ==> LeafStored(rows, networkID - 1, roots.rollup, r.leaf)
    ensures networkID > 0 && RollupProvable(s.H, s.height, rows, networkID - 1, roots.rollup) ==> r.RollupProof?
    ensures r.Panics? <==> networkID > 0 && PastRows(rows, networkID - 1, roots.rollup)
  {
    if networkID == 0 {
      var empty := EmptyProof();
      assert empty == seq(32, _ => HASH_ZERO);
      return RollupProof(empty, roots.mainnet);
    }
    r := GetRollupExitProof(s.H, zeroHashes, s.height, rows, networkID - 1, roots.rollup);
  }

  ghost predicate HasWalk(H: PairHash, height: nat, db: DB, root: Digest, index: nat) {
    exists walk :: StoredWalk(H, db, root, index, height, walk)
  }

  /** The tables hold what a claim of the deposit needs. */
  ghost predicate Provable(H: PairHash, height: nat, db: DB, rows: seq<RollupRow>, networkID: nat, depositCount: nat,
                           roots: ExitRoots) {
    if networkID == 0 then HasWalk(H, height, db, roots.mainnet, depositCount)
    else
      && RollupProvable(H, height, rows, networkID - 1, roots.rollup)
      && HasWalk(H, height, db, LeavesByRoot(rows, roots.rollup)[networkID - 1].leaf, depositCount)
  }

  /** Folding at the deposit's own indices is folding at the decoded ones. */
  lemma VerifiesAtIndex(H: PairHash, networkID: nat, depositCount: nat, leaf: Digest, merkleProof: seq<Digest>,
                        rollupProof: seq<Digest>, localRoot: Digest, roots: ExitRoots)
    requires networkID < WORD && depositCount < WORD
    requires Climb(H, leaf, merkleProof, depositCount) == localRoot
    requires if networkID == 0 then localRoot == roots.mainnet
             else Climb(H, localRoot, rollupProof, networkID - 1) == roots.rollup
    ensures GlobalIndexOf(networkID, depositCount) < LIMIT
    ensures Verifies(H, GlobalIndexOf(networkID, depositCount), leaf, merkleProof, rollupProof, roots)
  {
    var rollupIndex := (networkID + WORD - 1) % WORD;
    assert networkID > 0 ==> rollupIndex == networkID - 1;
    DecodeGenerated(networkID == 0, rollupIndex, depositCount);
  }

  /** `GetClaimProof`, for the deposit and exit roots read from storage. A proof it returns passes the
      contract's check at the deposit's global index, and only for the deposit's own leaf. */
  method GetClaimProof(s: BridgeService, zeroHashes: seq<Digest>, db: DB, rows: seq<RollupRow>, depositCount: nat,
                       networkID: nat, readyForClaim: bool, roots: ExitRoots)
    returns (r: ClaimProof, ghost leaf: Digest)
    requires Injective(s.H) && 1 <= s.height <= MAX_HEIGHT && ZeroTable(s.H, zeroHashes)
    requires Sound(s.H, db) && s.CacheSound()
    requires depositCount < WORD && networkID < WORD
    modifies s`cache
    ensures s.CacheSound()
    ensures !readyForClaim ==> r.NoClaim?
    ensures r.ClaimPanics? <==> readyForClaim && networkID > 0 && PastRows(rows, networkID - 1, roots.rollup)
    ensures readyForClaim && Provable(s.H, s.height, db, rows, networkID, depositCount, roots) ==> r.Claim?
    ensures r.Claim? ==> GlobalIndexOf(networkID, depositCount) < LIMIT
    ensures r.Claim? ==>
      Verifies(s.H, GlobalIndexOf(networkID, depositCount), leaf, r.merkleProof, r.rollupProof, roots)
    ensures r.Claim? ==> |r.merkleProof| == s.height && Climb(s.H, leaf, r.merkleProof, depositCount) == r.localRoot
    ensures r.Claim? && networkID == 0 ==> r.localRoot == roots.mainnet && r.rollupProof == seq(32, _ => HASH_ZERO)
    ensures r.Claim? && networkID > 0 ==>
      && |r.rollupProof| == s.height && Climb(s.H, r.localRoot, r.rollupProof, networkID - 1) == roots.rollup
      && LeafStored(rows, networkID - 1, roots.rollup, r.localRoot)
    ensures r.Claim? ==>
      forall leaves :: depositCount < |leaves| <= Pow2(s.height) && r.localRoot == Root(s.H, leaves, s.height) ==>
      leaf == leaves[depositCount] && r.merkleProof == ProofOf(s.H, leaves, depositCount, s.height)
  {
    leaf := HASH_ZERO;
    if !readyForClaim {
      return NoClaim, leaf;
    }
    var p := ChooseLocalRoot(s, zeroHashes, rows, networkID, roots);
    if p.Panics? {
      return ClaimPanics, leaf;
    } else if p.Failed? {
      return NoClaim, leaf;
    }
    var ok, merkleProof;
    ghost var links;
    ok, merkleProof, leaf, links := s.GetProof(db, depositCount, p.leaf);
    if !ok {
      return NoClaim, leaf;
    }
    VerifiesAtIndex(s.H, networkID, depositCount, leaf, merkleProof, p.siblings, p.leaf, roots);
    forall leaves | depositCount < |leaves| <= Pow2(s.height) && p.leaf == Root(s.H, leaves, s.height)
      ensures leaf == leaves[depositCount] && merkleProof == ProofOf(s.H, leaves, depositCount, s.height)
    {
      OnlyTheLeafFolds(s.H, leaves, depositCount, s.height, leaf, merkleProof);
    }
    r := Claim(merkleProof, p.siblings, p.leaf);
  }

  /** Recorded vectors have different roots. */
  ghost predicate DistinctRoots(H: PairHash, height: nat, vectors: seq<seq<Digest>>) {
    forall j, k :: 0 <= j < k < |vectors| ==> Root(H, vectors[j], height) != Root(H, vectors[k], height)
  }

  lemma {:induction false} RecordedRootsDistinct(H: PairHash, height: nat, calls: seq<Call>)
    requires forall k :: 0 <= k < |calls| ==> calls[k].rollupID >= 1
    ensures DistinctRoots(H, height, StoredAfter(H, height, calls))
  {
    if calls != [] {
      RecordedRootsDistinct(H, height, calls[..|calls| - 1]);
    }
  }

  lemma {:induction false} OtherRowsSkipped(rows: seq<RollupRow>, batch: seq<RollupRow>, root: Digest)
    requires forall k :: 0 <= k < |batch| ==> batch[k].root != root
    ensures LeavesByRoot(rows + batch, root) == LeavesByRoot(rows, root)
    decreases |batch|
  {
    if batch == [] {
      assert rows + batch == rows;
    } else {
      var all := rows + batch;
      assert all[..|all| - 1] == rows + batch[..|batch| - 1];
      OtherRowsSkipped(rows, batch[..|batch| - 1], root);
    }
  }

  lemma {:induction false} BatchRead(rows: seq<RollupRow>, batch: seq<RollupRow>, root: Digest)
    requires LeavesByRoot(rows, root) == [] && Numbered(batch)
    requires forall k :: 0 <= k < |batch| ==> batch[k].root == root
    ensures LeavesByRoot(rows + batch, root) == batch
    decreases |batch|
  {
    if batch == [] {
      assert rows + batch == rows;
    } else {
      var all := rows + batch;
      assert all[..|all| - 1] == rows + batch[..|batch| - 1];
      BatchRead(rows, batch[..|batch| - 1], root);
      assert batch == batch[..|batch| - 1] + [batch[|batch| - 1]];
    }
  }

  lemma {:induction false} NothingByOtherRoot(H: PairHash, height: nat, vectors: seq<seq<Digest>>, root: Digest)
    requires forall k :: 0 <= k < |vectors| ==> Root(H, vectors[k], height) != root
    ensures LeavesByRoot(Batches(H, height, vectors), root) == []
  {
    if vectors != [] {
      var n := |vectors| - 1;
      NothingByOtherRoot(H, height, vectors[..n], root);
      OtherRowsSkipped(Batches(H, height, vectors[..n]), Batch(H, height, vectors[n]), root);
    }
  }

  /** A recorded vector is read back whole by its root. */
  lemma {:induction false} VectorReadByRoot(H: PairHash, height: nat, vectors: seq<seq<Digest>>, k: nat)
    requires DistinctRoots(H, height, vectors) && k < |vectors|
    ensures LeavesByRoot(Batches(H, height, vectors), Root(H, vectors[k], height)) == Batch(H, height, vectors[k])
  {
    var n, root := |vectors| - 1, Root(H, vectors[k], height);
    var before := vectors[..n];
    if k < n {
      VectorReadByRoot(H, height, before, k);
      OtherRowsSkipped(Batches(H, height, before), Batch(H, height, vectors[n]), root);
    } else {
      NothingByOtherRoot(H, height, before, root);
      BatchRead(Batches(H, height, before), Batch(H, height, vectors[n]), root);
    }
  }

  /** Every leaf of a recorded vector can be proved against its root. */
  lemma RecordedIsProvable(H: PairHash, height: nat, calls: seq<Call>, k: nat, rollupIndex: nat)
    requires RollupExits.Fits(height, calls)
    requires k < |StoredAfter(H, height, calls)| && rollupIndex < |StoredAfter(H, height, calls)[k]|
    ensures var vectors := StoredAfter(H, height, calls);
      var rows, root := Batches(H, height, vectors), Root(H, vectors[k], height);
      && RollupProvable(H, height, rows, rollupIndex, root)
      && LeavesByRoot(rows, root)[rollupIndex].leaf == vectors[k][rollupIndex]
  {
    hide Batches;
    hide StoredAfter;
    hide LeavesByRoot;
    hide Node;
    var vectors := StoredAfter(H, height, calls);
    RecordedRootsDistinct(H, height, calls);
    StoredAfterGrows(H, height, calls);
    VectorReadByRoot(H, height, vectors, k);
    assert Column(Batch(H, height, vectors[k])) == vectors[k];
  }

  /** After any run of deposits and rollup updates, a deposit under a stored mainnet root, or under a
      stored root that is its rollup's leaf in a recorded vector, can be claimed. */
  lemma StoredDepositsAreProvable(H: PairHash, height: nat, db: DB, networkID: nat, t: Tree, m: nat, depositCount: nat,
                                  calls: seq<Call>, k: nat, roots: ExitRoots)
    requires Mirrors(H, height, networkID, db, t) && RollupExits.Fits(height, calls)
    requires depositCount < m <= |t.leaves| && m <= Pow2(height)
    requires networkID == 0 ==> roots.mainnet == Root(H, t.leaves[..m], height)
    requires networkID > 0 ==> k < |StoredAfter(H, height, calls)| && networkID <= |StoredAfter(H, height, calls)[k]|
    requires networkID > 0 ==> StoredAfter(H, height, calls)[k][networkID - 1] == Root(H, t.leaves[..m], height)
    requires networkID > 0 ==> roots.rollup == Root(H, StoredAfter(H, height, calls)[k], height)
    ensures Provable(H, height, db, Batches(H, height, StoredAfter(H, height, calls)), networkID, depositCount, roots)
  {
    hide RollupProvable;
    hide StoredWalk;
    hide Batches;
    hide StoredAfter;
    hide LeavesByRoot;
    hide Node;
    StoredWalkExists(H, height, networkID, db, t.leaves, t.ids, m, depositCount);
    if networkID > 0 {
      RecordedIsProvable(H, height, calls, k, networkID - 1);
    }
  }
}
