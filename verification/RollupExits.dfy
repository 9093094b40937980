/** The rollup exit tree: every update stores the whole leaf vector again, once per root. */
module RollupExits {
  import opened Levels
  import opened Digests
  import opened CompleteTree
  import opened LevelBuilder

  /** `mt.rollup_exit`, in order of id. */
  datatype RollupRow = RollupRow(leaf: Digest, rollupID: nat, root: Digest)

  /** Keeps one row per rollup, the newest, in order of rollup id. */
  function Upsert(latest: seq<RollupRow>, row: RollupRow): seq<RollupRow> {
    if latest == [] || row.rollupID < latest[0].rollupID then [row] + latest
    else if row.rollupID == latest[0].rollupID then [row] + latest[1..]
    else [latest[0]] + Upsert(latest[1..], row)
  }

  /** `GetLatestRollupExitLeaves`. */
  function Latest(rows: seq<RollupRow>): seq<RollupRow> {
    if rows == [] then [] else Upsert(Latest(rows[..|rows| - 1]), rows[|rows| - 1])
  }

  predicate HasRoot(rows: seq<RollupRow>, root: Digest) {
    exists k :: 0 <= k < |rows| && rows[k].root == root
  }

  /** The rows stored for one vector. */
  function Batch(H: PairHash, height: nat, v: seq<Digest>): (rows: seq<RollupRow>)
    ensures |rows| == |v|
  {
    seq(|v|, i requires 0 <= i < |v| => RollupRow(v[i], i + 1, Root(H, v, height)))
  }

  function Batches(H: PairHash, height: nat, vectors: seq<seq<Digest>>): seq<RollupRow> {
    if vectors == [] then []
    else Batches(H, height, vectors[..|vectors| - 1]) + Batch(H, height, vectors[|vectors| - 1])
  }

  function Newest(vectors: seq<seq<Digest>>): seq<Digest> {
    if vectors == [] then [] else vectors[|vectors| - 1]
  }

  /** The vector with `leaf` as the leaf of `rollupID`, padded with zero leaves where needed. */
  function Put(v: seq<Digest>, rollupID: nat, leaf: Digest): (w: seq<Digest>)
    requires rollupID >= 1
    ensures |w| >= |v| && |w| >= rollupID
  {
    (if |v| < rollupID then v + seq(rollupID - |v|, _ => HASH_ZERO) else v)[rollupID - 1 := leaf]
  }

  ghost predicate Recorded(H: PairHash, height: nat, vectors: seq<seq<Digest>>, v: seq<Digest>) {
    exists k :: 0 <= k < |vectors| && Root(H, vectors[k], height) == Root(H, v, height)
  }

  /** The vectors stored after one call: a vector whose root is stored already is not stored again. */
  ghost function Record(H: PairHash, height: nat, vectors: seq<seq<Digest>>, rollupID: nat,
                        leaf: Digest): seq<seq<Digest>>
    requires rollupID >= 1
  {
    var w := Put(Newest(vectors), rollupID, leaf);
    if Recorded(H, height, vectors, w) then vectors else vectors + [w]
  }

  /** Stored vectors only grow and fit the tree. */
  ghost predicate Growing(height: nat, vectors: seq<seq<Digest>>) {
    && (forall k :: 0 <= k < |vectors| ==> 0 < |vectors[k]| <= Pow2(height))
    && (forall j, k :: 0 <= j <= k < |vectors| ==> |vectors[j]| <= |vectors[k]|)
  }

  /** Position `i` belongs to rollup `i + 1`. */
  ghost predicate Numbered(rows: seq<RollupRow>) {
    forall i :: 0 <= i < |rows| ==> rows[i].rollupID == i + 1
  }

  lemma {:induction false} UpsertInPlace(latest: seq<RollupRow>, from: nat, row: RollupRow)
    requires forall i :: 0 <= i < |latest| ==> latest[i].rollupID == from + i
    requires from <= row.rollupID <= from + |latest|
    ensures Upsert(latest, row) == if row.rollupID == from + |latest| then latest + [row]
                                   else latest[row.rollupID - from := row]
    decreases |latest|
  {
    if latest != [] && row.rollupID > from {
      UpsertInPlace(latest[1..], from + 1, row);
    }
  }

  function Overlay(batch: seq<RollupRow>, latest: seq<RollupRow>): seq<RollupRow> {
    batch + if |batch| < |latest| then latest[|batch|..] else []
  }

  lemma OverlayNext(batch: seq<RollupRow>, latest: seq<RollupRow>, row: RollupRow)
    requires Numbered(batch) && Numbered(latest) && row.rollupID == |batch| + 1
    ensures Upsert(Overlay(batch, latest), row) == Overlay(batch + [row], latest)
  {
    UpsertInPlace(Overlay(batch, latest), 1, row);
  }

  /** Rows for the rollups 1, 2, ... replace the latest ones as far as they go. */
  lemma {:induction false} LatestAfter(rows: seq<RollupRow>, batch: seq<RollupRow>)
    requires Numbered(Latest(rows)) && Numbered(batch)
    ensures Latest(rows + batch) == Overlay(batch, Latest(rows))
    decreases |batch|
  {
    if batch == [] {
      assert rows + batch == rows;
    } else {
      var init, last := batch[..|batch| - 1], batch[|batch| - 1];
      var all := rows + batch;
      assert all[..|all| - 1] == rows + init;
      LatestAfter(rows, init);
      OverlayNext(init, Latest(rows), last);
      assert init + [last] == batch;
    }
  }

  /** So the latest leaves are the newest vector, position `i` carrying rollup id `i + 1`. */
  lemma {:induction false} LatestIsNewest(H: PairHash, height: nat, vectors: seq<seq<Digest>>)
    requires Growing(height, vectors)
    ensures Latest(Batches(H, height, vectors)) == Batch(H, height, Newest(vectors))
  {
    if vectors != [] {
      var before, v := vectors[..|vectors| - 1], vectors[|vectors| - 1];
      LatestIsNewest(H, height, before);
      LatestAfter(Batches(H, height, before), Batch(H, height, v));
      assert before != [] ==> |Newest(before)| <= |v|;
    }
  }

  lemma {:induction false} StoredRoots(H: PairHash, height: nat, vectors: seq<seq<Digest>>, v: seq<Digest>)
    requires Growing(height, vectors)
    ensures HasRoot(Batches(H, height, vectors), Root(H, v, height)) <==> Recorded(H, height, vectors, v)
  {
    if vectors != [] {
      var before, last := vectors[..|vectors| - 1], vectors[|vectors| - 1];
      StoredRoots(H, height, before, v);
      var earlier: seq<RollupRow>, batch: seq<RollupRow> := Batches(H, height, before), Batch(H, height, last);
      var all: seq<RollupRow> := earlier + batch;
      if Root(H, last, height) == Root(H, v, height) {
        assert all[|earlier|].root == Root(H, v, height);
      }
      if HasRoot(earlier, Root(H, v, height)) {
        var k :| 0 <= k < |earlier| && earlier[k].root == Root(H, v, height);
        assert all[k] == earlier[k];
      }
    }
  }

  lemma NewestFits(height: nat, vectors: seq<seq<Digest>>)
    requires Growing(height, vectors)
    ensures |Newest(vectors)| <= Pow2(height)
  {
  }

  lemma RecordGrows(H: PairHash, height: nat, vectors: seq<seq<Digest>>, rollupID: nat, leaf: Digest)
    requires Growing(height, vectors) && 1 <= rollupID <= Pow2(height)
    ensures Growing(height, Record(H, height, vectors, rollupID, leaf))
  {
  }

  /** Adds empty rollups up to the new rollup id. */
  method PadRollups(latest: seq<RollupRow>, rollupID: nat) returns (stored: seq<RollupRow>)
    requires Numbered(latest)
    ensures Numbered(stored) && |stored| == if |latest| < rollupID then rollupID else |latest|
    ensures latest <= stored && forall k :: |latest| <= k < |stored| ==> stored[k].leaf == HASH_ZERO
  {
    stored := latest;
    var i := |stored|;
    while i < rollupID
      invariant |stored| == i && |latest| <= i && (i <= rollupID || i == |latest|)
      invariant Numbered(stored) && latest <= stored
      invariant forall k :: |latest| <= k < i ==> stored[k].leaf == HASH_ZERO
    {
      stored := stored + [RollupRow(HASH_ZERO, i + 1, HASH_ZERO)];
      i := i + 1;
    }
  }

  /** `storeLeaves`. */
  method StoreLeaves(H: PairHash, zeroHashes: seq<Digest>, height: nat, rows: seq<RollupRow>, leaves: seq<Digest>,
                     queryFails: bool, insertFails: bool, ghost vectors: seq<seq<Digest>>)
    returns (ok: bool, rows': seq<RollupRow>)
    requires ZeroTable(H, zeroHashes) && 1 <= height <= MAX_HEIGHT
    requires Growing(height, vectors) && rows == Batches(H, height, vectors)
    ensures ok <==>
      |leaves| <= Pow2(height) && !queryFails && (insertFails ==> Recorded(H, height, vectors, leaves))
    ensures ok ==>
      rows' == Batches(H, height, if Recorded(H, height, vectors, leaves) then vectors else vectors + [leaves])
    ensures !ok ==> rows' == rows
  {
    var root;
    ok, root := BuildMTRoot(H, zeroHashes, height, leaves);
    rows' := rows;
    if !ok {
      return;
    }
    if queryFails {
      return false, rows;
    }
    StoredRoots(H, height, vectors, leaves);
    if !HasRoot(rows, root) {
      if insertFails {
        return false, rows;
      }
      var inserts: seq<RollupRow> := [];
      for i := 0 to |leaves|
        invariant |inserts| == i && forall k :: 0 <= k < i ==> inserts[k] == RollupRow(leaves[k], k + 1, root)
      {
        inserts := inserts + [RollupRow(leaves[i], i + 1, root)];
      }
      rows' := rows + inserts;
      assert inserts == Batch(H, height, leaves);
      assert (vectors + [leaves])[..|vectors|] == vectors;
    }
  }

  /** `addRollupExitLeaf`: the mismatch error never occurs; the only error is a full tree. Rollup id zero panics. */
  method AddRollupExitLeaf(H: PairHash, zeroHashes: seq<Digest>, height: nat, rows: seq<RollupRow>,
                           rollupID: nat, leaf: Digest, readFails: bool, queryFails: bool, insertFails: bool,
                           ghost vectors: seq<seq<Digest>>)
    returns (ok: bool, mismatch: bool, panicked: bool, rows': seq<RollupRow>)
    requires ZeroTable(H, zeroHashes) && 1 <= height <= MAX_HEIGHT
    requires Growing(height, vectors) && rows == Batches(H, height, vectors)
    ensures !mismatch && (panicked <==> !readFails && rollupID == 0)
    ensures ok <==>
      && 1 <= rollupID <= Pow2(height) && !readFails && !queryFails
      && (insertFails ==> Recorded(H, height, vectors, Put(Newest(vectors), rollupID, leaf)))
    ensures ok ==> rows' == Batches(H, height, Record(H, height, vectors, rollupID, leaf))
    ensures ok ==> Growing(height, Record(H, height, vectors, rollupID, leaf))
    ensures !ok ==> rows' == rows
  {
    hide Growing;
    hide Batches;
    hide Latest;
    hide Recorded;
    ok, mismatch, panicked, rows' := false, false, false, rows;
    if readFails {
      return;
    }
    panicked := rollupID == 0;
    if panicked {
      return;
    }
    if rollupID <= Pow2(height) {
      RecordGrows(H, height, vectors, rollupID, leaf);
    }
    NewestFits(height, vectors);
    LatestIsNewest(H, height, vectors);
    ghost var v := Newest(vectors);
    var stored := PadRollups(Latest(rows), rollupID);
    mismatch := stored[rollupID - 1].rollupID != rollupID;
    if mismatch {
      return false, mismatch, false, rows;
    }
    stored := stored[rollupID - 1 := RollupRow(leaf, rollupID, HASH_ZERO)];
    var leaves: seq<Digest> := [];
    for k := 0 to |stored|
      invariant |leaves| == k && forall j :: 0 <= j < k ==> leaves[j] == stored[j].leaf
    {
      leaves := leaves + [stored[k].leaf];
    }
    assert leaves == Put(v, rollupID, leaf);
    ok, rows' := StoreLeaves(H, zeroHashes, height, rows, leaves, queryFails, insertFails, vectors);
  }

  datatype Call = Call(rollupID: nat, leaf: Digest)

  predicate Fits(height: nat, calls: seq<Call>) {
    forall k :: 0 <= k < |calls| ==> 1 <= calls[k].rollupID <= Pow2(height)
  }

  /** What the tree should hold after the calls. */
  function Expected(calls: seq<Call>): seq<Digest>
    requires forall k :: 0 <= k < |calls| ==> calls[k].rollupID >= 1
  {
    if calls == [] then []
    else var last := calls[|calls| - 1]; Put(Expected(calls[..|calls| - 1]), last.rollupID, last.leaf)
  }

  /** The leaf last given for a rollup, zero if there was none. */
  function LastLeaf(calls: seq<Call>, rollupID: nat): Digest {
    if calls == [] then HASH_ZERO
    else if calls[|calls| - 1].rollupID == rollupID then calls[|calls| - 1].leaf
    else LastLeaf(calls[..|calls| - 1], rollupID)
  }

  /** What is stored after the calls. */
  ghost function StoredAfter(H: PairHash, height: nat, calls: seq<Call>): seq<seq<Digest>>
    requires forall k :: 0 <= k < |calls| ==> calls[k].rollupID >= 1
  {
    if calls == [] then []
    else
      var last := calls[|calls| - 1];
      Record(H, height, StoredAfter(H, height, calls[..|calls| - 1]), last.rollupID, last.leaf)
  }

  /** Equal up to zero padding. */
  ghost predicate Same(v: seq<Digest>, w: seq<Digest>) {
    forall i: nat :: LeafAt(v, i) == LeafAt(w, i)
  }

  lemma PutKeepsSame(v: seq<Digest>, w: seq<Digest>, rollupID: nat, leaf: Digest)
    requires Same(v, w) && rollupID >= 1
    ensures Same(Put(v, rollupID, leaf), Put(w, rollupID, leaf))
  {
    forall i: nat
      ensures LeafAt(Put(v, rollupID, leaf), i) == LeafAt(Put(w, rollupID, leaf), i)
    {
      assert LeafAt(v, i) == LeafAt(w, i);
    }
  }

  lemma {:induction false} ExpectedHoldsLastLeaves(calls: seq<Call>, rollupID: nat)
    requires forall k :: 0 <= k < |calls| ==> calls[k].rollupID >= 1
    requires rollupID >= 1
    ensures LeafAt(Expected(calls), rollupID - 1) == LastLeaf(calls, rollupID)
  {
    if calls != [] {
      ExpectedHoldsLastLeaves(calls[..|calls| - 1], rollupID);
    }
  }

  lemma SamePadded(H: PairHash, v: seq<Digest>, w: seq<Digest>, height: nat)
    requires Same(v, w) && |v| <= |w|
    ensures Root(H, v, height) == Root(H, w, height)
  {
    var zeros := w[|v|..];
    forall i | 0 <= i < |w|
      ensures w[i] == if i < |v| then v[i] else HASH_ZERO
    {
      assert LeafAt(v, i) == LeafAt(w, i);
    }
    NodeOfPadded(H, v, zeros, height, 0);
    assert v + zeros == w;
  }

  /** Roots tell vectors apart, up to zero padding. */
  lemma RootsTell(H: PairHash, height: nat, v: seq<Digest>, w: seq<Digest>)
    requires Injective(H) && |v| <= Pow2(height) && |w| <= Pow2(height)
    ensures Root(H, v, height) == Root(H, w, height) <==> Same(v, w)
  {
    if Root(H, v, height) == Root(H, w, height) {
      forall i: nat
        ensures LeafAt(v, i) == LeafAt(w, i)
      {
        if i < |v| || i < |w| {
          Capacity(i, height);
          NodeDeterminesLeaves(H, v, w, height, 0, i);
        }
      }
    }
    if Same(v, w) {
      if |v| <= |w| {
        SamePadded(H, v, w, height);
      } else {
        SamePadded(H, w, v, height);
      }
    }
  }

  /** The vector expected after the first `k` calls was not expected before an earlier, different one. */
  ghost predicate NoReturn(calls: seq<Call>, k: nat)
    requires 0 < k <= |calls| && forall j :: 0 <= j < |calls| ==> calls[j].rollupID >= 1
  {
    forall j :: 0 < j < k && Same(Expected(calls[..j]), Expected(calls[..k])) ==>
      Same(Expected(calls[..k - 1]), Expected(calls[..k]))
  }

  /** After the first `k` calls the newest stored vector is the expected one. */
  ghost predicate UpToDate(H: PairHash, height: nat, calls: seq<Call>, k: nat)
    requires k <= |calls| && forall j :: 0 <= j < |calls| ==> calls[j].rollupID >= 1
  {
    Same(Newest(StoredAfter(H, height, calls[..k])), Expected(calls[..k]))
  }

  lemma {:induction false} StoredAfterGrows(H: PairHash, height: nat, calls: seq<Call>)
    requires Fits(height, calls)
    ensures Growing(height, StoredAfter(H, height, calls))
    ensures |Expected(calls)| <= Pow2(height)
  {
    if calls != [] {
      StoredAfterGrows(H, height, calls[..|calls| - 1]);
    }
  }

  ghost predicate Holds(vectors: seq<seq<Digest>>, v: seq<Digest>) {
    exists i :: 0 <= i < |vectors| && Same(vectors[i], v)
  }

  /** `v` was expected after some of the first `k` calls. */
  ghost predicate WasExpected(calls: seq<Call>, k: nat, v: seq<Digest>)
    requires k <= |calls| && forall j :: 0 <= j < |calls| ==> calls[j].rollupID >= 1
  {
    exists j :: 0 < j <= k && Same(Expected(calls[..j]), v)
  }

  lemma SameVia(u: seq<Digest>, v: seq<Digest>, w: seq<Digest>)
    requires Same(u, v)
    ensures Same(v, w) <==> Same(u, w)
  {
  }

  lemma RecordExtends(H: PairHash, height: nat, vectors: seq<seq<Digest>>, rollupID: nat, leaf: Digest)
    requires rollupID >= 1
    ensures var after := Record(H, height, vectors, rollupID, leaf);
      vectors <= after && |after| <= |vectors| + 1 && after != []
  {
  }

  /** With its newest vector the expected one, storage holds what it held before and that vector. */
  lemma HoldsOneMore(before: seq<seq<Digest>>, after: seq<seq<Digest>>, e: seq<Digest>, v: seq<Digest>)
    requires before <= after && |after| <= |before| + 1 && after != [] && Same(after[|after| - 1], e)
    ensures Holds(after, v) <==> Holds(before, v) || Same(e, v)
  {
    SameVia(after[|after| - 1], e, v);
    if Holds(after, v) {
      var i :| 0 <= i < |after| && Same(after[i], v);
      if i < |before| {
        assert before[i] == after[i];
      }
    }
    if Holds(before, v) {
      var i :| 0 <= i < |before| && Same(before[i], v);
      assert after[i] == before[i];
    }
  }

  lemma ExpectedOneMore(calls: seq<Call>, k: nat, v: seq<Digest>)
    requires 0 < k <= |calls| && forall j :: 0 <= j < |calls| ==> calls[j].rollupID >= 1
    ensures WasExpected(calls, k, v) <==> WasExpected(calls, k - 1, v) || Same(Expected(calls[..k]), v)
  {
  }

  /** While it was up to date, exactly the expected vectors are stored. */
  lemma {:induction false} StoredAreExpected(H: PairHash, height: nat, calls: seq<Call>, k: nat, v: seq<Digest>)
    requires Fits(height, calls) && k <= |calls|
    requires forall j :: 0 <= j <= k ==> UpToDate(H, height, calls, j)
    ensures Holds(StoredAfter(H, height, calls[..k]), v) <==> WasExpected(calls, k, v)
  {
    if k > 0 {
      hide Same;
      hide Holds;
      hide WasExpected;
      hide Record;
      assert calls[..k][..k - 1] == calls[..k - 1];
      var before := StoredAfter(H, height, calls[..k - 1]);
      StoredAreExpected(H, height, calls, k - 1, v);
      RecordExtends(H, height, before, calls[k - 1].rollupID, calls[k - 1].leaf);
      assert UpToDate(H, height, calls, k);
      HoldsOneMore(before, StoredAfter(H, height, calls[..k]), Expected(calls[..k]), v);
      ExpectedOneMore(calls, k, v);
    }
  }

  lemma RecordedIsHeld(H: PairHash, height: nat, vectors: seq<seq<Digest>>, w: seq<Digest>)
    requires Injective(H) && Growing(height, vectors) && |w| <= Pow2(height)
    ensures Recorded(H, height, vectors, w) <==> Holds(vectors, w)
  {
    forall k | 0 <= k < |vectors|
      ensures Root(H, vectors[k], height) == Root(H, w, height) <==> Same(vectors[k], w)
    {
      RootsTell(H, height, vectors[k], w);
    }
  }

  /** One call: with everything up to date before, it is up to date after exactly when the new
      vector does not return to an earlier one. */
  lemma CallExact(H: PairHash, height: nat, calls: seq<Call>, k: nat)
    requires Injective(H) && Fits(height, calls) && 0 < k <= |calls|
    requires forall j :: 0 <= j < k ==> UpToDate(H, height, calls, j)
    ensures UpToDate(H, height, calls, k) <==> NoReturn(calls, k)
  {
    assert calls[..k][..k - 1] == calls[..k - 1];
    var vectors, call := StoredAfter(H, height, calls[..k - 1]), calls[k - 1];
    var w := Put(Newest(vectors), call.rollupID, call.leaf);
    assert UpToDate(H, height, calls, k - 1);
    PutKeepsSame(Newest(vectors), Expected(calls[..k - 1]), call.rollupID, call.leaf);
    assert Same(w, Expected(calls[..k]));
    StoredAfterGrows(H, height, calls[..k - 1]);
    RecordedIsHeld(H, height, vectors, w);
    StoredAreExpected(H, height, calls, k - 1, w);
  }

  /** Whole runs: the newest stored vector is always the expected one exactly when no expected
      vector returns after a different one. */
  lemma {:induction false} UpToDateExactly(H: PairHash, height: nat, calls: seq<Call>, n: nat)
    requires Injective(H) && Fits(height, calls) && n <= |calls|
    ensures (forall k :: 0 <= k <= n ==> UpToDate(H, height, calls, k))
       <==> (forall k :: 0 < k <= n ==> NoReturn(calls, k))
  {
    if n > 0 {
      UpToDateExactly(H, height, calls, n - 1);
      if forall k :: 0 <= k < n ==> UpToDate(H, height, calls, k) {
        CallExact(H, height, calls, n);
      }
    } else {
      assert calls[..0] == [];
    }
  }

  /** Then position `r - 1` of the stored vector is the last leaf of rollup `r`. */
  lemma StoredVectorHoldsLastLeaves(H: PairHash, height: nat, calls: seq<Call>, rollupID: nat)
    requires Injective(H) && Fits(height, calls) && rollupID >= 1
    requires forall k :: 0 < k <= |calls| ==> NoReturn(calls, k)
    ensures LeafAt(Newest(StoredAfter(H, height, calls)), rollupID - 1) == LastLeaf(calls, rollupID)
  {
    UpToDateExactly(H, height, calls, |calls|);
    assert calls[..|calls|] == calls;
    assert UpToDate(H, height, calls, |calls|);
    ExpectedHoldsLastLeaves(calls, rollupID);
  }

  /** A leaf that comes back is lost: after `a`, `b`, `a` the stored leaf is still `b`. */
  lemma ReturningLeafIsLost(H: PairHash, height: nat, a: Digest, b: Digest)
    requires Injective(H) && a != b
    ensures var calls := [Call(1, a), Call(1, b), Call(1, a)];
      Newest(StoredAfter(H, height, calls)) == [b] && LastLeaf(calls, 1) == a
  {
    var one, two, three := [Call(1, a)], [Call(1, a), Call(1, b)], [Call(1, a), Call(1, b), Call(1, a)];
    assert one[..0] == [] && two[..1] == one && three[..2] == two;
    assert Pow2(height) >= 1;
    RootsTell(H, height, [a], [b]);
    assert LeafAt([a], 0) != LeafAt([b], 0);
    assert Put([], 1, a) == [a] && Put([a], 1, b) == [b] && Put([b], 1, a) == [a];
    assert StoredAfter(H, height, one) == [[a]];
    assert StoredAfter(H, height, two) == [[a], [b]];
    assert Recorded(H, height, [[a], [b]], [a]) by {
      assert [[a], [b]][0] == [a];
    }
  }
}
