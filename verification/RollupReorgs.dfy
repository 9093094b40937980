/** Reorganisations of the rollup exit table: rows go with the block of the call that stored them. */
module RollupReorgs {
  import opened Levels
  import opened Digests
  import opened CompleteTree
  import opened RollupExits

  /** A row of `mt.rollup_exit` with the number of its block. */
  datatype BlockedRow = BlockedRow(row: RollupRow, block: nat)

  datatype BlockedCall = BlockedCall(call: Call, block: nat)

  /** A vector as it was stored. */
  datatype Entry = Entry(vector: seq<Digest>, block: nat)

  function Plain(rows: seq<BlockedRow>): seq<RollupRow> {
    seq(|rows|, k requires 0 <= k < |rows| => rows[k].row)
  }

  function Calls(calls: seq<BlockedCall>): (plain: seq<Call>)
    ensures |plain| == |calls| && forall k :: 0 <= k < |calls| ==> plain[k] == calls[k].call
  {
    seq(|calls|, k requires 0 <= k < |calls| => calls[k].call)
  }

  function Vectors(entries: seq<Entry>): seq<seq<Digest>> {
    seq(|entries|, k requires 0 <= k < |entries| => entries[k].vector)
  }

  function LeavesIn(rows: seq<RollupRow>): seq<Digest> {
    seq(|rows|, k requires 0 <= k < |rows| => rows[k].leaf)
  }

  function Tagged(rows: seq<RollupRow>, block: nat): seq<BlockedRow> {
    seq(|rows|, k requires 0 <= k < |rows| => BlockedRow(rows[k], block))
  }

  function Rows(H: PairHash, height: nat, entries: seq<Entry>): seq<BlockedRow> {
    if entries == [] then []
    else
      var e := entries[|entries| - 1];
      Rows(H, height, entries[..|entries| - 1]) + Tagged(Batch(H, height, e.vector), e.block)
  }

  /** One call on the table: the latest leaves with the new one, unless their root is stored. */
  function AddRow(H: PairHash, height: nat, rows: seq<BlockedRow>, c: BlockedCall): seq<BlockedRow>
    requires c.call.rollupID >= 1
  {
    var w := Put(LeavesIn(Latest(Plain(rows))), c.call.rollupID, c.call.leaf);
    if HasRoot(Plain(rows), Root(H, w, height)) then rows else rows + Tagged(Batch(H, height, w), c.block)
  }

  /** The rows of deleted blocks are deleted. */
  function CutRows(rows: seq<BlockedRow>, n: nat): seq<BlockedRow> {
    if rows == [] then []
    else
      var before, last := CutRows(rows[..|rows| - 1], n), rows[|rows| - 1];
      if last.block <= n then before + [last] else before
  }

  /** The vectors stored after the calls, each with the block of the call that stored it. */
  ghost function EntriesAfter(H: PairHash, height: nat, calls: seq<BlockedCall>): seq<Entry>
    requires forall k :: 0 <= k < |calls| ==> calls[k].call.rollupID >= 1
  {
    if calls == [] then []
    else
      var before, c := EntriesAfter(H, height, calls[..|calls| - 1]), calls[|calls| - 1];
      var w := Put(Newest(Vectors(before)), c.call.rollupID, c.call.leaf);
      if Recorded(H, height, Vectors(before), w) then before else before + [Entry(w, c.block)]
  }

  predicate InOrder(calls: seq<BlockedCall>) {
    forall j, k :: 0 <= j < k < |calls| ==> calls[j].block <= calls[k].block
  }

  predicate FitAll(height: nat, calls: seq<BlockedCall>) {
    Fits(height, Calls(calls))
  }

  /** The calls up to a block. */
  function CallsUpTo(calls: seq<BlockedCall>, n: nat): (m: nat)
    ensures m <= |calls|
  {
    if calls == [] then 0
    else if calls[|calls| - 1].block <= n then |calls|
    else CallsUpTo(calls[..|calls| - 1], n)
  }

  lemma OneMoreEntry(entries: seq<Entry>, e: Entry)
    ensures Vectors(entries + [e]) == Vectors(entries) + [e.vector]
  {
  }

  lemma OneMoreCall(calls: seq<BlockedCall>)
    requires calls != []
    ensures Calls(calls)[..|calls| - 1] == Calls(calls[..|calls| - 1])
  {
  }

  lemma NoVectors()
    ensures Vectors([]) == []
  {
  }

  lemma {:induction false} EntriesAreStored(H: PairHash, height: nat, calls: seq<BlockedCall>)
    requires forall k :: 0 <= k < |calls| ==> calls[k].call.rollupID >= 1
    ensures Vectors(EntriesAfter(H, height, calls)) == StoredAfter(H, height, Calls(calls))
  {
    hide Vectors;
    hide Recorded;
    hide Put;
    hide Newest;
    if calls == [] {
      NoVectors();
    } else {
      var init, c := calls[..|calls| - 1], calls[|calls| - 1];
      EntriesAreStored(H, height, init);
      OneMoreCall(calls);
      var before := EntriesAfter(H, height, init);
      OneMoreEntry(before, Entry(Put(Newest(Vectors(before)), c.call.rollupID, c.call.leaf), c.block));
    }
  }

  lemma {:induction false} RowsAreBatches(H: PairHash, height: nat, entries: seq<Entry>)
    ensures Plain(Rows(H, height, entries)) == Batches(H, height, Vectors(entries))
  {
    if entries != [] {
      var init, e := entries[..|entries| - 1], entries[|entries| - 1];
      RowsAreBatches(H, height, init);
      assert Vectors(entries)[..|entries| - 1] == Vectors(init);
      var rows, batch := Rows(H, height, init), Batch(H, height, e.vector);
      assert Plain(rows + Tagged(batch, e.block)) == Plain(rows) + batch;
    }
  }

  /** A call on the table is one more entry. */
  lemma AddIsEntry(H: PairHash, height: nat, calls: seq<BlockedCall>)
    requires calls != [] && FitAll(height, calls)
    ensures AddRow(H, height, Rows(H, height, EntriesAfter(H, height, calls[..|calls| - 1])), calls[|calls| - 1])
         == Rows(H, height, EntriesAfter(H, height, calls))
  {
    hide Latest;
    hide HasRoot;
    hide Recorded;
    hide Batches;
    hide StoredAfter;
    hide Growing;
    var init, c := calls[..|calls| - 1], calls[|calls| - 1];
    var before := EntriesAfter(H, height, init);
    var vectors := Vectors(before);
    assert Fits(height, Calls(init)) by {
      assert forall k :: 0 <= k < |init| ==> Calls(init)[k] == Calls(calls)[k];
    }
    EntriesAreStored(H, height, init);
    StoredAfterGrows(H, height, Calls(init));
    RowsAreBatches(H, height, before);
    LatestIsNewest(H, height, vectors);
    assert LeavesIn(Batch(H, height, Newest(vectors))) == Newest(vectors);
    var w := Put(Newest(vectors), c.call.rollupID, c.call.leaf);
    StoredRoots(H, height, vectors, w);
    if !Recorded(H, height, vectors, w) {
      assert (before + [Entry(w, c.block)])[..|before|] == before;
    }
  }

  /** The positions of the rows of blocks up to a number, among the first `m`. */
  function KeptBefore(rows: seq<BlockedRow>, n: nat, m: nat): set<nat> {
    set i: nat | i < m && i < |rows| && rows[i].block <= n
  }

  lemma {:induction false} KeptCount(rows: seq<BlockedRow>, n: nat, m: nat)
    requires m <= |rows|
    ensures |CutRows(rows[..m], n)| == |KeptBefore(rows, n, m)|
  {
    if m == 0 {
      assert KeptBefore(rows, n, m) == {};
    } else {
      KeptCount(rows, n, m - 1);
      assert rows[..m][..m - 1] == rows[..m - 1];
      if rows[m - 1].block <= n {
        assert KeptBefore(rows, n, m) == KeptBefore(rows, n, m - 1) + {m - 1};
      } else {
        assert KeptBefore(rows, n, m) == KeptBefore(rows, n, m - 1);
      }
    }
  }

  lemma {:induction false} CutGrows(rows: seq<BlockedRow>, n: nat, m: nat)
    requires m <= |rows|
    ensures CutRows(rows[..m], n) <= CutRows(rows, n)
    decreases |rows|
  {
    if m == |rows| {
      assert rows[..m] == rows;
    } else {
      var init := rows[..|rows| - 1];
      CutGrows(init, n, m);
      assert init[..m] == rows[..m];
    }
  }

  /** Exactly the rows of blocks up to the number are left, in order. */
  lemma CutKeeps(rows: seq<BlockedRow>, n: nat)
    ensures |CutRows(rows, n)| == |KeptBefore(rows, n, |rows|)|
    ensures forall i: nat :: i < |rows| && rows[i].block <= n ==>
      && |KeptBefore(rows, n, i)| < |CutRows(rows, n)|
      && CutRows(rows, n)[|KeptBefore(rows, n, i)|] == rows[i]
  {
    hide KeptBefore;
    KeptCount(rows, n, |rows|);
    assert rows[..|rows|] == rows;
    forall i: nat | i < |rows| && rows[i].block <= n
      ensures |KeptBefore(rows, n, i)| < |CutRows(rows, n)| && CutRows(rows, n)[|KeptBefore(rows, n, i)|] == rows[i]
    {
      KeptCount(rows, n, i);
      CutGrows(rows, n, i + 1);
      assert rows[..i + 1][..i] == rows[..i];
    }
  }

  /** Of calls in order of blocks exactly those up to the number are counted. */
  lemma {:induction false} CallsSplit(calls: seq<BlockedCall>, n: nat)
    requires InOrder(calls)
    ensures forall k :: 0 <= k < |calls| ==> (calls[k].block <= n <==> k < CallsUpTo(calls, n))
    decreases |calls|
  {
    if calls != [] && calls[|calls| - 1].block > n {
      var init := calls[..|calls| - 1];
      CallsSplit(init, n);
      forall k | 0 <= k < |init|
        ensures calls[k].block <= n <==> k < CallsUpTo(calls, n)
      {
        assert init[k] == calls[k];
      }
    }
  }

  lemma {:induction false} CutSplits(rows: seq<BlockedRow>, batch: seq<BlockedRow>, n: nat)
    ensures CutRows(rows + batch, n) == CutRows(rows, n) + CutRows(batch, n)
    decreases |batch|
  {
    if batch == [] {
      assert rows + batch == rows;
    } else {
      CutSplits(rows, batch[..|batch| - 1], n);
      assert (rows + batch)[..|rows + batch| - 1] == rows + batch[..|batch| - 1];
    }
  }

  lemma {:induction false} CutTagged(rows: seq<RollupRow>, block: nat, n: nat)
    ensures CutRows(Tagged(rows, block), n) == if block <= n then Tagged(rows, block) else []
    decreases |rows|
  {
    if rows != [] {
      CutTagged(rows[..|rows| - 1], block, n);
      assert Tagged(rows, block)[..|rows| - 1] == Tagged(rows[..|rows| - 1], block);
    }
  }

  /** Entries of blocks up to a number are not cut. */
  lemma {:induction false} CutNothing(H: PairHash, height: nat, entries: seq<Entry>, n: nat)
    requires forall k :: 0 <= k < |entries| ==> entries[k].block <= n
    ensures CutRows(Rows(H, height, entries), n) == Rows(H, height, entries)
  {
    if entries != [] {
      var init, e := entries[..|entries| - 1], entries[|entries| - 1];
      CutNothing(H, height, init, n);
      CutSplits(Rows(H, height, init), Tagged(Batch(H, height, e.vector), e.block), n);
      CutTagged(Batch(H, height, e.vector), e.block, n);
    }
  }

  lemma {:induction false} EntryBlocks(H: PairHash, height: nat, calls: seq<BlockedCall>, n: nat)
    requires forall k :: 0 <= k < |calls| ==> calls[k].call.rollupID >= 1 && calls[k].block <= n
    ensures forall k :: 0 <= k < |EntriesAfter(H, height, calls)| ==> EntriesAfter(H, height, calls)[k].block <= n
  {
    if calls != [] {
      EntryBlocks(H, height, calls[..|calls| - 1], n);
    }
  }

  /** Cutting the rows is dropping the calls of the deleted blocks. */
  lemma {:induction false} CutIsDropping(H: PairHash, height: nat, calls: seq<BlockedCall>, n: nat)
    requires InOrder(calls) && forall k :: 0 <= k < |calls| ==> calls[k].call.rollupID >= 1
    ensures CutRows(Rows(H, height, EntriesAfter(H, height, calls)), n)
         == Rows(H, height, EntriesAfter(H, height, calls[..CallsUpTo(calls, n)]))
    decreases |calls|
  {
    if calls == [] {
    } else if calls[|calls| - 1].block <= n {
      assert calls[..|calls|] == calls;
      EntryBlocks(H, height, calls, n);
      CutNothing(H, height, EntriesAfter(H, height, calls), n);
    } else {
      var init, c := calls[..|calls| - 1], calls[|calls| - 1];
      CutIsDropping(H, height, init, n);
      var m := CallsUpTo(calls, n);
      assert calls[..m] == init[..m];
      var before, after := EntriesAfter(H, height, init), EntriesAfter(H, height, calls);
      if after != before {
        var e := after[|before|];
        assert after[..|before|] == before;
        CutSplits(Rows(H, height, before), Tagged(Batch(H, height, e.vector), e.block), n);
        CutTagged(Batch(H, height, e.vector), e.block, n);
      }
    }
  }

  datatype Step = Add(c: BlockedCall) | Cut(number: nat)

  /** The calls that are left after calls and reorganisations. */
  function Survivors(steps: seq<Step>): seq<BlockedCall> {
    if steps == [] then []
    else
      var before := Survivors(steps[..|steps| - 1]);
      match steps[|steps| - 1]
      case Add(c) => before + [c]
      case Cut(n) => before[..CallsUpTo(before, n)]
  }

  /** The table after calls and reorganisations. */
  function TableAfter(H: PairHash, height: nat, steps: seq<Step>): seq<BlockedRow>
    requires forall k :: 0 <= k < |steps| && steps[k].Add? ==> steps[k].c.call.rollupID >= 1
  {
    if steps == [] then []
    else
      var before := TableAfter(H, height, steps[..|steps| - 1]);
      match steps[|steps| - 1]
      case Add(c) => AddRow(H, height, before, c)
      case Cut(n) => CutRows(before, n)
  }

  /** Calls fit the tree, and blocks come in order. */
  ghost predicate Possible(height: nat, steps: seq<Step>) {
    && (forall k :: 0 <= k < |steps| && steps[k].Add? ==> 1 <= steps[k].c.call.rollupID <= Pow2(height))
    && forall k :: 0 <= k <= |steps| ==> InOrder(Survivors(steps[..k]))
  }

  lemma PossibleBefore(height: nat, steps: seq<Step>)
    requires Possible(height, steps)
    ensures steps != [] ==> Possible(height, steps[..|steps| - 1])
    ensures forall k :: 0 <= k < |steps| && steps[k].Add? ==> steps[k].c.call.rollupID >= 1
  {
    hide InOrder;
    hide Survivors;
    if steps != [] {
      var init := steps[..|steps| - 1];
      assert forall k :: 0 <= k <= |init| ==> init[..k] == steps[..k];
    }
  }

  lemma {:induction false} SurvivorsFit(height: nat, steps: seq<Step>)
    requires Possible(height, steps)
    ensures FitAll(height, Survivors(steps)) && InOrder(Survivors(steps))
  {
    assert steps[..|steps|] == steps;
    if steps != [] {
      var init := steps[..|steps| - 1];
      PossibleBefore(height, steps);
      SurvivorsFit(height, init);
      assert forall k :: 0 <= k < |Survivors(init)| ==> Calls(Survivors(init))[k] == Survivors(init)[k].call;
    }
  }

  lemma NothingStored(H: PairHash, height: nat)
    ensures Survivors([]) == [] && TableAfter(H, height, []) == []
    ensures Rows(H, height, EntriesAfter(H, height, [])) == []
  {
  }

  lemma FitsAre(height: nat, calls: seq<BlockedCall>)
    requires FitAll(height, calls)
    ensures forall k :: 0 <= k < |calls| ==> calls[k].call.rollupID >= 1
    ensures Fits(height, Calls(calls)) && forall k :: 0 <= k < |Calls(calls)| ==> Calls(calls)[k].rollupID >= 1
    ensures |Calls(calls)| == |calls|
  {
    assert forall k :: 0 <= k < |calls| ==> Calls(calls)[k] == calls[k].call;
  }

  /** One step on the table is one step on the calls. */
  lemma StepIsOfSurvivors(H: PairHash, height: nat, steps: seq<Step>)
    requires steps != [] && forall k :: 0 <= k < |steps| && steps[k].Add? ==> steps[k].c.call.rollupID >= 1
    requires var init := Survivors(steps[..|steps| - 1]); FitAll(height, init) && InOrder(init)
    requires FitAll(height, Survivors(steps))
    requires (forall k :: 0 <= k < |Survivors(steps)| ==> Survivors(steps)[k].call.rollupID >= 1)
    requires var init := steps[..|steps| - 1];
      && (forall k :: 0 <= k < |Survivors(init)| ==> Survivors(init)[k].call.rollupID >= 1)
      && TableAfter(H, height, init) == Rows(H, height, EntriesAfter(H, height, Survivors(init)))
    ensures TableAfter(H, height, steps) == Rows(H, height, EntriesAfter(H, height, Survivors(steps)))
  {
    hide Rows;
    hide EntriesAfter;
    hide AddRow;
    hide CutRows;
    hide CallsUpTo;
    hide FitAll;
    hide InOrder;
    var init, left := Survivors(steps[..|steps| - 1]), Survivors(steps);
    match steps[|steps| - 1]
    case Add(c) =>
      assert left[..|left| - 1] == init;
      AddIsEntry(H, height, left);
    case Cut(n) =>
      CutIsDropping(H, height, init, n);
  }

  /** Over every run of calls and reorganisations the table is that of the calls that are left, so all that holds of
      runs of calls holds of these. */
  lemma {:induction false} TableIsOfSurvivors(H: PairHash, height: nat, steps: seq<Step>)
    requires Possible(height, steps)
    ensures FitAll(height, Survivors(steps))
    ensures TableAfter(H, height, steps) == Rows(H, height, EntriesAfter(H, height, Survivors(steps)))
    ensures Plain(TableAfter(H, height, steps)) == Batches(H, height, StoredAfter(H, height, Calls(Survivors(steps))))
  {
    hide *;
    PossibleBefore(height, steps);
    SurvivorsFit(height, steps);
    var left := Survivors(steps);
    FitsAre(height, left);
    if steps == [] {
      NothingStored(H, height);
    } else {
      var init := steps[..|steps| - 1];
      SurvivorsFit(height, init);
      FitsAre(height, Survivors(init));
      TableIsOfSurvivors(H, height, init);
      StepIsOfSurvivors(H, height, steps);
    }
    RowsAreBatches(H, height, EntriesAfter(H, height, left));
    EntriesAreStored(H, height, left);
  }

  /** So after reorganisations, too, the stored vector holds the last leaf of every rollup, if no vector returns among
      the calls that are left. */
  lemma LatestHoldsLastLeaves(H: PairHash, height: nat, steps: seq<Step>, rollupID: nat)
    requires Injective(H) && Possible(height, steps) && rollupID >= 1
    requires var calls := Calls(Survivors(steps));
      (forall k :: 0 <= k < |calls| ==> calls[k].rollupID >= 1) && forall k :: 0 < k <= |calls| ==> NoReturn(calls, k)
    ensures var latest := LeavesIn(Latest(Plain(TableAfter(H, height, steps))));
      LeafAt(latest, rollupID - 1) == LastLeaf(Calls(Survivors(steps)), rollupID)
  {
    hide NoReturn;
    var calls := Calls(Survivors(steps));
    TableIsOfSurvivors(H, height, steps);
    StoredAfterGrows(H, height, calls);
    var vectors := StoredAfter(H, height, calls);
    LatestIsNewest(H, height, vectors);
    assert LeavesIn(Batch(H, height, Newest(vectors))) == Newest(vectors);
    StoredVectorHoldsLastLeaves(H, height, calls, rollupID);
  }
}
