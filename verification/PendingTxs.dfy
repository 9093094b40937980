/** Grouped claim transactions: the difference of two states as storage changes, and applying it. */
module PendingTxs {

  /** A group as stored. `body` stands for the columns an update writes: retries, compressed data,
      claim history and status. */
  datatype Entry = Entry(groupID: nat, body: nat, depositIDs: seq<nat>, createdAt: nat, updatedAt: nat, lastLog: nat)

  datatype GroupRef = NoGroup | InGroup(groupID: nat)

  /** A transaction. `body` stands for the columns an update writes, `fixed` for those it does not:
      the creation time and the global exit root. */
  datatype Tx = Tx(depositID: nat, body: nat, group: GroupRef, fixed: nat, updatedAt: nat)

  datatype Group = Group(entry: Entry, txs: seq<Tx>)

  type Groups = map<nat, Group>

  datatype Store = Store(groups: map<nat, Entry>, txs: map<nat, Tx>)

  datatype StoreChanges = StoreChanges(addGroups: seq<Entry>, updateGroups: seq<Entry>, updateTxs: seq<Tx>)

  class Pending {
    var groupTx: Groups
    var lastGroupTxID: nat

    constructor (groups: Groups, lastGroupTxID: nat)
      ensures groupTx == groups && this.lastGroupTxID == lastGroupTxID
    {
      groupTx, this.lastGroupTxID := groups, lastGroupTxID;
    }

    /** While the last id bounds the groups, a new id is free, and stays bounding. */
    method GenerateNewGroupID() returns (id: nat)
      modifies this
      ensures lastGroupTxID == id == old(lastGroupTxID) + 1 && groupTx == old(groupTx)
      ensures (forall g :: g in groupTx ==> g <= old(lastGroupTxID)) ==> id !in groupTx && forall g :: g in groupTx ==>
        g <= id
    {
      lastGroupTxID := lastGroupTxID + 1;
      id := lastGroupTxID;
    }

    /** A group already present is kept. */
    method AddGroup(group: Group)
      modifies this
      ensures groupTx == if group.entry.groupID in old(groupTx) then old(groupTx)
                         else old(groupTx)[group.entry.groupID := group]
      ensures lastGroupTxID == old(lastGroupTxID)
    {
      if group.entry.groupID !in groupTx {
        groupTx := groupTx[group.entry.groupID := group];
      }
    }
  }

  function DepositIDs(txs: seq<Tx>): seq<nat> {
    seq(|txs|, k requires 0 <= k < |txs| => txs[k].depositID)
  }

  /** The first transaction of a deposit, as an index; the length if there is none. */
  function Find(txs: seq<Tx>, depositID: nat): (i: nat)
    ensures i <= |txs|
    ensures i < |txs| ==> txs[i].depositID == depositID
    ensures forall k :: 0 <= k < i ==> txs[k].depositID != depositID
  {
    if txs == [] then 0
    else if txs[0].depositID == depositID then 0
    else 1 + Find(txs[1..], depositID)
  }

  function AddedEntry(group: Group, now: nat): Entry {
    group.entry.(updatedAt := now, depositIDs := DepositIDs(group.txs))
  }

  function UpdatedEntry(group: Group, now: nat): Entry {
    group.entry.(updatedAt := now)
  }

  predicate MustAdd(before: Groups, after: Groups, g: nat) {
    g in after && g !in before
  }

  predicate MustUpdate(before: Groups, after: Groups, g: nat) {
    g in after && g in before && before[g].entry != after[g].entry
  }

  /** The transaction is new to its group, or differs from the one there was. */
  predicate MustWrite(before: Groups, g: nat, tx: Tx) {
    g in before ==>
      var i := Find(before[g].txs, tx.depositID); i < |before[g].txs| ==> before[g].txs[i] != tx
  }

  /** A transaction of a group that existed was in it before. */
  predicate Known(before: Groups, g: nat, tx: Tx) {
    g in before ==> Find(before[g].txs, tx.depositID) < |before[g].txs|
  }

  predicate Keyed(groups: Groups) {
    forall g :: g in groups ==> groups[g].entry.groupID == g
  }

  predicate DistinctIDs(entries: seq<Entry>) {
    forall i, j :: 0 <= i < j < |entries| ==> entries[i].groupID != entries[j].groupID
  }

  /** `entries` are exactly those of the groups of `done` that must be added, or updated. */
  ghost predicate AddsFor(before: Groups, after: Groups, now: nat, done: set<nat>, entries: seq<Entry>) {
    && DistinctIDs(entries)
    && (forall e :: e in entries ==>
          e.groupID in done && MustAdd(before, after, e.groupID) && e == AddedEntry(after[e.groupID], now))
    && (forall g :: g in done && MustAdd(before, after, g) ==> AddedEntry(after[g], now) in entries)
  }

  ghost predicate UpdatesFor(before: Groups, after: Groups, now: nat, done: set<nat>, entries: seq<Entry>) {
    && DistinctIDs(entries)
    && (forall e :: e in entries ==>
          e.groupID in done && MustUpdate(before, after, e.groupID) && e == UpdatedEntry(after[e.groupID], now))
    && (forall g :: g in done && MustUpdate(before, after, g) ==> UpdatedEntry(after[g], now) in entries)
  }

  /** `txs` are exactly the transactions of the groups of `done` that must be written. */
  ghost predicate WritesFor(before: Groups, after: Groups, done: set<nat>, txs: seq<Tx>) {
    && (forall tx :: tx in txs ==>
          exists g :: g in done && g in after && tx in after[g].txs && MustWrite(before, g, tx))
    && (forall g, tx :: g in done && g in after && tx in after[g].txs && MustWrite(before, g, tx) ==> tx in txs)
  }

  /** What `GenerateStoreUpdate` produces; the order in which it visits the groups is open. */
  ghost predicate IsUpdate(before: Groups, after: Groups, now: nat, c: StoreChanges) {
    && AddsFor(before, after, now, after.Keys, c.addGroups)
    && UpdatesFor(before, after, now, after.Keys, c.updateGroups)
    && WritesFor(before, after, after.Keys, c.updateTxs)
  }

  ghost predicate AllKnown(before: Groups, after: Groups) {
    forall g, tx :: g in after && tx in after[g].txs ==> Known(before, g, tx)
  }

  lemma WritesOneMore(before: Groups, after: Groups, done: set<nat>, txs: seq<Tx>, g: nat, writes: seq<Tx>)
    requires WritesFor(before, after, done, txs) && g in after
    requires forall tx :: tx in writes <==> tx in after[g].txs && MustWrite(before, g, tx)
    ensures WritesFor(before, after, done + {g}, txs + writes)
  {
  }

  lemma NothingDone(before: Groups, after: Groups, now: nat)
    ensures AddsFor(before, after, now, {}, []) && UpdatesFor(before, after, now, {}, [])
  {
  }

  lemma AddsOneMore(before: Groups, after: Groups, now: nat, done: set<nat>, entries: seq<Entry>, g: nat)
    requires Keyed(after) && AddsFor(before, after, now, done, entries) && g in after && g !in done
    ensures AddsFor(before, after, now, done + {g},
      if MustAdd(before, after, g) then entries + [AddedEntry(after[g], now)] else entries)
  {
    if MustAdd(before, after, g) {
      assert forall e :: e in entries + [AddedEntry(after[g], now)] <==> e in entries || e == AddedEntry(after[g], now);
      assert forall i :: 0 <= i < |entries| ==> entries[i] in entries;
    }
  }

  lemma UpdatesOneMore(before: Groups, after: Groups, now: nat, done: set<nat>, entries: seq<Entry>, g: nat)
    requires Keyed(after) && UpdatesFor(before, after, now, done, entries) && g in after && g !in done
    ensures UpdatesFor(before, after, now, done + {g},
      if MustUpdate(before, after, g) then entries + [UpdatedEntry(after[g], now)] else entries)
  {
    if MustUpdate(before, after, g) {
      var added := UpdatedEntry(after[g], now);
    assert forall e :: e in entries + [added] <==> e in entries || e == added;
      assert forall i :: 0 <= i < |entries| ==> entries[i] in entries;
    }
  }

  /** The first loop. */
  method GroupChanges(before: Groups, after: Groups, now: nat) returns (adds: seq<Entry>, updates: seq<Entry>)
    requires Keyed(after)
    ensures AddsFor(before, after, now, after.Keys, adds) && UpdatesFor(before, after, now, after.Keys, updates)
  {
    hide AddsFor;
    hide UpdatesFor;
    adds, updates := [], [];
    NothingDone(before, after, now);
    assert after.Keys - after.Keys == {};
    var rest := after.Keys;
    while rest != {}
      invariant rest <= after.Keys
      invariant AddsFor(before, after, now, after.Keys - rest, adds)
      invariant UpdatesFor(before, after, now, after.Keys - rest, updates)
      decreases |rest|
    {
      var g :| g in rest;
      AddsOneMore(before, after, now, after.Keys - rest, adds, g);
      UpdatesOneMore(before, after, now, after.Keys - rest, updates, g);
      assert after.Keys - (rest - {g}) == after.Keys - rest + {g};
      if g !in before {
        adds := adds + [AddedEntry(after[g], now)];
      } else if before[g].entry != after[g].entry {
        updates := updates + [UpdatedEntry(after[g], now)];
      }
      rest := rest - {g};
    }
    assert after.Keys - {} == after.Keys;
  }

  /** One turn of the second loop. */
  method TxChanges(before: Groups, after: Groups, g: nat) returns (known: bool, writes: seq<Tx>)
    requires g in after
    ensures known <==> forall tx :: tx in after[g].txs ==> Known(before, g, tx)
    ensures known ==> forall tx :: tx in writes <==> tx in after[g].txs && MustWrite(before, g, tx)
  {
    writes := [];
    var txs := after[g].txs;
    for i := 0 to |txs|
      invariant forall tx :: tx in txs[..i] ==> Known(before, g, tx)
      invariant forall tx :: tx in writes <==> tx in txs[..i] && MustWrite(before, g, tx)
    {
      var tx := txs[i];
      assert txs[..i + 1] == txs[..i] + [tx];
      if g in before {
        var k := Find(before[g].txs, tx.depositID);
        if k == |before[g].txs| {
          assert !Known(before, g, tx);
          return false, [];
        }
        if before[g].txs[k] != tx {
          writes := writes + [tx];
        }
      } else {
        writes := writes + [tx];
      }
    }
    assert txs[..|txs|] == txs;
    known := true;
  }

  /** `GenerateStoreUpdate`: an error exactly if a transaction is new to a group that existed. */
  method GenerateStoreUpdate(before: Groups, after: Groups, now: nat) returns (ok: bool, c: StoreChanges)
    requires Keyed(after)
    ensures ok <==> AllKnown(before, after)
    ensures ok ==> IsUpdate(before, after, now, c)
  {
    var adds, updates := GroupChanges(before, after, now);
    var txs: seq<Tx> := [];
    var rest := after.Keys;
    while rest != {}
      invariant rest <= after.Keys
      invariant forall g, tx :: g in after.Keys - rest && tx in after[g].txs ==> Known(before, g, tx)
      invariant WritesFor(before, after, after.Keys - rest, txs)
      decreases |rest|
    {
      var g :| g in rest;
      var known, writes := TxChanges(before, after, g);
      if !known {
        return false, StoreChanges([], [], []);
      }
      WritesOneMore(before, after, after.Keys - rest, txs, g, writes);
      assert after.Keys - (rest - {g}) == after.Keys - rest + {g};
      txs := txs + writes;
      rest := rest - {g};
    }
    ok, c := true, StoreChanges(adds, updates, txs);
  }

  // ----- Applying the changes

  /** The statements the storage runs; an insert leaves out the last log. */
  function AddGroups(groups: map<nat, Entry>, entries: seq<Entry>): map<nat, Entry> {
    if entries == [] then groups
    else
      var e := entries[|entries| - 1];
      AddGroups(groups, entries[..|entries| - 1])[e.groupID := e.(lastLog := 0)]
  }

  function UpdateRow(row: Entry, e: Entry, now: nat): Entry {
    row.(body := e.body, updatedAt := now, lastLog := e.lastLog)
  }

  function UpdateGroups(groups: map<nat, Entry>, entries: seq<Entry>, now: nat): map<nat, Entry> {
    if entries == [] then groups
    else
      var e, before := entries[|entries| - 1], UpdateGroups(groups, entries[..|entries| - 1], now);
      if e.groupID in before then before[e.groupID := UpdateRow(before[e.groupID], e, now)] else before
  }

  function UpdateTx(row: Tx, tx: Tx, now: nat): Tx {
    row.(body := tx.body, group := tx.group, updatedAt := now)
  }

  function UpdateTxs(rows: map<nat, Tx>, txs: seq<Tx>, now: nat): map<nat, Tx> {
    if txs == [] then rows
    else
      var tx, before := txs[|txs| - 1], UpdateTxs(rows, txs[..|txs| - 1], now);
      if tx.depositID in before then before[tx.depositID := UpdateTx(before[tx.depositID], tx, now)] else before
  }

  method ExecuteAdds(entries: seq<Entry>, groups: map<nat, Entry>) returns (ok: bool, groups': map<nat, Entry>)
    requires DistinctIDs(entries)
    ensures ok <==> forall k :: 0 <= k < |entries| ==> entries[k].groupID !in groups
    ensures ok ==> groups' == AddGroups(groups, entries)
  {
    groups' := groups;
    for i := 0 to |entries|
      invariant groups' == AddGroups(groups, entries[..i])
      invariant forall g :: g in groups' <==> g in groups || exists k :: 0 <= k < i && entries[k].groupID == g
      invariant forall k :: 0 <= k < i ==> entries[k].groupID !in groups
    {
      assert entries[..i + 1][..i] == entries[..i];
      if entries[i].groupID in groups' {
        return false, groups;
      }
      groups' := groups'[entries[i].groupID := entries[i].(lastLog := 0)];
    }
    assert entries[..|entries|] == entries;
    ok := true;
  }

  method ExecuteUpdates(entries: seq<Entry>, groups: map<nat, Entry>, now: nat) returns (groups': map<nat, Entry>)
    ensures groups' == UpdateGroups(groups, entries, now)
  {
    groups' := groups;
    for i := 0 to |entries|
      invariant groups' == UpdateGroups(groups, entries[..i], now)
    {
      assert entries[..i + 1][..i] == entries[..i];
      if entries[i].groupID in groups' {
        groups' := groups'[entries[i].groupID := UpdateRow(groups'[entries[i].groupID], entries[i], now)];
      }
    }
    assert entries[..|entries|] == entries;
  }

  method ExecuteTxs(txs: seq<Tx>, rows: map<nat, Tx>, now: nat) returns (rows': map<nat, Tx>)
    ensures rows' == UpdateTxs(rows, txs, now)
  {
    rows' := rows;
    for i := 0 to |txs|
      invariant rows' == UpdateTxs(rows, txs[..i], now)
    {
      assert txs[..i + 1][..i] == txs[..i];
      if txs[i].depositID in rows' {
        rows' := rows'[txs[i].depositID := UpdateTx(rows'[txs[i].depositID], txs[i], now)];
      }
    }
    assert txs[..|txs|] == txs;
  }

  function Executed(c: StoreChanges, store: Store, now: nat): Store {
    Store(UpdateGroups(AddGroups(store.groups, c.addGroups), c.updateGroups, now),
          UpdateTxs(store.txs, c.updateTxs, now))
  }

  /** `StoreChanges.Execute`; inserting a group that exists is an error. */
  method Execute(c: StoreChanges, store: Store, now: nat) returns (ok: bool, store': Store)
    requires DistinctIDs(c.addGroups)
    ensures ok <==> forall k :: 0 <= k < |c.addGroups| ==> c.addGroups[k].groupID !in store.groups
    ensures store' == if ok then Executed(c, store, now) else store
  {
    var groups;
    ok, groups := ExecuteAdds(c.addGroups, store.groups);
    if !ok {
      return false, store;
    }
    groups := ExecuteUpdates(c.updateGroups, groups, now);
    var txs := ExecuteTxs(c.updateTxs, store.txs, now);
    store' := Store(groups, txs);
  }

  predicate HasID(entries: seq<Entry>, g: nat) {
    exists k :: 0 <= k < |entries| && entries[k].groupID == g
  }

  lemma {:induction false} AddedAt(groups: map<nat, Entry>, entries: seq<Entry>, g: nat)
    requires DistinctIDs(entries)
    ensures !HasID(entries, g) ==>
      (g in AddGroups(groups, entries) <==> g in groups) && (g in groups ==> AddGroups(groups, entries)[g] == groups[g])
    ensures forall k :: 0 <= k < |entries| && entries[k].groupID == g ==>
      g in AddGroups(groups, entries) && AddGroups(groups, entries)[g] == entries[k].(lastLog := 0)
    decreases |entries|
  {
    if entries != [] {
      AddedAt(groups, entries[..|entries| - 1], g);
    }
  }

  lemma {:induction false} UpdatedAt(groups: map<nat, Entry>, entries: seq<Entry>, now: nat, g: nat)
    requires DistinctIDs(entries)
    ensures g in UpdateGroups(groups, entries, now) <==> g in groups
    ensures !HasID(entries, g) && g in groups ==> UpdateGroups(groups, entries, now)[g] == groups[g]
    ensures forall k :: 0 <= k < |entries| && entries[k].groupID == g && g in groups ==>
      UpdateGroups(groups, entries, now)[g] == UpdateRow(groups[g], entries[k], now)
    decreases |entries|
  {
    if entries != [] {
      UpdatedAt(groups, entries[..|entries| - 1], now, g);
    }
  }

  predicate Writes(txs: seq<Tx>, d: nat) {
    exists k :: 0 <= k < |txs| && txs[k].depositID == d
  }

  /** Several writes of one deposit are the same write. */
  lemma {:induction false} WrittenAt(rows: map<nat, Tx>, txs: seq<Tx>, now: nat, d: nat, tx: Tx)
    requires forall k :: 0 <= k < |txs| && txs[k].depositID == d ==> txs[k] == tx
    ensures d in UpdateTxs(rows, txs, now) <==> d in rows
    ensures d in rows ==> UpdateTxs(rows, txs, now)[d] == if Writes(txs, d) then UpdateTx(rows[d], tx, now) else rows[d]
    decreases |txs|
  {
    if txs != [] {
      var init, last := txs[..|txs| - 1], txs[|txs| - 1];
      WrittenAt(rows, init, now, d, tx);
      assert Writes(txs, d) <==> Writes(init, d) || last.depositID == d by {
        assert forall k :: 0 <= k < |init| ==> init[k] == txs[k];
      }
    }
  }

  // ----- Storage that agrees with a state

  /** Equal in the columns that are read back, apart from the update time. */
  predicate SameGroup(row: Entry, e: Entry) {
    row.groupID == e.groupID && row.body == e.body && row.createdAt == e.createdAt
  }

  predicate SameTx(row: Tx, tx: Tx) {
    row.(updatedAt := 0) == tx.(updatedAt := 0)
  }

  ghost predicate Agrees(store: Store, groups: Groups) {
    && (forall g :: g in groups ==> g in store.groups && SameGroup(store.groups[g], groups[g].entry))
    && (forall g, tx :: g in groups && tx in groups[g].txs ==>
          tx.depositID in store.txs && SameTx(store.txs[tx.depositID], tx))
  }

  predicate IsStored(store: Store, tx: Tx) {
    && tx.depositID in store.txs
    && store.txs[tx.depositID].fixed == tx.fixed && store.txs[tx.depositID].depositID == tx.depositID
  }

  /** The new state is one the service can reach: ids name groups, a deposit is in one group, creation
      data do not change, new group ids are free, and the transactions of new groups are stored. */
  ghost predicate Reachable(before: Groups, after: Groups, store: Store) {
    && Keyed(before) && Keyed(after)
    && (forall g, h, tx, ty :: g in after && h in after && tx in after[g].txs && ty in after[h].txs && tx != ty ==>
          tx.depositID != ty.depositID)
    && (forall g :: g in before && g in after ==> before[g].entry.createdAt == after[g].entry.createdAt)
    && (forall g :: MustAdd(before, after, g) ==> g !in store.groups)
    && (forall g, tx :: g in after && tx in after[g].txs ==> IsStored(store, tx))
  }

  /** What the lists say about one group. */
  lemma ListedGroup(before: Groups, after: Groups, now: nat, c: StoreChanges, g: nat)
    requires Keyed(after) && IsUpdate(before, after, now, c)
    ensures HasID(c.addGroups, g) <==> MustAdd(before, after, g)
    ensures HasID(c.updateGroups, g) <==> MustUpdate(before, after, g)
    ensures forall k :: 0 <= k < |c.addGroups| && c.addGroups[k].groupID == g ==>
      g in after && c.addGroups[k] == AddedEntry(after[g], now)
    ensures forall k :: 0 <= k < |c.updateGroups| && c.updateGroups[k].groupID == g ==>
      g in after && c.updateGroups[k] == UpdatedEntry(after[g], now)
  {
    forall k | 0 <= k < |c.addGroups|
      ensures c.addGroups[k] in c.addGroups
    {
    }
    forall k | 0 <= k < |c.updateGroups|
      ensures c.updateGroups[k] in c.updateGroups
    {
    }
    if MustAdd(before, after, g) {
      assert AddedEntry(after[g], now) in c.addGroups && AddedEntry(after[g], now).groupID == g;
    }
    if MustUpdate(before, after, g) {
      assert UpdatedEntry(after[g], now) in c.updateGroups && UpdatedEntry(after[g], now).groupID == g;
    }
  }

  lemma EntryOf(entries: seq<Entry>, g: nat)
    ensures HasID(entries, g) ==> exists k :: 0 <= k < |entries| && entries[k].groupID == g
  {
  }

  /** Group rows after the changes: the added and the changed ones, and no others. */
  lemma GroupRows(before: Groups, after: Groups, now: nat, c: StoreChanges, store: Store, later: nat, g: nat)
    requires Reachable(before, after, store) && Agrees(store, before) && IsUpdate(before, after, now, c)
    ensures var rows := Executed(c, store, later).groups;
      if MustAdd(before, after, g) then g in rows && rows[g] == AddedEntry(after[g], now).(lastLog := 0)
      else if MustUpdate(before, after, g) then
        g in rows && rows[g] == UpdateRow(store.groups[g], after[g].entry, later)
      else (g in rows <==> g in store.groups) && (g in rows ==> rows[g] == store.groups[g])
  {
    hide HasID;
    hide AddGroups;
    hide UpdateGroups;
    ListedGroup(before, after, now, c, g);
    AddedAt(store.groups, c.addGroups, g);
    UpdatedAt(AddGroups(store.groups, c.addGroups), c.updateGroups, later, g);
    EntryOf(c.addGroups, g);
    EntryOf(c.updateGroups, g);
  }

  /** A transaction that is not written was the same before, so its row agrees already. */
  lemma UnwrittenAgrees(before: Groups, store: Store, g: nat, tx: Tx)
    requires Agrees(store, before) && Known(before, g, tx) && !MustWrite(before, g, tx)
    ensures tx.depositID in store.txs && SameTx(store.txs[tx.depositID], tx)
  {
    var was := before[g].txs[Find(before[g].txs, tx.depositID)];
    assert was in before[g].txs;
  }

  /** Every write of the deposit of a grouped transaction writes that transaction. */
  lemma WritesAgree(before: Groups, after: Groups, store: Store, txs: seq<Tx>, g: nat, tx: Tx)
    requires Reachable(before, after, store) && WritesFor(before, after, after.Keys, txs)
    requires g in after && tx in after[g].txs
    ensures forall k :: 0 <= k < |txs| && txs[k].depositID == tx.depositID ==> txs[k] == tx
    ensures !Writes(txs, tx.depositID) ==> !MustWrite(before, g, tx)
    ensures IsStored(store, tx)
  {
    forall k | 0 <= k < |txs| && txs[k].depositID == tx.depositID
      ensures txs[k] == tx
    {
      assert txs[k] in txs;
    }
  }

  /** Transaction rows after the changes: a row is written only for a grouped transaction that is new
      or changed, and then it is that transaction. */
  lemma TxRows(before: Groups, after: Groups, now: nat, c: StoreChanges, store: Store, later: nat, g: nat, tx: Tx)
    requires Reachable(before, after, store) && Agrees(store, before) && IsUpdate(before, after, now, c)
    requires g in after && tx in after[g].txs && Known(before, g, tx)
    ensures IsStored(store, tx) && tx.depositID in Executed(c, store, later).txs
    ensures SameTx(Executed(c, store, later).txs[tx.depositID], tx)
    ensures !Writes(c.updateTxs, tx.depositID) ==>
      Executed(c, store, later).txs[tx.depositID] == store.txs[tx.depositID]
  {
    hide Reachable;
    hide Agrees;
    WritesAgree(before, after, store, c.updateTxs, g, tx);
    WrittenAt(store.txs, c.updateTxs, later, tx.depositID, tx);
    if !Writes(c.updateTxs, tx.depositID) {
      UnwrittenAgrees(before, store, g, tx);
    }
  }

  /** A deposit in no group of the new state keeps its row. */
  lemma OtherTxRows(before: Groups, after: Groups, now: nat, c: StoreChanges, store: Store, later: nat, d: nat)
    requires IsUpdate(before, after, now, c)
    requires forall g, tx :: g in after && tx in after[g].txs ==> tx.depositID != d
    ensures var rows := Executed(c, store, later).txs;
      (d in rows <==> d in store.txs) && (d in rows ==> rows[d] == store.txs[d])
  {
    forall k | 0 <= k < |c.updateTxs|
      ensures c.updateTxs[k].depositID != d
    {
      assert c.updateTxs[k] in c.updateTxs;
    }
    WrittenAt(store.txs, c.updateTxs, later, d, Tx(d, 0, NoGroup, 0, 0));
  }

  /** Diff and apply: storage that agreed with the old state agrees with the new one. */
  lemma DiffApply(before: Groups, after: Groups, now: nat, c: StoreChanges, store: Store, later: nat)
    requires Reachable(before, after, store) && Agrees(store, before) && AllKnown(before, after)
    requires IsUpdate(before, after, now, c)
    ensures forall k :: 0 <= k < |c.addGroups| ==> c.addGroups[k].groupID !in store.groups
    ensures Agrees(Executed(c, store, later), after)
  {
    var store' := Executed(c, store, later);
    forall k | 0 <= k < |c.addGroups|
      ensures c.addGroups[k].groupID !in store.groups
    {
      assert c.addGroups[k] in c.addGroups;
    }
    forall g | g in after
      ensures g in store'.groups && SameGroup(store'.groups[g], after[g].entry)
    {
      GroupRows(before, after, now, c, store, later, g);
    }
    forall g, tx | g in after && tx in after[g].txs
      ensures tx.depositID in store'.txs && SameTx(store'.txs[tx.depositID], tx)
    {
      TxRows(before, after, now, c, store, later, g, tx);
    }
  }

  /** The row of a new group: what the state has, the deposits of its transactions in order, and the time. */
  lemma AddedRow(before: Groups, after: Groups, now: nat, c: StoreChanges, store: Store, later: nat, g: nat)
    requires Reachable(before, after, store) && Agrees(store, before) && IsUpdate(before, after, now, c)
    requires g in after && g !in before
    ensures var rows, txs := Executed(c, store, later).groups, after[g].txs;
      && g in rows
      && rows[g] == after[g].entry.(updatedAt := now, lastLog := 0, depositIDs := rows[g].depositIDs)
      && |rows[g].depositIDs| == |txs|
      && forall k :: 0 <= k < |txs| ==> rows[g].depositIDs[k] == txs[k].depositID
  {
    hide Executed;
    GroupRows(before, after, now, c, store, later, g);
  }

  /** The row of a group that was there: untouched if its entry is the same, and else the new entry, with the creation
      data and deposits it had. */
  lemma KeptRow(before: Groups, after: Groups, now: nat, c: StoreChanges, store: Store, later: nat, g: nat)
    requires Reachable(before, after, store) && Agrees(store, before) && IsUpdate(before, after, now, c)
    requires g in after && g in before
    ensures var rows, entry := Executed(c, store, later).groups, after[g].entry;
      && g in rows && g in store.groups
      && (before[g].entry == entry ==> rows[g] == store.groups[g])
      && (before[g].entry != entry ==>
            rows[g] == store.groups[g].(body := entry.body, lastLog := entry.lastLog, updatedAt := later))
  {
    hide Executed;
    GroupRows(before, after, now, c, store, later, g);
  }

  predicate DistinctDeposits(txs: seq<Tx>) {
    forall i, j :: 0 <= i < j < |txs| ==> txs[i].depositID != txs[j].depositID
  }

  lemma SameNeedsNoWrite(before: Groups, g: nat, tx: Tx)
    requires g in before && tx in before[g].txs && DistinctDeposits(before[g].txs)
    ensures !MustWrite(before, g, tx) && Known(before, g, tx)
  {
    var txs := before[g].txs;
    var k :| 0 <= k < |txs| && txs[k] == tx;
    assert Find(txs, tx.depositID) == k;
  }

  predicate SameInAllGroups(before: Groups, after: Groups, tx: Tx) {
    forall g :: g in after && tx in after[g].txs ==>
      g in before && tx in before[g].txs && DistinctDeposits(before[g].txs)
  }

  lemma NothingWritten(before: Groups, after: Groups, store: Store, txs: seq<Tx>, g: nat, tx: Tx)
    requires Reachable(before, after, store) && WritesFor(before, after, after.Keys, txs)
    requires g in after && tx in after[g].txs && SameInAllGroups(before, after, tx)
    ensures !Writes(txs, tx.depositID) && Known(before, g, tx)
  {
    WritesAgree(before, after, store, txs, g, tx);
    hide Reachable;
    SameNeedsNoWrite(before, g, tx);
    if Writes(txs, tx.depositID) {
      var k :| 0 <= k < |txs| && txs[k].depositID == tx.depositID;
      assert txs[k] == tx && txs[k] in txs;
      var h :| h in after && tx in after[h].txs && MustWrite(before, h, tx);
      SameNeedsNoWrite(before, h, tx);
      assert false;
    }
  }

  /** The row of a transaction that is the same in all its groups is untouched. */
  lemma KeptTx(before: Groups, after: Groups, now: nat, c: StoreChanges, store: Store, later: nat, g: nat, tx: Tx)
    requires Reachable(before, after, store) && Agrees(store, before) && IsUpdate(before, after, now, c)
    requires g in after && tx in after[g].txs && SameInAllGroups(before, after, tx)
    ensures tx.depositID in store.txs && tx.depositID in Executed(c, store, later).txs
    ensures Executed(c, store, later).txs[tx.depositID] == store.txs[tx.depositID]
  {
    hide Executed;
    hide Agrees;
    NothingWritten(before, after, store, c.updateTxs, g, tx);
    TxRows(before, after, now, c, store, later, g, tx);
  }

  /** Agreement on the last log as well. */
  ghost predicate AgreesOnLogs(store: Store, groups: Groups) {
    forall g :: g in groups && g in store.groups ==> store.groups[g].lastLog == groups[g].entry.lastLog
  }

  /** The last log of an updated group is always written; that of an added one is not inserted. So storage agrees on
      the logs afterwards if and only if those of the added groups are empty. */
  lemma LogsAgree(before: Groups, after: Groups, now: nat, c: StoreChanges, store: Store, later: nat)
    requires Reachable(before, after, store) && Agrees(store, before) && AllKnown(before, after)
    requires IsUpdate(before, after, now, c)
    requires AgreesOnLogs(store, before)
    ensures AgreesOnLogs(Executed(c, store, later), after) <==>
      forall g :: MustAdd(before, after, g) ==> after[g].entry.lastLog == 0
  {
    hide Executed;
    hide IsUpdate;
    hide Reachable;
    var store' := Executed(c, store, later);
    forall g | g in after
      ensures g in store'.groups
      ensures store'.groups[g].lastLog == after[g].entry.lastLog
         <==> !MustAdd(before, after, g) || after[g].entry.lastLog == 0
    {
      GroupRows(before, after, now, c, store, later, g);
    }
    assert forall g :: MustAdd(before, after, g) ==> g in after && g in store'.groups;
  }
}
