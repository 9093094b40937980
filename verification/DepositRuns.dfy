/** Committed deposits, lost deposits, reorganisations and restarts of several networks over the
    same tables. */
module DepositRuns {
  import opened Levels
  import opened Digests
  import opened CompleteTree
  import opened MerkleProofs
  import opened LevelBuilder
  import opened Frontier
  import opened Storage
  import opened StoredTree
  import opened Descent
  import opened ExitTree

  datatype NewDeposit = NewDeposit(count: nat, leaf: Digest)

  function LeavesOf(deposits: seq<NewDeposit>): (leaves: seq<Digest>)
    ensures |leaves| == |deposits| && forall k :: 0 <= k < |deposits| ==> leaves[k] == deposits[k].leaf
  {
    seq(|deposits|, k requires 0 <= k < |deposits| => deposits[k].leaf)
  }

  /** A change of the tables for one network leaves the trees of all others intact. */
  ghost predicate OthersKept(H: PairHash, height: nat, network: nat, db: DB, db': DB) {
    forall n, other :: n != network && Mirrors(H, height, n, db, other) ==> Mirrors(H, height, n, db', other)
  }

  ghost predicate UpTo(db: DB, network: nat, block: nat) {
    forall id :: id in db.deposits && db.deposits[id].network == network ==> db.deposits[id].block <= block
  }

  /** The tree after an append that failed in one of its writes. */
  function Lost(H: PairHash, t: Tree, leaf: Digest): Tree {
    t.(siblings := Append(H, t.siblings, t.count, leaf).siblings)
  }

  /** The rows of the earlier deposits are kept, those of the new ones name the block. */
  ghost predicate RowsAdded(db: DB, ids: seq<nat>, db': DB, ids': seq<nat>, block: nat) {
    && ids <= ids'
    && (forall j :: 0 <= j < |ids| ==>
          ids[j] in db.deposits && ids[j] in db'.deposits && db'.deposits[ids[j]] == db.deposits[ids[j]])
    && (forall j :: |ids| <= j < |ids'| ==> ids'[j] in db'.deposits && db'.deposits[ids'[j]].block == block)
  }

  /** Trees depend on deposits, roots and nodes only. */
  lemma TablesAlike(H: PairHash, height: nat, network: nat, db: DB, db': DB, leaves: seq<Digest>, ids: seq<nat>)
    requires db' == db.(blocks := db'.blocks)
    ensures Sound(H, db) <==> Sound(H, db')
    ensures Stored(H, height, network, db, leaves, ids) <==> Stored(H, height, network, db', leaves, ids)
  {
    assert forall j :: 0 <= j < |ids| && j < |leaves| ==>
      (IsDeposit(db, ids[j], network, j, leaves[j]) <==> IsDeposit(db', ids[j], network, j, leaves[j]));
    assert forall j :: 0 <= j < |ids| && j < |leaves| ==>
      (DepositStored(H, height, network, db, leaves[..j + 1], ids[j])
       <==> DepositStored(H, height, network, db', leaves[..j + 1], ids[j]));
  }

  lemma ChangesCompose(H: PairHash, height: nat, network: nat, a: DB, b: DB, c: DB, ids: seq<nat>, mid: seq<nat>,
                       end: seq<nat>, block: nat)
    requires OthersKept(H, height, network, a, b) && OthersKept(H, height, network, b, c)
    requires RowsAdded(a, ids, b, mid, block) && RowsAdded(b, mid, c, end, block)
    ensures OthersKept(H, height, network, a, c) && RowsAdded(a, ids, c, end, block)
  {
    hide Mirrors;
    assert forall j :: 0 <= j < |ids| ==> ids[j] == mid[j];
    assert forall j :: 0 <= j < |mid| ==> mid[j] == end[j];
  }

  lemma NoChange(H: PairHash, height: nat, network: nat, db: DB, t: Tree, block: nat)
    requires Mirrors(H, height, network, db, t)
    ensures OthersKept(H, height, network, db, db) && RowsAdded(db, t.ids, db, t.ids, block)
  {
    assert forall j :: 0 <= j < |t.ids| ==> IsDeposit(db, t.ids[j], network, j, t.leaves[j]);
  }

  lemma DepositEffects(H: PairHash, height: nat, db: DB, t: Tree, id: nat, row: DepositRow)
    requires Mirrors(H, height, row.network, db, t) && UpTo(db, row.network, row.block)
    requires id >= db.nextDeposit && row.count == |t.leaves|
    ensures var db' := WithDeposit(db, id, row, Append(H, t.siblings, t.count, row.leaf));
      && Mirrors(H, height, row.network, db', Deposited(H, t, id, row.leaf))
      && OthersKept(H, height, row.network, db, db')
      && UpTo(db', row.network, row.block)
      && RowsAdded(db, t.ids, db', t.ids + [id], row.block)
  {
    hide Append;
    var db' := WithDeposit(db, id, row, Append(H, t.siblings, t.count, row.leaf));
    assert forall j :: 0 <= j < |t.ids| ==> IsDeposit(db, t.ids[j], row.network, j, t.leaves[j]);
    assert Fresh(db, t, id, row);
    DepositKeepsMirror(H, height, db, t, id, row);
    forall n, other | n != row.network && Mirrors(H, height, n, db, other)
      ensures Mirrors(H, height, n, db', other)
    {
      DepositKeepsOthers(H, height, db, t, id, row, n, other);
    }
  }

  lemma DepositStorable(H: PairHash, height: nat, db: DB, t: Tree, id: nat, row: DepositRow)
    requires Mirrors(H, height, row.network, db, t) && id >= db.nextDeposit
    ensures !RootTaken(AddDeposit(db, id, row), id)
    ensures Storable(AddDeposit(db, id, row), Append(H, t.siblings, t.count, row.leaf).path, id)
       <==> PathDistinct(H, height, t.leaves + [row.leaf])
    ensures !CountTaken(db, row.network, t.count)
  {
    hide Append;
    FreshIsStorable(H, height, db, t, id, row.leaf);
    var with, path := AddDeposit(db, id, row), Append(H, t.siblings, t.count, row.leaf).path;
    assert forall key :: KeyTaken(with, key, id) <==> KeyTaken(db, key, id);
  }

  /** Every network's tree over one set of tables. */
  datatype World = World(db: DB, trees: map<nat, Tree>)

  datatype Event =
    | NewBlock(network: nat, number: nat, hash: nat)           // a block, committed
    | Commit(network: nat, id: nat, leaf: Digest, block: nat)  // a deposit of a stored block, committed
    | Lose(network: nat, leaf: Digest)                         // a deposit whose append failed
    | Cut(network: nat, number: nat)                           // a reorganisation back to a block
    | Restart(network: nat)

  ghost predicate Inv(H: PairHash, height: nat, w: World) {
    forall network :: network in w.trees ==> Mirrors(H, height, network, w.db, w.trees[network])
  }

  function CommitRow(w: World, e: Event): DepositRow
    requires e.Commit? && e.network in w.trees
  {
    DepositRow(e.network, |w.trees[e.network].leaves|, e.leaf, e.block)
  }

  /** Ids are fresh, blocks come in order, and a deposit belongs to a block. */
  ghost predicate Possible(w: World, e: Event) {
    e.network in w.trees &&
    (e.Commit? ==>
       && Fresh(w.db, w.trees[e.network], e.id, CommitRow(w, e))
       && exists row :: row in w.db.blocks && row.network == e.network && row.number == e.block)
  }

  function Reread(H: PairHash, height: nat, leaves: seq<Digest>, ids: seq<nat>): Tree {
    Tree(leaves, ids, |leaves|, Rebuilt(H, leaves, height))
  }

  function Take<T>(list: seq<T>, m: nat): seq<T> {
    if m <= |list| then list[..m] else list
  }

  ghost function Next(H: PairHash, height: nat, w: World, e: Event): World
    requires Possible(w, e)
  {
    var t := w.trees[e.network];
    match e
    case NewBlock(network, number, hash) =>
      w.(db := AddBlock(w.db, BlockRow(network, number, hash)))
    case Commit(network, id, leaf, block) =>
      World(WithDeposit(w.db, id, CommitRow(w, e), Append(H, t.siblings, t.count, leaf)),
            w.trees[network := Deposited(H, t, id, leaf)])
    case Lose(network, leaf) =>
      w.(trees := w.trees[network := Lost(H, t, leaf)])
    case Cut(network, number) =>
      var m := Survivors(w.db, t.ids, number);
      World(Reset(w.db, number, network), w.trees[network := Reread(H, height, Take(t.leaves, m), Take(t.ids, m))])
    case Restart(network) =>
      w.(trees := w.trees[network := Reread(H, height, t.leaves, t.ids)])
  }

  /** A world of one network. */
  function Alone(network: nat, db: DB, t: Tree): World {
    World(db, map[network := t])
  }

  /** An event depends on the tree of its own network and changes no other tree. */
  lemma NextIsLocal(H: PairHash, height: nat, w: World, e: Event)
    requires Possible(w, e)
    ensures Possible(Alone(e.network, w.db, w.trees[e.network]), e)
    ensures var alone := Next(H, height, Alone(e.network, w.db, w.trees[e.network]), e);
      && e.network in alone.trees
      && Next(H, height, w, e) == World(alone.db, w.trees[e.network := alone.trees[e.network]])
  {
    hide Append;
    hide Reset;
  }

  /** Which statements of a deposit fail. */
  datatype DepositFaults = DepositFaults(addDeposit: bool, setRoot: bool, bulkSet: bool) {
    predicate None() {
      !addDeposit && !setRoot && !bulkSet
    }
  }

  /** What a deposit does, stored or lost, as an event. */
  lemma DepositIsEvent(H: PairHash, height: nat, db: DB, t: Tree, id: nat, row: DepositRow)
    ensures var w, e := Alone(row.network, db, t), Commit(row.network, id, row.leaf, row.block);
      Possible(w, e) && row.count == |t.leaves| ==>
        Next(H, height, w, e)
          == Alone(row.network, WithDeposit(db, id, row, Append(H, t.siblings, t.count, row.leaf)),
                   Deposited(H, t, id, row.leaf))
    ensures Next(H, height, Alone(row.network, db, t), Lose(row.network, row.leaf))
         == Alone(row.network, db, Lost(H, t, row.leaf))
  {
    hide Append;
  }

  /** One deposit: its row, then its leaf. A failure leaves `db` to roll back to. A deposit that is not
      the next one is refused, whatever the tree and the tables are. Where these agree it is a commit, or
      a loss, of a run. */
  method ProcessDeposit(tree: MerkleTree, db: DB, block: nat, d: NewDeposit, f: DepositFaults, ghost agreed: bool)
    returns (ok: bool, db': DB, ghost id: nat)
    requires tree.Shaped()
    requires agreed ==> Mirrors(tree.H, tree.height, tree.networkID, db, tree.View())
    requires agreed ==> tree.count + 1 < COUNT_LIMIT && UpTo(db, tree.networkID, block)
    modifies tree
    ensures tree.Shaped() && id >= db.nextDeposit
    ensures ok <==>
      && d.count == old(tree.count) && !CountTaken(db, tree.networkID, d.count) && f.None()
      && var with := AddDeposit(db, id, DepositRow(tree.networkID, d.count, d.leaf, block));
         && !RootTaken(with, id)
         && Storable(with, Append(tree.H, old(tree.siblings), old(tree.count), d.leaf).path, id)
    ensures agreed ==>
      (ok <==>
         && d.count == old(tree.count) && f.None()
         && PathDistinct(tree.H, tree.height, old(tree.leaves) + [d.leaf]))
    ensures ok ==> db'.blocks == db.blocks
    ensures ok ==>
      db' == WithDeposit(db, id, DepositRow(tree.networkID, d.count, d.leaf, block),
                         Append(tree.H, old(tree.siblings), old(tree.count), d.leaf))
    ensures !ok ==>
      tree.View() == if d.count == old(tree.count) && !CountTaken(db, tree.networkID, d.count) && !f.addDeposit
                     then Lost(tree.H, old(tree.View()), d.leaf) else old(tree.View())
    ensures agreed && ok ==>
      && tree.View() == Deposited(tree.H, old(tree.View()), id, d.leaf)
      && Mirrors(tree.H, tree.height, tree.networkID, db', tree.View()) && UpTo(db', tree.networkID, block)
      && OthersKept(tree.H, tree.height, tree.networkID, db, db')
      && RowsAdded(db, old(tree.ids), db', tree.ids, block)
    ensures agreed && ok ==>
      var w, e := Alone(tree.networkID, db, old(tree.View())), Commit(tree.networkID, id, d.leaf, block);
      Possible(w, e) ==> Next(tree.H, tree.height, w, e) == Alone(tree.networkID, db', tree.View())
    ensures agreed && !ok ==> Mirrors(tree.H, tree.height, tree.networkID, db, tree.View())
    ensures agreed && !ok && tree.View() != old(tree.View()) ==>
      Next(tree.H, tree.height, Alone(tree.networkID, db, old(tree.View())), Lose(tree.networkID, d.leaf))
        == Alone(tree.networkID, db, tree.View())
  {
    hide Append;
    hide OthersKept;
    hide Storable;
    hide Next;
    hide Sound;
    hide Stored;
    hide RowsAdded;
    hide CountTaken;
    hide PathDistinct;
    ghost var t := tree.View();
    var row := DepositRow(tree.networkID, d.count, d.leaf, block);
    var depositID: nat :| depositID >= db.nextDeposit;
    id := depositID;
    if agreed {
      FailedAppendHarmless(tree.H, t.leaves, t.siblings, d.leaf, d.leaf);
      DepositStorable(tree.H, tree.height, db, t, id, row);
      DepositIsEvent(tree.H, tree.height, db, t, id, row);
    }
    if CountTaken(db, tree.networkID, d.count) || f.addDeposit {
      return false, db, id;
    }
    ok, db' := tree.AddLeaf(AddDeposit(db, depositID, row), depositID, d.leaf, d.count, f.setRoot, f.bulkSet);
    if ok {
      tree.leaves, tree.ids := tree.leaves + [d.leaf], tree.ids + [id];
      if agreed {
        DepositEffects(tree.H, tree.height, db, t, id, row);
      }
    }
  }

  /** The deposits are numbered from `count` on. */
  ghost predicate CountedFrom(deposits: seq<NewDeposit>, count: nat) {
    forall k :: 0 <= k < |deposits| ==> deposits[k].count == count + k
  }

  /** A tree over `leaves` takes the `k`-th deposit after those before it: its count is the next one, no statement
      fails, and its path can be stored. */
  ghost predicate Takes(H: PairHash, height: nat, leaves: seq<Digest>, deposits: seq<NewDeposit>,
                        faults: seq<DepositFaults>, k: nat)
    requires k < |deposits| == |faults|
  {
    && deposits[k].count == |leaves| + k && faults[k].None()
    && PathDistinct(H, height, leaves + LeavesOf(deposits[..k + 1]))
  }

  lemma TakesNext(H: PairHash, height: nat, leaves: seq<Digest>, deposits: seq<NewDeposit>,
                  faults: seq<DepositFaults>, k: nat)
    requires k < |deposits| == |faults|
    ensures leaves + LeavesOf(deposits[..k + 1]) == leaves + LeavesOf(deposits[..k]) + [deposits[k].leaf]
    ensures Takes(H, height, leaves, deposits, faults, k)
       <==> deposits[k].count == |leaves| + k && faults[k].None()
            && PathDistinct(H, height, leaves + LeavesOf(deposits[..k]) + [deposits[k].leaf])
  {
    hide PathDistinct;
    assert leaves + LeavesOf(deposits[..k + 1]) == leaves + LeavesOf(deposits[..k]) + [deposits[k].leaf];
  }

  ghost predicate TakesAll(H: PairHash, height: nat, leaves: seq<Digest>, deposits: seq<NewDeposit>,
                           faults: seq<DepositFaults>)
    requires |deposits| == |faults|
  {
    forall k :: 0 <= k < |deposits| ==> Takes(H, height, leaves, deposits, faults, k)
  }

  lemma TakenAreCounted(H: PairHash, height: nat, leaves: seq<Digest>, deposits: seq<NewDeposit>,
                        faults: seq<DepositFaults>)
    requires |deposits| == |faults| && TakesAll(H, height, leaves, deposits, faults)
    ensures CountedFrom(deposits, |leaves|)
  {
    forall k | 0 <= k < |deposits|
      ensures deposits[k].count == |leaves| + k
    {
      assert Takes(H, height, leaves, deposits, faults, k);
    }
  }

  predicate NoFaults(faults: seq<DepositFaults>) {
    forall k :: 0 <= k < |faults| ==> faults[k].None()
  }

  /** Without failures, and where no digest is made from itself, the counts alone decide. */
  lemma CountsDecide(H: PairHash, height: nat, leaves: seq<Digest>, deposits: seq<NewDeposit>,
                     faults: seq<DepositFaults>)
    requires |deposits| == |faults| && NoFaults(faults) && Acyclic(H)
    ensures forall k :: 0 <= k < |deposits| ==>
      (Takes(H, height, leaves, deposits, faults, k) <==> deposits[k].count == |leaves| + k)
    ensures TakesAll(H, height, leaves, deposits, faults) <==> CountedFrom(deposits, |leaves|)
  {
    forall k | 0 <= k < |deposits|
      ensures Takes(H, height, leaves, deposits, faults, k) <==> deposits[k].count == |leaves| + k
    {
      AcyclicPaths(H, height, leaves + LeavesOf(deposits[..k + 1]));
    }
  }

  /** The deposits of one block, in one transaction, of which anything after the deposits may fail as well.
      A failure rolls the tables back but not the tree: they still agree exactly if the first deposit is not
      taken, or there is none. A tree that expects another count than that of the first deposit takes none. */
  method ProcessDeposits(tree: MerkleTree, db: DB, block: nat, deposits: seq<NewDeposit>, faults: seq<DepositFaults>,
                         laterFails: bool)
    returns (ok: bool, db': DB, ghost added: nat)
    requires tree.Shaped() && |faults| == |deposits|
    requires Mirrors(tree.H, tree.height, tree.networkID, db, tree.View()) ==>
      tree.count + |deposits| < COUNT_LIMIT && UpTo(db, tree.networkID, block)
    modifies tree
    ensures tree.Shaped() && added <= |deposits|
    ensures laterFails ==> !ok
    ensures deposits != [] && deposits[0].count != old(tree.count) ==>
      !ok && added == 0 && tree.View() == old(tree.View())
    ensures deposits == [] ==> tree.View() == old(tree.View()) && db' == db && (ok <==> !laterFails)
    ensures !ok ==> db' == db && tree.leaves == old(tree.leaves) && tree.ids == old(tree.ids)
    ensures ok ==> db'.blocks == db.blocks
    ensures old(Mirrors(tree.H, tree.height, tree.networkID, db, tree.View())) ==>
      (ok <==> !laterFails && TakesAll(tree.H, tree.height, old(tree.leaves), deposits, faults))
    ensures old(Mirrors(tree.H, tree.height, tree.networkID, db, tree.View())) && ok ==>
      && tree.leaves == old(tree.leaves) + LeavesOf(deposits) && CountedFrom(deposits, old(tree.count))
      && Mirrors(tree.H, tree.height, tree.networkID, db', tree.View())
      && OthersKept(tree.H, tree.height, tree.networkID, db, db')
      && RowsAdded(db, old(tree.ids), db', tree.ids, block)
    ensures old(Mirrors(tree.H, tree.height, tree.networkID, db, tree.View())) && !ok ==>
      && tree.count == old(tree.count) + added
      && (forall k :: 0 <= k < added ==> Takes(tree.H, tree.height, old(tree.leaves), deposits, faults, k))
      && (added < |deposits| ==> !Takes(tree.H, tree.height, old(tree.leaves), deposits, faults, added))
      && (Mirrors(tree.H, tree.height, tree.networkID, db, tree.View())
          <==> deposits == [] || !Takes(tree.H, tree.height, old(tree.leaves), deposits, faults, 0))
    ensures old(Mirrors(tree.H, tree.height, tree.networkID, db, tree.View())) && NoFaults(faults) && !laterFails
            && Acyclic(tree.H) ==>
      && (ok <==> CountedFrom(deposits, old(tree.count)))
      && (!ok ==>
            && deposits != []
            && (Mirrors(tree.H, tree.height, tree.networkID, db, tree.View())
                <==> deposits[0].count != old(tree.count)))
  {
    hide OthersKept;
    hide RowsAdded;
    hide UpTo;
    hide Sound;
    hide Stored;
    hide IsFrontier;
    hide WithDeposit;
    hide Append;
    hide CountTaken;
    hide Storable;
    hide PathDistinct;
    hide Next;
    hide Possible;
    hide Takes;
    hide CountedFrom;
    ok, db', added := true, db, 0;
    ghost var before := tree.View();
    ghost var agreed := Mirrors(tree.H, tree.height, tree.networkID, db, before);
    if agreed {
      NoChange(tree.H, tree.height, tree.networkID, db, before, block);
    }
    if NoFaults(faults) && Acyclic(tree.H) {
      CountsDecide(tree.H, tree.height, before.leaves, deposits, faults);
    }
    for k := 0 to |deposits|
      invariant added == k && tree.Shaped() && db'.blocks == db.blocks
      invariant k == 0 ==> db' == db && tree.View() == before
      invariant k > 0 ==> deposits[0].count == before.count
      invariant agreed ==> tree.count == before.count + k && tree.leaves == before.leaves + LeavesOf(deposits[..k])
      invariant agreed ==>
        Mirrors(tree.H, tree.height, tree.networkID, db', tree.View()) && UpTo(db', tree.networkID, block)
      invariant agreed ==> OthersKept(tree.H, tree.height, tree.networkID, db, db')
      invariant agreed ==> RowsAdded(db, before.ids, db', tree.ids, block)
      invariant agreed ==> forall j :: 0 <= j < k ==> Takes(tree.H, tree.height, before.leaves, deposits, faults, j)
    {
      var db1;
      ghost var mid, id := tree.ids, 0;
      TakesNext(tree.H, tree.height, before.leaves, deposits, faults, k);
      ok, db1, id := ProcessDeposit(tree, db', block, deposits[k], faults[k], agreed);
      assert agreed ==> (ok <==> Takes(tree.H, tree.height, before.leaves, deposits, faults, k));
      if !ok {
        assert agreed ==> !TakesAll(tree.H, tree.height, before.leaves, deposits, faults);
        tree.leaves, tree.ids := before.leaves, before.ids;
        return false, db, k;
      }
      if agreed {
        ChangesCompose(tree.H, tree.height, tree.networkID, db, db', db1, before.ids, mid, tree.ids, block);
      }
      db', added := db1, k + 1;
    }
    assert deposits[..|deposits|] == deposits;
    assert agreed ==> TakesAll(tree.H, tree.height, before.leaves, deposits, faults);
    if agreed {
      TakenAreCounted(tree.H, tree.height, before.leaves, deposits, faults);
    }
    ok := !laterFails;
    if laterFails {
      tree.leaves, tree.ids := before.leaves, before.ids;
      db' := db;
    }
  }

  /** The failure at work: a block with a gap in its counts leaves the tree one ahead of the tables. */
  method GapLeavesTreeAhead(tree: MerkleTree, db: DB, block: nat, a: Digest, b: Digest) returns (ok: bool, db': DB)
    requires tree.Shaped() && Mirrors(tree.H, tree.height, tree.networkID, db, tree.View())
    requires tree.count + 2 < COUNT_LIMIT && UpTo(db, tree.networkID, block)
    modifies tree
    ensures !ok && db' == db
    ensures PathDistinct(tree.H, tree.height, old(tree.leaves) + [a]) ==>
      tree.count == old(tree.count) + 1 && !Mirrors(tree.H, tree.height, tree.networkID, db, tree.View())
  {
    hide Sound;
    hide Stored;
    hide IsFrontier;
    hide PathDistinct;
    var c := tree.count;
    var deposits := [NewDeposit(c, a), NewDeposit(c + 2, b)];
    var none := DepositFaults(false, false, false);
    assert deposits[1].count != c + 1 && deposits[0].count == c;
    assert LeavesOf(deposits[..1]) == [a];
    ghost var leaves := tree.leaves;
    assert !Takes(tree.H, tree.height, leaves, deposits, [none, none], 1);
    ghost var added;
    ok, db', added := ProcessDeposits(tree, db, block, deposits, [none, none], false);
    if PathDistinct(tree.H, tree.height, leaves + [a]) {
      assert Takes(tree.H, tree.height, leaves, deposits, [none, none], 0);
    }
  }

  /** What fails in one attempt to store a block. */
  datatype Attempt = Attempt(faults: seq<DepositFaults>, laterFails: bool)

  /** Anything may fail in an attempt, unless all is calm. */
  method AnyAttempt(calm: bool, n: nat) returns (f: Attempt)
    ensures |f.faults| == n && (calm ==> NoFaults(f.faults) && !f.laterFails)
  {
    var faults: seq<DepositFaults> := [];
    for i := 0 to n
      invariant |faults| == i && (calm ==> NoFaults(faults))
    {
      var addDeposit, setRoot, bulkSet := *, *, *;
      faults := faults + [DepositFaults(!calm && addDeposit, !calm && setRoot, !calm && bulkSet)];
    }
    var laterFails := *;
    f := Attempt(faults, !calm && laterFails);
  }

  ghost predicate TakesFirst(H: PairHash, height: nat, leaves: seq<Digest>, deposits: seq<NewDeposit>, f: Attempt)
    requires |deposits| == |f.faults|
  {
    deposits != [] && Takes(H, height, leaves, deposits, f.faults, 0)
  }

  ghost predicate Succeeds(H: PairHash, height: nat, leaves: seq<Digest>, deposits: seq<NewDeposit>, f: Attempt)
    requires |deposits| == |f.faults|
  {
    !f.laterFails && TakesAll(H, height, leaves, deposits, f.faults)
  }

  /** A block that failed after its first deposit was added is refused at every further attempt, whatever fails or
      not, and neither the tables nor the tree change any more. Else an attempt without failures is accepted. */
  method ProcessWithRetries(tree: MerkleTree, db: DB, block: nat, deposits: seq<NewDeposit>, first: Attempt,
                            retries: seq<Attempt>)
    returns (ok: bool, later: bool, db': DB)
    requires tree.Shaped() && Mirrors(tree.H, tree.height, tree.networkID, db, tree.View())
    requires tree.count + |deposits| < COUNT_LIMIT && UpTo(db, tree.networkID, block)
    requires |first.faults| == |deposits|
    requires forall k :: 0 <= k < |retries| ==> |retries[k].faults| == |deposits|
    modifies tree
    ensures ok <==> Succeeds(tree.H, tree.height, old(tree.leaves), deposits, first)
    ensures !ok ==>
      (later <==>
         && !TakesFirst(tree.H, tree.height, old(tree.leaves), deposits, first)
         && exists j :: 0 <= j < |retries| && Succeeds(tree.H, tree.height, old(tree.leaves), deposits, retries[j])
              && forall i :: 0 <= i < j ==> !TakesFirst(tree.H, tree.height, old(tree.leaves), deposits, retries[i]))
    ensures ok || later ==>
      && Mirrors(tree.H, tree.height, tree.networkID, db', tree.View())
      && tree.leaves == old(tree.leaves) + LeavesOf(deposits)
    ensures !ok && TakesFirst(tree.H, tree.height, old(tree.leaves), deposits, first) ==>
      && !later && db' == db && tree.count > old(tree.count)
      && !Mirrors(tree.H, tree.height, tree.networkID, db, tree.View())
  {
    hide Sound;
    hide Stored;
    hide IsFrontier;
    hide OthersKept;
    hide RowsAdded;
    hide UpTo;
    hide PathDistinct;
    ghost var leaves := tree.leaves;
    ghost var added;
    ok, db', added := ProcessDeposits(tree, db, block, deposits, first.faults, first.laterFails);
    later := false;
    if ok {
      return;
    }
    ghost var left := tree.View();
    ghost var taken := TakesFirst(tree.H, tree.height, leaves, deposits, first);
    for i := 0 to |retries|
      invariant tree.Shaped() && db' == db && !later && tree.leaves == leaves
      invariant taken ==> tree.View() == left
      invariant forall j :: 0 <= j < i && Succeeds(tree.H, tree.height, leaves, deposits, retries[j]) ==>
        taken || exists p :: 0 <= p < j && TakesFirst(tree.H, tree.height, leaves, deposits, retries[p])
      invariant if Mirrors(tree.H, tree.height, tree.networkID, db, tree.View())
                then tree.count == old(tree.count) && !taken
                     && forall j :: 0 <= j < i ==> !TakesFirst(tree.H, tree.height, leaves, deposits, retries[j])
                else deposits != [] && deposits[0].count != tree.count
                     && (taken ||
                         exists j :: 0 <= j < i && TakesFirst(tree.H, tree.height, leaves, deposits, retries[j]))
    {
      ghost var again;
      later, db', again := ProcessDeposits(tree, db, block, deposits, retries[i].faults, retries[i].laterFails);
      if later {
        return;
      }
    }
  }

  /** A block row changes no tree. */
  lemma BlockKeepsMirrors(H: PairHash, height: nat, network: nat, db: DB, t: Tree, row: BlockRow)
    ensures Mirrors(H, height, network, db, t) <==> Mirrors(H, height, network, AddBlock(db, row), t)
  {
    TablesAlike(H, height, network, db, AddBlock(db, row), t.leaves, t.ids);
  }

  /** Every deposit belongs to a stored block of its network. */
  ghost predicate InBlocks(db: DB) {
    forall id :: id in db.deposits ==>
      exists row :: row in db.blocks && row.network == db.deposits[id].network && row.number == db.deposits[id].block
  }

  /** Every event keeps the agreement of every tree with the tables. */
  lemma EventKeepsInv(H: PairHash, height: nat, w: World, e: Event)
    requires Inv(H, height, w) && Possible(w, e)
    ensures Inv(H, height, Next(H, height, w, e))
  {
    var t, w' := w.trees[e.network], Next(H, height, w, e);
    forall network | network in w'.trees
      ensures Mirrors(H, height, network, w'.db, w'.trees[network])
    {
      match e
      case NewBlock(n, number, hash) =>
        BlockKeepsMirrors(H, height, network, w.db, w.trees[network], BlockRow(n, number, hash));
      case Commit(n, id, leaf, block) =>
        if network == n {
          DepositKeepsMirror(H, height, w.db, t, id, CommitRow(w, e));
        } else {
          DepositKeepsOthers(H, height, w.db, t, id, CommitRow(w, e), network, w.trees[network]);
        }
      case Lose(n, leaf) =>
        FailedAppendHarmless(H, t.leaves, t.siblings, leaf, leaf);
      case Cut(n, number) =>
        if network == n {
          ResetKeepsStored(H, height, n, w.db, t.leaves, t.ids, number);
          RebuiltIsFrontier(H, w'.trees[n].leaves, height);
        } else {
          ResetKeepsOthers(H, height, w.db, number, n, network, w.trees[network]);
        }
      case Restart(n) =>
        RebuiltIsFrontier(H, t.leaves, height);
    }
  }

  /** `run` is a sequence of worlds from empty tables, each reached from the one before. */
  ghost predicate IsRun(H: PairHash, height: nat, run: seq<World>, events: seq<Event>) {
    && |run| == |events| + 1
    && run[0].db == DB({}, map[], map[], {}, 0)
    && (forall network :: network in run[0].trees ==> run[0].trees[network] == Reread(H, height, [], []))
    && forall k :: 0 <= k < |events| ==> Possible(run[k], events[k]) && run[k + 1] == Next(H, height, run[k], events[k])
  }

  lemma {:induction false} RunKeepsInv(H: PairHash, height: nat, run: seq<World>, events: seq<Event>, k: nat)
    requires IsRun(H, height, run, events) && k < |run|
    ensures Inv(H, height, run[k])
  {
    if k == 0 {
      RebuiltIsFrontier(H, [], height);
    } else {
      RunKeepsInv(H, height, run, events, k - 1);
      EventKeepsInv(H, height, run[k - 1], events[k - 1]);
    }
  }

  /** In every run the deposits stay with their blocks: a cut takes both or neither. */
  lemma {:induction false} RunKeepsBlocks(H: PairHash, height: nat, run: seq<World>, events: seq<Event>, k: nat)
    requires IsRun(H, height, run, events) && k < |run|
    ensures InBlocks(run[k].db)
  {
    if k > 0 {
      RunKeepsBlocks(H, height, run, events, k - 1);
      var db, db' := run[k - 1].db, run[k].db;
      assert Possible(run[k - 1], events[k - 1]);
      forall id | id in db'.deposits
        ensures exists row ::
          row in db'.blocks && row.network == db'.deposits[id].network && row.number == db'.deposits[id].block
      {
        if id in db.deposits && db'.deposits[id] == db.deposits[id] {
          var row :| row in db.blocks && row.network == db.deposits[id].network && row.number == db.deposits[id].block;
          assert row in db'.blocks;
        }
      }
    }
  }

  /** A deposit that was committed, with its block. */
  datatype Committed = Committed(leaf: Digest, block: nat)

  function UpToBlock(list: seq<Committed>, number: nat): seq<Committed> {
    if list == [] then []
    else
      var before, last := UpToBlock(list[..|list| - 1], number), list[|list| - 1];
      if last.block <= number then before + [last] else before
  }

  /** What an event does to the deposits of a network: a commit adds one, a cut drops those of later blocks. */
  function LedgerStep(list: seq<Committed>, e: Event, network: nat): seq<Committed> {
    if e.network != network then list
    else if e.Commit? then list + [Committed(e.leaf, e.block)]
    else if e.Cut? then UpToBlock(list, e.number)
    else list
  }

  /** The deposits of a network that were committed and not cut. */
  function Ledger(events: seq<Event>, network: nat): seq<Committed> {
    if events == [] then []
    else LedgerStep(Ledger(events[..|events| - 1], network), events[|events| - 1], network)
  }

  function LeavesIn(list: seq<Committed>): (leaves: seq<Digest>)
    ensures |leaves| == |list| && forall k :: 0 <= k < |list| ==> leaves[k] == list[k].leaf
  {
    seq(|list|, k requires 0 <= k < |list| => list[k].leaf)
  }

  /** The tree and the rows are those of the deposits in the list. */
  ghost predicate Records(db: DB, t: Tree, list: seq<Committed>) {
    && t.leaves == LeavesIn(list) && |t.ids| == |list|
    && forall j :: 0 <= j < |list| ==> t.ids[j] in db.deposits && db.deposits[t.ids[j]].block == list[j].block
  }

  lemma {:induction false} UpToBlockIsPrefix(list: seq<Committed>, number: nat, m: nat)
    requires m <= |list| && forall j :: 0 <= j < |list| ==> (list[j].block <= number <==> j < m)
    ensures UpToBlock(list, number) == list[..m]
    decreases |list|
  {
    if list != [] {
      UpToBlockIsPrefix(list[..|list| - 1], number, if m == |list| then m - 1 else m);
    }
  }

  /** A cut keeps exactly the deposits of blocks up to the number. */
  lemma CutRecords(db: DB, network: nat, t: Tree, list: seq<Committed>, number: nat)
    requires Listed(db, network, t.leaves, t.ids) && Records(db, t, list)
    ensures var m := Survivors(db, t.ids, number);
      && m <= |t.ids| == |t.leaves|
      && UpToBlock(list, number) == list[..m]
      && forall siblings, count ::
        Records(Reset(db, number, network), Tree(t.leaves[..m], t.ids[..m], count, siblings), list[..m])
  {
    hide Survivors;
    var m := Survivors(db, t.ids, number);
    SurvivorsAre(db, t.ids, number);
    UpToBlockIsPrefix(list, number, m);
    assert t.leaves[..m] == LeavesIn(list[..m]);
  }

  lemma MirrorsListed(H: PairHash, height: nat, network: nat, db: DB, t: Tree)
    requires Mirrors(H, height, network, db, t)
    ensures Listed(db, network, t.leaves, t.ids)
    ensures forall j :: 0 <= j < |t.ids| ==> t.ids[j] in db.deposits && t.ids[j] < db.nextDeposit
    ensures forall j :: 0 <= j < |t.ids| ==> db.deposits[t.ids[j]].network == network
  {
    assert forall j :: 0 <= j < |t.ids| ==> IsDeposit(db, t.ids[j], network, j, t.leaves[j]);
  }

  lemma RecordsGrow(db: DB, t: Tree, list: seq<Committed>, db': DB, t': Tree, id: nat, leaf: Digest, block: nat)
    requires Records(db, t, list) && t'.leaves == t.leaves + [leaf] && t'.ids == t.ids + [id]
    requires RowsAdded(db, t.ids, db', t'.ids, block)
    ensures Records(db', t', list + [Committed(leaf, block)])
  {
  }

  /** An event of another network keeps the rows of this one. */
  lemma OthersRows(H: PairHash, height: nat, w: World, e: Event, network: nat, ids: seq<nat>)
    requires Possible(w, e) && e.network != network
    requires forall j :: 0 <= j < |ids| ==> ids[j] in w.db.deposits && ids[j] < w.db.nextDeposit
    requires forall j :: 0 <= j < |ids| ==> w.db.deposits[ids[j]].network == network
    ensures var db' := Next(H, height, w, e).db;
      forall j :: 0 <= j < |ids| ==> ids[j] in db'.deposits && db'.deposits[ids[j]] == w.db.deposits[ids[j]]
  {
    hide Append;
    hide Survivors;
  }

  /** Every event does to the tree and the rows of every network what it does to the list. */
  lemma EventRecords(H: PairHash, height: nat, w: World, e: Event, network: nat, list: seq<Committed>)
    requires Inv(H, height, w) && Possible(w, e) && network in w.trees
    requires Records(w.db, w.trees[network], list)
    ensures var w' := Next(H, height, w, e);
      network in w'.trees && Records(w'.db, w'.trees[network], LedgerStep(list, e, network))
  {
    hide Append;
    hide Mirrors;
    hide Survivors;
    var t := w.trees[network];
    MirrorsListed(H, height, network, w.db, t);
    if e.network != network {
      OthersRows(H, height, w, e, network, t.ids);
    } else if e.Cut? {
      CutRecords(w.db, network, t, list, e.number);
    } else if e.Commit? {
      var w' := Next(H, height, w, e);
      RecordsGrow(w.db, t, list, w'.db, w'.trees[network], e.id, e.leaf, e.block);
    }
  }

  /** Over every run the tree and the rows of a network are those of the deposits committed and not cut. */
  lemma {:induction false} RunIsLedger(H: PairHash, height: nat, run: seq<World>, events: seq<Event>, k: nat,
                                       network: nat)
    requires IsRun(H, height, run, events) && k < |run| && network in run[0].trees
    ensures network in run[k].trees && Records(run[k].db, run[k].trees[network], Ledger(events[..k], network))
  {
    if k == 0 {
      assert events[..0] == [];
    } else {
      hide Next;
      hide Inv;
      hide Records;
      RunKeepsInv(H, height, run, events, k - 1);
      RunIsLedger(H, height, run, events, k - 1, network);
      assert Possible(run[k - 1], events[k - 1]) && run[k - 1 + 1] == Next(H, height, run[k - 1], events[k - 1]);
      EventRecords(H, height, run[k - 1], events[k - 1], network, Ledger(events[..k - 1], network));
      assert events[..k][..k - 1] == events[..k - 1];
    }
  }

  /** Deposits can be committed: in every state a block with a new hash can be stored, and then a deposit of it. */
  lemma BlockCanCommit(H: PairHash, height: nat, w: World, network: nat, number: nat, hash: nat, id: nat, leaf: Digest)
    requires Inv(H, height, w) && network in w.trees && UpTo(w.db, network, number)
    requires !HashTaken(w.db, hash) && id >= w.db.nextDeposit
    ensures Possible(w, NewBlock(network, number, hash))
    ensures Possible(Next(H, height, w, NewBlock(network, number, hash)), Commit(network, id, leaf, number))
  {
    var w' := Next(H, height, w, NewBlock(network, number, hash));
    assert Mirrors(H, height, network, w.db, w.trees[network]);
    MirrorsListed(H, height, network, w.db, w.trees[network]);
    assert BlockRow(network, number, hash) in w'.db.blocks;
  }

  /** A complete walk from a root is the proof of the leaf it ends at. */
  lemma DescentProves(H: PairHash, leaves: seq<Digest>, i: nat, height: nat, links: seq<Link>)
    requires Injective(H) && i < Pow2(height)
    requires IsDescent(H, Root(H, leaves, height), i, height, links) && |links| == height
    ensures Cursor(Root(H, leaves, height), i, height, links) == LeafAt(leaves, i)
    ensures Aside(i, height, links) == ProofOf(H, leaves, i, height)
    ensures Climb(H, LeafAt(leaves, i), Aside(i, height, links), i) == Root(H, leaves, height)
  {
    DescentFoldsBack(H, Root(H, leaves, height), i, height, links);
    OnlyTheLeafFolds(H, leaves, i, height, Cursor(Root(H, leaves, height), i, height, links), Aside(i, height, links));
  }

  lemma StoredRootProves(H: PairHash, height: nat, network: nat, db: DB, t: Tree, m: nat, i: nat, links: seq<Link>)
    requires Injective(H) && Mirrors(H, height, network, db, t)
    requires i < m <= |t.leaves| && m <= Pow2(height)
    requires IsDescent(H, Root(H, t.leaves[..m], height), i, height, links)
    ensures var root := Root(H, t.leaves[..m], height);
      && |t.ids| == |t.leaves|
      && RootIdsAt(db, network, m - 1) == {t.ids[m - 1]} && db.roots[t.ids[m - 1]].root == root
      && (|links| < height ==> RowsOf(db, Cursor(root, i, height, links)) != {})
      && (|links| == height ==>
            && Cursor(root, i, height, links) == t.leaves[i]
            && Aside(i, height, links) == ProofOf(H, t.leaves[..m], i, height)
            && Climb(H, t.leaves[i], Aside(i, height, links), i) == root)
  {
    hide Node;
    hide Climb;
    hide Aside;
    hide SiblingsFrom;
    hide Up;
    Capacity(m - 1, height);
    Capacity(i, height);
    RootOfCount(H, height, network, db, t.leaves, t.ids, m);
    if |links| < height {
      DescentGoesOn(H, height, network, db, t.leaves, t.ids, m, i, links);
    } else {
      DescentProves(H, t.leaves[..m], i, height, links);
    }
  }

  /** After every run, every root over the first `m` deposits committed and not cut is stored, with a proof for each of
      them in the tables: a walk through any stored nodes is never stuck, and one that reaches the bottom ends at
      the leaf with the sibling list that folds to the root. */
  lemma EveryStoredRootProves(H: PairHash, height: nat, run: seq<World>, events: seq<Event>, k: nat,
                              network: nat, m: nat, i: nat, links: seq<Link>)
    requires Injective(H)
    requires IsRun(H, height, run, events) && k < |run| && network in run[0].trees
    requires i < m <= |Ledger(events[..k], network)| && m <= Pow2(height)
    requires IsDescent(H, Root(H, LeavesIn(Ledger(events[..k], network)[..m]), height), i, height, links)
    ensures var list, db := Ledger(events[..k], network), run[k].db;
      var leaves := LeavesIn(list[..m]);
      var root := Root(H, leaves, height);
      && network in run[k].trees && run[k].trees[network].leaves == LeavesIn(list)
      && (exists id :: RootIdsAt(db, network, m - 1) == {id} && db.roots[id].root == root
                    && db.deposits[id].block == list[m - 1].block)
      && (|links| < height ==> RowsOf(db, Cursor(root, i, height, links)) != {})
      && (|links| == height ==>
            && Cursor(root, i, height, links) == list[i].leaf
            && Aside(i, height, links) == ProofOf(H, leaves, i, height)
            && Climb(H, list[i].leaf, Aside(i, height, links), i) == root)
  {
    hide Node;
    hide Climb;
    hide Ledger;
    RunKeepsInv(H, height, run, events, k);
    RunIsLedger(H, height, run, events, k, network);
    var t, db, list := run[k].trees[network], run[k].db, Ledger(events[..k], network);
    assert Mirrors(H, height, network, db, t);
    assert t.leaves[..m] == LeavesIn(list[..m]);
    StoredRootProves(H, height, network, db, t, m, i, links);
    assert RootIdsAt(db, network, m - 1) == {t.ids[m - 1]};
  }
}
