/** What the tables hold for an exit tree, and why that is enough for every proof. */
module StoredTree {
  import opened Levels
  import opened Digests
  import opened CompleteTree
  import opened LevelBuilder
  import opened Frontier
  import opened Storage

  /** An exit tree: the deposits' leaves and row ids in deposit order, and what is kept in memory. */
  datatype Tree = Tree(leaves: seq<Digest>, ids: seq<nat>, count: nat, siblings: seq<Digest>)

  /** Foreign keys hold, ids come from a sequence, and a node's key is the hash of its children. */
  ghost predicate Sound(H: PairHash, db: DB) {
    && (forall row :: row in db.rht ==> row.deposit in db.deposits && row.link.key == H(row.link.left, row.link.right))
    && (forall id :: id in db.roots ==> id in db.deposits && db.roots[id].network == db.deposits[id].network)
    && (forall id :: id in db.deposits ==> id < db.nextDeposit)
  }

  predicate IsDeposit(db: DB, id: nat, network: nat, count: nat, leaf: Digest) {
    id in db.deposits && db.deposits[id] == DepositRow(network, count, leaf, db.deposits[id].block)
  }

  /** The network's deposits are exactly `ids`, counted 0, 1, ... in order of id and block. */
  ghost predicate Listed(db: DB, network: nat, leaves: seq<Digest>, ids: seq<nat>) {
    && |leaves| == |ids|
    && (forall j :: 0 <= j < |ids| ==> IsDeposit(db, ids[j], network, j, leaves[j]))
    && (forall j, k :: 0 <= j < k < |ids| ==> ids[j] < ids[k] && db.deposits[ids[j]].block <= db.deposits[ids[k]].block)
    && (forall id :: id in db.deposits && db.deposits[id].network == network ==>
          db.deposits[id].count < |ids| && ids[db.deposits[id].count] == id)
  }

  /** The node at level `h + 1` on the path of the last leaf. */
  function LastPath(H: PairHash, leaves: seq<Digest>, h: nat): Link
    requires |leaves| > 0
  {
    LinkAt(H, leaves, h, Up(|leaves| - 1, h + 1))
  }

  predicate HasNode(db: DB, link: Link, id: nat) {
    NodeRow(link, id) in db.rht
  }

  /** The rows written with the last deposit of `leaves`: its root and its path. */
  ghost predicate DepositStored(H: PairHash, height: nat, network: nat, db: DB, leaves: seq<Digest>, id: nat)
    requires |leaves| > 0
  {
    && id in db.roots && db.roots[id] == RootRow(RootWith(H, leaves, height), network)
    && forall h :: 0 <= h < height ==> HasNode(db, LastPath(H, leaves, h), id)
  }

  ghost predicate Stored(H: PairHash, height: nat, network: nat, db: DB, leaves: seq<Digest>, ids: seq<nat>) {
    && Listed(db, network, leaves, ids)
    && forall j :: 0 <= j < |ids| ==> DepositStored(H, height, network, db, leaves[..j + 1], ids[j])
  }

  ghost predicate InMemory(H: PairHash, height: nat, t: Tree) {
    && t.count == |t.leaves|
    && |t.siblings| == height
    && IsFrontier(H, t.leaves, t.siblings)
  }

  /** The tree in memory and the tables agree. */
  ghost predicate Mirrors(H: PairHash, height: nat, network: nat, db: DB, t: Tree) {
    && Sound(H, db)
    && Stored(H, height, network, db, t.leaves, t.ids)
    && InMemory(H, height, t)
  }

  /** The tables after one deposit: its row, its root and its path. */
  function WithDeposit(db: DB, id: nat, row: DepositRow, a: Appended): DB {
    BulkSet(SetRoot(AddDeposit(db, id, row), id, RootRow(a.root, row.network)), a.path, id)
  }

  function Deposited(H: PairHash, t: Tree, id: nat, leaf: Digest): Tree {
    Tree(t.leaves + [leaf], t.ids + [id], t.count + 1, Append(H, t.siblings, t.count, leaf).siblings)
  }

  ghost predicate Fresh(db: DB, t: Tree, id: nat, row: DepositRow) {
    && id >= db.nextDeposit
    && row.count == |t.leaves|
    && forall j :: 0 <= j < |t.ids| && t.ids[j] in db.deposits ==> db.deposits[t.ids[j]].block <= row.block
  }

  /** No two nodes on the path of the last leaf share a key, so the path can be stored with one deposit. */
  ghost predicate PathDistinct(H: PairHash, height: nat, leaves: seq<Digest>)
    requires |leaves| > 0
  {
    forall i, j :: 0 <= i < j < height ==> LastPath(H, leaves, i).key != LastPath(H, leaves, j).key
  }

  /** The nodes on a path rank higher and higher. */
  lemma {:induction false} PathRanks(H: PairHash, rank: Digest -> nat, leaves: seq<Digest>, i: nat, j: nat)
    requires Ranks(H, rank) && |leaves| > 0 && i < j
    ensures rank(LastPath(H, leaves, i).key) < rank(LastPath(H, leaves, j).key)
    decreases j
  {
    var n := Up(|leaves| - 1, j);
    assert Node(H, leaves, j + 1, n / 2) == H(Node(H, leaves, j, 2 * (n / 2)), Node(H, leaves, j, 2 * (n / 2) + 1));
    assert n == 2 * (n / 2) || n == 2 * (n / 2) + 1;
    if i < j - 1 {
      PathRanks(H, rank, leaves, i, j - 1);
    }
  }

  /** If no digest is made from itself every path can be stored. */
  lemma AcyclicPaths(H: PairHash, height: nat, leaves: seq<Digest>)
    requires Acyclic(H) && |leaves| > 0
    ensures PathDistinct(H, height, leaves)
  {
    var rank :| Ranks(H, rank);
    forall i, j | 0 <= i < j < height
      ensures LastPath(H, leaves, i).key != LastPath(H, leaves, j).key
    {
      PathRanks(H, rank, leaves, i, j);
    }
  }

  /** What the primary keys ask of an append with a fresh id: distinct keys on the path. */
  lemma FreshIsStorable(H: PairHash, height: nat, db: DB, t: Tree, id: nat, leaf: Digest)
    requires Sound(H, db) && InMemory(H, height, t) && id >= db.nextDeposit
    ensures !RootTaken(db, id)
    ensures Storable(db, Append(H, t.siblings, t.count, leaf).path, id) <==> PathDistinct(H, height, t.leaves + [leaf])
  {
    var all, path := t.leaves + [leaf], Append(H, t.siblings, t.count, leaf).path;
    AppendCorrect(H, t.leaves, leaf, t.siblings);
    assert forall h :: 0 <= h < height ==> path[h] == LastPath(H, all, h);
    assert forall key :: !KeyTaken(db, key, id);
    if DistinctKeys(path) {
      forall i, j | 0 <= i < j < height
        ensures LastPath(H, all, i).key != LastPath(H, all, j).key
      {
        assert path[i].key != path[j].key;
      }
    }
    if PathDistinct(H, height, all) {
      forall i, j | 0 <= i < j < |path|
        ensures path[i].key != path[j].key
      {
        assert LastPath(H, all, i).key != LastPath(H, all, j).key;
      }
    }
  }

  lemma DepositKeepsSound(H: PairHash, height: nat, db: DB, t: Tree, id: nat, row: DepositRow)
    requires Sound(H, db) && InMemory(H, height, t)
    requires Fresh(db, t, id, row)
    ensures Sound(H, WithDeposit(db, id, row, Append(H, t.siblings, t.count, row.leaf)))
  {
    var a := Append(H, t.siblings, t.count, row.leaf);
    AppendCorrect(H, t.leaves, row.leaf, t.siblings);
    forall link | link in a.path
      ensures link.key == H(link.left, link.right)
    {
      var k :| 0 <= k < |a.path| && a.path[k] == link;
    }
  }

  lemma DepositIsStored(H: PairHash, height: nat, db: DB, t: Tree, id: nat, row: DepositRow)
    requires InMemory(H, height, t)
    requires Fresh(db, t, id, row)
    ensures DepositStored(H, height, row.network, WithDeposit(db, id, row, Append(H, t.siblings, t.count, row.leaf)),
                          t.leaves + [row.leaf], id)
  {
    var a := Append(H, t.siblings, t.count, row.leaf);
    var all := t.leaves + [row.leaf];
    AppendCorrect(H, t.leaves, row.leaf, t.siblings);
    forall h | 0 <= h < height
      ensures HasNode(WithDeposit(db, id, row, a), LastPath(H, all, h), id)
    {
      assert a.path[h] == LinkAt(H, all, 0 + h, Up(|t.leaves|, 0 + h + 1));
      assert a.path[h] in a.path;
    }
  }

  lemma DepositKeepsListed(db: DB, leaves: seq<Digest>, ids: seq<nat>, id: nat, row: DepositRow, a: Appended)
    requires Listed(db, row.network, leaves, ids)
    requires row.count == |leaves|
    requires forall other :: other in db.deposits ==> other < id
    requires forall j :: 0 <= j < |ids| ==> db.deposits[ids[j]].block <= row.block
    ensures Listed(WithDeposit(db, id, row, a), row.network, leaves + [row.leaf], ids + [id])
  {
  }

  /** A deposit keeps the agreement of its own tree... */
  lemma DepositKeepsMirror(H: PairHash, height: nat, db: DB, t: Tree, id: nat, row: DepositRow)
    requires Mirrors(H, height, row.network, db, t)
    requires Fresh(db, t, id, row)
    ensures Mirrors(H, height, row.network, WithDeposit(db, id, row, Append(H, t.siblings, t.count, row.leaf)),
                    Deposited(H, t, id, row.leaf))
  {
    var a := Append(H, t.siblings, t.count, row.leaf);
    AppendCorrect(H, t.leaves, row.leaf, t.siblings);
    DepositKeepsSound(H, height, db, t, id, row);
    DepositKeepsListed(db, t.leaves, t.ids, id, row, a);
    DepositIsStored(H, height, db, t, id, row);
    var all, ids := t.leaves + [row.leaf], t.ids + [id];
    forall j | 0 <= j < |ids|
      ensures DepositStored(H, height, row.network, WithDeposit(db, id, row, a), all[..j + 1], ids[j])
    {
      if j < |t.ids| {
        assert all[..j + 1] == t.leaves[..j + 1];
        assert DepositStored(H, height, row.network, db, t.leaves[..j + 1], t.ids[j]);
      } else {
        assert all[..j + 1] == all;
      }
    }
  }

  /** ... and of every other tree in the same tables. */
  lemma DepositKeepsOthers(H: PairHash, height: nat, db: DB, t: Tree, id: nat, row: DepositRow, network: nat,
                           other: Tree)
    requires Mirrors(H, height, row.network, db, t) && Fresh(db, t, id, row)
    requires network != row.network && Mirrors(H, height, network, db, other)
    ensures Mirrors(H, height, network, WithDeposit(db, id, row, Append(H, t.siblings, t.count, row.leaf)), other)
  {
    DepositKeepsSound(H, height, db, t, id, row);
    forall j | 0 <= j < |other.ids|
      ensures DepositStored(H, height, network, WithDeposit(db, id, row, Append(H, t.siblings, t.count, row.leaf)),
                            other.leaves[..j + 1], other.ids[j])
    {
      assert DepositStored(H, height, network, db, other.leaves[..j + 1], other.ids[j]);
    }
  }

  /** How many of the deposits survive a reset to `number`; they are a prefix. */
  ghost function Survivors(db: DB, ids: seq<nat>, number: nat): (m: nat)
    ensures m <= |ids|
    decreases |ids|
  {
    if ids == [] then 0
    else if ids[|ids| - 1] in db.deposits && db.deposits[ids[|ids| - 1]].block <= number then |ids|
    else Survivors(db, ids[..|ids| - 1], number)
  }

  lemma {:induction false} SurvivorsAre(db: DB, ids: seq<nat>, number: nat)
    requires forall j :: 0 <= j < |ids| ==> ids[j] in db.deposits
    requires forall j, k :: 0 <= j < k < |ids| ==> db.deposits[ids[j]].block <= db.deposits[ids[k]].block
    ensures forall j :: 0 <= j < |ids| ==> (db.deposits[ids[j]].block <= number <==> j < Survivors(db, ids, number))
    decreases |ids|
  {
    if ids != [] && db.deposits[ids[|ids| - 1]].block > number {
      SurvivorsAre(db, ids[..|ids| - 1], number);
    }
  }

  /** The tables after a reset hold the tree of the surviving deposits... */
  lemma ResetKeepsStored(H: PairHash, height: nat, network: nat, db: DB, leaves: seq<Digest>, ids: seq<nat>,
                         number: nat)
    requires Sound(H, db) && Stored(H, height, network, db, leaves, ids)
    ensures Sound(H, Reset(db, number, network))
    ensures var m := Survivors(db, ids, number);
      Stored(H, height, network, Reset(db, number, network), leaves[..m], ids[..m])
  {
    var m := Survivors(db, ids, number);
    var db' := Reset(db, number, network);
    SurvivorsAre(db, ids, number);
    forall j | 0 <= j < m
      ensures DepositStored(H, height, network, db', leaves[..m][..j + 1], ids[..m][j])
    {
      assert leaves[..m][..j + 1] == leaves[..j + 1];
      assert DepositStored(H, height, network, db, leaves[..j + 1], ids[j]);
    }
  }

  /** ... and leave every other tree alone: its path rows carry its own deposit ids. */
  lemma ResetKeepsOthers(H: PairHash, height: nat, db: DB, number: nat, cut: nat, network: nat, other: Tree)
    requires cut != network && Mirrors(H, height, network, db, other)
    ensures Mirrors(H, height, network, Reset(db, number, cut), other)
  {
    var db' := Reset(db, number, cut);
    forall j | 0 <= j < |other.ids|
      ensures DepositStored(H, height, network, db', other.leaves[..j + 1], other.ids[j])
    {
      assert DepositStored(H, height, network, db, other.leaves[..j + 1], other.ids[j]);
    }
  }

  ghost predicate LinkStored(db: DB, link: Link) {
    exists row :: row in db.rht && row.link == link
  }

  /** The path of the newest leaf under a stored root is stored with its deposit. */
  lemma LastPathStored(H: PairHash, height: nat, network: nat, db: DB, leaves: seq<Digest>, ids: seq<nat>, m: nat,
                       h: nat)
    requires Stored(H, height, network, db, leaves, ids)
    requires 0 < m <= |leaves| && h < height
    ensures LinkStored(db, LastPath(H, leaves[..m], h))
  {
    hide LastPath;
    assert DepositStored(H, height, network, db, leaves[..m - 1 + 1], ids[m - 1]);
    assert HasNode(db, LastPath(H, leaves[..m], h), ids[m - 1]);
    assert NodeRow(LastPath(H, leaves[..m], h), ids[m - 1]).link == LastPath(H, leaves[..m], h);
  }

  /** A node left of the newest leaf's path was in the tree before that leaf. */
  lemma LinkOfPrefix(H: PairHash, leaves: seq<Digest>, h: nat, at: nat)
    requires |leaves| > 0 && at < Up(|leaves| - 1, h + 1)
    ensures LinkAt(H, leaves[..|leaves| - 1], h, at) == LinkAt(H, leaves, h, at)
  {
    NodeOfPrefix(H, leaves, |leaves| - 1, h + 1, at);
    NodeOfPrefix(H, leaves, |leaves| - 1, h, 2 * at);
    NodeOfPrefix(H, leaves, |leaves| - 1, h, 2 * at + 1);
  }

  /** Every node on the path of leaf `i` in the tree over the first `m` leaves is stored: the last
      of these leaves below the node wrote it with its own path. */
  lemma {:induction false} PathNodeStored(
      H: PairHash, height: nat, network: nat, db: DB, leaves: seq<Digest>, ids: seq<nat>, m: nat, i: nat, h: nat)
    requires Stored(H, height, network, db, leaves, ids)
    requires i < m <= |leaves| && h < height
    ensures LinkStored(db, LinkAt(H, leaves[..m], h, Up(i, h + 1)))
    decreases m
  {
    hide LinkAt;
    hide LinkStored;
    hide Stored;
    UpMonotone(i, m - 1, h + 1);
    if Up(m - 1, h + 1) == Up(i, h + 1) {
      LastPathStored(H, height, network, db, leaves, ids, m, h);
    } else {
      PathNodeStored(H, height, network, db, leaves, ids, m - 1, i, h);
      assert leaves[..m][..m - 1] == leaves[..m - 1];
      LinkOfPrefix(H, leaves[..m], h, Up(i, h + 1));
    }
  }
}
