/** The tables behind the trees. A transaction is the value of the tables it sees: committing it
    keeps the new value, rolling it back drops it. */
module Storage {
  import opened Digests
  import opened LevelBuilder

  /** `sync.block`. */
  datatype BlockRow = BlockRow(network: nat, number: nat, hash: nat)
  /** `sync.deposit`, by id. */
  datatype DepositRow = DepositRow(network: nat, count: nat, leaf: Digest, block: nat)
  /** `mt.root`, by deposit id. */
  datatype RootRow = RootRow(root: Digest, network: nat)
  /** `mt.rht`: the same key may occur in many rows, one per deposit whose path has the node. */
  datatype NodeRow = NodeRow(link: Link, deposit: nat)

  datatype DB = DB(
    blocks: set<BlockRow>,
    deposits: map<nat, DepositRow>,
    roots: map<nat, RootRow>,
    rht: set<NodeRow>,
    nextDeposit: nat)

  /** Block hashes are unique over all networks; adding a hash that is there changes nothing. */
  predicate HashTaken(db: DB, hash: nat) {
    exists row :: row in db.blocks && row.hash == hash
  }

  function AddBlock(db: DB, row: BlockRow): DB {
    if HashTaken(db, row.hash) then db else db.(blocks := db.blocks + {row})
  }

  function AddDeposit(db: DB, id: nat, row: DepositRow): DB {
    db.(deposits := db.deposits[id := row], nextDeposit := id + 1)
  }

  /** The unique index on (network, deposit count). */
  predicate CountTaken(db: DB, network: nat, count: nat) {
    exists id :: id in db.deposits && db.deposits[id].network == network && db.deposits[id].count == count
  }

  /** The primary key of `mt.root` is the deposit, that of `mt.rht` the key together with the deposit: an
      insert that repeats one fails. */
  predicate RootTaken(db: DB, id: nat) {
    id in db.roots
  }

  predicate KeyTaken(db: DB, key: Digest, id: nat) {
    exists row :: row in db.rht && row.link.key == key && row.deposit == id
  }

  predicate DistinctKeys(links: seq<Link>) {
    forall i, j :: 0 <= i < j < |links| ==> links[i].key != links[j].key
  }

  predicate Storable(db: DB, links: seq<Link>, id: nat) {
    DistinctKeys(links) && forall i :: 0 <= i < |links| ==> !KeyTaken(db, links[i].key, id)
  }

  function SetRoot(db: DB, id: nat, row: RootRow): DB {
    db.(roots := db.roots[id := row])
  }

  function BulkSet(db: DB, links: seq<Link>, id: nat): DB {
    db.(rht := db.rht + set link | link in links :: NodeRow(link, id))
  }

  /** Deletes the network's blocks above `number`; deposits go with their block, roots and tree
      nodes with their deposit. */
  function Reset(db: DB, number: nat, network: nat): DB {
    var deposits :=
      map id | id in db.deposits && !(db.deposits[id].network == network && db.deposits[id].block > number)
        :: db.deposits[id];
    DB((set b | b in db.blocks && !(b.network == network && b.number > number)),
       deposits,
       (map id | id in db.roots && id in deposits :: db.roots[id]),
       (set row | row in db.rht && row.deposit in deposits),
       db.nextDeposit)
  }

  function RowsOfNetwork(db: DB, network: nat): set<BlockRow> {
    set row | row in db.blocks && row.network == network
  }

  /** In descending order of number the row comes right after those `above` it. */
  ghost predicate ComesAfter(rows: set<BlockRow>, above: set<BlockRow>, row: BlockRow) {
    && row in rows && row !in above && above <= rows
    && forall other :: other in rows ==>
          if other in above then other.number >= row.number else other.number <= row.number
  }

  /** The row of the highest number among some. */
  method HighestRow(rows: set<BlockRow>) returns (highest: BlockRow)
    requires rows != {}
    ensures highest in rows && forall row :: row in rows ==> row.number <= highest.number
  {
    highest :| highest in rows;
    var rest := rows - {highest};
    while rest != {}
      invariant rest <= rows && highest in rows
      invariant forall row :: row in rows && row !in rest ==> row.number <= highest.number
      decreases |rest|
    {
      var row :| row in rest;
      highest := if row.number > highest.number then row else highest;
      rest := rest - {row};
    }
  }

  /** `GetPreviousBlock`: the block after `offset` others in descending order of number. For no offset
      this is `GetLastBlock`. */
  method GetPreviousBlock(db: DB, network: nat, offset: nat)
    returns (found: bool, row: BlockRow, ghost above: set<BlockRow>)
    ensures found <==> offset < |RowsOfNetwork(db, network)|
    ensures found ==> ComesAfter(RowsOfNetwork(db, network), above, row) && |above| == offset
  {
    var rows := RowsOfNetwork(db, network);
    var rest := rows;
    above, row := {}, BlockRow(network, 0, 0);
    for i := 0 to offset
      invariant above <= rows && rest == rows - above && |above| == i && |rows| == |above| + |rest|
      invariant forall high, low :: high in above && low in rest ==> low.number <= high.number
    {
      if rest == {} {
        return false, row, above;
      }
      var highest := HighestRow(rest);
      above, rest := above + {highest}, rest - {highest};
    }
    found := rest != {};
    if found {
      row := HighestRow(rest);
    }
  }

  /** The nodes with the given hash. */
  function RowsOf(db: DB, key: Digest): set<NodeRow> {
    set row | row in db.rht && row.link.key == key
  }

  /** Any row with the key may be the one returned. */
  method Get(db: DB, key: Digest) returns (found: bool, left: Digest, right: Digest)
    ensures found <==> RowsOf(db, key) != {}
    ensures found ==> exists row :: row in db.rht && row.link == Link(key, left, right)
  {
    var rows := RowsOf(db, key);
    found, left, right := rows != {}, HASH_ZERO, HASH_ZERO;
    if found {
      var row :| row in rows;
      left, right := row.link.left, row.link.right;
    }
  }

  /** The deposits of a network that have a root, and those among them with the given count. */
  function RootIds(db: DB, network: nat): set<nat> {
    set id | id in db.roots && id in db.deposits && db.roots[id].network == network
  }

  function RootIdsAt(db: DB, network: nat, count: nat): set<nat> {
    set id | id in RootIds(db, network) && db.deposits[id].count == count
  }

  /** The root stored with a deposit of that count. */
  method GetRoot(db: DB, count: nat, network: nat) returns (found: bool, root: Digest, ghost id: nat)
    ensures found <==> RootIdsAt(db, network, count) != {}
    ensures found ==> id in RootIdsAt(db, network, count) && db.roots[id].root == root
  {
    var ids := RootIdsAt(db, network, count);
    found, root, id := ids != {}, HASH_ZERO, 0;
    if found {
      var any :| any in ids;
      root, id := db.roots[any].root, any;
    }
  }

  /** The count of the newest deposit that has a root. A query that fails is reported as count zero. */
  method GetLastDepositCount(db: DB, network: nat, fails: bool) returns (found: bool, count: nat, ghost id: nat)
    ensures fails ==> found && count == 0
    ensures !fails ==> (found <==> RootIds(db, network) != {})
    ensures !fails && found ==> id in RootIds(db, network) && db.deposits[id].count == count
    ensures !fails && found ==> forall other :: other in RootIds(db, network) ==> other <= id
  {
    if fails {
      return true, 0, 0;
    }
    var ids := RootIds(db, network);
    found, count, id := ids != {}, 0, 0;
    if found {
      var newest :| newest in ids;
      var rest := ids - {newest};
      while rest != {}
        invariant rest <= ids && newest in ids
        invariant forall x :: x in ids && x !in rest ==> x <= newest
        decreases |rest|
      {
        var x :| x in rest;
        newest := if x > newest then x else newest;
        rest := rest - {x};
      }
      count, id := db.deposits[newest].count, newest;
    }
  }

  function DepositIds(db: DB, network: nat, block: nat): set<nat> {
    set id | id in db.deposits && db.deposits[id].network == network && db.deposits[id].block <= block
  }

  /** One more than the highest deposit count up to the block, or zero. */
  method GetNumberDeposits(db: DB, network: nat, block: nat) returns (n: nat)
    ensures n == 0 || exists id :: id in DepositIds(db, network, block) && db.deposits[id].count + 1 == n
    ensures forall id :: id in DepositIds(db, network, block) ==> db.deposits[id].count < n
  {
    n := 0;
    var ids := DepositIds(db, network, block);
    var rest := ids;
    while rest != {}
      invariant rest <= ids
      invariant n == 0 || exists id :: id in ids && db.deposits[id].count + 1 == n
      invariant forall id :: id in ids && id !in rest ==> db.deposits[id].count < n
      decreases |rest|
    {
      var id :| id in rest;
      if db.deposits[id].count >= n {
        n := db.deposits[id].count + 1;
      }
      rest := rest - {id};
    }
  }
}
