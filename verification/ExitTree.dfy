/** The exit tree of one network, kept in memory next to the tables. */
module ExitTree {
  import opened Levels
  import opened Digests
  import opened CompleteTree
  import opened LevelBuilder
  import opened Frontier
  import opened Storage
  import opened StoredTree
  import opened Descent

  /** Deposit counts are 32-bit. */
  const COUNT_LIMIT: nat := 0x1_0000_0000

  /** Turns a list collected from the root downwards into one from the leaves upwards. */
  method Reverse(list: seq<Digest>) returns (reversed: seq<Digest>)
    ensures |reversed| == |list|
    ensures forall k :: 0 <= k < |list| ==> reversed[k] == list[|list| - 1 - k]
  {
    reversed := list;
    var st, en := 0, |list| - 1;
    while st < en
      invariant 0 <= st && en == |list| - 1 - st
      invariant |reversed| == |list|
      invariant st <= en + 1
      invariant forall k :: 0 <= k < st || en < k < |list| ==> reversed[k] == list[|list| - 1 - k]
      invariant forall k :: st <= k <= en ==> reversed[k] == list[k]
    {
      reversed := reversed[st := reversed[en]][en := reversed[st]];
      st, en := st + 1, en - 1;
    }
  }

  /** A walk through sound tables from the root over the first `m` leaves towards leaf `i` of the
      same tree is never stuck: the next node is stored. */
  lemma DescentGoesOn(H: PairHash, height: nat, network: nat, db: DB, leaves: seq<Digest>, ids: seq<nat>, m: nat,
                      i: nat, links: seq<Link>)
    requires Injective(H) && Stored(H, height, network, db, leaves, ids)
    requires i < m <= |leaves| && Up(i, height) == Up(m - 1, height)
    requires IsDescent(H, RootWith(H, leaves[..m], height), i, height, links) && |links| < height
    ensures RowsOf(db, Cursor(RootWith(H, leaves[..m], height), i, height, links)) != {}
  {
    var h := height - |links| - 1;
    DescentStaysInTree(H, leaves[..m], i, height, links);
    PathNodeStored(H, height, network, db, leaves, ids, m, i, h);
    var row :| row in db.rht && row.link == LinkAt(H, leaves[..m], h, Up(i, h + 1));
    assert row in RowsOf(db, row.link.key);
  }

  /** The left children met on the way to the last leaf are the siblings of the rebuilt tree. */
  lemma {:induction false} LeftChildrenRebuild(H: PairHash, leaves: seq<Digest>, height: nat, links: seq<Link>)
    requires Injective(H) && |leaves| > 0
    requires IsDescent(H, RootWith(H, leaves, height), |leaves| - 1, height, links)
    ensures forall k :: 0 <= k < |links| ==> links[k].left == Rebuilt(H, leaves, height)[height - 1 - k]
    decreases |links|
  {
    if links != [] {
      LeftChildrenRebuild(H, leaves, height, links[..|links| - 1]);
      DescentStaysInTree(H, leaves, |leaves| - 1, height, links);
    }
  }

  /** The root found for a count is the root over that many leaves. */
  lemma RootOfCount(H: PairHash, height: nat, network: nat, db: DB, leaves: seq<Digest>, ids: seq<nat>, m: nat)
    requires Sound(H, db) && Stored(H, height, network, db, leaves, ids)
    requires 0 < m <= |leaves|
    ensures RootIdsAt(db, network, m - 1) == {ids[m - 1]}
    ensures db.roots[ids[m - 1]].root == RootWith(H, leaves[..m], height)
  {
    assert DepositStored(H, height, network, db, leaves[..m - 1 + 1], ids[m - 1]);
  }

  function Prefixed(path: seq<Link>, a: Appended): Appended {
    a.(path := path + a.path)
  }

  /** One level of an append. */
  lemma AppendStep(H: PairHash, siblings: seq<Digest>, index: nat, h: nat, cur: Digest, filled: bool, path: seq<Link>)
    requires h < |siblings|
    ensures var link := if Bit(index, h) then Link(H(siblings[h], cur), siblings[h], cur)
                        else Link(H(cur, Zero(H, h)), cur, Zero(H, h));
      var updated := if !Bit(index, h) && filled then siblings[h := cur] else siblings;
      Prefixed(path, AppendFrom(H, siblings, index, h, cur, filled))
        == Prefixed(path + [link], AppendFrom(H, updated, index, h + 1, link.key, filled && Bit(index, h)))
  {
    var rest := AppendFrom(H, siblings, index, h, cur, filled);
    assert path + rest.path == path + [rest.path[0]] + rest.path[1..];
  }

  /** The newest deposit with a root is the last one listed. */
  lemma LastDepositCounted(H: PairHash, height: nat, network: nat, db: DB, leaves: seq<Digest>, ids: seq<nat>,
                           newest: nat)
    requires Sound(H, db) && Stored(H, height, network, db, leaves, ids)
    requires newest in RootIds(db, network) && forall id :: id in RootIds(db, network) ==> id <= newest
    ensures db.deposits[newest].count + 1 == |leaves|
  {
    var last := |ids| - 1;
    assert ids[db.deposits[newest].count] == newest;
    assert DepositStored(H, height, network, db, leaves[..last + 1], ids[last]);
    assert ids[last] in RootIds(db, network);
  }

  /** A walk for the last of the first `n` deposits ends, and its left children are the rebuilt siblings. */
  lemma CountReadable(H: PairHash, height: nat, network: nat, db: DB, leaves: seq<Digest>, ids: seq<nat>, n: nat,
                      ok: bool, read: seq<Digest>, root: Digest, links: seq<Link>)
    requires Injective(H) && Sound(H, db) && Stored(H, height, network, db, leaves, ids) && n <= |leaves|
    requires n == 0 ==> ok && read == Rebuilt(H, [], height)
    requires n > 0 && RootIdsAt(db, network, n - 1) != {} ==>
      && (exists id :: id in RootIdsAt(db, network, n - 1) && db.roots[id].root == root)
      && IsDescent(H, root, n - 1, height, links)
    requires n > 0 && !ok && RootIdsAt(db, network, n - 1) != {} ==>
      |links| < height && RowsOf(db, Cursor(root, n - 1, height, links)) == {}
    requires n > 0 && ok ==> |links| == height == |read| && forall k :: 0 <= k < height ==>
      read[k] == links[height - 1 - k].left
    ensures ok && read == Rebuilt(H, leaves[..n], height)
  {
    hide Node;
    hide Zero;
    if n > 0 {
      RootOfCount(H, height, network, db, leaves, ids, n);
      if !ok {
        DescentGoesOn(H, height, network, db, leaves, ids, n, n - 1, links);
      }
      LeftChildrenRebuild(H, leaves[..n], height, links);
    } else {
      assert leaves[..0] == [];
    }
  }

  lemma NoRootBeyond(H: PairHash, height: nat, network: nat, db: DB, leaves: seq<Digest>, ids: seq<nat>, m: nat)
    requires Sound(H, db) && Stored(H, height, network, db, leaves, ids) && m >= |leaves|
    ensures RootIdsAt(db, network, m) == {}
  {
  }

  class MerkleTree {
    const H: PairHash
    const zeroHashes: seq<Digest>
    const networkID: nat
    const height: nat
    var count: nat
    var siblings: seq<Digest>
    /** The deposits the tables hold for this network. */
    ghost var leaves: seq<Digest>
    ghost var ids: seq<nat>

    ghost function View(): Tree
      reads this
    {
      Tree(leaves, ids, count, siblings)
    }

    predicate Shaped()
      reads this
    {
      1 <= height <= MAX_HEIGHT && ZeroTable(H, zeroHashes) && |siblings| == height && count < COUNT_LIMIT
    }

    constructor (H: PairHash, zeroHashes: seq<Digest>, height: nat, networkID: nat, count: nat)
      ensures this.H == H && this.zeroHashes == zeroHashes && this.height == height && this.networkID == networkID
      ensures this.count == count && siblings == []
    {
      this.H, this.zeroHashes, this.height, this.networkID := H, zeroHashes, height, networkID;
      this.count, siblings := count, [];
    }

    /** `getRoot`. */
    method GetRoot(db: DB) returns (found: bool, root: Digest, ghost id: nat)
      requires 1 <= height <= MAX_HEIGHT && ZeroTable(H, zeroHashes)
      ensures count == 0 ==> found && root == Zero(H, height)
      ensures count > 0 ==> (found <==> RootIdsAt(db, networkID, count - 1) != {})
      ensures count > 0 && found ==> id in RootIdsAt(db, networkID, count - 1) && db.roots[id].root == root
    {
      if count == 0 {
        return true, zeroHashes[height], 0;
      }
      found, root, id := Storage.GetRoot(db, count - 1, networkID);
    }

    /** `initSiblings`: the left children on the path of the last leaf, read from the tables. It
        fails on a missing root or node, and else follows stored nodes. */
    method InitSiblings(db: DB) returns (ok: bool, read: seq<Digest>, ghost root: Digest, ghost links: seq<Link>)
      requires 1 <= height <= MAX_HEIGHT && ZeroTable(H, zeroHashes)
      requires Sound(H, db)
      ensures count == 0 ==> ok && read == Rebuilt(H, [], height)
      ensures count > 0 && RootIdsAt(db, networkID, count - 1) != {} ==>
        exists id :: id in RootIdsAt(db, networkID, count - 1) && db.roots[id].root == root
      ensures count > 0 && RootIdsAt(db, networkID, count - 1) != {} ==> IsDescent(H, root, count - 1, height, links)
      ensures count > 0 && !ok && RootIdsAt(db, networkID, count - 1) != {} ==>
        |links| < height && RowsOf(db, Cursor(root, count - 1, height, links)) == {}
      ensures count > 0 && RootIdsAt(db, networkID, count - 1) == {} ==> !ok
      ensures !ok ==> read == []
      ensures count > 0 && ok ==> |links| == height == |read| && forall k :: 0 <= k < height ==>
        read[k] == links[height - 1 - k].left
    {
      read, root, links := [], HASH_ZERO, [];
      if count == 0 {
        for h := 0 to height
          invariant |read| == h && forall k :: 0 <= k < h ==> read[k] == Zero(H, k)
        {
          read := read + [zeroHashes[h]];
        }
        return true, read, root, links;
      }
      var found, cur, id := GetRoot(db);
      if !found {
        return false, [], root, links;
      }
      root := cur;
      var index := count - 1;
      for h := height downto 0
        invariant |read| == |links| == height - h
        invariant IsDescent(H, root, index, height, links) && cur == Cursor(root, index, height, links)
        invariant forall k :: 0 <= k < |read| ==> read[k] == links[k].left
      {
        var there, left, right := Get(db, cur);
        if !there {
          return false, [], root, links;
        }
        DescentExtends(H, root, index, height, links, Link(cur, left, right));
        links := links + [Link(cur, left, right)];
        read := read + [left];
        cur := if Bit(index, h) then right else left;
      }
      read := Reverse(read);
      ok := true;
    }

    /** The siblings are the left children met on a walk through stored nodes to the last leaf. */
    ghost predicate ReadBack(db: DB, root: Digest, links: seq<Link>)
      reads this
    {
      if count == 0 then siblings == Rebuilt(H, [], height)
      else
        && (exists id :: id in RootIdsAt(db, networkID, count - 1) && db.roots[id].root == root)
        && IsDescent(H, root, count - 1, height, links) && |links| == height == |siblings|
        && forall k :: 0 <= k < height ==> siblings[k] == links[height - 1 - k].left
    }

    /** Why a walk for the last leaf cannot be completed: no root, or no row for a node it reaches. */
    ghost predicate Unreadable(db: DB, root: Digest, links: seq<Link>)
      reads this
    {
      && count > 0
      && (RootIdsAt(db, networkID, count - 1) == {}
          || (&& (exists id :: id in RootIdsAt(db, networkID, count - 1) && db.roots[id].root == root)
              && IsDescent(H, root, count - 1, height, links) && |links| < height
              && RowsOf(db, Cursor(root, count - 1, height, links)) == {}))
    }

    /** The siblings read back for the current count. From tables that hold at least that many deposits this
        succeeds and rebuilds the frontier of the first `count` of them; it agrees with the tables if and only
        if these are all. */
    method Rebuild(db: DB, ghost leaves: seq<Digest>, ghost ids: seq<nat>)
      returns (ok: bool, ghost root: Digest, ghost links: seq<Link>)
      requires 1 <= height <= MAX_HEIGHT && ZeroTable(H, zeroHashes)
      requires Sound(H, db) && count < COUNT_LIMIT
      modifies this`siblings, this`leaves, this`ids
      ensures this.leaves == leaves && this.ids == ids
      ensures if ok then Shaped() && ReadBack(db, root, links) else siblings == [] && Unreadable(db, root, links)
      ensures Injective(H) && Stored(H, height, networkID, db, leaves, ids) ==>
        && (ok <==> count <= |leaves|)
        && (ok ==> View() == Tree(leaves, ids, count, Rebuilt(H, leaves[..count], height)))
        && (ok ==> (Mirrors(H, height, networkID, db, View()) <==> count == |leaves|))
    {
      hide Node;
      hide Zero;
      this.leaves, this.ids := leaves, ids;
      ok, siblings, root, links := InitSiblings(db);
      if Injective(H) && Stored(H, height, networkID, db, leaves, ids) {
        if count <= |leaves| {
          CountReadable(H, height, networkID, db, leaves, ids, count, ok, siblings, root, links);
          RebuiltIsFrontier(H, leaves[..count], height);
          assert leaves[..|leaves|] == leaves;
        } else {
          NoRootBeyond(H, height, networkID, db, leaves, ids, count - 1);
        }
      }
    }

    /** The loop of `addLeaf`. */
    method ClimbToRoot(leaf: Digest, index: nat) returns (cur: Digest, path: seq<Link>)
      requires Shaped()
      modifies this`siblings
      ensures Shaped()
      ensures Append(H, old(siblings), index, leaf) == Appended(cur, siblings, path)
    {
      cur := leaf;
      var isFilledSubTree := true;
      path := [];
      ghost var goal := Append(H, siblings, index, leaf);
      assert [] + goal.path == goal.path;
      for h := 0 to height
        invariant |siblings| == height
        invariant goal == Prefixed(path, AppendFrom(H, siblings, index, h, cur, isFilledSubTree))
      {
        hide AppendFrom;
        AppendStep(H, siblings, index, h, cur, isFilledSubTree, path);
        var parent;
        if Bit(index, h) {
          parent := H(siblings[h], cur);
          path := path + [Link(parent, siblings[h], cur)];
        } else {
          if isFilledSubTree {
            siblings := siblings[h := cur];
            isFilledSubTree := false;
          }
          parent := H(cur, zeroHashes[h]);
          path := path + [Link(parent, cur, zeroHashes[h])];
        }
        cur := parent;
      }
      assert path + [] == path;
    }

    /** `addLeaf`. Either write to the tables may fail; the siblings are then changed already. */
    method AddLeaf(db: DB, depositID: nat, leaf: Digest, index: nat, setRootFails: bool, bulkSetFails: bool)
      returns (ok: bool, db': DB)
      requires Shaped()
      modifies this`count, this`siblings
      ensures Shaped()
      ensures ok <==>
        && index == old(count) && !setRootFails && !bulkSetFails
        && !RootTaken(db, depositID) && Storable(db, Append(H, old(siblings), index, leaf).path, depositID)
      ensures siblings == if index == old(count) then Append(H, old(siblings), index, leaf).siblings else old(siblings)
      ensures count == if ok then (old(count) + 1) % COUNT_LIMIT else old(count)
      ensures ok ==> var a := Append(H, old(siblings), index, leaf);
        db' == BulkSet(SetRoot(db, depositID, RootRow(a.root, networkID)), a.path, depositID)
    {
      if index != count {
        return false, db;
      }
      var root, path := ClimbToRoot(leaf, index);
      if setRootFails || RootTaken(db, depositID) {
        return false, db;
      }
      db' := SetRoot(db, depositID, RootRow(root, networkID));
      if bulkSetFails || !Storable(db', path, depositID) {
        return false, db';
      }
      db' := BulkSet(db', path, depositID);
      count := (count + 1) % COUNT_LIMIT;
      ok := true;
    }

    /** `resetLeaf`. The count is changed even if the siblings cannot be read back. */
    method ResetLeaf(db: DB, depositCount: nat, ghost leaves: seq<Digest>, ghost ids: seq<nat>)
      returns (ok: bool, ghost root: Digest, ghost links: seq<Link>)
      requires 1 <= height <= MAX_HEIGHT && ZeroTable(H, zeroHashes)
      requires Sound(H, db) && depositCount < COUNT_LIMIT
      modifies this
      ensures count == depositCount && this.leaves == leaves && this.ids == ids
      ensures if ok then Shaped() && ReadBack(db, root, links) else siblings == [] && Unreadable(db, root, links)
      ensures Injective(H) && Stored(H, height, networkID, db, leaves, ids) && depositCount == |leaves| ==>
        && ok && View() == Tree(leaves, ids, |leaves|, Rebuilt(H, leaves, height))
        && Mirrors(H, height, networkID, db, View())
    {
      count := depositCount;
      ok, root, links := Rebuild(db, leaves, ids);
      assert leaves[..|leaves|] == leaves;
    }
  }

  /** `NewMerkleTree`: the tree of the deposits found in the tables, or an error if it cannot be read. If the count
      cannot be queried the tree is that of the first deposit. */
  method NewMerkleTree(db: DB, H: PairHash, height: nat, networkID: nat, queryFails: bool,
                       ghost leaves: seq<Digest>, ghost ids: seq<nat>)
    returns (ok: bool, tree: MerkleTree, ghost root: Digest, ghost links: seq<Link>)
    requires 1 <= height <= MAX_HEIGHT && Sound(H, db)
    ensures fresh(tree) && tree.H == H && tree.height == height && tree.networkID == networkID
    ensures tree.leaves == leaves && tree.ids == ids
    ensures if ok then tree.Shaped() && tree.ReadBack(db, root, links)
            else tree.siblings == [] && tree.Unreadable(db, root, links)
    ensures queryFails ==> tree.count == 1
    ensures !queryFails && RootIds(db, networkID) == {} ==> tree.count == 0
    ensures !queryFails && RootIds(db, networkID) != {} ==> exists id ::
      && id in RootIds(db, networkID) && (forall other :: other in RootIds(db, networkID) ==> other <= id)
      && tree.count == (db.deposits[id].count + 1) % COUNT_LIMIT
    ensures Injective(H) && Stored(H, height, networkID, db, leaves, ids) && |leaves| < COUNT_LIMIT ==>
      && tree.count == (if queryFails then 1 else |leaves|)
      && (ok <==> !queryFails || leaves != [])
      && (ok ==> tree.View() == Tree(leaves, ids, tree.count, Rebuilt(H, leaves[..tree.count], height)))
      && (ok ==> (Mirrors(H, height, networkID, db, tree.View()) <==> !queryFails || |leaves| == 1))
  {
    hide Rebuilt;
    hide Mirrors;
    var table := GenerateZeroHashes(H, MAX_HEIGHT);
    var found, last, newest := GetLastDepositCount(db, networkID, queryFails);
    tree := new MerkleTree(H, table, height, networkID, if found then (last + 1) % COUNT_LIMIT else 0);
    if !queryFails && Stored(H, height, networkID, db, leaves, ids) {
      if found {
        LastDepositCounted(H, height, networkID, db, leaves, ids, newest);
      } else if leaves != [] {
        RootOfCount(H, height, networkID, db, leaves, ids, |leaves|);
      }
    }
    ok, root, links := tree.Rebuild(db, leaves, ids);
  }
}
