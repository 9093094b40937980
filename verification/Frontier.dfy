/** The incremental tree: appending a leaf with nothing but the leaf count and one sibling per level. */
module Frontier {
  import opened Levels
  import opened Digests
  import opened CompleteTree
  import opened LevelBuilder

  /** What one append computes: the new root, the new siblings and the nodes on the leaf's path. */
  datatype Appended = Appended(root: Digest, siblings: seq<Digest>, path: seq<Link>)

  /** The append from level `h` upwards. `cur` is the new node of that level; `filled` says that
      no zero bit of `index` was met below. */
  function AppendFrom(H: PairHash, siblings: seq<Digest>, index: nat, h: nat, cur: Digest, filled: bool): (a: Appended)
    requires h <= |siblings|
    ensures |a.siblings| == |siblings| && |a.path| == |siblings| - h
    decreases |siblings| - h
  {
    if h == |siblings| then Appended(cur, siblings, [])
    else
      var link := if Bit(index, h) then Link(H(siblings[h], cur), siblings[h], cur)
                  else Link(H(cur, Zero(H, h)), cur, Zero(H, h));
      var updated := if !Bit(index, h) && filled then siblings[h := cur] else siblings;
      var above := AppendFrom(H, updated, index, h + 1, link.key, filled && Bit(index, h));
      above.(path := [link] + above.path)
  }

  function Append(H: PairHash, siblings: seq<Digest>, index: nat, leaf: Digest): (a: Appended)
    ensures |a.siblings| == |a.path| == |siblings|
  {
    AppendFrom(H, siblings, index, 0, leaf, true)
  }

  /** A sibling matters only at a level whose bit is set in the leaf count: there it is the
      complete subtree left of the next leaf. */
  ghost predicate Fits(H: PairHash, leaves: seq<Digest>, h: nat, sibling: Digest) {
    Bit(|leaves|, h) ==> sibling == Node(H, leaves, h, Up(|leaves|, h) - 1)
  }

  ghost predicate IsFrontier(H: PairHash, leaves: seq<Digest>, siblings: seq<Digest>) {
    forall h :: 0 <= h < |siblings| ==> Fits(H, leaves, h, siblings[h])
  }

  /** The path of leaf `i`: one stored node per level, bottom first. */
  ghost predicate IsPath(H: PairHash, leaves: seq<Digest>, i: nat, from: nat, path: seq<Link>) {
    forall k :: 0 <= k < |path| ==> path[k] == LinkAt(H, leaves, from + k, Up(i, from + k + 1))
  }

  /** The root recorded with the last leaf. Below the capacity its position is 0; an append
      beyond it silently starts a second tree. */
  function RootWith(H: PairHash, leaves: seq<Digest>, height: nat): Digest
    requires |leaves| > 0
  {
    Node(H, leaves, height, Up(|leaves| - 1, height))
  }

  /** The link an append writes at level `h` is the one of the complete tree. */
  lemma AppendLink(H: PairHash, leaves: seq<Digest>, leaf: Digest, siblings: seq<Digest>, h: nat, cur: Digest)
    requires h < |siblings|
    requires cur == Node(H, leaves + [leaf], h, Up(|leaves|, h))
    requires Fits(H, leaves, h, siblings[h])
    ensures (if Bit(|leaves|, h) then Link(H(siblings[h], cur), siblings[h], cur)
             else Link(H(cur, Zero(H, h)), cur, Zero(H, h))) == LinkAt(H, leaves + [leaf], h, Up(|leaves|, h + 1))
  {
    var n := |leaves|;
    var all := leaves + [leaf];
    assert all[..n] == leaves;
    if Bit(n, h) {
      NodeOfPrefix(H, all, n, h, Up(n, h) - 1);
    } else {
      NodeBeyond(H, all, h, Up(n, h) + 1);
    }
  }

  /** Half way through an append: the levels below `h` belong to the longer list already. */
  ghost predicate Between(H: PairHash, leaves: seq<Digest>, leaf: Digest, siblings: seq<Digest>, h: nat) {
    forall k :: 0 <= k < |siblings| ==>
      Fits(H, if k < h then leaves + [leaf] else leaves, k, siblings[k])
  }

  /** `filled` says whether the carry of `n + 1` reaches level `h`. */
  predicate Carries(n: nat, h: nat, filled: bool) {
    Up(n + 1, h) == if filled then Up(n, h) + 1 else Up(n, h)
  }

  /** Adding one flips the bits up to the lowest zero bit and no others. */
  lemma CarryFlips(n: nat, h: nat, filled: bool)
    requires Carries(n, h, filled)
    ensures Bit(n + 1, h) == if filled then !Bit(n, h) else Bit(n, h)
    ensures Carries(n, h + 1, filled && Bit(n, h))
  {
    if filled && Bit(n, h) {
      assert Up(n + 1, h) == 2 * (Up(n, h) / 2 + 1);
    }
  }

  /** The sibling an append leaves at level `h` fits the longer list. */
  lemma FitsAfter(H: PairHash, leaves: seq<Digest>, leaf: Digest, sibling: Digest, h: nat, filled: bool)
    requires Fits(H, leaves, h, sibling) && Carries(|leaves|, h, filled)
    ensures Fits(H, leaves + [leaf], h,
      if !Bit(|leaves|, h) && filled then Node(H, leaves + [leaf], h, Up(|leaves|, h)) else sibling)
  {
    var n, all := |leaves|, leaves + [leaf];
    CarryFlips(n, h, filled);
    if Bit(n, h) && !filled {
      assert all[..n] == leaves;
      NodeOfPrefix(H, all, n, h, Up(n, h) - 1);
    }
  }

  lemma PathExtends(H: PairHash, leaves: seq<Digest>, i: nat, h: nat, above: seq<Link>)
    requires IsPath(H, leaves, i, h + 1, above)
    ensures IsPath(H, leaves, i, h, [LinkAt(H, leaves, h, Up(i, h + 1))] + above)
  {
    var path := [LinkAt(H, leaves, h, Up(i, h + 1))] + above;
    forall k | 0 <= k < |path|
      ensures path[k] == LinkAt(H, leaves, h + k, Up(i, h + k + 1))
    {
      if k > 0 {
        assert path[k] == above[k - 1];
      }
    }
  }

  lemma {:induction false} AppendFromCorrect(
      H: PairHash, leaves: seq<Digest>, leaf: Digest, siblings: seq<Digest>, h: nat, cur: Digest, filled: bool)
    requires h <= |siblings| && Between(H, leaves, leaf, siblings, h) && Carries(|leaves|, h, filled)
    requires cur == Node(H, leaves + [leaf], h, Up(|leaves|, h))
    ensures var a := AppendFrom(H, siblings, |leaves|, h, cur, filled);
      && a.root == Node(H, leaves + [leaf], |siblings|, Up(|leaves|, |siblings|))
      && Between(H, leaves, leaf, a.siblings, |siblings|)
      && IsPath(H, leaves + [leaf], |leaves|, h, a.path)
    decreases |siblings| - h
  {
    if h < |siblings| {
      var n, all := |leaves|, leaves + [leaf];
      AppendLink(H, leaves, leaf, siblings, h, cur);
      FitsAfter(H, leaves, leaf, siblings[h], h, filled);
      CarryFlips(n, h, filled);
      var updated := if !Bit(n, h) && filled then siblings[h := cur] else siblings;
      assert Between(H, leaves, leaf, updated, h + 1);
      var link := LinkAt(H, all, h, Up(n, h + 1));
      AppendFromCorrect(H, leaves, leaf, updated, h + 1, link.key, filled && Bit(n, h));
      PathExtends(H, all, n, h, AppendFrom(H, updated, n, h + 1, link.key, filled && Bit(n, h)).path);
    }
  }

  /** An append keeps the frontier and computes the root and the path of the complete tree. */
  lemma AppendCorrect(H: PairHash, leaves: seq<Digest>, leaf: Digest, siblings: seq<Digest>)
    requires IsFrontier(H, leaves, siblings)
    ensures var a := Append(H, siblings, |leaves|, leaf);
      && a.root == RootWith(H, leaves + [leaf], |siblings|)
      && IsFrontier(H, leaves + [leaf], a.siblings)
      && IsPath(H, leaves + [leaf], |leaves|, 0, a.path)
  {
    AppendFromCorrect(H, leaves, leaf, siblings, 0, leaf, true);
  }

  /** Below the capacity `2^height` the appended root is the root of the whole list. */
  lemma AppendedRoot(H: PairHash, leaves: seq<Digest>, leaf: Digest, siblings: seq<Digest>)
    requires IsFrontier(H, leaves, siblings)
    requires |leaves| < Pow2(|siblings|)
    ensures Append(H, siblings, |leaves|, leaf).root == Root(H, leaves + [leaf], |siblings|)
  {
    AppendCorrect(H, leaves, leaf, siblings);
    Capacity(|leaves|, |siblings|);
  }

  /** Beyond the capacity the root of the list no longer depends on the new leaf... */
  lemma FullTreeIgnores(H: PairHash, leaves: seq<Digest>, leaf: Digest, siblings: seq<Digest>)
    requires IsFrontier(H, leaves, siblings)
    requires Up(|leaves|, |siblings|) > 0
    ensures Root(H, leaves + [leaf], |siblings|) == Root(H, leaves, |siblings|)
    ensures Append(H, siblings, |leaves|, leaf).root == Node(H, leaves + [leaf], |siblings|, Up(|leaves|, |siblings|))
  {
    AppendCorrect(H, leaves, leaf, siblings);
    assert (leaves + [leaf])[..|leaves|] == leaves;
    NodeOfPrefix(H, leaves + [leaf], |leaves|, |siblings|, 0);
  }

  /** ... but the appended root does. */
  lemma AppendBeyondCapacity(H: PairHash, leaves: seq<Digest>, x: Digest, y: Digest, siblings: seq<Digest>)
    requires Injective(H) && x != y
    requires IsFrontier(H, leaves, siblings)
    requires |leaves| >= Pow2(|siblings|)
    ensures Append(H, siblings, |leaves|, x).root != Root(H, leaves + [x], |siblings|)
         || Append(H, siblings, |leaves|, y).root != Root(H, leaves + [y], |siblings|)
  {
    var n, height := |leaves|, |siblings|;
    Capacity(n, height);
    FullTreeIgnores(H, leaves, x, siblings);
    FullTreeIgnores(H, leaves, y, siblings);
    if Node(H, leaves + [x], height, Up(n, height)) == Node(H, leaves + [y], height, Up(n, height)) {
      NodeDeterminesLeaves(H, leaves + [x], leaves + [y], height, Up(n, height), n);
    }
  }

  /** The append has no capacity check, and needs one: it is right for every next leaf exactly
      below the capacity. */
  lemma CapacityIsExact(H: PairHash, leaves: seq<Digest>, siblings: seq<Digest>)
    requires Injective(H)
    requires IsFrontier(H, leaves, siblings)
    ensures (forall leaf :: Append(H, siblings, |leaves|, leaf).root == Root(H, leaves + [leaf], |siblings|))
       <==> |leaves| < Pow2(|siblings|)
  {
    if |leaves| < Pow2(|siblings|) {
      forall leaf {
        AppendedRoot(H, leaves, leaf, siblings);
      }
    } else {
      AppendBeyondCapacity(H, leaves, Digest(0), Digest(1), siblings);
    }
  }

  function LowestZeroBit(n: nat): nat {
    if n % 2 == 0 then 0 else 1 + LowestZeroBit(n / 2)
  }

  lemma {:induction false} LowestZeroBitIs(n: nat)
    ensures !Bit(n, LowestZeroBit(n))
    ensures forall k :: 0 <= k < LowestZeroBit(n) ==> Bit(n, k)
  {
    assert Up(n, 0) == n;
    if n % 2 == 1 {
      LowestZeroBitIs(n / 2);
      UpShift(n, LowestZeroBit(n / 2));
      forall k | 0 <= k < LowestZeroBit(n)
        ensures Bit(n, k)
      {
        if k > 0 {
          UpShift(n, k - 1);
          assert Bit(n / 2, k - 1);
        }
      }
    }
  }

  /** Every append overwrites one sibling at most, the one at the lowest zero bit of the count. */
  lemma {:induction false} AppendFromOverwrites(H: PairHash, siblings: seq<Digest>, index: nat, h: nat, cur: Digest,
      filled: bool)
    requires h <= |siblings|
    requires filled <==> h <= LowestZeroBit(index)
    ensures var a := AppendFrom(H, siblings, index, h, cur, filled);
      forall k :: 0 <= k < |siblings| && k != LowestZeroBit(index) ==> a.siblings[k] == siblings[k]
    decreases |siblings| - h
  {
    if h < |siblings| {
      LowestZeroBitIs(index);
      var link := if Bit(index, h) then Link(H(siblings[h], cur), siblings[h], cur)
                  else Link(H(cur, Zero(H, h)), cur, Zero(H, h));
      var updated := if !Bit(index, h) && filled then siblings[h := cur] else siblings;
      AppendFromOverwrites(H, updated, index, h + 1, link.key, filled && Bit(index, h));
    }
  }

  /** So an append that fails after computing its path leaves a frontier of the same leaves,
      and the retry with any leaf has the right root. */
  lemma FailedAppendHarmless(H: PairHash, leaves: seq<Digest>, siblings: seq<Digest>, lost: Digest, retried: Digest)
    requires IsFrontier(H, leaves, siblings)
    ensures var left := Append(H, siblings, |leaves|, lost).siblings;
      && (forall k :: 0 <= k < |siblings| && k != LowestZeroBit(|leaves|) ==> left[k] == siblings[k])
      && IsFrontier(H, leaves, left)
      && Append(H, left, |leaves|, retried).root == Append(H, siblings, |leaves|, retried).root
  {
    var left := Append(H, siblings, |leaves|, lost).siblings;
    AppendFromOverwrites(H, siblings, |leaves|, 0, lost, true);
    LowestZeroBitIs(|leaves|);
    assert IsFrontier(H, leaves, left);
    AppendCorrect(H, leaves, retried, left);
    AppendCorrect(H, leaves, retried, siblings);
  }

  /** The siblings `initSiblings` reads back: zero hashes for an empty tree, else the left
      children on the path of the last leaf. */
  function Rebuilt(H: PairHash, leaves: seq<Digest>, height: nat): (siblings: seq<Digest>)
    ensures |siblings| == height
  {
    seq(height, h requires 0 <= h < height =>
      if |leaves| == 0 then Zero(H, h) else Node(H, leaves, h, 2 * Up(|leaves| - 1, h + 1)))
  }

  lemma {:induction false} ZeroHasNoBits(h: nat)
    ensures Up(0, h) == 0
  {
    if h > 0 {
      ZeroHasNoBits(h - 1);
    }
  }

  /** They may differ from the siblings of a tree that was never rebuilt, but not where it matters. */
  lemma RebuiltIsFrontier(H: PairHash, leaves: seq<Digest>, height: nat)
    ensures IsFrontier(H, leaves, Rebuilt(H, leaves, height))
  {
    var siblings := Rebuilt(H, leaves, height);
    forall h | 0 <= h < height && Bit(|leaves|, h)
      ensures Fits(H, leaves, h, siblings[h])
    {
      ZeroHasNoBits(h);
      UpSuccessor(|leaves| - 1, h);
      assert 2 * Up(|leaves| - 1, h + 1) == Up(|leaves|, h) - 1;
    }
  }

  /** The roots of a run of appends. */
  function Roots(H: PairHash, siblings: seq<Digest>, index: nat, more: seq<Digest>): seq<Digest>
    decreases |more|
  {
    if more == [] then []
    else
      var a := Append(H, siblings, index, more[0]);
      [a.root] + Roots(H, a.siblings, index + 1, more[1..])
  }

  /** A rebuilt tree and one that only ever received the surviving leaves give the same roots
      for every continuation, and these are the roots of the complete tree. */
  lemma {:induction false} SameFuture(H: PairHash, leaves: seq<Digest>, a: seq<Digest>, b: seq<Digest>,
                                      more: seq<Digest>)
    requires |a| == |b| && IsFrontier(H, leaves, a) && IsFrontier(H, leaves, b)
    ensures Roots(H, a, |leaves|, more) == Roots(H, b, |leaves|, more)
    ensures |Roots(H, a, |leaves|, more)| == |more|
    ensures forall k :: 0 <= k < |more| ==>
      Roots(H, a, |leaves|, more)[k] == RootWith(H, leaves + more[..k + 1], |a|)
    decreases |more|
  {
    if more != [] {
      var first := more[0];
      AppendCorrect(H, leaves, first, a);
      AppendCorrect(H, leaves, first, b);
      var a', b' := Append(H, a, |leaves|, first).siblings, Append(H, b, |leaves|, first).siblings;
      SameFuture(H, leaves + [first], a', b', more[1..]);
      forall k | 0 <= k < |more|
        ensures Roots(H, a, |leaves|, more)[k] == RootWith(H, leaves + more[..k + 1], |a|)
      {
        if k == 0 {
          assert leaves + more[..1] == leaves + [first];
        } else {
          assert leaves + more[..k + 1] == leaves + [first] + more[1..][..k];
        }
      }
    }
  }

  /** Appending one by one from the empty tree gives after each step the root that building the
      whole list at once gives. */
  lemma IncrementalMatchesBatch(H: PairHash, leaves: seq<Digest>, height: nat)
    requires |leaves| <= Pow2(height)
    ensures |Roots(H, Rebuilt(H, [], height), 0, leaves)| == |leaves|
    ensures forall k :: 0 <= k < |leaves| ==>
      Roots(H, Rebuilt(H, [], height), 0, leaves)[k] == Root(H, leaves[..k + 1], height)
  {
    var start := Rebuilt(H, [], height);
    RebuiltIsFrontier(H, [], height);
    SameFuture(H, [], start, start, leaves);
    forall k | 0 <= k < |leaves|
      ensures Roots(H, start, 0, leaves)[k] == Root(H, leaves[..k + 1], height)
    {
      assert [] + leaves[..k + 1] == leaves[..k + 1];
      Capacity(k, height);
    }
  }
}
