/** Stored blocks and the last block synced, compared with a chain. */
module ChainSteps {
  import opened Chains

  ghost predicate OnChain(chain: Chain, b: Block) {
    b.number < |chain| && chain[b.number].hash == b.hash
  }

  /** A block as it is read back: its events are not. */
  function Header(b: Block): Block {
    Block(b.number, b.hash, [])
  }

  /** The last stored block, or the genesis block where nothing is stored. */
  function Newest(gen: nat, blocks: seq<Block>): Block {
    if blocks == [] then Block(gen, 0, []) else Header(blocks[|blocks| - 1])
  }

  /** `last` is the genesis or on the chain. Without forced chunks it carries events. */
  ghost predicate Anchored(gen: nat, force: bool, chain: Chain, last: Block) {
    && gen <= last.number < |chain|
    && (last.number > gen ==> chain[last.number].hash == last.hash)
    && (last.number > gen && !force ==> chain[last.number].events != [])
  }

  /** Storage and `last` are in step with a chain: exactly its event blocks above the genesis number
      and up to `last` are stored, each once and in order. */
  ghost predicate InStepWith(gen: nat, force: bool, blocks: seq<Block>, chain: Chain, last: Block) {
    Anchored(gen, force, chain, last) && blocks == Events(chain, gen + 1, last.number + 1)
  }

  predicate IsEvent(chain: Chain, b: Block) {
    b.number < |chain| && b.events != [] && b == BlockAt(chain, b.number)
  }

  /** The same with blocks missing: what is stored are event blocks of the chain, in order. */
  ghost predicate FollowsWith(gen: nat, force: bool, blocks: seq<Block>, chain: Chain, last: Block) {
    && Anchored(gen, force, chain, last) && Increasing(blocks)
    && forall k :: 0 <= k < |blocks| ==> IsEvent(chain, blocks[k]) && gen < blocks[k].number <= last.number
  }

  /** Storage is complete up to its own last block, but `last` is a later block with events. */
  ghost predicate BehindWith(gen: nat, force: bool, blocks: seq<Block>, chain: Chain, last: Block) {
    && FollowsWith(gen, force, blocks, chain, last)
    && InStepWith(gen, force, blocks, chain, Newest(gen, blocks))
    && Newest(gen, blocks).number < last.number && chain[last.number].events != []
  }

  lemma AboveGenesis(gen: nat, force: bool, blocks: seq<Block>, chain: Chain, last: Block)
    requires FollowsWith(gen, force, blocks, chain, last)
    ensures gen <= last.number < |chain| && Anchored(gen, force, chain, last)
  {
  }

  lemma StepFollows(gen: nat, force: bool, blocks: seq<Block>, chain: Chain, last: Block)
    requires InStepWith(gen, force, blocks, chain, last)
    ensures FollowsWith(gen, force, blocks, chain, last)
  {
    hide Events;
    EventsAreIncreasing(chain, gen + 1, last.number + 1);
    forall k | 0 <= k < |blocks|
      ensures IsEvent(chain, blocks[k]) && gen < blocks[k].number <= last.number
    {
      EventIs(chain, gen + 1, last.number + 1, k);
    }
  }

  /** What is behind is not in step: the block at `last` is missing. */
  lemma BehindIsOut(gen: nat, force: bool, blocks: seq<Block>, chain: Chain, last: Block)
    requires BehindWith(gen, force, blocks, chain, last)
    ensures !InStepWith(gen, force, blocks, chain, last)
  {
    hide Events;
    hide FollowsWith;
    AboveGenesis(gen, force, blocks, chain, last);
    var n := Newest(gen, blocks).number;
    EventsSplit(chain, gen + 1, n + 1, last.number + 1);
    EventsSplit(chain, n + 1, last.number, last.number + 1);
    EventsOne(chain, last.number);
    assert |Events(chain, gen + 1, last.number + 1)| > |blocks|;
  }

  /** If `last` is on another chain too, storage follows that one, and is in step with it or not as before. */
  lemma CarriesOver(gen: nat, force: bool, blocks: seq<Block>, branch: Chain, chain: Chain, last: Block)
    requires FollowsWith(gen, force, blocks, branch, last) && OneHistory(branch, chain) && gen < |chain|
    requires last.number <= gen || OnChain(chain, last)
    ensures FollowsWith(gen, force, blocks, chain, last)
    ensures Events(chain, gen + 1, last.number + 1) == Events(branch, gen + 1, last.number + 1)
    ensures InStepWith(gen, force, blocks, chain, last) <==> InStepWith(gen, force, blocks, branch, last)
  {
    if last.number > gen {
      CommonHash(branch, chain, gen + 1, last.number);
      assert branch[..last.number + 1] == chain[..last.number + 1];
      forall k | 0 <= k < |blocks|
        ensures IsEvent(chain, blocks[k])
      {
        var n := blocks[k].number;
        assert branch[n] == branch[..last.number + 1][n] == chain[..last.number + 1][n] == chain[n];
      }
    }
  }

  /** Cut back to one of its blocks that is on the chain, storage follows the chain there. */
  lemma FollowsAfterReset(gen: nat, force: bool, blocks: seq<Block>, branch: Chain, chain: Chain, last: Block, at: nat)
    requires FollowsWith(gen, force, blocks, branch, last) && OneHistory(branch, chain)
    requires at < |blocks| && OnChain(chain, blocks[at])
    ensures KeepUpTo(blocks, blocks[at].number) == blocks[..at + 1]
    ensures FollowsWith(gen, force, blocks[..at + 1], chain, Header(blocks[at]))
  {
    hide CountUpTo;
    KeepSplits(blocks, blocks[at].number);
    assert at + 1 < |blocks| ==> blocks[at + 1].number > blocks[at].number;
    var kept, b := blocks[..at + 1], Header(blocks[at]);
    assert FollowsWith(gen, force, kept, branch, b);
    CommonHash(branch, chain, gen + 1, b.number);
    CarriesOver(gen, force, kept, branch, chain, b);
  }

  lemma CutBack(branch: Chain, lo: nat, hi: nat, at: nat)
    requires at < |Events(branch, lo, hi)|
    ensures var b := Events(branch, lo, hi)[at];
      && lo <= b.number < |branch| && b.number < hi && b == BlockAt(branch, b.number) && b.events != []
      && KeepUpTo(Events(branch, lo, hi), b.number) == Events(branch, lo, b.number + 1)
  {
    EventIs(branch, lo, hi, at);
    KeepEvents(branch, lo, hi, Events(branch, lo, hi)[at].number);
  }

  /** If storage was complete up to its last block, it is then in step with the chain. */
  lemma StepAfterReset(gen: nat, force: bool, blocks: seq<Block>, branch: Chain, chain: Chain, last: Block, at: nat)
    requires InStepWith(gen, force, blocks, branch, last) && OneHistory(branch, chain)
    requires at < |blocks| && OnChain(chain, blocks[at])
    ensures InStepWith(gen, force, KeepUpTo(blocks, blocks[at].number), chain, Header(blocks[at]))
  {
    hide Events;
    hide CountUpTo;
    CutBack(branch, gen + 1, last.number + 1, at);
    CommonHash(branch, chain, gen + 1, blocks[at].number);
  }

  /** Cut back to the genesis it is in step with every chain. */
  lemma StepAfterFullReset(gen: nat, force: bool, blocks: seq<Block>, branch: Chain, chain: Chain, last: Block)
    requires FollowsWith(gen, force, blocks, branch, last) && gen < |chain|
    ensures KeepUpTo(blocks, gen) == []
    ensures InStepWith(gen, force, [], chain, Block(gen, 0, []))
  {
    KeepSplits(blocks, gen);
    assert blocks != [] ==> blocks[0].number > gen;
    EventsEmpty(chain, gen + 1);
  }

  /** Cut back to the very first block nothing is left either. */
  lemma NothingUpTo(gen: nat, force: bool, blocks: seq<Block>, branch: Chain, chain: Chain, last: Block)
    requires FollowsWith(gen, force, blocks, branch, last) && gen < |chain|
    ensures KeepUpTo(blocks, 0) == [] && FollowsWith(gen, force, [], chain, Block(gen, 0, []))
  {
    KeepSplits(blocks, 0);
    assert blocks != [] ==> blocks[0].number > gen;
  }

  /** Storage follows the chain up to its own last block. */
  lemma FollowsNewest(gen: nat, force: bool, blocks: seq<Block>, chain: Chain, last: Block)
    requires FollowsWith(gen, force, blocks, chain, last)
    ensures FollowsWith(gen, force, blocks, chain, Newest(gen, blocks))
    ensures gen <= Newest(gen, blocks).number <= last.number
  {
  }

  /** The first `k` event blocks are those up to the number of the `k`-th. */
  lemma PrefixEvents(chain: Chain, lo: nat, hi: nat, k: nat)
    requires 0 < k <= |Events(chain, lo, hi)|
    ensures Events(chain, lo, hi)[..k] == Events(chain, lo, Events(chain, lo, hi)[k - 1].number + 1)
  {
    hide Events;
    var all := Events(chain, lo, hi);
    var n := all[k - 1].number;
    EventIs(chain, lo, hi, k - 1);
    var low, high := Events(chain, lo, n + 1), Events(chain, n + 1, hi);
    EventsSplit(chain, lo, n + 1, hi);
    if k > |low| {
      assert high[k - 1 - |low|] == all[k - 1];
      EventIs(chain, n + 1, hi, k - 1 - |low|);
    } else if k < |low| {
      EventIs(chain, lo, n + 1, k);
      EventsIncrease(chain, lo, hi, k - 1, k);
    }
  }

  /** Storage of all event blocks up to a number is in step at its own last block. */
  lemma CompleteIsInStep(gen: nat, force: bool, chain: Chain, n: nat)
    requires gen <= n < |chain|
    ensures var blocks := Events(chain, gen + 1, n + 1);
      InStepWith(gen, force, blocks, chain, Newest(gen, blocks)) && Newest(gen, blocks).number <= n
  {
    hide Events;
    var blocks := Events(chain, gen + 1, n + 1);
    if blocks == [] {
      EventsEmpty(chain, gen + 1);
    } else {
      EventIs(chain, gen + 1, n + 1, |blocks| - 1);
      PrefixEvents(chain, gen + 1, n + 1, |blocks|);
      assert blocks[..|blocks|] == blocks;
    }
  }

  /** Falling back to the last stored block loses nothing: there are no events after it. */
  lemma StepAtLastStored(gen: nat, force: bool, blocks: seq<Block>, chain: Chain, last: Block)
    requires InStepWith(gen, force, blocks, chain, last)
    ensures InStepWith(gen, force, blocks, chain, Newest(gen, blocks)) && Newest(gen, blocks).number <= last.number
  {
    CompleteIsInStep(gen, force, chain, last.number);
  }

  lemma OlderHashesDiffer(gen: nat, force: bool, blocks: seq<Block>, chain: Chain, last: Block)
    requires FollowsWith(gen, force, blocks, chain, last) && Distinct(chain)
    ensures forall j :: 0 <= j < |blocks| - 1 ==> blocks[j].hash != last.hash
  {
    forall j | 0 <= j < |blocks| - 1
      ensures blocks[j].hash != last.hash
    {
      assert blocks[j].number < blocks[|blocks| - 1].number <= last.number;
    }
  }

  /** Storing events after `last` fills no gap before it. */
  lemma GapsStay(gen: nat, blocks: seq<Block>, chain: Chain, n: nat, hi: nat)
    requires gen <= n <= hi
    ensures blocks + Events(chain, n + 1, hi + 1) == Events(chain, gen + 1, hi + 1)
       <==> blocks == Events(chain, gen + 1, n + 1)
  {
    hide Events;
    var after := Events(chain, n + 1, hi + 1);
    EventsSplit(chain, gen + 1, n + 1, hi + 1);
    if blocks + after == Events(chain, gen + 1, n + 1) + after {
      assert blocks == (blocks + after)[..|blocks|];
    }
  }

  /** The first `i` event blocks are those before the next one. */
  lemma EventsBefore(chain: Chain, lo: nat, hi: nat, i: nat)
    requires i < |Events(chain, lo, hi)|
    ensures Events(chain, lo, hi)[..i] == Events(chain, lo, Events(chain, lo, hi)[i].number)
  {
    hide Events;
    var q := Events(chain, lo, hi);
    var n := q[i].number;
    EventIs(chain, lo, hi, i);
    PrefixEvents(chain, lo, hi, i + 1);
    EventsSplit(chain, lo, n, n + 1);
    EventsOne(chain, n);
    assert q[..i + 1][..i] == q[..i];
  }

  /** Event blocks up to a number, followed by the later ones of a chain. */
  lemma JoinIncreases(gen: nat, blocks: seq<Block>, chain: Chain, n: nat, hi: nat)
    requires gen <= n && Increasing(blocks)
    requires forall k :: 0 <= k < |blocks| ==> IsEvent(chain, blocks[k]) && gen < blocks[k].number <= n
    ensures var all := blocks + Events(chain, n + 1, hi + 1);
      && Increasing(all)
      && forall k :: 0 <= k < |all| ==>
           IsEvent(chain, all[k]) && gen < all[k].number && (n <= hi ==> all[k].number <= hi)
  {
    hide Events;
    var q := Events(chain, n + 1, hi + 1);
    EventsAreIncreasing(chain, n + 1, hi + 1);
    forall k | 0 <= k < |q|
      ensures IsEvent(chain, q[k]) && n < q[k].number <= hi
    {
      EventIs(chain, n + 1, hi + 1, k);
    }
  }

  /** With events after `last`, what is stored are still event blocks in order. */
  lemma MoreEvents(gen: nat, force: bool, blocks: seq<Block>, chain: Chain, last: Block, hi: nat)
    requires FollowsWith(gen, force, blocks, chain, last) && last.number <= hi < |chain|
    ensures var all := blocks + Events(chain, last.number + 1, hi + 1);
      Increasing(all) && forall k :: 0 <= k < |all| ==> IsEvent(chain, all[k]) && gen < all[k].number <= hi
  {
    JoinIncreases(gen, blocks, chain, last.number, hi);
  }

  /** What holds of the `i`-th event block of a window before it is stored. */
  lemma NextEvent(gen: nat, force: bool, base: seq<Block>, chain: Chain, last: Block, hi: nat, i: nat)
    requires FollowsWith(gen, force, base, chain, last) && last.number <= hi < |chain|
    requires i < |Events(chain, last.number + 1, hi + 1)|
    ensures var q := Events(chain, last.number + 1, hi + 1);
      var b, stored := q[i], base + q[..i];
      && last.number < b.number <= hi && IsEvent(chain, b)
      && q[..i] == Events(chain, last.number + 1, b.number)
      && q[..i + 1] == Events(chain, last.number + 1, b.number + 1)
      && Increasing(stored)
      && forall k :: 0 <= k < |stored| ==> IsEvent(chain, stored[k]) && gen < stored[k].number < b.number
  {
    hide Events;
    var b := Events(chain, last.number + 1, hi + 1)[i];
    EventIs(chain, last.number + 1, hi + 1, i);
    EventsBefore(chain, last.number + 1, hi + 1, i);
    PrefixEvents(chain, last.number + 1, hi + 1, i + 1);
    MoreEvents(gen, force, base, chain, last, b.number - 1);
  }

  lemma NoEventsAfter(chain: Chain, lo: nat, hi: nat)
    requires Events(chain, lo, hi) != []
    ensures var q := Events(chain, lo, hi); Events(chain, q[|q| - 1].number + 1, hi) == []
  {
    hide Events;
    var q := Events(chain, lo, hi);
    var n := q[|q| - 1].number;
    EventIs(chain, lo, hi, |q| - 1);
    PrefixEvents(chain, lo, hi, |q|);
    assert q[..|q|] == q;
    EventsSplit(chain, lo, n + 1, hi);
  }

  /** Event blocks in order follow the chain at the last of them, or at any block from there on. */
  lemma FollowsAt(gen: nat, force: bool, all: seq<Block>, chain: Chain, last: Block)
    requires Anchored(gen, force, chain, last) && Increasing(all)
    requires forall k :: 0 <= k < |all| ==> IsEvent(chain, all[k]) && gen < all[k].number
    requires all != [] ==> all[|all| - 1].number <= last.number
    ensures FollowsWith(gen, force, all, chain, last)
  {
  }

  /** Storing what follows `last` leaves storage following the chain at the last block stored, or with forced
      chunks at the end of the window. */
  lemma FollowsStoring(gen: nat, force: bool, blocks: seq<Block>, chain: Chain, last: Block, hi: nat)
    requires FollowsWith(gen, force, blocks, chain, last) && last.number <= hi < |chain|
    ensures var q := Events(chain, last.number + 1, hi + 1);
      && (q == [] ==> blocks + q == blocks)
      && (q != [] ==> FollowsWith(gen, force, blocks + q, chain, q[|q| - 1]))
      && (q != [] ==> FollowsWith(gen, force, blocks + q, chain, Newest(gen, blocks + q)))
      && (q != [] ==> q[|q| - 1].number <= hi && Events(chain, q[|q| - 1].number + 1, hi + 1) == [])
      && (force ==> FollowsWith(gen, force, blocks + q, chain, Block(hi, chain[hi].hash, [])))
  {
    hide Events;
    hide Increasing;
    var q := Events(chain, last.number + 1, hi + 1);
    var all := blocks + q;
    AboveGenesis(gen, force, blocks, chain, last);
    MoreEvents(gen, force, blocks, chain, last, hi);
    hide FollowsWith;
    if q != [] {
      var b := q[|q| - 1];
      assert all[|all| - 1] == b;
      NoEventsAfter(chain, last.number + 1, hi + 1);
      FollowsAt(gen, force, all, chain, b);
      FollowsAt(gen, force, all, chain, Header(b));
    }
    if force {
      FollowsAt(gen, force, all, chain, Block(hi, chain[hi].hash, []));
    }
  }

  /** In step before, storage is in step after: complete up to the end of what was stored. */
  lemma StepsStoring(gen: nat, force: bool, blocks: seq<Block>, chain: Chain, last: Block, hi: nat, last': Block)
    requires Anchored(gen, force, chain, last) && gen <= last.number <= hi < |chain|
    requires Anchored(gen, force, chain, last') && last'.number <= hi && Events(chain, last'.number + 1, hi + 1) == []
    ensures InStepWith(gen, force, blocks + Events(chain, last.number + 1, hi + 1), chain, last')
       <==> InStepWith(gen, force, blocks, chain, last)
  {
    hide Events;
    GapsStay(gen, blocks, chain, last.number, hi);
    EventsSplit(chain, gen + 1, last'.number + 1, hi + 1);
  }

  /** The answer for a window that starts at `last`, with a genesis placeholder filled in, always
      has a first block; that is `last`, and what follows is new. */
  lemma FirstIsLast(gen: nat, chain: Chain, last: Block, toBlock: nat, q: seq<Block>)
    requires Anchored(gen, false, chain, last) && last.number <= toBlock < |chain|
    requires q == Events(chain, last.number, toBlock + 1)
    ensures last.number == gen ==> (|q| == 0 || q[0].number != gen <==> chain[gen].events == [])
    ensures last.number > gen || chain[gen].events != [] ==>
      |q| > 0 && q[1..] == Events(chain, last.number + 1, toBlock + 1) && q[0] == BlockAt(chain, last.number)
    ensures last.number == gen && chain[gen].events == [] ==> q == Events(chain, last.number + 1, toBlock + 1)
  {
    hide Events;
    EventsFirst(chain, last.number, toBlock + 1);
    EventsAfter(chain, last.number, toBlock + 1);
  }

  /** The answer of another chain: it is empty only if that chain does not have `last`, and if its first block has
      the hash of `last` it is what the other chain has after `last`. */
  lemma FirstOfOther(gen: nat, branch: Chain, asked: Chain, last: Block, toBlock: nat, q: seq<Block>)
    requires Anchored(gen, false, branch, last) && OneHistory(branch, asked) && SameNumbers(branch, asked)
    requires gen < last.number <= toBlock < |asked| && q == Events(asked, last.number, toBlock + 1)
    ensures q == [] ==> !OnChain(asked, last)
    ensures q != [] && q[0].hash == last.hash ==>
      Anchored(gen, false, asked, last) && q[1..] == Events(asked, last.number + 1, toBlock + 1)
    ensures OnChain(asked, last) ==> q != [] && q[0].hash == last.hash
  {
    hide Events;
    var n := last.number;
    if OnChain(asked, last) {
      CommonHash(branch, asked, gen + 1, n);
      FirstIsLast(gen, asked, last, toBlock, q);
    }
    if q != [] && q[0].hash == last.hash {
      EventIs(asked, n, toBlock + 1, 0);
      CommonHash(branch, asked, gen + 1, n);
      FirstIsLast(gen, asked, last, toBlock, q);
    }
  }

  /** Without a second check the answer may come from a chain that does not have the stored blocks. What is stored
      then follows that chain if and only if the newest block stored before is on it. */
  lemma MixedBranches(gen: nat, force: bool, blocks: seq<Block>, branch: Chain, asked: Chain, last: Block, hi: nat)
    requires FollowsWith(gen, force, blocks, branch, last) && OneHistory(branch, asked) && last.number <= hi < |asked|
    requires Events(asked, last.number + 1, hi + 1) != []
    ensures var q := Events(asked, last.number + 1, hi + 1);
      FollowsWith(gen, force, blocks + q, asked, q[|q| - 1]) <==> blocks == [] || OnChain(asked, blocks[|blocks| - 1])
  {
    hide Events;
    hide OneHistory;
    var q := Events(asked, last.number + 1, hi + 1);
    var all, end := blocks + q, q[|q| - 1];
    EventIs(asked, last.number + 1, hi + 1, |q| - 1);
    assert blocks != [] ==> all[|blocks| - 1] == blocks[|blocks| - 1];
    if blocks == [] || OnChain(asked, blocks[|blocks| - 1]) {
      if blocks != [] {
        FollowsAfterReset(gen, force, blocks, branch, asked, last, |blocks| - 1);
        assert blocks[..|blocks|] == blocks;
      }
      JoinIncreases(gen, blocks, asked, last.number, hi);
      assert all[|all| - 1] == end;
      FollowsAt(gen, force, all, asked, end);
    }
  }

  /** On two chains that part after the genesis: the stored blocks are of both. */
  lemma MixedBranchesWitness()
    ensures var branch := [ChainBlock(1, []), ChainBlock(2, [7])];
      var asked := [ChainBlock(1, []), ChainBlock(3, []), ChainBlock(4, [8])];
      var a, b := Block(1, 2, [7]), Block(2, 4, [8]);
      && InStepWith(0, false, [a], branch, a) && OneHistory(branch, asked)
      && Events(asked, 2, 3) == [b] && !OnChain(asked, a) && !OnChain(branch, b)
  {
    var branch := [ChainBlock(1, []), ChainBlock(2, [7])];
    var asked := [ChainBlock(1, []), ChainBlock(3, []), ChainBlock(4, [8])];
    var a, b := Block(1, 2, [7]), Block(2, 4, [8]);
    assert Events(branch, 1, 2) == Events(branch, 1, 1) + [a] == [a];
    assert Events(asked, 2, 3) == Events(asked, 2, 2) + [b] == [b];
  }

  lemma NewestIsLast(gen: nat, blocks: seq<Block>, branch: Chain, last: Block)
    requires InStepWith(gen, false, blocks, branch, last) && last.number > gen
    ensures blocks != [] && blocks[|blocks| - 1] == BlockAt(branch, last.number)
  {
    EventsSnoc(branch, gen + 1, last.number + 1);
  }

  /** No stored block above the number is on the chain. */
  ghost predicate OnlyOffChainAbove(blocks: seq<Block>, chain: Chain, n: nat) {
    forall p :: 0 <= p < |blocks| && blocks[p].number > n ==> !OnChain(chain, blocks[p])
  }

  /** The walk back from a reorg compares `last` and then the stored blocks, but for the newest one, which it
      takes for `last`. So that one is always cut: nothing on the chain is cut if and only if the newest stored
      block is off it. */
  lemma NothingGoodIsCut(gen: nat, force: bool, blocks: seq<Block>, branch: Chain, chain: Chain, last: Block, at: int)
    requires FollowsWith(gen, force, blocks, branch, last)
    requires -1 <= at && (at == -1 || at < |blocks| - 1)
    requires forall p :: at < p < |blocks| - 1 && p >= 0 ==> !OnChain(chain, blocks[p])
    ensures OnlyOffChainAbove(blocks, chain, if at == -1 then gen else blocks[at].number)
       <==> blocks == [] || !OnChain(chain, blocks[|blocks| - 1])
  {
    var n := if at == -1 then gen else blocks[at].number;
    assert blocks != [] ==> blocks[|blocks| - 1].number > n;
  }

  /** The block that the walk back returns to, -1 for the genesis. */
  function ReturnTo(gen: nat, blocks: seq<Block>, at: int): Block
    requires -1 <= at < |blocks|
  {
    if at == -1 then Block(gen, 0, []) else Header(blocks[at])
  }

  /** That block is the newest on the chain below the newest stored one, or the genesis if none is. */
  ghost predicate ReturnsTo(blocks: seq<Block>, chain: Chain, at: int) {
    && -1 <= at < |blocks| && (at == -1 || at < |blocks| - 1)
    && (at >= 0 ==> OnChain(chain, blocks[at]))
    && forall p :: 0 <= p < |blocks| - 1 && at < p ==> !OnChain(chain, blocks[p])
  }

  /** Cut back to it, storage follows the chain there, and is in step with it if it was complete. */
  lemma ReorgCut(gen: nat, force: bool, blocks: seq<Block>, branch: Chain, chain: Chain, last: Block, at: int)
    requires FollowsWith(gen, force, blocks, branch, last) && OneHistory(branch, chain) && gen < |chain|
    requires -1 <= at < |blocks| && (at >= 0 ==> OnChain(chain, blocks[at]))
    ensures var block := ReturnTo(gen, blocks, at);
      var kept := KeepUpTo(blocks, block.number);
      && FollowsWith(gen, force, kept, chain, block) && block == Newest(gen, kept)
      && (InStepWith(gen, force, blocks, branch, Newest(gen, blocks)) ==> InStepWith(gen, force, kept, chain, block))
  {
    hide CountUpTo;
    hide Events;
    hide OneHistory;
    hide Increasing;
    if at == -1 {
      StepAfterFullReset(gen, force, blocks, branch, chain, last);
      StepFollows(gen, force, [], chain, Block(gen, 0, []));
    } else {
      FollowsAfterReset(gen, force, blocks, branch, chain, last, at);
      if InStepWith(gen, force, blocks, branch, Newest(gen, blocks)) {
        StepAfterReset(gen, force, blocks, branch, chain, Newest(gen, blocks), at);
      }
    }
  }

  /** Without forced chunks and in step, the newest stored block is `last`, which is off the chain. */
  lemma NewestIsOffChain(gen: nat, blocks: seq<Block>, branch: Chain, chain: Chain, last: Block)
    requires InStepWith(gen, false, blocks, branch, last)
    requires last.number > gen && !OnChain(chain, last)
    ensures blocks != [] && !OnChain(chain, blocks[|blocks| - 1])
  {
    NewestIsLast(gen, blocks, branch, last);
  }

  /** With forced chunks it happens: the only stored block is on the chain and is cut, because the block kept in
      memory after it left the chain. */
  lemma GoodBlockIsCutWitness()
    ensures var branch := [ChainBlock(1, []), ChainBlock(2, [7]), ChainBlock(3, [])];
      var chain := [ChainBlock(1, []), ChainBlock(2, [7]), ChainBlock(4, [])];
      var a, last := Block(1, 2, [7]), Block(2, 3, []);
      && InStepWith(0, true, [a], branch, last) && OneHistory(branch, chain)
      && !OnChain(chain, last) && OnChain(chain, a)
      && KeepUpTo([a], 0) == [] && !OnlyOffChainAbove([a], chain, 0)
  {
    var branch := [ChainBlock(1, []), ChainBlock(2, [7]), ChainBlock(3, [])];
    var a := Block(1, 2, [7]);
    assert Events(branch, 1, 2) == Events(branch, 1, 1) + [a] == [a];
    assert Events(branch, 1, 3) == Events(branch, 1, 2) + [] == [a];
    assert [a][0].number > 0;
  }

  /** Cut back to any number, storage follows the chain up to the same `last`. */
  lemma FollowsAfterCut(gen: nat, force: bool, blocks: seq<Block>, chain: Chain, last: Block, head: nat)
    requires FollowsWith(gen, force, blocks, chain, last)
    ensures FollowsWith(gen, force, KeepUpTo(blocks, head), chain, last)
  {
    hide CountUpTo;
  }

  /** A node whose head is below `last` makes a layer-2 synchronizer that is not synced yet cut storage
      back to that head but keep `last`. Storage is then behind, unless there is nothing to cut. */
  lemma LaggingHead(gen: nat, force: bool, blocks: seq<Block>, chain: Chain, last: Block, head: nat)
    requires InStepWith(gen, force, blocks, chain, last) && last == Newest(gen, blocks) && head < last.number
    ensures if blocks == [] then KeepUpTo(blocks, head) == [] && InStepWith(gen, force, [], chain, last)
            else BehindWith(gen, force, KeepUpTo(blocks, head), chain, last)
  {
    hide Events;
    hide CountUpTo;
    StepFollows(gen, force, blocks, chain, last);
    FollowsAfterCut(gen, force, blocks, chain, last, head);
    KeepSplits(blocks, head);
    if blocks != [] {
      var cut := KeepUpTo(blocks, head);
      if head < gen {
        assert blocks[0].number > gen;
        EventsEmpty(chain, gen + 1);
      } else {
        KeepEvents(chain, gen + 1, last.number + 1, head);
        CompleteIsInStep(gen, force, chain, head);
      }
      assert IsEvent(chain, blocks[|blocks| - 1]);
    }
  }

  /** It happens on a chain of two event blocks and a head at the first: going on from the kept block the
      second one is lost. */
  lemma LaggingHeadWitness()
    ensures var chain := [ChainBlock(1, []), ChainBlock(2, [7]), ChainBlock(3, [8])];
      var a, b := Block(1, 2, [7]), Block(2, 3, [8]);
      && InStepWith(0, false, [a, b], chain, Header(b)) && Header(b) == Newest(0, [a, b])
      && KeepUpTo([a, b], 1) == [a] && BehindWith(0, false, [a], chain, Header(b)) && OnChain(chain, Header(b))
      && [a] + Events(chain, 3, 3) != Events(chain, 1, 3)
  {
    var chain := [ChainBlock(1, []), ChainBlock(2, [7]), ChainBlock(3, [8])];
    var a, b := Block(1, 2, [7]), Block(2, 3, [8]);
    assert Events(chain, 1, 2) == Events(chain, 1, 1) + [a] == [a];
    assert Events(chain, 1, 3) == Events(chain, 1, 2) + [b] == [a, b];
    LaggingHead(0, false, [a, b], chain, Header(b), 1);
    assert [a, b][..1] == [a];
    assert CountUpTo([a, b], 1) == CountUpTo([a, b][..1], 1) == 1;
  }

  /** In step with a chain, every stored block is on it. */
  lemma StoredOnChain(gen: nat, force: bool, blocks: seq<Block>, chain: Chain, last: Block)
    requires FollowsWith(gen, force, blocks, chain, last)
    ensures forall k :: 0 <= k < |blocks| ==> OnChain(chain, blocks[k])
  {
    assert forall k :: 0 <= k < |blocks| ==> IsEvent(chain, blocks[k]);
  }
}
