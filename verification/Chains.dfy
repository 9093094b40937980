/** Chains of blocks, of which only some carry bridge events. */
module Chains {

  datatype ChainBlock = ChainBlock(hash: nat, events: seq<nat>)

  /** The block number is the position. */
  type Chain = seq<ChainBlock>

  /** A block as the synchronizer receives and stores it. */
  datatype Block = Block(number: nat, hash: nat, events: seq<nat>)

  function BlockAt(chain: Chain, n: nat): Block
    requires n < |chain|
  {
    Block(n, chain[n].hash, chain[n].events)
  }

  /** Hashes identify blocks within a chain... */
  ghost predicate Distinct(chain: Chain) {
    forall m, n :: 0 <= m < n < |chain| ==> chain[m].hash != chain[n].hash
  }

  /** ... and between chains they commit to everything before. */
  ghost predicate OneHistory(c: Chain, d: Chain) {
    forall n :: 0 <= n < |c| && n < |d| && c[n].hash == d[n].hash ==> c[..n + 1] == d[..n + 1]
  }

  /** A hash commits to the number of its block, too. */
  ghost predicate SameNumbers(c: Chain, d: Chain) {
    forall m, n :: 0 <= m < |c| && 0 <= n < |d| && c[m].hash == d[n].hash ==> m == n
  }

  function EventAt(chain: Chain, n: nat): seq<Block> {
    if n < |chain| && chain[n].events != [] then [BlockAt(chain, n)] else []
  }

  /** The blocks with events whose number is in `lo <= number < hi`, in order. */
  function Events(chain: Chain, lo: nat, hi: nat): seq<Block> {
    if hi <= lo then []
    else Events(chain, lo, hi - 1) + EventAt(chain, hi - 1)
  }

  lemma {:induction false} EventsSplit(chain: Chain, lo: nat, mid: nat, hi: nat)
    requires lo <= mid <= hi
    ensures Events(chain, lo, hi) == Events(chain, lo, mid) + Events(chain, mid, hi)
    decreases hi
  {
    if mid < hi {
      EventsSplit(chain, lo, mid, hi - 1);
    }
  }

  lemma EventsOne(chain: Chain, n: nat)
    ensures Events(chain, n, n + 1) == EventAt(chain, n)
  {
    assert Events(chain, n, n) == [];
  }

  lemma EventsSnoc(chain: Chain, lo: nat, hi: nat)
    ensures hi <= lo ==> Events(chain, lo, hi) == []
    ensures lo < hi ==> Events(chain, lo, hi) == Events(chain, lo, hi - 1) + EventAt(chain, hi - 1)
  {
  }

  /** Event blocks are real and numbered within the range... */
  lemma {:induction false} EventIs(chain: Chain, lo: nat, hi: nat, k: nat)
    requires k < |Events(chain, lo, hi)|
    ensures var b := Events(chain, lo, hi)[k];
      lo <= b.number < hi && b.number < |chain| && b.events != [] && b == BlockAt(chain, b.number)
    decreases hi
  {
    hide Events;
    EventsSnoc(chain, lo, hi);
    if k < |Events(chain, lo, hi - 1)| {
      EventIs(chain, lo, hi - 1, k);
    }
  }

  /** ... every block with events in the range is there... */
  lemma {:induction false} EventsComplete(chain: Chain, lo: nat, hi: nat, n: nat)
    requires lo <= n < hi && n < |chain| && chain[n].events != []
    ensures BlockAt(chain, n) in Events(chain, lo, hi)
    decreases hi
  {
    hide Events;
    EventsSnoc(chain, lo, hi);
    if n < hi - 1 {
      EventsComplete(chain, lo, hi - 1, n);
    }
  }

  /** ... and strictly increasing. */
  lemma {:induction false} EventsIncrease(chain: Chain, lo: nat, hi: nat, j: nat, k: nat)
    requires j < k < |Events(chain, lo, hi)|
    ensures Events(chain, lo, hi)[j].number < Events(chain, lo, hi)[k].number
    decreases hi
  {
    hide Events;
    EventsSnoc(chain, lo, hi);
    if k < |Events(chain, lo, hi - 1)| {
      EventsIncrease(chain, lo, hi - 1, j, k);
    } else {
      EventIs(chain, lo, hi - 1, j);
    }
  }

  /** Chains that agree up to a block have the same events up to it. */
  lemma {:induction false} EventsAgree(c: Chain, d: Chain, lo: nat, hi: nat)
    requires hi <= |c| && hi <= |d| && c[..hi] == d[..hi]
    ensures Events(c, lo, hi) == Events(d, lo, hi)
    decreases hi
  {
    if lo < hi {
      assert c[..hi][..hi - 1] == c[..hi - 1] && d[..hi][..hi - 1] == d[..hi - 1];
      assert c[hi - 1] == c[..hi][hi - 1] == d[..hi][hi - 1] == d[hi - 1];
      EventsAgree(c, d, lo, hi - 1);
    }
  }

  /** So one common hash is enough. */
  lemma CommonHash(c: Chain, d: Chain, lo: nat, n: nat)
    requires OneHistory(c, d) && n < |c| && n < |d| && c[n].hash == d[n].hash
    ensures c[n] == d[n] && Events(c, lo, n + 1) == Events(d, lo, n + 1)
  {
    assert c[n] == c[..n + 1][n] && d[n] == d[..n + 1][n];
    EventsAgree(c, d, lo, n + 1);
  }

  /** A range that starts at `n` has block `n` first, if it carries events... */
  lemma EventsFirst(chain: Chain, n: nat, hi: nat)
    requires n < hi
    ensures Events(chain, n, hi) == EventAt(chain, n) + Events(chain, n + 1, hi)
  {
    EventsSplit(chain, n, n + 1, hi);
    EventsOne(chain, n);
  }

  /** ... and then blocks with higher numbers. */
  lemma EventsAfter(chain: Chain, n: nat, hi: nat)
    ensures Events(chain, n + 1, hi) != [] ==> Events(chain, n + 1, hi)[0].number > n
  {
    if Events(chain, n + 1, hi) != [] {
      EventIs(chain, n + 1, hi, 0);
    }
  }

  lemma EventsEmpty(chain: Chain, n: nat)
    ensures Events(chain, n, n) == []
  {
  }

  /** Rows are in ascending order of number, so those with a number up to `n` are a prefix. */
  function CountUpTo(blocks: seq<Block>, n: nat): (m: nat)
    ensures m <= |blocks|
  {
    if blocks == [] then 0
    else if blocks[|blocks| - 1].number <= n then |blocks|
    else CountUpTo(blocks[..|blocks| - 1], n)
  }

  function KeepUpTo(blocks: seq<Block>, n: nat): seq<Block> {
    blocks[..CountUpTo(blocks, n)]
  }

  predicate Increasing(blocks: seq<Block>) {
    forall j, k :: 0 <= j < k < |blocks| ==> blocks[j].number < blocks[k].number
  }

  /** Of blocks in order those up to a number are kept and the others are not. */
  lemma {:induction false} KeepSplits(blocks: seq<Block>, n: nat)
    requires Increasing(blocks)
    ensures forall k :: 0 <= k < |blocks| ==> (blocks[k].number <= n <==> k < CountUpTo(blocks, n))
    decreases |blocks|
  {
    if blocks != [] && blocks[|blocks| - 1].number > n {
      var before := blocks[..|blocks| - 1];
      KeepSplits(before, n);
      forall k | 0 <= k < |before|
        ensures blocks[k].number <= n <==> k < CountUpTo(blocks, n)
      {
        assert before[k] == blocks[k];
      }
    }
  }

  lemma EventsAreIncreasing(chain: Chain, lo: nat, hi: nat)
    ensures Increasing(Events(chain, lo, hi))
  {
    forall j, k | 0 <= j < k < |Events(chain, lo, hi)|
      ensures Events(chain, lo, hi)[j].number < Events(chain, lo, hi)[k].number
    {
      EventsIncrease(chain, lo, hi, j, k);
    }
  }

  lemma {:induction false} CountSplit(low: seq<Block>, high: seq<Block>, n: nat)
    requires forall k :: 0 <= k < |low| ==> low[k].number <= n
    requires forall k :: 0 <= k < |high| ==> high[k].number > n
    ensures CountUpTo(low + high, n) == |low|
    decreases |high|
  {
    if high == [] {
      assert low + high == low;
    } else {
      assert (low + high)[..|low + high| - 1] == low + high[..|high| - 1];
      CountSplit(low, high[..|high| - 1], n);
    }
  }

  /** Cutting stored event blocks back to a number is storing up to that number. */
  lemma KeepEvents(chain: Chain, lo: nat, hi: nat, n: nat)
    requires lo <= n + 1 <= hi
    ensures KeepUpTo(Events(chain, lo, hi), n) == Events(chain, lo, n + 1)
  {
    hide Events;
    var low, high := Events(chain, lo, n + 1), Events(chain, n + 1, hi);
    EventsSplit(chain, lo, n + 1, hi);
    forall k | 0 <= k < |low|
      ensures low[k].number <= n
    {
      EventIs(chain, lo, n + 1, k);
    }
    forall k | 0 <= k < |high|
      ensures high[k].number > n
    {
      EventIs(chain, n + 1, hi, k);
    }
    CountSplit(low, high, n);
  }
}
