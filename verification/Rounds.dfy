/** Runs of the synchronizer, round by round. */
module Rounds {
  import opened Chains
  import opened ChainSteps

  /** What the node reports as its head after a round, if it answers. */
  datatype Reported = NoAnswer | Head(number: nat)

  /** What a round of `Sync` meets: the chain of the node, the head it reports first, and the one it reports after the
      blocks are synced. */
  datatype Round = Round(chain: Chain, head: nat, reported: Reported)

  /** Where a round of `Sync` ends: the chain that storage follows, the block to go on from and the stored
      blocks; whether the round succeeded, stored anything, and cut storage to a lagging head. Besides, the blocks
      before that cut, the block up to which blocks were stored, and where a reset went. */
  datatype Moment = Moment(chain: Chain, last: Block, blocks: seq<Block>, ok: bool, grew: bool, lagged: bool,
                           uncut: seq<Block>, upTo: nat, at: int)

  function StartAt(chain: Chain, last: Block, blocks: seq<Block>): Moment {
    Moment(chain, last, blocks, true, false, false, blocks, 0, -1)
  }

  /** The block is the genesis or on the chain. */
  ghost predicate AgreesWith(gen: nat, chain: Chain, b: Block) {
    b.number <= gen || OnChain(chain, b)
  }

  ghost predicate MomentFollows(gen: nat, force: bool, m: Moment) {
    FollowsWith(gen, force, m.blocks, m.chain, m.last)
  }

  ghost predicate MomentInStep(gen: nat, force: bool, m: Moment) {
    InStepWith(gen, force, m.blocks, m.chain, m.last)
  }

  ghost predicate MomentBehind(gen: nat, force: bool, m: Moment) {
    BehindWith(gen, force, m.blocks, m.chain, m.last)
  }

  /** In step, or put behind by the lagging head just met. */
  ghost predicate Sane(gen: nat, force: bool, m: Moment) {
    MomentInStep(gen, force, m) || (m.lagged && MomentBehind(gen, force, m))
  }

  /** What a round does to the stored blocks. If the last block is on the chain exactly the event blocks after it are
      added, up to the reported head or further on success. If not, a success is a reset to the newest stored block
      on the chain below the newest one. Then storage may be cut to the head reported at the end, if that is below
      the last block. */
  ghost predicate Does(gen: nat, m: Moment, r: Round, m': Moment) {
    && (m'.ok && AgreesWith(gen, r.chain, m.last) ==> r.head <= m'.upTo)
    && ((m'.ok && AgreesWith(gen, r.chain, m.last)) || m'.grew ==>
          && m.last.number <= m'.upTo < |r.chain|
          && m'.uncut == m.blocks + Events(r.chain, m.last.number + 1, m'.upTo + 1))
    && (m'.ok && !AgreesWith(gen, r.chain, m.last) ==>
          && ReturnsTo(m.blocks, r.chain, m'.at) && m'.last == ReturnTo(gen, m.blocks, m'.at)
          && m'.uncut == KeepUpTo(m.blocks, m'.last.number))
    && (!m'.ok && !m'.grew ==> m'.uncut == m.blocks)
    && (!m'.ok ==> m'.last == Newest(gen, m'.uncut))
    && (m'.grew ==> !m'.ok && m'.uncut != m.blocks)
    && (m'.lagged ==> r.reported.Head? && r.reported.number < m'.last.number)
    && m'.blocks == if m'.lagged then KeepUpTo(m'.uncut, r.reported.number) else m'.uncut
  }

  /** What this means for being in step. Storage always follows the old chain or the new one, after a success the new
      one. From in step it stays so, but for a lagging head. From behind, a round that succeeds is in step again if
      and only if the new chain does not have the block that was kept; one that fails is if it stored nothing, and
      not if it stored something. */
  ghost predicate Steps(gen: nat, force: bool, m: Moment, chain: Chain, m': Moment) {
    && MomentFollows(gen, force, m')
    && (m'.chain == m.chain || m'.chain == chain) && (m'.ok ==> m'.chain == chain)
    && (MomentInStep(gen, force, m) ==> Sane(gen, force, m'))
    && (MomentInStep(gen, force, m) && m'.ok && AgreesWith(gen, chain, m.last) ==>
          m'.uncut == Events(chain, gen + 1, m'.upTo + 1))
    && (MomentBehind(gen, force, m) && m'.ok ==> (Sane(gen, force, m') <==> !OnChain(chain, m.last)))
    && (MomentBehind(gen, force, m) && m'.ok && OnChain(chain, m.last) ==> !m'.lagged && !MomentInStep(gen, force, m'))
    && (MomentBehind(gen, force, m) && !m'.ok && !m'.grew ==> Sane(gen, force, m'))
    && (MomentBehind(gen, force, m) && !m'.ok && m'.grew && !m'.lagged ==> !MomentInStep(gen, force, m'))
  }

  ghost predicate IsRound(gen: nat, force: bool, m: Moment, r: Round, m': Moment) {
    Does(gen, m, r, m') && Steps(gen, force, m, r.chain, m')
  }

  /** What a call of `syncBlocks` means for a round that does not meet a lagging head. */
  lemma RoundEnds(gen: nat, force: bool, m: Moment, chain: Chain, m': Moment)
    requires MomentFollows(gen, force, m') && !m'.lagged && m'.chain == if m'.ok || m'.grew then chain else m.chain
    requires MomentBehind(gen, force, m) ==> !MomentInStep(gen, force, m)
    requires MomentInStep(gen, force, m) ==> MomentInStep(gen, force, m')
    requires MomentInStep(gen, force, m) && m'.ok && AgreesWith(gen, chain, m.last) ==>
      m'.uncut == Events(chain, gen + 1, m'.upTo + 1)
    requires MomentBehind(gen, force, m) && m'.ok ==> (MomentInStep(gen, force, m') <==> !OnChain(chain, m.last))
    requires MomentBehind(gen, force, m) && !m'.ok && !m'.grew ==> MomentInStep(gen, force, m')
    requires MomentBehind(gen, force, m) && !m'.ok && m'.grew ==> !MomentInStep(gen, force, m')
    ensures Steps(gen, force, m, chain, m')
  {
  }

  lemma RoundChain(gen: nat, force: bool, m: Moment, r: Round, m': Moment)
    requires IsRound(gen, force, m, r, m')
    ensures m'.chain == m.chain || m'.chain == r.chain
  {
  }

  /** `trace` is a run over the rounds. */
  ghost predicate IsTrace(gen: nat, force: bool, trace: seq<Moment>, rounds: seq<Round>) {
    && 1 <= |trace| <= |rounds| + 1
    && forall k :: 0 < k < |trace| ==> IsRound(gen, force, trace[k - 1], rounds[k - 1], trace[k])
  }

  lemma TraceGrows(gen: nat, force: bool, trace: seq<Moment>, rounds: seq<Round>, m: Moment)
    requires IsTrace(gen, force, trace, rounds) && |trace| <= |rounds|
    requires IsRound(gen, force, trace[|trace| - 1], rounds[|trace| - 1], m)
    ensures IsTrace(gen, force, trace + [m], rounds)
  {
    hide IsRound;
  }

  lemma TraceStarts(gen: nat, force: bool, m: Moment, rounds: seq<Round>)
    ensures IsTrace(gen, force, [m], rounds)
  {
  }

  lemma {:induction false} TraceChains(gen: nat, force: bool, trace: seq<Moment>, rounds: seq<Round>, n: nat)
    requires IsTrace(gen, force, trace, rounds) && n < |trace|
    ensures trace[n].chain == trace[0].chain || exists k :: 0 <= k < |rounds| && trace[n].chain == rounds[k].chain
  {
    if n > 0 {
      TraceChains(gen, force, trace, rounds, n - 1);
      RoundChain(gen, force, trace[n - 1], rounds[n - 1], trace[n]);
    }
  }

  /** The round after a lagging head that put storage behind goes on from a block its chain no longer has. */
  ghost predicate LagRepaired(gen: nat, force: bool, m: Moment, chain: Chain, m': Moment) {
    m.lagged && MomentBehind(gen, force, m) && m'.ok ==> !OnChain(chain, m.last)
  }

  lemma LagStep(gen: nat, force: bool, m: Moment, r: Round, m': Moment)
    requires IsRound(gen, force, m, r, m')
    requires m.lagged && MomentBehind(gen, force, m) && !m'.ok ==> !m'.grew
    ensures Sane(gen, force, m) ==> (Sane(gen, force, m') <==> LagRepaired(gen, force, m, r.chain, m'))
  {
    hide FollowsWith;
    hide InStepWith;
    hide Does;
    if MomentBehind(gen, force, m) {
      BehindIsOut(gen, force, m.blocks, m.chain, m.last);
    }
  }

  /** Over whole runs: blocks are lost exactly by going on from a block kept after a lagging head. If rounds that
      fail from behind store nothing, storage is in step after every round, or put behind by the lagging head
      just met, if and only if no round that succeeds from behind has the kept block on its chain. */
  lemma {:induction false} LostOnlyAfterLag(gen: nat, force: bool, trace: seq<Moment>, rounds: seq<Round>, n: nat)
    requires IsTrace(gen, force, trace, rounds) && n < |trace| && MomentInStep(gen, force, trace[0])
    requires forall k :: 0 < k < |trace| ==>
      (trace[k - 1].lagged && MomentBehind(gen, force, trace[k - 1]) && !trace[k].ok ==> !trace[k].grew)
    ensures (forall k :: 0 <= k <= n ==> Sane(gen, force, trace[k])) <==>
      forall k :: 0 < k <= n ==> LagRepaired(gen, force, trace[k - 1], rounds[k - 1].chain, trace[k])
  {
    if n > 0 {
      hide FollowsWith;
      hide InStepWith;
      hide BehindWith;
      LostOnlyAfterLag(gen, force, trace, rounds, n - 1);
      LagStep(gen, force, trace[n - 1], rounds[n - 1], trace[n]);
    }
  }

  /** A restart goes on from the last stored block: it repairs a storage left behind by a lagging head. */
  lemma RestartRepairs(gen: nat, force: bool, m: Moment, m': Moment)
    requires Sane(gen, force, m)
    requires m'.chain == m.chain && m'.blocks == m.blocks && m'.last == Newest(gen, m.blocks)
    ensures MomentInStep(gen, force, m')
  {
    if MomentInStep(gen, force, m) {
      StepAtLastStored(gen, force, m.blocks, m.chain, m.last);
    }
  }

  /** The chain stays: every round meets it, with its head. */
  ghost predicate Steady(rounds: seq<Round>, chain: Chain) {
    forall k :: 0 <= k < |rounds| ==>
      && rounds[k].chain == chain && rounds[k].head == |chain| - 1
      && (rounds[k].reported.Head? ==> rounds[k].reported.number == |chain| - 1)
  }

  /** A round that succeeds on such a chain is in step with it, and if the last block was on it all of its event blocks
      are stored. */
  lemma SteadyRound(gen: nat, force: bool, m: Moment, r: Round, m': Moment)
    requires IsRound(gen, force, m, r, m') && MomentInStep(gen, force, m) && m'.ok && !m'.lagged
    requires r.head == |r.chain| - 1
    ensures MomentInStep(gen, force, m') && m'.chain == r.chain && m'.last.number < |r.chain|
    ensures AgreesWith(gen, r.chain, m.last) ==> m'.blocks == Events(r.chain, gen + 1, |r.chain|)
    ensures m.chain == r.chain ==> AgreesWith(gen, r.chain, m.last)
  {
    hide Events;
    hide BehindWith;
  }
}
