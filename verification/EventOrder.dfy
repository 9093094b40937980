/** Splitting logs into per-kind lists with an order map, and replaying them in that order. */
module EventOrder {

  datatype Kind = GlobalExitRoots | RemoveL2GER | Deposits | Claims | Tokens | VerifyBatch

  /** A log of an event kind that is handled; `hash` is the hash of its block. */
  datatype Log = Log(number: nat, hash: nat, kind: Kind, payload: nat)

  /** What the node returns: events that are not handled, or cannot be parsed, occur too. */
  datatype RawLog = Handled(log: Log) | Ignored | Malformed

  datatype Order = Order(kind: Kind, pos: nat)

  datatype LogBlock = LogBlock(number: nat, hash: nat, lists: map<Kind, seq<nat>>) {
    function List(kind: Kind): seq<nat> {
      if kind in lists then lists[kind] else []
    }
  }

  datatype Grouped = Grouped(blocks: seq<LogBlock>, order: map<nat, seq<Order>>) {
    function OrderOf(hash: nat): seq<Order> {
      if hash in order then order[hash] else []
    }
  }

  predicate Joins(blocks: seq<LogBlock>, log: Log) {
    |blocks| > 0 && blocks[|blocks| - 1].hash == log.hash && blocks[|blocks| - 1].number == log.number
  }

  /** Every event handler: append to the last block or start a new one, then record the position. */
  function Add(g: Grouped, log: Log): Grouped {
    var last := if Joins(g.blocks, log) then g.blocks[|g.blocks| - 1] else LogBlock(log.number, log.hash, map[]);
    var grown := last.(lists := last.lists[log.kind := last.List(log.kind) + [log.payload]]);
    var blocks := if Joins(g.blocks, log) then g.blocks[..|g.blocks| - 1] else g.blocks;
    Grouped(blocks + [grown], g.order[log.hash := g.OrderOf(log.hash) + [Order(log.kind, |last.List(log.kind)|)]])
  }

  function Group(logs: seq<Log>): Grouped {
    if logs == [] then Grouped([], map[]) else Add(Group(logs[..|logs| - 1]), logs[|logs| - 1])
  }

  function HandledLogs(raw: seq<RawLog>): seq<Log> {
    if raw == [] then []
    else
      var before, last := HandledLogs(raw[..|raw| - 1]), raw[|raw| - 1];
      if last.Handled? then before + [last.log] else before
  }

  /** The positions of the handled logs among the first `n`. */
  function HandledBefore(raw: seq<RawLog>, n: nat): set<nat> {
    set i: nat | i < n && i < |raw| && raw[i].Handled?
  }

  lemma {:induction false} HandledCount(raw: seq<RawLog>, n: nat)
    requires n <= |raw|
    ensures |HandledLogs(raw[..n])| == |HandledBefore(raw, n)|
  {
    if n == 0 {
      assert HandledBefore(raw, n) == {};
    } else {
      HandledCount(raw, n - 1);
      assert raw[..n][..n - 1] == raw[..n - 1];
      if raw[n - 1].Handled? {
        assert HandledBefore(raw, n) == HandledBefore(raw, n - 1) + {n - 1};
      } else {
        assert HandledBefore(raw, n) == HandledBefore(raw, n - 1);
      }
    }
  }

  lemma {:induction false} HandledGrow(raw: seq<RawLog>, n: nat)
    requires n <= |raw|
    ensures HandledLogs(raw[..n]) <= HandledLogs(raw)
    decreases |raw|
  {
    if n == |raw| {
      assert raw[..n] == raw;
    } else {
      var init := raw[..|raw| - 1];
      HandledGrow(init, n);
      assert init[..n] == raw[..n];
    }
  }

  /** The handled logs are all there, and in order: each stands after as many as were handled before it. */
  lemma HandledAt(raw: seq<RawLog>)
    ensures |HandledLogs(raw)| == |HandledBefore(raw, |raw|)|
    ensures forall i: nat :: i < |raw| && raw[i].Handled? ==>
      && |HandledBefore(raw, i)| < |HandledLogs(raw)|
      && HandledLogs(raw)[|HandledBefore(raw, i)|] == raw[i].log
  {
    hide HandledBefore;
    HandledCount(raw, |raw|);
    assert raw[..|raw|] == raw;
    forall i: nat | i < |raw| && raw[i].Handled?
      ensures |HandledBefore(raw, i)| < |HandledLogs(raw)| && HandledLogs(raw)[|HandledBefore(raw, i)|] == raw[i].log
    {
      HandledCount(raw, i);
      HandledGrow(raw, i + 1);
      assert raw[..i + 1][..i] == raw[..i];
    }
  }

  /** `processEvent` and the handlers it calls. */
  method ProcessEvent(log: Log, g: Grouped) returns (g': Grouped)
    ensures g' == Add(g, log)
  {
    var blocks := g.blocks;
    if |blocks| == 0 || blocks[|blocks| - 1].hash != log.hash || blocks[|blocks| - 1].number != log.number {
      blocks := blocks + [LogBlock(log.number, log.hash, map[log.kind := [log.payload]])];
    } else {
      var last := blocks[|blocks| - 1];
      blocks := blocks[|blocks| - 1 := last.(lists := last.lists[log.kind := last.List(log.kind) + [log.payload]])];
    }
    var top := blocks[|blocks| - 1];
    var or := Order(log.kind, |top.List(log.kind)| - 1);
    g' := Grouped(blocks, g.order[top.hash := g.OrderOf(top.hash) + [or]]);
    assert [] + [log.payload] == [log.payload];
    assert g'.blocks == Add(g, log).blocks;
  }

  /** `readEvents`: an error exactly if a log cannot be parsed. */
  method ReadEvents(raw: seq<RawLog>) returns (ok: bool, g: Grouped)
    ensures ok <==> Malformed !in raw
    ensures ok ==> g == Group(HandledLogs(raw))
  {
    g := Grouped([], map[]);
    for i := 0 to |raw|
      invariant Malformed !in raw[..i]
      invariant g == Group(HandledLogs(raw[..i]))
    {
      assert raw[..i + 1][..i] == raw[..i];
      if raw[i].Malformed? {
        return false, g;
      }
      if raw[i].Handled? {
        ghost var logs := HandledLogs(raw[..i]);
        assert (logs + [raw[i].log])[..|logs|] == logs;
        g := ProcessEvent(raw[i].log, g);
      }
    }
    assert raw[..|raw|] == raw;
    ok := true;
  }

  datatype Replayed = Replay(logs: seq<Log>) | MessyEvents

  /** One block replayed in the recorded order; a position out of bounds is an error. */
  function ReplayBlock(b: LogBlock, order: seq<Order>): Replayed {
    if order == [] then Replay([])
    else
      var before, o := ReplayBlock(b, order[..|order| - 1]), order[|order| - 1];
      if before.MessyEvents? || |b.List(o.kind)| < o.pos + 1 then MessyEvents
      else Replay(before.logs + [Log(b.number, b.hash, o.kind, b.List(o.kind)[o.pos])])
  }

  /** What `processBlockRange` stores, in the order it is stored. */
  function ReplayBlocks(g: Grouped, n: nat): Replayed
    requires n <= |g.blocks|
  {
    if n == 0 then Replay([])
    else
      var before, here := ReplayBlocks(g, n - 1), ReplayBlock(g.blocks[n - 1], g.OrderOf(g.blocks[n - 1].hash));
      if before.MessyEvents? || here.MessyEvents? then MessyEvents else Replay(before.logs + here.logs)
  }

  function ReplayAll(g: Grouped): Replayed {
    ReplayBlocks(g, |g.blocks|)
  }

  lemma {:induction false} MessyBlock(b: LogBlock, order: seq<Order>, k: nat)
    requires k <= |order| && ReplayBlock(b, order[..k]).MessyEvents?
    ensures ReplayBlock(b, order).MessyEvents?
    decreases |order|
  {
    if k < |order| {
      assert order[..|order| - 1][..k] == order[..k];
      MessyBlock(b, order[..|order| - 1], k);
    } else {
      assert order[..k] == order;
    }
  }

  /** The inner loop of `processBlockRange`. */
  method ProcessBlock(b: LogBlock, order: seq<Order>) returns (r: Replayed)
    ensures r == ReplayBlock(b, order)
  {
    r := Replay([]);
    for k := 0 to |order|
      invariant r.Replay? && r == ReplayBlock(b, order[..k])
    {
      assert order[..k + 1][..k] == order[..k];
      if |b.List(order[k].kind)| < order[k].pos + 1 {
        MessyBlock(b, order, k + 1);
        return MessyEvents;
      }
      r := Replay(r.logs + [Log(b.number, b.hash, order[k].kind, b.List(order[k].kind)[order[k].pos])]);
    }
    assert order[..|order|] == order;
  }

  lemma {:induction false} MessyRange(g: Grouped, n: nat, m: nat)
    requires n <= m <= |g.blocks| && ReplayBlocks(g, n).MessyEvents?
    ensures ReplayBlocks(g, m).MessyEvents?
  {
    if n < m {
      MessyRange(g, n, m - 1);
    }
  }

  /** The outer loop. */
  method ProcessBlockRange(g: Grouped) returns (r: Replayed)
    ensures r == ReplayAll(g)
  {
    r := Replay([]);
    for i := 0 to |g.blocks|
      invariant r.Replay? && r == ReplayBlocks(g, i)
    {
      var here := ProcessBlock(g.blocks[i], g.OrderOf(g.blocks[i].hash));
      if here.MessyEvents? {
        MessyRange(g, i + 1, |g.blocks|);
        return MessyEvents;
      }
      r := Replay(r.logs + here.logs);
    }
  }

  /** The logs of one block come together, and a hash belongs to one number. */
  ghost predicate Contiguous(logs: seq<Log>) {
    forall i, j, k :: 0 <= i <= j <= k < |logs| && logs[i].hash == logs[k].hash ==>
      logs[j].hash == logs[i].hash && logs[j].number == logs[i].number
  }

  ghost predicate DistinctHashes(blocks: seq<LogBlock>) {
    forall i, j :: 0 <= i < j < |blocks| ==> blocks[i].hash != blocks[j].hash
  }

  ghost predicate HasHash(blocks: seq<LogBlock>, hash: nat) {
    exists i :: 0 <= i < |blocks| && blocks[i].hash == hash
  }

  ghost predicate HasLog(logs: seq<Log>, hash: nat) {
    exists i :: 0 <= i < |logs| && logs[i].hash == hash
  }

  lemma HashesAfterAdd(g: Grouped, x: Log, hash: nat)
    ensures HasHash(Add(g, x).blocks, hash) <==> HasHash(g.blocks, hash) || x.hash == hash
  {
    var before, after := g.blocks, Add(g, x).blocks;
    assert after[|after| - 1].hash == x.hash;
    assert forall i :: 0 <= i < |after| - 1 ==> after[i] == before[i];
    if HasHash(before, hash) {
      var i :| 0 <= i < |before| && before[i].hash == hash;
      assert after[i].hash == hash;
    }
  }

  /** The blocks have the hashes of the logs. */
  lemma {:induction false} BlocksOfLogs(logs: seq<Log>, hash: nat)
    ensures HasHash(Group(logs).blocks, hash) <==> HasLog(logs, hash)
  {
    if logs != [] {
      var init, x := logs[..|logs| - 1], logs[|logs| - 1];
      hide Add;
      BlocksOfLogs(init, hash);
      HashesAfterAdd(Group(init), x, hash);
      assert forall i :: 0 <= i < |init| ==> init[i] == logs[i];
    }
  }

  /** The last block is that of the last log. */
  lemma LastBlock(logs: seq<Log>)
    requires logs != []
    ensures var blocks, x := Group(logs).blocks, logs[|logs| - 1];
      blocks != [] && blocks[|blocks| - 1].hash == x.hash && blocks[|blocks| - 1].number == x.number
  {
  }

  /** A log that starts a block keeps the hashes distinct exactly if its hash is new. */
  lemma DistinctAfterAdd(g: Grouped, x: Log)
    ensures DistinctHashes(Add(g, x).blocks) <==>
      DistinctHashes(g.blocks) && (Joins(g.blocks, x) || !HasHash(g.blocks, x.hash))
  {
    var before, after := g.blocks, Add(g, x).blocks;
    if Joins(before, x) {
      assert |after| == |before| && forall i :: 0 <= i < |before| ==> after[i].hash == before[i].hash;
    } else {
      assert |after| == |before| + 1 && after[|before|].hash == x.hash;
      assert forall i :: 0 <= i < |before| ==> after[i] == before[i];
    }
  }

  predicate LastJoins(logs: seq<Log>, x: Log) {
    logs != [] && logs[|logs| - 1].hash == x.hash && logs[|logs| - 1].number == x.number
  }

  lemma ReturnMustJoin(logs: seq<Log>, x: Log)
    requires Contiguous(logs + [x]) && HasLog(logs, x.hash)
    ensures LastJoins(logs, x)
  {
    var all, n := logs + [x], |logs|;
    var i :| 0 <= i < n && logs[i].hash == x.hash;
    assert all[i].hash == all[n].hash;
    assert all[n - 1].hash == all[i].hash && all[n - 1].number == all[i].number && all[n].number == all[i].number;
  }

  /** The same for contiguity. */
  lemma ContiguousAfter(logs: seq<Log>, x: Log)
    ensures Contiguous(logs + [x]) <==> Contiguous(logs) && (LastJoins(logs, x) || !HasLog(logs, x.hash))
  {
    var all, n := logs + [x], |logs|;
    assert forall i :: 0 <= i < n ==> all[i] == logs[i];
    if Contiguous(all) && HasLog(logs, x.hash) {
      ReturnMustJoin(logs, x);
    }
    if LastJoins(logs, x) && Contiguous(logs) {
      forall i, j, k | 0 <= i <= j <= k <= n && all[i].hash == all[k].hash
        ensures all[j].hash == all[i].hash && all[j].number == all[i].number
      {
        if k == n && i < n {
          assert logs[i].hash == logs[n - 1].hash;
          assert logs[n - 1].number == logs[i].number;
        }
      }
    }
  }

  lemma {:induction false} ContiguousIsDistinct(logs: seq<Log>)
    ensures Contiguous(logs) <==> DistinctHashes(Group(logs).blocks)
  {
    if logs != [] {
      var init, x := logs[..|logs| - 1], logs[|logs| - 1];
      assert init + [x] == logs;
      ContiguousIsDistinct(init);
      ContiguousAfter(init, x);
      DistinctAfterAdd(Group(init), x);
      BlocksOfLogs(init, x.hash);
      if init != [] {
        LastBlock(init);
      }
    }
  }

  lemma {:induction false} OrderHasBlock(logs: seq<Log>, hash: nat)
    ensures Group(logs).OrderOf(hash) != [] <==> HasHash(Group(logs).blocks, hash)
  {
    if logs != [] {
      var init, x := logs[..|logs| - 1], logs[|logs| - 1];
      OrderHasBlock(init, hash);
      HashesAfterAdd(Group(init), x, hash);
    }
  }

  /** Growing a list keeps what was replayed from it. */
  lemma {:induction false} GrownReplays(b: LogBlock, kind: Kind, payload: nat, order: seq<Order>)
    requires ReplayBlock(b, order).Replay?
    ensures ReplayBlock(b.(lists := b.lists[kind := b.List(kind) + [payload]]), order) == ReplayBlock(b, order)
    decreases |order|
  {
    if order != [] {
      GrownReplays(b, kind, payload, order[..|order| - 1]);
    }
  }

  /** Blocks whose lists and order are untouched replay as before. */
  lemma {:induction false} UntouchedReplays(g: Grouped, g': Grouped, n: nat)
    requires n <= |g.blocks| && n <= |g'.blocks|
    requires forall i :: 0 <= i < n ==>
      g'.blocks[i] == g.blocks[i] && g'.OrderOf(g.blocks[i].hash) == g.OrderOf(g.blocks[i].hash)
    ensures ReplayBlocks(g', n) == ReplayBlocks(g, n)
  {
    if n > 0 {
      UntouchedReplays(g, g', n - 1);
    }
  }

  lemma GrownBlockReplays(last: LogBlock, x: Log, order: seq<Order>)
    requires last.hash == x.hash && last.number == x.number && ReplayBlock(last, order).Replay?
    ensures var grown := last.(lists := last.lists[x.kind := last.List(x.kind) + [x.payload]]);
      ReplayBlock(grown, order + [Order(x.kind, |last.List(x.kind)|)]) == Replay(ReplayBlock(last, order).logs + [x])
  {
    var o := Order(x.kind, |last.List(x.kind)|);
    GrownReplays(last, x.kind, x.payload, order);
    assert (order + [o])[..|order|] == order;
  }

  lemma ReplayAfterJoin(g: Grouped, x: Log)
    requires DistinctHashes(g.blocks) && Joins(g.blocks, x) && ReplayAll(g).Replay?
    ensures ReplayAll(Add(g, x)) == Replay(ReplayAll(g).logs + [x])
  {
    hide ReplayBlock;
    var g', n := Add(g, x), |g.blocks|;
    UntouchedReplays(g, g', n - 1);
    GrownBlockReplays(g.blocks[n - 1], x, g.OrderOf(x.hash));
  }

  lemma ReplayAfterStart(g: Grouped, x: Log)
    requires !Joins(g.blocks, x) && !HasHash(g.blocks, x.hash) && g.OrderOf(x.hash) == [] && ReplayAll(g).Replay?
    ensures ReplayAll(Add(g, x)) == Replay(ReplayAll(g).logs + [x])
  {
    var g', n := Add(g, x), |g.blocks|;
    UntouchedReplays(g, g', n);
    var o := Order(x.kind, 0);
    assert g'.OrderOf(x.hash) == [o] && [o][..0] == [];
    assert ReplayBlock(g'.blocks[n], [o]) == Replay([x]);
  }

  lemma ReplayAfterAdd(g: Grouped, x: Log)
    requires DistinctHashes(Add(g, x).blocks) && ReplayAll(g).Replay?
    requires g.OrderOf(x.hash) != [] ==> HasHash(g.blocks, x.hash)
    ensures DistinctHashes(g.blocks)
    ensures ReplayAll(Add(g, x)) == Replay(ReplayAll(g).logs + [x])
  {
    hide Add;
    hide ReplayAll;
    hide DistinctHashes;
    hide HasHash;
    DistinctAfterAdd(g, x);
    if Joins(g.blocks, x) {
      ReplayAfterJoin(g, x);
    } else {
      ReplayAfterStart(g, x);
    }
  }

  lemma ReplayNothing()
    ensures ReplayAll(Group([])) == Replay([])
  {
  }

  lemma {:induction false} DistinctReplays(logs: seq<Log>)
    requires DistinctHashes(Group(logs).blocks)
    ensures ReplayAll(Group(logs)) == Replay(logs)
  {
    hide Add;
    hide ReplayAll;
    hide DistinctHashes;
    if logs == [] {
      ReplayNothing();
    } else {
      var init, x := logs[..|logs| - 1], logs[|logs| - 1];
      assert Group(logs) == Add(Group(init), x);
      assert DistinctHashes(Group(init).blocks) by {
        DistinctAfterAdd(Group(init), x);
      }
      DistinctReplays(init);
      OrderHasBlock(init, x.hash);
      ReplayAfterAdd(Group(init), x);
      assert init + [x] == logs;
    }
  }

  /** How many events are replayed. */
  function Count(g: Grouped, n: nat): nat
    requires n <= |g.blocks|
  {
    if n == 0 then 0 else Count(g, n - 1) + |g.OrderOf(g.blocks[n - 1].hash)|
  }

  lemma {:induction false} ReplayBlockLength(b: LogBlock, order: seq<Order>)
    ensures ReplayBlock(b, order).Replay? ==> |ReplayBlock(b, order).logs| == |order|
  {
    if order != [] {
      ReplayBlockLength(b, order[..|order| - 1]);
    }
  }

  lemma {:induction false} ReplayLength(g: Grouped, n: nat)
    requires n <= |g.blocks|
    ensures ReplayBlocks(g, n).Replay? ==> |ReplayBlocks(g, n).logs| == Count(g, n)
  {
    if n > 0 {
      ReplayLength(g, n - 1);
      ReplayBlockLength(g.blocks[n - 1], g.OrderOf(g.blocks[n - 1].hash));
    }
  }

  lemma {:induction false} CountGrows(g: Grouped, x: Log, n: nat)
    requires n <= |g.blocks|
    ensures n <= |Add(g, x).blocks| && Count(Add(g, x), n) >= Count(g, n)
  {
    if n > 0 {
      CountGrows(g, x, n - 1);
      assert Add(g, x).blocks[n - 1].hash == g.blocks[n - 1].hash;
    }
  }

  lemma CountAfterAdd(g: Grouped, x: Log)
    ensures var g' := Add(g, x);
      Count(g', |g'.blocks|) >= Count(g, |g.blocks|) + 1 + if Joins(g.blocks, x) then 0 else |g.OrderOf(x.hash)|
  {
    var n := |g.blocks|;
    CountGrows(g, x, if Joins(g.blocks, x) then n - 1 else n);
  }

  /** A block that comes back is replayed twice: then more is replayed than there was. */
  lemma {:induction false} CountOfLogs(logs: seq<Log>)
    ensures var g := Group(logs);
      Count(g, |g.blocks|) >= |logs| && (!DistinctHashes(g.blocks) ==> Count(g, |g.blocks|) > |logs|)
  {
    if logs != [] {
      hide Add;
      hide Count;
      hide DistinctHashes;
      hide HasHash;
      var init, x := logs[..|logs| - 1], logs[|logs| - 1];
      CountOfLogs(init);
      DistinctAfterAdd(Group(init), x);
      OrderHasBlock(init, x.hash);
      CountAfterAdd(Group(init), x);
    } else {
      assert DistinctHashes(Group(logs).blocks);
    }
  }

  /** Replaying the grouped blocks gives the handled logs in their original order, with every position
      in bounds, exactly when the logs of each block come together. */
  lemma ReplayIsExact(logs: seq<Log>)
    ensures ReplayAll(Group(logs)) == Replay(logs) <==> Contiguous(logs)
  {
    ContiguousIsDistinct(logs);
    if Contiguous(logs) {
      DistinctReplays(logs);
    } else {
      CountOfLogs(logs);
      ReplayLength(Group(logs), |Group(logs).blocks|);
    }
  }

  /** From the node to storage: the logs are replayed exactly, if they can be parsed and those of each block come
      together. */
  method ReadAndReplay(raw: seq<RawLog>) returns (ok: bool, r: Replayed)
    ensures ok <==> Malformed !in raw
    ensures ok ==> (r == Replay(HandledLogs(raw)) <==> Contiguous(HandledLogs(raw)))
  {
    var g;
    ok, g := ReadEvents(raw);
    r := MessyEvents;
    if ok {
      r := ProcessBlockRange(g);
      ReplayIsExact(HandledLogs(raw));
    }
  }
}
