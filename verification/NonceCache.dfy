/** Handing out transaction nonces ahead of the chain, with an undo for sends that fail. */
module NonceCache {

  datatype Cached = Empty | Nonce(value: nat)

  /** Nonces are 64-bit and wrap around. */
  const LIMIT: nat := 0x1_0000_0000_0000_0000

  function Max(a: nat, b: nat): nat {
    if a >= b then a else b
  }

  /** The nonce issued next, for the nonce the chain reports. */
  function Next(cached: Cached, chain: nat): nat {
    if cached.Nonce? && cached.value >= chain then (cached.value + 1) % LIMIT else chain
  }

  /** The entry after an undo. */
  function Undo(cached: Cached, chain: nat): Cached {
    if cached.Empty? then Empty
    else
      var before := (cached.value + LIMIT - 1) % LIMIT;
      if before >= chain then Nonce(before) else Empty
  }

  class Cache {
    /** The LRU cache by sender; evictions are left out. */
    var nonces: map<nat, nat>

    constructor ()
      ensures nonces == map[]
    {
      nonces := map[];
    }

    function Entry(sender: nat): Cached
      reads this
    {
      if sender in nonces then Nonce(nonces[sender]) else Empty
    }

    method GetNextNonce(sender: nat, chain: nat, nodeFails: bool) returns (ok: bool, nonce: nat)
      modifies this
      ensures ok <==> !nodeFails
      ensures ok ==> nonce == Next(old(Entry(sender)), chain) && nonces == old(nonces)[sender := nonce]
      ensures !ok ==> nonces == old(nonces)
    {
      if nodeFails {
        return false, 0;
      }
      nonce := chain;
      if sender in nonces {
        var tempNonce := nonces[sender];
        if tempNonce >= nonce {
          nonce := (tempNonce + 1) % LIMIT;
        }
      }
      nonces := nonces[sender := nonce];
      ok := true;
    }

    method Remove(sender: nat)
      modifies this
      ensures nonces == old(nonces) - {sender}
    {
      nonces := nonces - {sender};
    }

    method Decr(sender: nat, chain: nat, nodeFails: bool) returns (ok: bool)
      modifies this
      ensures ok <==> !nodeFails
      ensures ok ==> Entry(sender) == Undo(old(Entry(sender)), chain) && nonces - {sender} == old(nonces) - {sender}
      ensures !ok || sender !in old(nonces) ==> nonces == old(nonces)
    {
      if nodeFails {
        return false;
      }
      if sender in nonces {
        var tempNonce := (nonces[sender] + LIMIT - 1) % LIMIT;
        if tempNonce >= chain {
          nonces := nonces[sender := tempNonce];
        } else {
          Remove(sender);
        }
      }
      ok := true;
    }
  }

  /** After the undo of `n` the next nonce is the larger of `n` and the chain's, except for the undo of
      nonce zero, which wraps around: then it is right only while the chain is at zero too. */
  lemma NextAfterUndo(n: nat, chainAtUndo: nat, chain: nat)
    requires n < LIMIT && chainAtUndo <= chain < LIMIT
    ensures Next(Undo(Nonce(n), chainAtUndo), chain) == Max(n, chain) <==> n >= 1 || chain == 0
  {
    if n >= 1 {
      assert (n + LIMIT - 1) % LIMIT == n - 1;
    } else {
      assert (n + LIMIT - 1) % LIMIT == LIMIT - 1;
      assert LIMIT % LIMIT == 0;
    }
  }

  /** One send: the chain's nonce when it is issued and, if it fails, when it is undone. */
  datatype Send = Send(chain: nat, kept: bool, chainAtUndo: nat)

  function After(cached: Cached, s: Send): Cached {
    var n := Next(cached, s.chain);
    if s.kept then Nonce(n) else Undo(Nonce(n), s.chainAtUndo)
  }

  /** The entry of one sender after the sends, from an empty cache. */
  function State(sends: seq<Send>): Cached {
    if sends == [] then Empty else After(State(sends[..|sends| - 1]), sends[|sends| - 1])
  }

  function Issued(sends: seq<Send>, k: nat): nat
    requires k < |sends|
  {
    Next(State(sends[..k]), sends[k].chain)
  }

  /** The chain's nonce never decreases, issued nonces stay below the last one, and zero is not undone. */
  ghost predicate Regular(sends: seq<Send>) {
    && (forall k :: 0 <= k < |sends| ==> sends[k].chain <= sends[k].chainAtUndo < LIMIT - 1)
    && (forall j, k :: 0 <= j < k < |sends| ==> sends[j].chainAtUndo <= sends[k].chain)
    && (forall k :: 0 <= k < |sends| ==> Issued(sends, k) < LIMIT - 1)
    && (forall k :: 0 <= k < |sends| && !sends[k].kept ==> Issued(sends, k) >= 1)
  }

  /** The next nonce will be above `floor`. */
  predicate Above(cached: Cached, clock: nat, floor: int) {
    match cached
    case Empty => clock > floor
    case Nonce(n) => n >= floor && n < LIMIT - 1
  }

  lemma AboveAfter(cached: Cached, s: Send, floor: int)
    requires Above(cached, s.chain, floor) && s.chain <= s.chainAtUndo < LIMIT - 1
    requires Next(cached, s.chain) < LIMIT - 1 && (!s.kept ==> Next(cached, s.chain) >= 1)
    ensures Next(cached, s.chain) > floor && Next(cached, s.chain) >= s.chain
    ensures Above(After(cached, s), s.chainAtUndo, if s.kept then Next(cached, s.chain) else floor)
  {
    var n := Next(cached, s.chain);
    if !s.kept {
      assert (n + LIMIT - 1) % LIMIT == n - 1;
    }
  }

  lemma AboveLater(cached: Cached, clock: nat, later: nat, floor: int)
    requires Above(cached, clock, floor) && clock <= later
    ensures Above(cached, later, floor)
  {
  }

  lemma AboveLower(cached: Cached, clock: nat, floor: int, lower: int)
    requires Above(cached, clock, floor) && lower <= floor
    ensures Above(cached, clock, lower)
  {
  }

  lemma {:induction false} Starts(sends: seq<Send>, k: nat)
    requires Regular(sends) && k < |sends|
    ensures Above(State(sends[..k]), sends[k].chain, -1)
  {
    if k > 0 {
      assert sends[..k][..k - 1] == sends[..k - 1];
      Starts(sends, k - 1);
      AboveAfter(State(sends[..k - 1]), sends[k - 1], -1);
      AboveLater(State(sends[..k]), sends[k - 1].chainAtUndo, sends[k].chain, -1);
    }
  }

  /** From the `j`-th kept send on, every nonce issued is above it. */
  lemma {:induction false} StaysAbove(sends: seq<Send>, j: nat, k: nat)
    requires Regular(sends) && j < k <= |sends| && sends[j].kept
    ensures Above(State(sends[..k]), sends[k - 1].chainAtUndo, Issued(sends, j))
    decreases k
  {
    assert sends[..k][..k - 1] == sends[..k - 1];
    var floor := if k - 1 == j then -1 else Issued(sends, j);
    if k - 1 > j {
      StaysAbove(sends, j, k - 1);
      AboveLater(State(sends[..k - 1]), sends[k - 2].chainAtUndo, sends[k - 1].chain, floor);
    } else {
      Starts(sends, j);
    }
    AboveAfter(State(sends[..k - 1]), sends[k - 1], floor);
    AboveLower(State(sends[..k]), sends[k - 1].chainAtUndo, if sends[k - 1].kept then Issued(sends, k - 1) else floor,
               Issued(sends, j));
  }

  /** In every regular run no nonce issued is below the chain's, whether anything was kept before or not. */
  lemma NeverBelowChain(sends: seq<Send>, k: nat)
    requires Regular(sends) && k < |sends|
    ensures Issued(sends, k) >= sends[k].chain
  {
    Starts(sends, k);
  }

  /** In every regular run the kept nonces are strictly increasing, and no nonce is below the chain's. */
  lemma KeptNoncesIncrease(sends: seq<Send>, j: nat, k: nat)
    requires Regular(sends) && j < k < |sends| && sends[j].kept
    ensures Issued(sends, j) < Issued(sends, k) && Issued(sends, k) >= sends[k].chain
  {
    StaysAbove(sends, j, k);
    AboveLater(State(sends[..k]), sends[k - 1].chainAtUndo, sends[k].chain, Issued(sends, j));
    AboveAfter(State(sends[..k]), sends[k], Issued(sends, j));
  }
}
