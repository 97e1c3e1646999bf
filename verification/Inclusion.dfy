/**
 The inclusion audit: which transactions a validator has held long enough, are not
 in the block, and would still have fitted.
 */
module Inclusion {
  import opened Prelude
  import opened Bytes
  import opened Sorting
  import opened Mempool
  import opened RoundRobin

  /** A transaction the validator holds and the slot it first saw it. */
  datatype Held = Held(tx: Tx, firstSeen: u64)

  function SaturatingSub(a: u64, b: u64): u64
  {
    if a < b then 0 else a - b
  }

  /** Old enough, absent, and within the gas the block left over. */
  predicate Flagged(x: Held, blockHashes: set<Digest>, blockGas: u64, slot: u64, grace: u64, ceiling: u64)
  {
    && SaturatingSub(slot, x.firstSeen) >= grace
    && x.tx.hash !in blockHashes
    && x.tx.gasLimit <= SaturatingSub(ceiling, blockGas)
  }

  /** The hashes of the flagged transactions, in the order they are held. */
  function Missing(held: seq<Held>, blockHashes: set<Digest>, blockGas: u64, slot: u64, grace: u64, ceiling: u64): seq<Digest>
  {
    if held == [] then []
    else
      var front, last := Missing(held[..|held| - 1], blockHashes, blockGas, slot, grace, ceiling), held[|held| - 1];
      if Flagged(last, blockHashes, blockGas, slot, grace, ceiling) then front + [last.tx.hash] else front
  }

  method AuditInclusion(held: seq<Held>, blockHashes: set<Digest>, blockGas: u64, slot: u64, grace: u64, ceiling: u64)
    returns (missing: seq<Digest>, gasRemaining: u64)
    ensures missing == Missing(held, blockHashes, blockGas, slot, grace, ceiling)
    ensures gasRemaining == SaturatingSub(ceiling, blockGas)
  {
    gasRemaining := SaturatingSub(ceiling, blockGas);
    missing := [];
    for i := 0 to |held|
      invariant missing == Missing(held[..i], blockHashes, blockGas, slot, grace, ceiling)
    {
      var x := held[i];
      assert held[..i + 1][..i] == held[..i];
      if SaturatingSub(slot, x.firstSeen) < grace {
        continue;
      }
      if x.tx.hash in blockHashes {
        continue;
      }
      if x.tx.gasLimit > gasRemaining {
        continue;
      }
      missing := missing + [x.tx.hash];
    }
    assert held[..|held|] == held;
  }

  lemma {:induction false} MissingMembers(held: seq<Held>, blockHashes: set<Digest>, blockGas: u64, slot: u64,
                                          grace: u64, ceiling: u64, h: Digest)
    ensures h in Missing(held, blockHashes, blockGas, slot, grace, ceiling) <==>
            exists x :: x in held && Flagged(x, blockHashes, blockGas, slot, grace, ceiling) && x.tx.hash == h
  {
    if held != [] {
      var front, last := held[..|held| - 1], held[|held| - 1];
      MissingMembers(front, blockHashes, blockGas, slot, grace, ceiling, h);
      assert held == front + [last];
    }
  }

  // ---------- Honest builders are explainable ----------

  /** The validator holds the same transactions the builder selected from. */
  function Transactions(held: seq<Held>): seq<Tx>
  {
    seq(|held|, i requires 0 <= i < |held| => held[i].tx)
  }

  function Hashes(txs: seq<Tx>): set<Digest>
  {
    set tx | tx in txs :: tx.hash
  }

  /** The sender's next transaction in nonce order did not fit the block, and `tx` comes after it. */
  ghost predicate Blocked(view: seq<Tx>, limit: u64, slot: u64, selected: seq<Tx>, tx: Tx)
  {
    var next, queue := |Of(selected, tx.sender)|, Queue(view, slot, tx.sender);
    && next < |queue| && TooBig(Gas(selected), queue[next].gasLimit, limit)
    && tx in queue[next + 1..]
  }

  lemma {:induction false} HeldIsQueued(held: seq<Held>, slot: u64, x: Held)
    requires x in held && !x.tx.IsExpired(slot)
    ensures x.tx in Queue(Transactions(held), slot, x.tx.sender)
  {
    var i :| 0 <= i < |held| && held[i] == x;
    var view := Transactions(held);
    assert view[i] in view;
    QueueCount(view, slot, x.tx);
    assert multiset(Queue(view, slot, x.tx.sender))[x.tx] > 0;
  }

  lemma {:induction false} TakenIsSelected(selected: seq<Tx>, tx: Tx)
    requires tx in Of(selected, tx.sender)
    ensures tx in selected
  {
    OfCount(selected, tx);
    assert multiset(Of(selected, tx.sender))[tx] > 0;
  }

  /** An unexpired held transaction the block does not have is waiting behind what its sender got in. */
  lemma {:induction false} AbsentIsWaiting(held: seq<Held>, limit: u64, slot: u64, selected: seq<Tx>, x: Held)
    requires Selection(Transactions(held), limit, slot, selected)
    requires x in held && !x.tx.IsExpired(slot) && x.tx !in selected
    ensures var taken, queue := Of(selected, x.tx.sender), Queue(Transactions(held), slot, x.tx.sender);
            |taken| < |queue| && (x.tx == queue[|taken|] || x.tx in queue[|taken| + 1..])
  {
    assert PrefixTaken(Transactions(held), limit, slot, selected, x.tx.sender);
    HeldIsQueued(held, slot, x);
    if x.tx in Of(selected, x.tx.sender) {
      TakenIsSelected(selected, x.tx);
    }
    Waiting(Of(selected, x.tx.sender), Queue(Transactions(held), slot, x.tx.sender), x.tx);
  }

  /**
   Against a block of an honest builder with the same view and the same ceiling, the
   audit reports a transaction only if it is expired or sits behind an earlier one
   of its sender that did not fit.
   */
  lemma {:induction false} HonestBlockExplained(held: seq<Held>, limit: u64, slot: u64, grace: u64, selected: seq<Tx>, x: Held)
    requires limit < MAX_GAS && Selection(Transactions(held), limit, slot, selected)
    requires x in held && Flagged(x, Hashes(selected), TotalGas(selected), slot, grace, limit)
    ensures x.tx.IsExpired(slot) || Blocked(Transactions(held), limit, slot, selected, x.tx)
  {
    if !x.tx.IsExpired(slot) {
      FittedWithin(selected, limit);
      AbsentIsWaiting(held, limit, slot, selected, x);
      NextDoesNotFit(Transactions(held), limit, slot, selected, x.tx.sender);
    }
  }

  /** A transaction of the queue that was not taken is the next one or comes after it. */
  lemma {:induction false} Waiting(taken: seq<Tx>, queue: seq<Tx>, tx: Tx)
    requires taken <= queue && tx in queue && tx !in taken
    ensures |taken| < |queue| && (tx == queue[|taken|] || tx in queue[|taken| + 1..])
  {
    var i :| 0 <= i < |queue| && queue[i] == tx;
    assert forall k :: 0 <= k < |taken| ==> taken[k] == queue[k];
    assert i > |taken| ==> queue[|taken| + 1..][i - |taken| - 1] == tx;
  }

  lemma {:induction false} NothingMissingIff(held: seq<Held>, blockHashes: set<Digest>, blockGas: u64, slot: u64,
                                             grace: u64, ceiling: u64)
    ensures Missing(held, blockHashes, blockGas, slot, grace, ceiling) == [] <==>
            forall x :: x in held ==> !Flagged(x, blockHashes, blockGas, slot, grace, ceiling)
  {
    if held != [] {
      var front, last := held[..|held| - 1], held[|held| - 1];
      NothingMissingIff(front, blockHashes, blockGas, slot, grace, ceiling);
      assert held == front + [last];
    }
  }

  /** What an honest block may leave out: an expired transaction, or one behind a transaction that did not fit. */
  ghost predicate Excused(view: seq<Tx>, limit: u64, slot: u64, selected: seq<Tx>, tx: Tx)
  {
    tx.IsExpired(slot) || Blocked(view, limit, slot, selected, tx)
  }

  /**
   The audit of an honest block is clean exactly when none of the held transactions that are
   old enough, absent and small enough is expired or behind one that did not fit.
   */
  lemma {:induction false} CleanAuditIff(held: seq<Held>, limit: u64, slot: u64, grace: u64, selected: seq<Tx>)
    requires limit < MAX_GAS && Selection(Transactions(held), limit, slot, selected)
    ensures Missing(held, Hashes(selected), TotalGas(selected), slot, grace, limit) == [] <==>
            forall x :: x in held && Excused(Transactions(held), limit, slot, selected, x.tx) ==>
                          !Flagged(x, Hashes(selected), TotalGas(selected), slot, grace, limit)
  {
    NothingMissingIff(held, Hashes(selected), TotalGas(selected), slot, grace, limit);
    forall x | x in held && Flagged(x, Hashes(selected), TotalGas(selected), slot, grace, limit)
      ensures Excused(Transactions(held), limit, slot, selected, x.tx)
    {
      HonestBlockExplained(held, limit, slot, grace, selected, x);
    }
  }

  /** Along each sender's queue the gas limits never fall. */
  ghost predicate GasNeverFalls(view: seq<Tx>, slot: u64)
  {
    forall sender: nat, i, j :: 0 <= i < j < |Queue(view, slot, sender)| ==>
                                  Queue(view, slot, sender)[i].gasLimit <= Queue(view, slot, sender)[j].gasLimit
  }

  /** A blocked transaction is too big as well where gas limits never fall. */
  lemma {:induction false} BlockedIsTooBig(view: seq<Tx>, limit: u64, slot: u64, selected: seq<Tx>, tx: Tx)
    requires GasNeverFalls(view, slot) && Blocked(view, limit, slot, selected, tx)
    ensures TooBig(Gas(selected), tx.gasLimit, limit)
  {
    var next, queue := |Of(selected, tx.sender)|, Queue(view, slot, tx.sender);
    var k :| 0 <= k < |queue[next + 1..]| && queue[next + 1..][k] == tx;
    assert queue[next + 1 + k] == tx;
    assert queue[next].gasLimit <= queue[next + 1 + k].gasLimit;
  }

  /**
   A condition on the view alone: where nothing held is expired and no sender follows a
   transaction with a smaller one, every audit of the honest block is clean.
   */
  lemma {:induction false} CleanAudit(held: seq<Held>, limit: u64, slot: u64, grace: u64, selected: seq<Tx>)
    requires limit < MAX_GAS && Selection(Transactions(held), limit, slot, selected)
    requires GasNeverFalls(Transactions(held), slot) && forall x :: x in held ==> !x.tx.IsExpired(slot)
    ensures Missing(held, Hashes(selected), TotalGas(selected), slot, grace, limit) == []
  {
    FittedWithin(selected, limit);
    forall x | x in held && Excused(Transactions(held), limit, slot, selected, x.tx)
      ensures !Flagged(x, Hashes(selected), TotalGas(selected), slot, grace, limit)
    {
      BlockedIsTooBig(Transactions(held), limit, slot, selected, x.tx);
    }
    CleanAuditIff(held, limit, slot, grace, selected);
  }

  /**
   A clean audit is not promised: an honest builder that skips a sender whose first
   transaction does not fit is reported for the sender's later, smaller one.
   */
  lemma {:induction false} HonestBlockMayBeFlagged(first: Tx, second: Tx, limit: u64, slot: u64, seen: u64, grace: u64)
    requires first.sender == second.sender && first.nonce < second.nonce
    requires first.deadline.None? && second.deadline.None?
    requires second.gasLimit <= limit < first.gasLimit && limit < MAX_GAS
    requires SaturatingSub(slot, seen) >= grace
    ensures var held := [Held(first, seen), Held(second, seen)];
            && Selection(Transactions(held), limit, slot, [])
            && Missing(held, Hashes([]), TotalGas([]), slot, grace, limit) == [second.hash]
  {
    EmptyIsSelection(first, second, limit, slot);
    assert Transactions([Held(first, seen), Held(second, seen)]) == [] + [first] + [second];
    SecondIsMissing(first, second, limit, slot, seen, grace);
  }

  lemma {:induction false} EmptyIsSelection(first: Tx, second: Tx, limit: u64, slot: u64)
    requires first.sender == second.sender && first.nonce < second.nonce
    requires first.deadline.None? && second.deadline.None? && limit < first.gasLimit && limit < MAX_GAS
    ensures Selection([] + [first] + [second], limit, slot, [])
  {
    var view := [] + [first] + [second];
    LiveNext([], first, slot);
    LiveNext([] + [first], second, slot);
    forall s: nat
      ensures PrefixTaken(view, limit, slot, [], s)
    {
      OfNext([], first, s);
      OfNext([] + [first], second, s);
      if s == first.sender {
        assert Of(Live(view, slot), s) == [first, second];
        TwoInOrder(first, second);
        StoppedNow([], 0, s, first.gasLimit, limit);
      }
    }
  }

  lemma {:induction false} SecondIsMissing(first: Tx, second: Tx, limit: u64, slot: u64, seen: u64, grace: u64)
    requires first.deadline.None? && second.deadline.None?
    requires second.gasLimit <= limit < first.gasLimit && SaturatingSub(slot, seen) >= grace
    ensures Missing([Held(first, seen), Held(second, seen)], Hashes([]), TotalGas([]), slot, grace, limit) == [second.hash]
  {
    var a, b := Held(first, seen), Held(second, seen);
    assert [a, b][..1] == [a] && [a][..0] == [];
    assert Missing([a], Hashes([]), 0, slot, grace, limit) == [];
  }

  lemma {:induction false} TwoInOrder(first: Tx, second: Tx)
    requires first.nonce < second.nonce
    ensures SortBy([first, second], NonceOf) == [first, second]
  {
    assert [first, second][..1] == [first] && [first][..0] == [];
    assert SortBy([first], NonceOf) == [first];
  }
}
