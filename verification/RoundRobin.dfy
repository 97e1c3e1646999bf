/**
 What selecting transactions for a block means: senders take turns, round after round in
 address order, each taking its next transaction in nonce order until one does not fit.
 */
module RoundRobin {
  import opened Prelude
  import opened Sorting
  import opened Mempool

  const MAX_GAS: u64 := U64 - 1

  /** `gas_used.saturating_add(gas) > limit` */
  predicate TooBig(gasUsed: nat, gas: u64, limit: u64)
  {
    (if gasUsed + gas >= U64 then MAX_GAS else gasUsed + gas) > limit
  }

  /** Sender `s1`'s turn in round `r1` comes before sender `s2`'s in round `r2`. */
  predicate Earlier(r1: nat, s1: nat, r2: nat, s2: nat)
  {
    r1 < r2 || (r1 == r2 && s1 < s2)
  }

  /** The round transaction `i` was taken in: how many its sender had taken before. */
  function RoundOf(txs: seq<Tx>, i: nat): nat
    requires i < |txs|
  {
    |Of(txs[..i], txs[i].sender)|
  }

  /** The transactions are in the order of their turns. */
  ghost predicate InTurnOrder(txs: seq<Tx>)
  {
    forall i, j :: 0 <= i < j < |txs| ==>
                     Earlier(RoundOf(txs, i), txs[i].sender, RoundOf(txs, j), txs[j].sender)
  }

  /** All turns taken are before sender `s`'s in round `r`. */
  ghost predicate UpTo(txs: seq<Tx>, r: nat, s: nat)
  {
    forall i :: 0 <= i < |txs| ==> Earlier(RoundOf(txs, i), txs[i].sender, r, s)
  }

  /** Sender `s` had its turn in round `r` after the first `m` transactions, and its next one did not fit. */
  ghost predicate StoppedAt(txs: seq<Tx>, m: nat, r: nat, s: nat, gas: u64, limit: u64)
  {
    && m <= |txs| && UpTo(txs[..m], r, s) && TooBig(Gas(txs[..m]), gas, limit)
    && forall i :: m <= i < |txs| ==> Earlier(r, s, RoundOf(txs, i), txs[i].sender)
  }

  ghost predicate Stopped(txs: seq<Tx>, r: nat, s: nat, gas: u64, limit: u64)
  {
    exists m: nat :: StoppedAt(txs, m, r, s, gas, limit)
  }

  /** Every transaction fitted when it was taken. */
  ghost predicate Fitted(txs: seq<Tx>, limit: u64)
  {
    forall i :: 0 <= i < |txs| ==> !TooBig(Gas(txs[..i]), txs[i].gasLimit, limit)
  }

  /**
   What was taken of one sender's queue is a prefix, and if that is not all of it, the
   next transaction did not fit when its turn came.
   */
  ghost predicate PrefixTaken(view: seq<Tx>, limit: u64, slot: u64, selected: seq<Tx>, sender: nat)
  {
    var taken, queue := Of(selected, sender), Queue(view, slot, sender);
    && taken <= queue
    && (|taken| < |queue| ==> Stopped(selected, |taken|, sender, queue[|taken|].gasLimit, limit))
  }

  /** The result of selection. */
  ghost predicate Selection(view: seq<Tx>, limit: u64, slot: u64, selected: seq<Tx>)
  {
    && InTurnOrder(selected) && Fitted(selected, limit)
    && forall sender: nat :: PrefixTaken(view, limit, slot, selected, sender)
  }

  // ---------- One more transaction ----------

  lemma {:induction false} RoundsNext(txs: seq<Tx>, tx: Tx)
    ensures forall i :: 0 <= i < |txs| ==> RoundOf(txs + [tx], i) == RoundOf(txs, i)
    ensures RoundOf(txs + [tx], |txs|) == |Of(txs, tx.sender)|
  {
    forall i | 0 <= i < |txs|
      ensures RoundOf(txs + [tx], i) == RoundOf(txs, i)
    {
      assert (txs + [tx])[..i] == txs[..i];
    }
    assert (txs + [tx])[..|txs|] == txs;
  }

  lemma {:induction false} TurnTaken(txs: seq<Tx>, tx: Tx, r: nat)
    requires InTurnOrder(txs) && UpTo(txs, r, tx.sender) && |Of(txs, tx.sender)| == r
    ensures InTurnOrder(txs + [tx]) && UpTo(txs + [tx], r, tx.sender + 1)
  {
    RoundsNext(txs, tx);
  }

  lemma {:induction false} FittedNext(txs: seq<Tx>, tx: Tx, limit: u64)
    requires Fitted(txs, limit) && !TooBig(Gas(txs), tx.gasLimit, limit)
    ensures Fitted(txs + [tx], limit)
  {
    var next := txs + [tx];
    forall i | 0 <= i < |next|
      ensures !TooBig(Gas(next[..i]), next[i].gasLimit, limit)
    {
      assert next[..i] == txs[..i];
      assert txs[..|txs|] == txs;
    }
  }

  lemma {:induction false} StoppedNext(txs: seq<Tx>, tx: Tx, r: nat, s: nat, gas: u64, limit: u64)
    requires Stopped(txs, r, s, gas, limit) && Earlier(r, s, |Of(txs, tx.sender)|, tx.sender)
    ensures Stopped(txs + [tx], r, s, gas, limit)
  {
    var m: nat :| StoppedAt(txs, m, r, s, gas, limit);
    RoundsNext(txs, tx);
    assert (txs + [tx])[..m] == txs[..m];
    assert StoppedAt(txs + [tx], m, r, s, gas, limit);
  }

  lemma {:induction false} StoppedNow(txs: seq<Tx>, r: nat, s: nat, gas: u64, limit: u64)
    requires UpTo(txs, r, s) && TooBig(Gas(txs), gas, limit)
    ensures Stopped(txs, r, s, gas, limit)
  {
    assert txs[..|txs|] == txs;
    assert StoppedAt(txs, |txs|, r, s, gas, limit);
  }

  // ---------- Consequences ----------

  lemma {:induction false} GasGrows(txs: seq<Tx>, m: nat)
    requires m <= |txs|
    ensures Gas(txs[..m]) <= Gas(txs)
    decreases |txs|
  {
    if m < |txs| {
      var front := txs[..|txs| - 1];
      GasGrows(front, m);
      assert front[..m] == txs[..m];
    } else {
      assert txs[..m] == txs;
    }
  }

  /** Below the largest limit, transactions that fitted one after another stay within the limit together. */
  lemma {:induction false} FittedWithin(txs: seq<Tx>, limit: u64)
    requires Fitted(txs, limit) && limit < MAX_GAS
    ensures Gas(txs) <= limit
  {
    if txs != [] {
      assert !TooBig(Gas(txs[..|txs| - 1]), txs[|txs| - 1].gasLimit, limit);
    }
  }

  /** Selection is greedy-maximal: the next transaction of a sender left waiting does not fit the finished block. */
  lemma {:induction false} NextDoesNotFit(view: seq<Tx>, limit: u64, slot: u64, selected: seq<Tx>, sender: nat)
    requires Selection(view, limit, slot, selected) && |Of(selected, sender)| < |Queue(view, slot, sender)|
    ensures TooBig(Gas(selected), Queue(view, slot, sender)[|Of(selected, sender)|].gasLimit, limit)
  {
    assert PrefixTaken(view, limit, slot, selected, sender);
    var r, gas := |Of(selected, sender)|, Queue(view, slot, sender)[|Of(selected, sender)|].gasLimit;
    var m: nat :| StoppedAt(selected, m, r, sender, gas, limit);
    GasGrows(selected, m);
  }

  lemma {:induction false} OfPrefix(txs: seq<Tx>, i: nat, sender: nat)
    requires i <= |txs|
    ensures Of(txs[..i], sender) <= Of(txs, sender)
    decreases |txs|
  {
    if i < |txs| {
      var front := txs[..|txs| - 1];
      OfPrefix(front, i, sender);
      assert front[..i] == txs[..i];
    } else {
      assert txs[..i] == txs;
    }
  }

  /** Transaction `i` is the one at its round's place in its sender's taken sequence. */
  lemma {:induction false} TakenInRound(txs: seq<Tx>, i: nat)
    requires i < |txs|
    ensures RoundOf(txs, i) < |Of(txs, txs[i].sender)| && Of(txs, txs[i].sender)[RoundOf(txs, i)] == txs[i]
  {
    var s := txs[i].sender;
    assert txs[..i + 1] == txs[..i] + [txs[i]];
    OfNext(txs[..i], txs[i], s);
    OfPrefix(txs, i + 1, s);
  }

  /** Nothing is taken from a sender in transactions whose turns are all later than its next one. */
  lemma {:induction false} NothingMore(txs: seq<Tx>, i: nat, s: nat)
    requires i <= |txs|
    requires forall j :: i <= j < |txs| ==> Earlier(|Of(txs[..i], s)|, s, RoundOf(txs, j), txs[j].sender)
    ensures Of(txs, s) == Of(txs[..i], s)
    decreases |txs|
  {
    if i < |txs| {
      var n := |txs| - 1;
      var front := txs[..n];
      assert front[..i] == txs[..i];
      forall j | i <= j < |front|
        ensures Earlier(|Of(front[..i], s)|, s, RoundOf(front, j), front[j].sender)
      {
        assert front[..j] == txs[..j];
      }
      assert Earlier(|Of(txs[..i], s)|, s, RoundOf(txs, n), txs[n].sender);
      NothingMore(front, i, s);
      assert Of(txs, s) == Of(front, s) by {
        assert txs == front + [txs[n]];
        OfNext(front, txs[n], s);
      }
    } else {
      assert txs[..i] == txs;
    }
  }

  /** The turn at which two selections first differ cannot be an earlier one for either. */
  lemma {:induction false} NoEarlierTurn(view: seq<Tx>, limit: u64, slot: u64, a: seq<Tx>, b: seq<Tx>, i: nat)
    requires Selection(view, limit, slot, a) && Selection(view, limit, slot, b)
    requires i < |a| && i <= |b| && a[..i] == b[..i]
    ensures i < |b| && !Earlier(RoundOf(a, i), a[i].sender, RoundOf(b, i), b[i].sender)
  {
    var r, s := RoundOf(a, i), a[i].sender;
    if i == |b| || Earlier(r, s, RoundOf(b, i), b[i].sender) {
      LaterFrom(b, i, r, s);
      NothingMore(b, i, s);
      assert PrefixTaken(view, limit, slot, a, s) && PrefixTaken(view, limit, slot, b, s);
      TakenInRound(a, i);
      var queue := Queue(view, slot, s);
      assert |Of(b, s)| == r < |queue| && queue[r] == a[i];
      var m: nat :| StoppedAt(b, m, r, s, queue[r].gasLimit, limit);
      StoppedHere(a, b, i, m, r, s, queue[r].gasLimit, limit);
      assert false;
    }
  }

  lemma {:induction false} LaterFrom(b: seq<Tx>, i: nat, r: nat, s: nat)
    requires InTurnOrder(b) && i <= |b| && (i == |b| || Earlier(r, s, RoundOf(b, i), b[i].sender))
    ensures forall j :: i <= j < |b| ==> Earlier(r, s, RoundOf(b, j), b[j].sender)
  {
    forall j | i <= j < |b|
      ensures Earlier(r, s, RoundOf(b, j), b[j].sender)
    {
      if i < j {
        assert Earlier(RoundOf(b, i), b[i].sender, RoundOf(b, j), b[j].sender);
      }
    }
  }

  /** A stop at the turn where `a` took its transaction is a stop after the common part. */
  lemma {:induction false} StoppedHere(a: seq<Tx>, b: seq<Tx>, i: nat, m: nat, r: nat, s: nat, gas: u64, limit: u64)
    requires InTurnOrder(a) && i < |a| && i <= |b| && a[..i] == b[..i] && r == RoundOf(a, i) && s == a[i].sender
    requires StoppedAt(b, m, r, s, gas, limit)
    requires forall j :: i <= j < |b| ==> Earlier(r, s, RoundOf(b, j), b[j].sender)
    ensures m == i && TooBig(Gas(a[..i]), gas, limit)
  {
    RoundsOfPrefix(a, i);
    RoundsOfPrefix(b, i);
    RoundsOfPrefix(b, m);
    assert UpTo(a[..i], r, s);
  }

  lemma {:induction false} RoundsOfPrefix(txs: seq<Tx>, m: nat)
    requires m <= |txs|
    ensures forall k :: 0 <= k < m ==> txs[..m][k] == txs[k] && RoundOf(txs[..m], k) == RoundOf(txs, k)
  {
    forall k | 0 <= k < m
      ensures RoundOf(txs[..m], k) == RoundOf(txs, k)
    {
      assert txs[..m][..k] == txs[..k];
    }
  }

  /** At the first difference both selections took a transaction, at the same turn, hence the same one. */
  lemma {:induction false} SameNext(view: seq<Tx>, limit: u64, slot: u64, a: seq<Tx>, b: seq<Tx>, i: nat)
    requires Selection(view, limit, slot, a) && Selection(view, limit, slot, b)
    requires i < |a| && i <= |b| && a[..i] == b[..i]
    ensures i < |b| && a[i] == b[i]
  {
    NoEarlierTurn(view, limit, slot, a, b, i);
    NoEarlierTurn(view, limit, slot, b, a, i);
    var s := a[i].sender;
    assert RoundOf(a, i) == RoundOf(b, i) && s == b[i].sender;
    TakenInRound(a, i);
    TakenInRound(b, i);
    assert PrefixTaken(view, limit, slot, a, s) && PrefixTaken(view, limit, slot, b, s);
  }

  lemma {:induction false} SamePrefix(view: seq<Tx>, limit: u64, slot: u64, a: seq<Tx>, b: seq<Tx>, i: nat)
    requires Selection(view, limit, slot, a) && Selection(view, limit, slot, b) && i <= |a|
    ensures i <= |b| && a[..i] == b[..i]
  {
    if i > 0 {
      SamePrefix(view, limit, slot, a, b, i - 1);
      SameNext(view, limit, slot, a, b, i - 1);
      PrefixesNext(a, b, i - 1);
    }
  }

  lemma {:induction false} PrefixesNext(a: seq<Tx>, b: seq<Tx>, i: nat)
    requires i < |a| && i < |b| && a[..i] == b[..i] && a[i] == b[i]
    ensures a[..i + 1] == b[..i + 1]
  {
    assert a[..i + 1] == a[..i] + [a[i]] && b[..i + 1] == b[..i] + [b[i]];
  }

  /** Selection is deterministic: one view, limit and slot have one result. */
  lemma {:induction false} SelectionIsUnique(view: seq<Tx>, limit: u64, slot: u64, a: seq<Tx>, b: seq<Tx>)
    requires Selection(view, limit, slot, a) && Selection(view, limit, slot, b)
    ensures a == b
  {
    SamePrefix(view, limit, slot, a, b, |a|);
    SamePrefix(view, limit, slot, b, a, |b|);
    assert a[..|a|] == a && b[..|b|] == b;
  }

  // ---------- First come, first served ----------

  /** The unexpired transactions fit the block together; nothing is too big for the largest limit. */
  predicate AllFit(view: seq<Tx>, limit: u64, slot: u64)
  {
    limit == MAX_GAS || Gas(Live(view, slot)) <= limit
  }

  /** Arrival order is turn order, and every sender sent in nonce order. */
  ghost predicate ArrivedInTurn(view: seq<Tx>, slot: u64)
  {
    InTurnOrder(Live(view, slot)) && forall sender: nat :: SortedBy(Of(Live(view, slot), sender), NonceOf)
  }

  lemma {:induction false} FitsAt(txs: seq<Tx>, i: nat, limit: u64)
    requires i < |txs| && (limit == MAX_GAS || Gas(txs) <= limit)
    ensures !TooBig(Gas(txs[..i]), txs[i].gasLimit, limit)
  {
    GasGrows(txs, i + 1);
    assert txs[..i + 1] == txs[..i] + [txs[i]];
    GasNext(txs[..i], txs[i]);
  }

  lemma {:induction false} AllFitted(txs: seq<Tx>, limit: u64)
    requires limit == MAX_GAS || Gas(txs) <= limit
    ensures Fitted(txs, limit)
  {
    forall i | 0 <= i < |txs|
      ensures !TooBig(Gas(txs[..i]), txs[i].gasLimit, limit)
    {
      FitsAt(txs, i, limit);
    }
  }

  lemma {:induction false} ArrivalIsSelection(view: seq<Tx>, limit: u64, slot: u64)
    requires AllFit(view, limit, slot) && ArrivedInTurn(view, slot)
    ensures Selection(view, limit, slot, Live(view, slot))
  {
    AllFitted(Live(view, slot), limit);
    forall sender: nat
      ensures PrefixTaken(view, limit, slot, Live(view, slot), sender)
    {
      SortedIffFixed(Of(Live(view, slot), sender), NonceOf);
    }
  }

  /**
   Where everything fits, the block holds the transactions in their order of arrival exactly
   when they arrived in turn: round after round, in address order, each sender in nonce order.
   */
  lemma {:induction false} FirstComeFirstServedIff(view: seq<Tx>, limit: u64, slot: u64, selected: seq<Tx>)
    requires Selection(view, limit, slot, selected) && AllFit(view, limit, slot)
    ensures selected == Live(view, slot) <==> ArrivedInTurn(view, slot)
  {
    if ArrivedInTurn(view, slot) {
      ArrivalIsSelection(view, limit, slot);
      SelectionIsUnique(view, limit, slot, selected, Live(view, slot));
    }
    if selected == Live(view, slot) {
      forall sender: nat
        ensures SortedBy(Of(Live(view, slot), sender), NonceOf)
      {
        assert PrefixTaken(view, limit, slot, selected, sender);
        SortBySameMembers(Of(Live(view, slot), sender), NonceOf);
        SortedIffFixed(Of(Live(view, slot), sender), NonceOf);
      }
    }
  }

  lemma {:induction false} TwoOf(a: Tx, b: Tx, s: nat)
    requires a.sender != b.sender
    ensures Of([a, b], s) == if s == a.sender then [a] else if s == b.sender then [b] else []
    ensures SortBy(Of([a, b], s), NonceOf) == Of([a, b], s)
  {
    assert [a, b] == [] + [a] + [b];
    OfNext([], a, s);
    OfNext([] + [a], b, s);
    SortedIsFixed(Of([a, b], s), NonceOf);
  }

  lemma {:induction false} TwoInTurn(a: Tx, b: Tx)
    requires a.sender < b.sender
    ensures InTurnOrder([a, b])
  {
    assert [a, b][..0] == [] && [a, b][..1] == [] + [a];
    OfNext([], a, b.sender);
    assert RoundOf([a, b], 0) == 0 && RoundOf([a, b], 1) == 0;
  }

  lemma {:induction false} TwoLive(a: Tx, b: Tx, slot: u64)
    requires a.deadline.None? && b.deadline.None?
    ensures Live([a, b], slot) == [a, b] && Gas([a, b]) == a.gasLimit + b.gasLimit
  {
    assert [a, b] == [] + [a] + [b];
    LiveNext([], a, slot);
    LiveNext([] + [a], b, slot);
    GasNext([], a);
    GasNext([] + [a], b);
  }

  /** Of two transactions that fit, the later goes first when its sender has the smaller address. */
  lemma {:induction false} ArrivalOrderNotKept(first: Tx, second: Tx, limit: u64, slot: u64, selected: seq<Tx>)
    requires second.sender < first.sender && first.deadline.None? && second.deadline.None?
    requires first.gasLimit + second.gasLimit <= limit
    requires Selection([first, second], limit, slot, selected)
    ensures Live([first, second], slot) == [first, second] && selected == [second, first]
  {
    TwoLive(first, second, slot);
    TwoLive(second, first, slot);
    TwoInTurn(second, first);
    AllFitted([second, first], limit);
    forall s: nat
      ensures PrefixTaken([first, second], limit, slot, [second, first], s)
    {
      TwoOf(first, second, s);
      TwoOf(second, first, s);
    }
    SelectionIsUnique([first, second], limit, slot, selected, [second, first]);
  }
}
