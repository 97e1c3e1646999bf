/**
 Block building: pick transactions round-robin across senders within the gas limit,
 in nonce order per sender, then shuffle them.
 */
module BlockBuilder {
  import opened Prelude
  import opened Bytes
  import opened Sorting
  import opened Mempool
  import opened Ordering
  import opened RoundRobin

  // ---------- Selecting ----------

  /** Each sender's transactions in order, under its address; senders without any are absent. */
  ghost predicate Grouped(groups: map<nat, seq<Tx>>, txs: seq<Tx>)
  {
    forall s: nat :: Of(txs, s) == if s in groups then groups[s] else []
  }

  lemma {:induction false} GroupNext(groups: map<nat, seq<Tx>>, txs: seq<Tx>, tx: Tx)
    requires Grouped(groups, txs)
    ensures Grouped(groups[tx.sender := (if tx.sender in groups then groups[tx.sender] else []) + [tx]], txs + [tx])
  {
    var groups' := groups[tx.sender := (if tx.sender in groups then groups[tx.sender] else []) + [tx]];
    forall s: nat
      ensures Of(txs + [tx], s) == if s in groups' then groups'[s] else []
    {
      OfNext(txs, tx, s);
    }
  }

  /** Group the unexpired transactions by sender, each group in nonce order. */
  method GroupBySender(view: seq<Tx>, slot: u64) returns (bySender: map<nat, seq<Tx>>)
    ensures Grouping(view, slot, bySender)
  {
    var groups: map<nat, seq<Tx>> := map[];
    for i := 0 to |view|
      invariant Grouped(groups, Live(view[..i], slot))
    {
      var tx := view[i];
      assert view[..i + 1] == view[..i] + [tx];
      LiveNext(view[..i], tx, slot);
      if tx.IsExpired(slot) {
        continue;
      }
      GroupNext(groups, Live(view[..i], slot), tx);
      var group := if tx.sender in groups then groups[tx.sender] else [];
      groups := groups[tx.sender := group + [tx]];
    }
    assert view[..|view|] == view;
    bySender := map s | s in groups :: SortBy(groups[s], NonceOf);
  }

  function Id(x: nat): int { x }

  /** The senders, each once, in ascending order. */
  method SortedSenders(keys: set<nat>) returns (senders: seq<nat>)
    ensures forall s: nat :: s in senders <==> s in keys
    ensures forall i, j :: 0 <= i < j < |senders| ==> senders[i] < senders[j]
  {
    var rest, listed := keys, [];
    while rest != {}
      invariant rest <= keys
      invariant forall s: nat :: s in keys <==> s in rest || s in listed
      invariant forall s: nat :: s in listed ==> s !in rest
      invariant forall i, j :: 0 <= i < j < |listed| ==> listed[i] != listed[j]
      decreases rest
    {
      var s :| s in rest;
      rest := rest - {s};
      listed := listed + [s];
    }
    senders := SortBy(listed, Id);
    SortBySameMembers(listed, Id);
    StrictlyAscending(listed);
  }

  lemma {:induction false} StrictlyAscending(listed: seq<nat>)
    requires forall i, j :: 0 <= i < j < |listed| ==> listed[i] != listed[j]
    ensures forall i, j :: 0 <= i < j < |SortBy(listed, Id)| ==> SortBy(listed, Id)[i] < SortBy(listed, Id)[j]
  {
    var senders := SortBy(listed, Id);
    SortBySorts(listed, Id);
    forall i, j | 0 <= i < j < |senders|
      ensures senders[i] < senders[j]
    {
      assert Id(senders[i]) <= Id(senders[j]);
      if senders[i] == senders[j] {
        Twice(senders, i, j);
        Once(listed, senders[i]);
      }
    }
  }

  lemma {:induction false} Twice(s: seq<nat>, i: nat, j: nat)
    requires i < j < |s| && s[i] == s[j]
    ensures multiset(s)[s[i]] >= 2
  {
    assert s == s[..j] + s[j..];
    assert s[i] == s[..j][i] && s[j] == s[j..][0];
    assert multiset(s[..j])[s[i]] >= 1 && multiset(s[j..])[s[i]] >= 1;
  }

  lemma {:induction false} Once(s: seq<nat>, x: nat)
    requires forall i, j :: 0 <= i < j < |s| ==> s[i] != s[j]
    ensures multiset(s)[x] <= 1
  {
    if s != [] {
      var front, last := s[..|s| - 1], s[|s| - 1];
      Once(front, x);
      assert s == front + [last];
      if last == x {
        assert x !in front;
      }
    }
  }

  // ---------- Taking turns ----------

  function CursorOf(cursors: map<nat, nat>, s: nat): nat
  {
    if s in cursors then cursors[s] else 0
  }

  /**
   Sender `q` when it is sender `s`'s turn in round `r`: it has taken one transaction per
   round of its queue, or all of it, or it was stopped at an earlier turn and is skipped.
   */
  ghost predicate SenderAt(queue: seq<Tx>, cursor: nat, selected: seq<Tx>, q: nat, limit: u64, r: nat, s: nat)
  {
    var taken := Of(selected, q);
    && taken <= queue
    && (|| (cursor == |taken| && (|taken| < |queue| ==> |taken| == if q < s then r + 1 else r))
        || (cursor == |queue| && |taken| < |queue| && Earlier(|taken|, q, r, s)
            && Stopped(selected, |taken|, q, queue[|taken|].gasLimit, limit)))
  }

  /** It is sender `s`'s turn in round `r`. */
  ghost predicate AtTurn(bySender: map<nat, seq<Tx>>, cursors: map<nat, nat>, selected: seq<Tx>, limit: u64, r: nat, s: nat)
  {
    && InTurnOrder(selected) && UpTo(selected, r, s) && Fitted(selected, limit)
    && (forall q :: q in bySender ==> SenderAt(bySender[q], CursorOf(cursors, q), selected, q, limit, r, s))
    && (forall q: nat :: q !in bySender ==> Of(selected, q) == [])
  }

  /** Positions without a sender pass unnoticed. */
  lemma {:induction false} NobodyBetween(bySender: map<nat, seq<Tx>>, cursors: map<nat, nat>, selected: seq<Tx>, limit: u64,
                                         r: nat, s: nat, s': nat)
    requires AtTurn(bySender, cursors, selected, limit, r, s) && s <= s'
    requires forall q :: q in bySender ==> !(s <= q < s')
    ensures AtTurn(bySender, cursors, selected, limit, r, s')
  {
  }

  /** After everyone's turn the next round begins. */
  lemma {:induction false} NextRound(bySender: map<nat, seq<Tx>>, cursors: map<nat, nat>, selected: seq<Tx>, limit: u64,
                                     r: nat, s: nat)
    requires AtTurn(bySender, cursors, selected, limit, r, s) && forall q :: q in bySender ==> q < s
    ensures AtTurn(bySender, cursors, selected, limit, r + 1, 0)
  {
  }

  /** The other senders, after sender `s` took `tx` in its turn. */
  lemma {:induction false} OthersWait(queue: seq<Tx>, cursor: nat, selected: seq<Tx>, q: nat, limit: u64, r: nat, tx: Tx)
    requires SenderAt(queue, cursor, selected, q, limit, r, tx.sender) && q != tx.sender && |Of(selected, tx.sender)| == r
    ensures SenderAt(queue, cursor, selected + [tx], q, limit, r, tx.sender + 1)
  {
    OfNext(selected, tx, q);
    var taken := Of(selected, q);
    if |taken| < |queue| && cursor != |taken| {
      StoppedNext(selected, tx, |taken|, q, queue[|taken|].gasLimit, limit);
    }
  }

  lemma {:induction false} TakeOne(bySender: map<nat, seq<Tx>>, cursors: map<nat, nat>, selected: seq<Tx>, limit: u64,
                                   r: nat, s: nat)
    requires AtTurn(bySender, cursors, selected, limit, r, s) && s in bySender && CursorOf(cursors, s) < |bySender[s]|
    requires var tx := bySender[s][CursorOf(cursors, s)]; tx.sender == s && !TooBig(Gas(selected), tx.gasLimit, limit)
    ensures var c := CursorOf(cursors, s);
            AtTurn(bySender, cursors[s := c + 1], selected + [bySender[s][c]], limit, r, s + 1)
  {
    var queue, c := bySender[s], CursorOf(cursors, s);
    var tx := queue[c];
    assert SenderAt(queue, c, selected, s, limit, r, s);
    assert |Of(selected, s)| == r == c;
    TurnTaken(selected, tx, r);
    FittedNext(selected, tx, limit);
    SendersAfter(bySender, cursors, selected, limit, r, tx);
  }

  /** Everyone's account of itself after sender `tx.sender` took `tx`. */
  lemma {:induction false} SendersAfter(bySender: map<nat, seq<Tx>>, cursors: map<nat, nat>, selected: seq<Tx>, limit: u64,
                                        r: nat, tx: Tx)
    requires AtTurn(bySender, cursors, selected, limit, r, tx.sender) && tx.sender in bySender
    requires |Of(selected, tx.sender)| == r < |bySender[tx.sender]| && bySender[tx.sender][r] == tx
    ensures forall q :: q in bySender ==>
              SenderAt(bySender[q], CursorOf(cursors[tx.sender := r + 1], q), selected + [tx], q, limit, r, tx.sender + 1)
    ensures forall q: nat :: q !in bySender ==> Of(selected + [tx], q) == []
  {
    forall q: nat
      ensures q in bySender ==>
                SenderAt(bySender[q], CursorOf(cursors[tx.sender := r + 1], q), selected + [tx], q, limit, r, tx.sender + 1)
      ensures q !in bySender ==> Of(selected + [tx], q) == []
    {
      if q == tx.sender {
        TakerMoves(bySender[q], selected, limit, r, tx);
      } else if q in bySender {
        OthersWait(bySender[q], CursorOf(cursors, q), selected, q, limit, r, tx);
      } else {
        OfNext(selected, tx, q);
      }
    }
  }

  lemma {:induction false} TakerMoves(queue: seq<Tx>, selected: seq<Tx>, limit: u64, r: nat, tx: Tx)
    requires Of(selected, tx.sender) <= queue && |Of(selected, tx.sender)| == r < |queue| && queue[r] == tx
    ensures SenderAt(queue, r + 1, selected + [tx], tx.sender, limit, r, tx.sender + 1)
  {
    OfNext(selected, tx, tx.sender);
    assert queue[..r + 1] == queue[..r] + [tx];
  }

  /** The sender's next transaction does not fit: it is skipped from now on. */
  lemma {:induction false} SkipSender(bySender: map<nat, seq<Tx>>, cursors: map<nat, nat>, selected: seq<Tx>, limit: u64,
                                      r: nat, s: nat)
    requires AtTurn(bySender, cursors, selected, limit, r, s) && s in bySender && CursorOf(cursors, s) < |bySender[s]|
    requires TooBig(Gas(selected), bySender[s][CursorOf(cursors, s)].gasLimit, limit)
    ensures AtTurn(bySender, cursors[s := |bySender[s]|], selected, limit, r, s + 1)
  {
    assert SenderAt(bySender[s], CursorOf(cursors, s), selected, s, limit, r, s);
    StoppedNow(selected, r, s, bySender[s][r].gasLimit, limit);
    TurnOver(bySender, cursors, selected, limit, r, s);
  }

  /** When a sender ends its turn with its cursor at the end, it is the next one's turn. */
  lemma {:induction false} TurnOver(bySender: map<nat, seq<Tx>>, cursors: map<nat, nat>, selected: seq<Tx>, limit: u64,
                                    r: nat, s: nat)
    requires AtTurn(bySender, cursors, selected, limit, r, s) && s in bySender
    requires SenderAt(bySender[s], |bySender[s]|, selected, s, limit, r, s + 1)
    ensures AtTurn(bySender, cursors[s := |bySender[s]|], selected, limit, r, s + 1)
  {
    forall q | q in bySender
      ensures SenderAt(bySender[q], CursorOf(cursors[s := |bySender[s]|], q), selected, q, limit, r, s + 1)
    {
      if q != s {
        Unmoved(bySender[q], CursorOf(cursors, q), selected, q, limit, r, s);
      }
    }
  }

  lemma {:induction false} Unmoved(queue: seq<Tx>, cursor: nat, selected: seq<Tx>, q: nat, limit: u64, r: nat, s: nat)
    requires SenderAt(queue, cursor, selected, q, limit, r, s) && q != s
    ensures SenderAt(queue, cursor, selected, q, limit, r, s + 1)
  {
  }

  lemma {:induction false} QueueSender(view: seq<Tx>, slot: u64, s: nat)
    ensures forall tx :: tx in Queue(view, slot, s) ==> tx.sender == s && !tx.IsExpired(slot) && tx in view
  {
    forall tx | tx in Queue(view, slot, s)
      ensures tx.sender == s && !tx.IsExpired(slot) && tx in view
    {
      SortBySameMembers(Of(Live(view, slot), s), NonceOf);
      OfSender(Live(view, slot), s, tx);
      OfCount(Live(view, slot), tx);
      LiveCount(view, slot, tx);
      assert multiset(Of(Live(view, slot), s))[tx] > 0;
    }
  }

  lemma {:induction false} OfSender(txs: seq<Tx>, s: nat, tx: Tx)
    requires tx in Of(txs, s)
    ensures tx.sender == s
  {
    var last := txs[|txs| - 1];
    if tx in Of(txs[..|txs| - 1], s) {
      OfSender(txs[..|txs| - 1], s, tx);
    }
  }

  /** Prefixes of the queues only ever pick transactions of the view, each at most as often as it is there. */
  lemma {:induction false} TakenFromView(view: seq<Tx>, slot: u64, selected: seq<Tx>)
    requires forall s: nat :: Of(selected, s) <= Queue(view, slot, s)
    ensures multiset(selected) <= multiset(view)
    ensures |selected| <= |view|
  {
    forall tx
      ensures multiset(selected)[tx] <= multiset(view)[tx]
    {
      var taken, queue := Of(selected, tx.sender), Queue(view, slot, tx.sender);
      OfCount(selected, tx);
      QueueCount(view, slot, tx);
      assert queue == taken + queue[|taken|..];
    }
    SubMultisetSize(multiset(selected), multiset(view));
  }

  lemma {:induction false} SubMultisetSize<T>(a: multiset<T>, b: multiset<T>)
    requires a <= b
    ensures |a| <= |b|
  {
    assert b == a + (b - a);
  }

  ghost predicate Grouping(view: seq<Tx>, slot: u64, bySender: map<nat, seq<Tx>>)
  {
    forall s: nat :: Queue(view, slot, s) == if s in bySender then bySender[s] else []
  }

  lemma {:induction false} ProgressBound(view: seq<Tx>, slot: u64, bySender: map<nat, seq<Tx>>, cursors: map<nat, nat>,
                                         selected: seq<Tx>, limit: u64, r: nat, s: nat)
    requires Grouping(view, slot, bySender) && AtTurn(bySender, cursors, selected, limit, r, s)
    ensures |selected| <= |view|
  {
    forall q: nat
      ensures Of(selected, q) <= Queue(view, slot, q)
    {
    }
    TakenFromView(view, slot, selected);
  }

  /** The running gas counter is exact unless the limit is the largest 64-bit number, which every counter value passes. */
  predicate GasTracked(gasUsed: u64, gas: nat, limit: u64)
  {
    limit < MAX_GAS ==> gasUsed == gas <= limit
  }

  lemma {:induction false} GasTake(gasUsed: u64, gas: nat, more: u64, limit: u64)
    requires GasTracked(gasUsed, gas, limit) && !TooBig(gasUsed, more, limit)
    ensures GasTracked((gasUsed + more) % U64, gas + more, limit)
  {
    if limit < MAX_GAS {
      assert gasUsed + more < U64;
    }
  }

  lemma {:induction false} SameDecision(gasUsed: u64, gas: nat, more: u64, limit: u64)
    requires GasTracked(gasUsed, gas, limit)
    ensures TooBig(gasUsed, more, limit) <==> TooBig(gas, more, limit)
  {
  }

  /** Give one sender its turn: it takes its next transaction, or is done for this block. */
  method Turn(txs: seq<Tx>, limit: u64, cursor: nat, selected: seq<Tx>, gasUsed: u64)
    returns (cursor': nat, selected': seq<Tx>, gasUsed': u64, took: bool)
    requires cursor <= |txs| && GasTracked(gasUsed, Gas(selected), limit)
    ensures GasTracked(gasUsed', Gas(selected'), limit)
    ensures took <==> cursor < |txs| && !TooBig(Gas(selected), txs[cursor].gasLimit, limit)
    ensures cursor' == (if took then cursor + 1 else |txs|)
    ensures selected' == if took then selected + [txs[cursor]] else selected
  {
    cursor', selected', gasUsed', took := cursor, selected, gasUsed, false;
    if cursor >= |txs| {
      return;
    }
    var tx := txs[cursor];
    SameDecision(gasUsed, Gas(selected), tx.gasLimit, limit);
    if TooBig(gasUsed, tx.gasLimit, limit) {
      cursor' := |txs|;
      return;
    }
    GasNext(selected, tx);
    GasTake(gasUsed, Gas(selected), tx.gasLimit, limit);
    selected' := selected + [tx];
    gasUsed' := (gasUsed + tx.gasLimit) % U64;
    cursor' := cursor + 1;
    took := true;
  }

  /** A sender that has nothing left, or was stopped, lets its turn pass. */
  lemma {:induction false} TurnPasses(bySender: map<nat, seq<Tx>>, cursors: map<nat, nat>, selected: seq<Tx>, limit: u64,
                                      r: nat, s: nat)
    requires AtTurn(bySender, cursors, selected, limit, r, s) && s in bySender && CursorOf(cursors, s) == |bySender[s]|
    ensures AtTurn(bySender, cursors[s := |bySender[s]|], selected, limit, r, s + 1)
  {
    assert SenderAt(bySender[s], CursorOf(cursors, s), selected, s, limit, r, s);
    TurnOver(bySender, cursors, selected, limit, r, s);
  }

  /** A turn moves the round on by one sender. */
  lemma {:induction false} TurnKeeps(view: seq<Tx>, slot: u64, bySender: map<nat, seq<Tx>>, limit: u64,
                                     cursors: map<nat, nat>, selected: seq<Tx>, r: nat, s: nat)
    requires Grouping(view, slot, bySender) && AtTurn(bySender, cursors, selected, limit, r, s) && s in bySender
    ensures CursorOf(cursors, s) <= |bySender[s]|
    ensures var txs, c := bySender[s], CursorOf(cursors, s);
            if c < |txs| && !TooBig(Gas(selected), txs[c].gasLimit, limit)
            then AtTurn(bySender, cursors[s := c + 1], selected + [txs[c]], limit, r, s + 1)
            else AtTurn(bySender, cursors[s := |txs|], selected, limit, r, s + 1)
  {
    var txs, c := bySender[s], CursorOf(cursors, s);
    assert SenderAt(txs, c, selected, s, limit, r, s);
    if c == |txs| {
      TurnPasses(bySender, cursors, selected, limit, r, s);
    } else if TooBig(Gas(selected), txs[c].gasLimit, limit) {
      SkipSender(bySender, cursors, selected, limit, r, s);
    } else {
      QueueSender(view, slot, s);
      assert txs[c] in Queue(view, slot, s);
      TakeOne(bySender, cursors, selected, limit, r, s);
    }
  }

  lemma {:induction false} TurnTo(bySender: map<nat, seq<Tx>>, limit: u64, cursors: map<nat, nat>, selected: seq<Tx>, r: nat,
                                  s: nat, took: bool, cursor: nat, selected': seq<Tx>, next: nat)
    requires s in bySender && CursorOf(cursors, s) <= |bySender[s]| && next == s + 1
    requires took ==> CursorOf(cursors, s) < |bySender[s]|
    requires cursor == if took then CursorOf(cursors, s) + 1 else |bySender[s]|
    requires selected' == if took then selected + [bySender[s][CursorOf(cursors, s)]] else selected
    requires if took then AtTurn(bySender, cursors[s := CursorOf(cursors, s) + 1],
                                 selected + [bySender[s][CursorOf(cursors, s)]], limit, r, s + 1)
             else AtTurn(bySender, cursors[s := |bySender[s]|], selected, limit, r, s + 1)
    ensures AtTurn(bySender, cursors[s := cursor], selected', limit, r, next)
  {
  }

  ghost predicate Done(bySender: map<nat, seq<Tx>>, cursors: map<nat, nat>, s: nat)
  {
    s in bySender && CursorOf(cursors, s) == |bySender[s]|
  }

  ghost predicate DoneUpTo(bySender: map<nat, seq<Tx>>, cursors: map<nat, nat>, senders: seq<nat>, k: nat)
  {
    forall i :: 0 <= i < k <= |senders| ==> Done(bySender, cursors, senders[i])
  }

  lemma {:induction false} DoneNext(bySender: map<nat, seq<Tx>>, cursors: map<nat, nat>, cursors': map<nat, nat>,
                                    senders: seq<nat>, k: nat)
    requires k < |senders| && DoneUpTo(bySender, cursors, senders, k) && Done(bySender, cursors', senders[k])
    requires forall q: nat :: q != senders[k] ==> CursorOf(cursors', q) == CursorOf(cursors, q)
    ensures DoneUpTo(bySender, cursors', senders, k + 1)
  {
  }

  /** The senders, each once and in order, with everyone who has a queue. */
  ghost predicate Lists(senders: seq<nat>, bySender: map<nat, seq<Tx>>)
  {
    && (forall s: nat :: s in senders <==> s in bySender)
    && (forall i, j :: 0 <= i < j < |senders| ==> senders[i] < senders[j])
  }

  /** The first position not yet served after `k` senders had their turn. */
  ghost function ServedUpTo(senders: seq<nat>, k: nat): nat
    requires k <= |senders|
  {
    if k == 0 then 0 else senders[k - 1] + 1
  }

  lemma {:induction false} NobodySkipped(senders: seq<nat>, bySender: map<nat, seq<Tx>>, k: nat)
    requires Lists(senders, bySender) && k <= |senders|
    ensures forall q :: q in bySender ==>
              q < ServedUpTo(senders, k) || (k < |senders| && senders[k] <= q)
    ensures k < |senders| ==> ServedUpTo(senders, k) <= senders[k] && senders[k] in bySender
  {
    forall q | q in bySender
      ensures q < ServedUpTo(senders, k) || (k < |senders| && senders[k] <= q)
    {
      var i :| 0 <= i < |senders| && senders[i] == q;
    }
  }

  lemma {:induction false} AtNextSender(bySender: map<nat, seq<Tx>>, cursors: map<nat, nat>, selected: seq<Tx>, limit: u64,
                                        r: nat, senders: seq<nat>, k: nat)
    requires Lists(senders, bySender) && k < |senders|
    requires AtTurn(bySender, cursors, selected, limit, r, ServedUpTo(senders, k))
    ensures senders[k] in bySender && AtTurn(bySender, cursors, selected, limit, r, senders[k])
  {
    NobodySkipped(senders, bySender, k);
    NobodyBetween(bySender, cursors, selected, limit, r, ServedUpTo(senders, k), senders[k]);
  }

  lemma {:induction false} RoundOver(bySender: map<nat, seq<Tx>>, cursors: map<nat, nat>, selected: seq<Tx>, limit: u64,
                                     r: nat, senders: seq<nat>)
    requires Lists(senders, bySender) && AtTurn(bySender, cursors, selected, limit, r, ServedUpTo(senders, |senders|))
    ensures AtTurn(bySender, cursors, selected, limit, r + 1, 0)
  {
    NobodySkipped(senders, bySender, |senders|);
    NextRound(bySender, cursors, selected, limit, r, ServedUpTo(senders, |senders|));
  }

  /** Sender `s`'s turn, with the bookkeeping of its cursor. */
  method Serve(ghost view: seq<Tx>, ghost slot: u64, bySender: map<nat, seq<Tx>>, s: nat, limit: u64,
               cursors: map<nat, nat>, selected: seq<Tx>, gasUsed: u64, ghost r: nat, ghost next: nat)
    returns (cursors': map<nat, nat>, selected': seq<Tx>, gasUsed': u64, took: bool)
    requires Grouping(view, slot, bySender) && AtTurn(bySender, cursors, selected, limit, r, s) && s in bySender
    requires next == s + 1
    requires GasTracked(gasUsed, Gas(selected), limit)
    ensures AtTurn(bySender, cursors', selected', limit, r, next) && GasTracked(gasUsed', Gas(selected'), limit)
    ensures |selected'| == |selected| + if took then 1 else 0
    ensures !took ==> Done(bySender, cursors', s) && forall q: nat :: q != s ==> CursorOf(cursors', q) == CursorOf(cursors, q)
  {
    TurnKeeps(view, slot, bySender, limit, cursors, selected, r, s);
    var cursor;
    cursor, selected', gasUsed', took := Turn(bySender[s], limit, CursorOf(cursors, s), selected, gasUsed);
    TurnTo(bySender, limit, cursors, selected, r, s, took, cursor, selected', next);
    cursors' := cursors[s := cursor];
  }

  /** One pass over all senders. `progress` tells whether anyone took a transaction. */
  method Round(ghost view: seq<Tx>, ghost slot: u64, bySender: map<nat, seq<Tx>>, senders: seq<nat>, limit: u64,
               cursors0: map<nat, nat>, selected0: seq<Tx>, gasUsed0: u64, ghost r: nat)
    returns (cursors: map<nat, nat>, selected: seq<Tx>, gasUsed: u64, progress: bool)
    requires Grouping(view, slot, bySender) && Lists(senders, bySender)
    requires AtTurn(bySender, cursors0, selected0, limit, r, 0) && GasTracked(gasUsed0, Gas(selected0), limit)
    ensures AtTurn(bySender, cursors, selected, limit, r + 1, 0) && GasTracked(gasUsed, Gas(selected), limit)
    ensures if progress then |selected| > |selected0| else |selected| == |selected0|
    ensures !progress ==> forall s :: s in senders ==> Done(bySender, cursors, s)
  {
    cursors, selected, gasUsed, progress := cursors0, selected0, gasUsed0, false;
    for k := 0 to |senders|
      invariant AtTurn(bySender, cursors, selected, limit, r, ServedUpTo(senders, k))
      invariant GasTracked(gasUsed, Gas(selected), limit)
      invariant if progress then |selected| > |selected0| else |selected| == |selected0|
      invariant !progress ==> DoneUpTo(bySender, cursors, senders, k)
    {
      AtNextSender(bySender, cursors, selected, limit, r, senders, k);
      var cursors', selected', gasUsed', took :=
        Serve(view, slot, bySender, senders[k], limit, cursors, selected, gasUsed, r, ServedUpTo(senders, k + 1));
      if !progress && !took {
        DoneNext(bySender, cursors, cursors', senders, k);
      }
      cursors, selected, gasUsed, progress := cursors', selected', gasUsed', progress || took;
    }
    RoundOver(bySender, cursors, selected, limit, r, senders);
  }

  lemma {:induction false} AllDone(view: seq<Tx>, slot: u64, bySender: map<nat, seq<Tx>>, cursors: map<nat, nat>,
                                   selected: seq<Tx>, limit: u64, r: nat)
    requires Grouping(view, slot, bySender) && AtTurn(bySender, cursors, selected, limit, r, 0)
    requires forall s :: s in bySender ==> Done(bySender, cursors, s)
    ensures Selection(view, limit, slot, selected)
  {
    forall s: nat
      ensures PrefixTaken(view, limit, slot, selected, s)
    {
      if s in bySender {
        assert Done(bySender, cursors, s);
        assert SenderAt(bySender[s], CursorOf(cursors, s), selected, s, limit, r, 0);
      }
    }
  }

  /**
   Selection terminates with the one result that round-robin turns within the gas limit
   produce: per sender a gap-free prefix of its unexpired transactions in nonce order.
   */
  method SelectAndOrder(view: seq<Tx>, limit: u64, slot: u64) returns (selected: seq<Tx>)
    ensures Selection(view, limit, slot, selected)
    ensures limit < MAX_GAS ==> Gas(selected) <= limit
  {
    var bySender := GroupBySender(view, slot);
    var senders := SortedSenders(bySender.Keys);
    selected := [];
    var gasUsed: u64, cursors: map<nat, nat>, progress := 0, map[], true;
    ghost var r := 0;
    while progress
      invariant AtTurn(bySender, cursors, selected, limit, r, 0) && GasTracked(gasUsed, Gas(selected), limit)
      invariant |selected| <= |view|
      invariant !progress ==> forall s :: s in bySender ==> Done(bySender, cursors, s)
      decreases |view| - |selected|, progress
    {
      cursors, selected, gasUsed, progress := Round(view, slot, bySender, senders, limit, cursors, selected, gasUsed, r);
      r := r + 1;
      ProgressBound(view, slot, bySender, cursors, selected, limit, r, 0);
    }
    AllDone(view, slot, bySender, cursors, selected, limit, r);
  }

  lemma {:induction false} NoLimitTakesAll(view: seq<Tx>, slot: u64, selected: seq<Tx>)
    requires Selection(view, MAX_GAS, slot, selected)
    ensures multiset(selected) == multiset(Live(view, slot))
  {
    forall tx
      ensures multiset(selected)[tx] == multiset(Live(view, slot))[tx]
    {
      assert PrefixTaken(view, MAX_GAS, slot, selected, tx.sender);
      assert Of(selected, tx.sender) == Queue(view, slot, tx.sender);
      OfCount(selected, tx);
      QueueCount(view, slot, tx);
      LiveCount(view, slot, tx);
    }
  }

  /**
   The saturating comparison never rejects anything when the limit is `u64::MAX`, so
   the block stays within its limit exactly when the limit is smaller than that or
   all the unexpired transactions together fit anyway.
   */
  lemma {:induction false} WithinLimitIff(view: seq<Tx>, limit: u64, slot: u64, selected: seq<Tx>)
    requires Selection(view, limit, slot, selected)
    ensures Gas(selected) <= limit <==> limit < MAX_GAS || Gas(Live(view, slot)) <= limit
  {
    if limit == MAX_GAS {
      NoLimitTakesAll(view, slot, selected);
      GasPermutation(selected, Live(view, slot));
    } else {
      FittedWithin(selected, limit);
    }
  }

  /** At the largest limit two transactions of 2^63 gas are both taken, and the block exceeds its limit. */
  lemma {:induction false} LargestLimitExceeded(first: Tx, second: Tx, slot: u64, selected: seq<Tx>)
    requires first.gasLimit == U64 / 2 == second.gasLimit && first.deadline.None? && second.deadline.None?
    requires Selection([first, second], MAX_GAS, slot, selected)
    ensures Gas(selected) == U64 > MAX_GAS
  {
    NoLimitTakesAll([first, second], slot, selected);
    TwoLive(first, second, slot);
    GasPermutation(selected, [first, second]);
  }

  // ---------- Building ----------

  datatype Block = Block(transactions: seq<Tx>, totalGas: u64, permutation: seq<nat>)

  /** The block is the selection in the shuffled order, with the selection's gas as a wrapping sum. */
  ghost predicate BuiltFrom(block: Block, selected: seq<Tx>, draws: Draws)
  {
    && block.permutation == Shuffled(|selected|, PicksOf(draws))
    && Within(block.permutation, |selected|)
    && block.transactions == ApplyShuffle(selected, block.permutation)
    && multiset(block.transactions) == multiset(selected)
    && Gas(block.transactions) == Gas(selected) && block.totalGas == TotalGas(selected)
  }

  method SumGas(txs: seq<Tx>) returns (total: u64)
    ensures total == TotalGas(txs)
    ensures total == Gas(txs) <==> Gas(txs) < U64
  {
    total := 0;
    for i := 0 to |txs|
      invariant total == TotalGas(txs[..i])
    {
      assert txs[..i + 1] == txs[..i] + [txs[i]];
      GasNext(txs[..i], txs[i]);
      WrappedSum(Gas(txs[..i]), txs[i].gasLimit);
      total := (total + txs[i].gasLimit) % U64;
    }
    assert txs[..|txs|] == txs;
  }

  lemma {:induction false} WrappedSum(x: nat, d: nat)
    ensures (x % U64 + d) % U64 == (x + d) % U64
  {
  }

  method BuildBlock(view: seq<Tx>, limit: u64, slot: u64, draws: Draws) returns (block: Block, ghost selected: seq<Tx>)
    ensures Selection(view, limit, slot, selected)
    ensures BuiltFrom(block, selected, draws)
    ensures limit < MAX_GAS ==> block.totalGas == Gas(block.transactions) <= limit
  {
    var ordered := SelectAndOrder(view, limit, slot);
    selected := ordered;
    var totalGas := SumGas(ordered);
    ApplyKeepsItems(ordered, PicksOf(draws));
    if ordered == [] {
      block := Block([], 0, []);
      return;
    }
    var permutation := VrfShuffle(|ordered|, draws);
    var shuffled := ApplyShuffle(ordered, permutation);
    GasPermutation(shuffled, ordered);
    block := Block(shuffled, totalGas, permutation);
  }
}
