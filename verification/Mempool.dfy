/** Encrypted transactions as the block builder and the inclusion audit see them. */
module Mempool {
  import opened Prelude
  import opened Bytes
  import opened Sorting

  /** `sender` is the address read as a number, so that address order is numeric order. */
  datatype Tx = Tx(sender: nat, nonce: u64, gasLimit: u64, deadline: Option<u64>, hash: Digest)
  {
    predicate IsExpired(slot: u64)
    {
      deadline.Some? && slot >= deadline.value
    }
  }

  function NonceOf(tx: Tx): int { tx.nonce }

  function Gas(txs: seq<Tx>): nat
  {
    if txs == [] then 0 else Gas(txs[..|txs| - 1]) + txs[|txs| - 1].gasLimit
  }

  /** The gas of a block as it is summed, with 64-bit wrap-around. */
  function TotalGas(txs: seq<Tx>): u64
  {
    Gas(txs) % U64
  }

  /** The unexpired transactions, in arrival order. */
  function Live(view: seq<Tx>, slot: u64): seq<Tx>
  {
    if view == [] then []
    else
      var front, last := Live(view[..|view| - 1], slot), view[|view| - 1];
      if last.IsExpired(slot) then front else front + [last]
  }

  /** One sender's transactions, in order. */
  function Of(txs: seq<Tx>, sender: nat): seq<Tx>
  {
    if txs == [] then []
    else
      var front, last := Of(txs[..|txs| - 1], sender), txs[|txs| - 1];
      if last.sender == sender then front + [last] else front
  }

  /** One sender's unexpired transactions in nonce order. */
  function Queue(view: seq<Tx>, slot: u64, sender: nat): seq<Tx>
  {
    SortBy(Of(Live(view, slot), sender), NonceOf)
  }

  lemma {:induction false} OfNext(txs: seq<Tx>, tx: Tx, sender: nat)
    ensures Of(txs + [tx], sender) == if tx.sender == sender then Of(txs, sender) + [tx] else Of(txs, sender)
  {
    assert (txs + [tx])[..|txs|] == txs;
  }

  lemma {:induction false} GasNext(txs: seq<Tx>, tx: Tx)
    ensures Gas(txs + [tx]) == Gas(txs) + tx.gasLimit
  {
    assert (txs + [tx])[..|txs|] == txs;
  }

  lemma {:induction false} LiveNext(view: seq<Tx>, tx: Tx, slot: u64)
    ensures Live(view + [tx], slot) == if tx.IsExpired(slot) then Live(view, slot) else Live(view, slot) + [tx]
  {
    assert (view + [tx])[..|view|] == view;
  }

  /** A transaction occurs among its sender's transactions as often as among all. */
  lemma {:induction false} OfCount(txs: seq<Tx>, tx: Tx)
    ensures multiset(Of(txs, tx.sender))[tx] == multiset(txs)[tx]
  {
    if txs != [] {
      var front, last := txs[..|txs| - 1], txs[|txs| - 1];
      OfCount(front, tx);
      assert txs == front + [last];
    }
  }

  lemma {:induction false} LiveCount(view: seq<Tx>, slot: u64, tx: Tx)
    ensures multiset(Live(view, slot))[tx] == if tx.IsExpired(slot) then 0 else multiset(view)[tx]
  {
    if view != [] {
      var front, last := view[..|view| - 1], view[|view| - 1];
      LiveCount(front, slot, tx);
      assert view == front + [last];
    }
  }

  lemma {:induction false} QueueCount(view: seq<Tx>, slot: u64, tx: Tx)
    ensures multiset(Queue(view, slot, tx.sender))[tx] == if tx.IsExpired(slot) then 0 else multiset(view)[tx]
  {
    SortBySorts(Of(Live(view, slot), tx.sender), NonceOf);
    OfCount(Live(view, slot), tx);
    LiveCount(view, slot, tx);
  }

  lemma {:induction false} GasSplit(a: seq<Tx>, b: seq<Tx>)
    ensures Gas(a + b) == Gas(a) + Gas(b)
  {
    if b == [] {
      assert a + b == a;
    } else {
      var front, last := b[..|b| - 1], b[|b| - 1];
      GasSplit(a, front);
      assert a + b == (a + front) + [last];
      GasNext(a + front, last);
    }
  }

  lemma {:induction false} GasWithout(b: seq<Tx>, k: nat)
    requires k < |b|
    ensures Gas(b) == Gas(b[..k] + b[k + 1..]) + b[k].gasLimit
  {
    assert b == (b[..k] + [b[k]]) + b[k + 1..];
    GasNext(b[..k], b[k]);
    GasSplit(b[..k] + [b[k]], b[k + 1..]);
    GasSplit(b[..k], b[k + 1..]);
  }

  lemma {:induction false} CountWithout(b: seq<Tx>, k: nat)
    requires k < |b|
    ensures multiset(b[..k] + b[k + 1..]) == multiset(b) - multiset{b[k]}
  {
    assert b == b[..k] + [b[k]] + b[k + 1..];
  }

  /** Total gas does not depend on the order. */
  lemma {:induction false} GasPermutation(a: seq<Tx>, b: seq<Tx>)
    requires multiset(a) == multiset(b)
    ensures Gas(a) == Gas(b)
  {
    if a == [] {
      assert |multiset(b)| == 0;
    } else {
      var m := |a| - 1;
      assert a[m] in multiset(b);
      var k :| 0 <= k < |b| && b[k] == a[m];
      CountWithout(b, k);
      CountWithout(a, m);
      assert a[..m] + a[m + 1..] == a[..m];
      GasPermutation(a[..m], b[..k] + b[k + 1..]);
      GasWithout(b, k);
    }
  }
}
