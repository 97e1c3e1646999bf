/**
 A whole key generation: every contributor of an arbitrary set deals, every holder checks
 what it receives and adds it up, and a quorum of holders recovers the master secret.
 */
module Ceremony {
  import opened Prelude
  import opened Bytes
  import opened Interpolation
  import opened Shamir
  import opened MasterSecret
  import opened Envelopes
  import opened Contribution

  /** A contributor: its seed and index, its encapsulation coins, and its signing keys. */
  datatype Contributor = Contributor(seed: Digest, index: nat, coins: nat -> nat, signKey: seq<byte>, pk: seq<byte>)

  /** What all contributors share. */
  datatype Setup = Setup(h: Hasher, p: nat, kem: Kem, signer: Signer, epoch: nat, n: nat, threshold: nat,
                         pks: seq<seq<byte>>)

  function RoundOf(c: Setup, from: Contributor): Round
  {
    Round(c.epoch, from.index, c.n, c.threshold)
  }

  /** The field fits the encoding, and signatures and encapsulations can be undone by their keys. */
  ghost predicate Ready(c: Setup, from: seq<Contributor>, sks: seq<seq<byte>>)
  {
    && IsPrime(c.p) && c.p <= U64 && c.n < U32 && c.n < c.p && |c.pks| == |sks| == c.n
    && (forall i :: 0 <= i < |from| ==> SigningPair(c.signer, from[i].pk, from[i].signKey))
    && (forall j :: 0 <= j < c.n ==> KeyPair(c.kem, c.pks[j], sks[j]))
  }

  /** The contributor dealt `d` and delivered it. */
  ghost predicate Contributed(c: Setup, from: Contributor, d: Dealing, out: Output)
    requires c.p > 1
  {
    && IsDealing(c.p, c.h, from.seed, from.index, c.threshold, d)
    && Delivers(c.h, c.p, c.kem, c.signer, RoundOf(c, from), c.pks, from.coins, from.signKey, d, out)
  }

  ghost predicate AllContributed(c: Setup, from: seq<Contributor>, ds: seq<Dealing>, outs: seq<Output>)
    requires c.p > 1
  {
    |from| == |ds| == |outs| && forall i :: 0 <= i < |from| ==> Contributed(c, from[i], ds[i], outs[i])
  }

  lemma {:induction false} OneMoreContributed(c: Setup, from: seq<Contributor>, ds: seq<Dealing>, outs: seq<Output>,
                                              i: nat, d: Dealing, out: Output)
    requires c.p > 1 && i < |from| && AllContributed(c, from[..i], ds, outs) && Contributed(c, from[i], d, out)
    ensures AllContributed(c, from[..i + 1], ds + [d], outs + [out])
  {
    forall l | 0 <= l < i + 1
      ensures Contributed(c, from[..i + 1][l], (ds + [d])[l], (outs + [out])[l])
    {
      if l < i {
        assert Contributed(c, from[..i][l], ds[l], outs[l]);
      }
    }
  }

  method ContributeOne(c: Setup, from: Contributor) returns (r: Result<Output, ContributeError>, ghost d: Dealing)
    requires c.p > 1
    ensures r.Ok? ==> Contributed(c, from, d, r.value)
  {
    r, d := GenerateContribution(c.h, c.p, c.kem, c.signer, from.seed, RoundOf(c, from), c.pks, from.coins, from.signKey);
  }

  method ContributeAll(c: Setup, from: seq<Contributor>)
    returns (r: Result<seq<Output>, ContributeError>, ghost ds: seq<Dealing>)
    requires c.p > 1
    ensures r.Ok? ==> AllContributed(c, from, ds, r.value)
  {
    var outs: seq<Output> := [];
    ds := [];
    for i := 0 to |from|
      invariant AllContributed(c, from[..i], ds, outs)
    {
      var out, d := ContributeOne(c, from[i]);
      if out.Err? {
        return Err(out.error), ds;
      }
      OneMoreContributed(c, from, ds, outs, i, d, out.value);
      outs, ds := outs + [out.value], ds + [d];
    }
    assert from[..|from|] == from;
    r := Ok(outs);
  }

  method ReceiveOne(c: Setup, from: Contributor, out: Output, j: nat, sk: seq<byte>, ghost d: Dealing)
    returns (row: ShareRow)
    requires 1 < c.p <= U64 && c.n < U32 && Contributed(c, from, d, out) && 1 <= j <= c.n == |c.pks|
    requires SigningPair(c.signer, from.pk, from.signKey) && KeyPair(c.kem, c.pks[j - 1], sk)
    ensures row == RowFor(c.p, d, j)
  {
    var round := RoundOf(c, from);
    EveryRecipientAccepts(c.h, c.p, c.kem, c.signer, round, c.pks, from.coins, from.signKey, d, out, from.pk, j, sk);
    var received := VerifyReceivedShare(c.h, c.p, c.kem, c.signer, out.envelopes[j - 1].0, out.envelopes[j - 1].1,
                                        out.commitment, from.pk, round, j, sk);
    row := received.value;
  }

  /** Holder `j` checks and decrypts its row of every contribution; all of them pass. */
  method ReceiveAll(c: Setup, from: seq<Contributor>, outs: seq<Output>, j: nat, sk: seq<byte>, ghost ds: seq<Dealing>,
                    ghost sks: seq<seq<byte>>)
    returns (rows: seq<ShareRow>)
    requires Ready(c, from, sks) && c.p > 1 && AllContributed(c, from, ds, outs) && 1 <= j <= c.n && sk == sks[j - 1]
    ensures rows == RowsFor(c.p, ds, j)
  {
    rows := [];
    for i := 0 to |outs|
      invariant rows == RowsFor(c.p, ds[..i], j)
    {
      assert Contributed(c, from[i], ds[i], outs[i]);
      var row := ReceiveOne(c, from[i], outs[i], j, sk, ds[i]);
      OneMoreRow(c.p, ds, i, j);
      rows := rows + [row];
    }
    assert ds[..|outs|] == ds;
  }

  lemma {:induction false} OneMoreRow(p: nat, ds: seq<Dealing>, i: nat, j: nat)
    requires p > 0 && i < |ds|
    ensures RowsFor(p, ds[..i + 1], j) == RowsFor(p, ds[..i], j) + [RowFor(p, ds[i], j)]
  {
  }

  /** The share is what its holder adds up over all contributions. */
  ghost predicate IsMasterShare(p: nat, ds: seq<Dealing>, share: MasterShare)
    requires p > 0
  {
    forall k :: 0 <= k < SEED_ELEMENTS ==> share.values[k] == Column(RowsFor(p, ds, share.index), k) % p
  }

  method AggregateAll(c: Setup, from: seq<Contributor>, outs: seq<Output>, holders: seq<nat>, sks: seq<seq<byte>>,
                      ghost ds: seq<Dealing>)
    returns (shares: seq<MasterShare>)
    requires from != [] && Ready(c, from, sks) && c.p > 1 && AllContributed(c, from, ds, outs)
    requires forall i :: 0 <= i < |holders| ==> 1 <= holders[i] <= c.n
    ensures |shares| == |holders|
    ensures forall i :: 0 <= i < |holders| ==> shares[i].index == holders[i] && IsMasterShare(c.p, ds, shares[i])
  {
    shares := [];
    for i := 0 to |holders|
      invariant |shares| == i
      invariant forall l :: 0 <= l < i ==> shares[l].index == holders[l] && IsMasterShare(c.p, ds, shares[l])
    {
      var rows := ReceiveAll(c, from, outs, holders[i], sks[holders[i] - 1], ds, sks);
      assert forall l :: 0 <= l < |rows| ==> rows[l].receiver == holders[i];
      var share := AggregateLocalShare(c.p, holders[i], rows);
      shares := shares + [share.value];
    }
  }

  /** The dealings the contributors' seeds determine. */
  ghost predicate Dealt(c: Setup, from: seq<Contributor>, ds: seq<Dealing>)
  {
    |ds| == |from| && forall i :: 0 <= i < |from| ==> IsDealing(c.p, c.h, from[i].seed, from[i].index, c.threshold, ds[i])
  }

  lemma {:induction false} DealtBelow(c: Setup, from: seq<Contributor>, ds: seq<Dealing>)
    requires c.threshold >= 1 && Dealt(c, from, ds)
    ensures DegreesBelow(ds, c.threshold)
  {
    forall i, m | 0 <= i < |ds| && 0 <= m < SEED_ELEMENTS
      ensures 0 < |ds[i][m]| <= c.threshold
    {
      assert IsDealing(c.p, c.h, from[i].seed, from[i].index, c.threshold, ds[i]);
    }
  }

  /** A seed has one dealing. */
  lemma {:induction false} OneDealing(p: nat, h: Hasher, seed: Digest, index: nat, threshold: nat, a: Dealing, b: Dealing)
    requires IsDealing(p, h, seed, index, threshold, a) && IsDealing(p, h, seed, index, threshold, b)
    ensures a == b
  {
    forall k | 0 <= k < SEED_ELEMENTS
      ensures a[k] == b[k]
    {
      forall m | 0 <= m < |a[k]|
        ensures a[k][m] == b[k][m]
      {
        if m > 0 {
          assert Sample(p, h, CoeffKey(seed, index, k, m)) == Some(a[k][m]);
          assert Sample(p, h, CoeffKey(seed, index, k, m)) == Some(b[k][m]);
        }
      }
    }
  }

  lemma {:induction false} SameDealings(c: Setup, from: seq<Contributor>, a: seq<Dealing>, b: seq<Dealing>)
    requires Dealt(c, from, a) && Dealt(c, from, b)
    ensures a == b
  {
    forall i | 0 <= i < |from|
      ensures a[i] == b[i]
    {
      OneDealing(c.p, c.h, from[i].seed, from[i].index, c.threshold, a[i], b[i]);
    }
  }

  /** `secret` is the sum of the secrets the contributors' seeds determine, for element `k`. */
  ghost predicate IsMasterSecret(c: Setup, from: seq<Contributor>, k: nat, secret: nat)
    requires c.p > 0 && k < SEED_ELEMENTS
  {
    exists ds: seq<Dealing> :: Dealt(c, from, ds) && SumsTo(c.p, ds, k, secret)
  }

  ghost predicate SumsTo(p: nat, ds: seq<Dealing>, k: nat, secret: nat)
    requires p > 0 && k < SEED_ELEMENTS
  {
    (forall i :: 0 <= i < |ds| ==> |ds[i][k]| > 0) && secret == MasterSecretOf(ds, k) % p
  }

  /** The seeds determine the master secret. */
  lemma {:induction false} OneMasterSecret(c: Setup, from: seq<Contributor>, k: nat, s1: nat, s2: nat)
    requires c.p > 0 && k < SEED_ELEMENTS && IsMasterSecret(c, from, k, s1) && IsMasterSecret(c, from, k, s2)
    ensures s1 == s2
  {
    var a: seq<Dealing> :| Dealt(c, from, a) && SumsTo(c.p, a, k, s1);
    var b: seq<Dealing> :| Dealt(c, from, b) && SumsTo(c.p, b, k, s2);
    SameDealings(c, from, a, b);
  }

  /**
   From seeds to secret: when every contributor produces a contribution, every holder
   accepts every row of it, and any quorum of holders recovers the one sum of the secrets
   the contributors' seeds determine.
   */
  method RunCeremony(c: Setup, inv: nat -> nat, from: seq<Contributor>, holders: seq<nat>, sks: seq<seq<byte>>, k: nat)
    returns (r: Result<nat, ContributeError>)
    requires from != [] && Ready(c, from, sks) && Inverts(c.p, inv) && k < SEED_ELEMENTS
    requires 1 <= c.threshold <= |holders|
    requires forall i :: 0 <= i < |holders| ==> 1 <= holders[i] <= c.n
    requires forall i, j :: 0 <= i < j < |holders| ==> holders[i] != holders[j]
    ensures r.Ok? ==> IsMasterSecret(c, from, k, r.value)
  {
    var outs, ds := ContributeAll(c, from);
    if outs.Err? {
      return Err(outs.error);
    }
    assert Dealt(c, from, ds) by {
      forall i | 0 <= i < |from|
        ensures IsDealing(c.p, c.h, from[i].seed, from[i].index, c.threshold, ds[i])
      {
        assert Contributed(c, from[i], ds[i], outs.value[i]);
      }
    }
    DealtBelow(c, from, ds);
    var shares := AggregateAll(c, from, outs.value, holders, sks, ds);
    var secret := Reconstruct(c.p, inv, shares, k, ds, c.threshold);
    assert SumsTo(c.p, ds, k, secret);
    r := Ok(secret);
  }
}
