/**
 What a key generation is worth when dealers may be faulty: recipients check that their
 rows were committed to, not that the rows lie on a polynomial. Quorums then recover one
 secret exactly when the aggregated values do.
 */
module Consistency {
  import opened Prelude
  import opened Bytes
  import opened ModArith
  import opened Interpolation
  import opened Shamir
  import opened MasterSecret
  import opened Secrecy
  import opened Codecs
  import opened Envelopes
  import opened Contribution

  // ---------- Basis coefficients at nonzero points ----------

  lemma {:induction false} NonzeroProduct(p: int, a: int, b: int)
    requires IsPrime(p) && a % p != 0 && b % p != 0
    ensures (a * b) % p != 0
  {
    if (a * b) % p == 0 {
      assert a * 0 == 0;
      CancelFactor(p, a, b, 0);
    }
  }

  lemma {:induction false} NonzeroNegative(p: int, y: int)
    requires p > 0 && y % p != 0
    ensures (0 - y) % p != 0
  {
    if (0 - y) % p == 0 {
      AddCong(0, 0, 0 - y, 0, p);
    }
  }

  lemma {:induction false} NonzeroInverse(p: int, d: int)
    requires IsPrime(p) && d % p != 0
    ensures Inv(p, d) % p != 0
  {
    assert Inv(p, d) * d == d * Inv(p, d) && 0 * d == 0;
    if Inv(p, d) % p == 0 {
      MulCong(Inv(p, d), 0, d, p);
    }
  }

  lemma {:induction false} NonzeroProducts(p: int, s: set<nat>, f: nat -> int)
    requires IsPrime(p) && forall y :: y in s ==> f(y) % p != 0
    ensures Product(s, f) % p != 0
    decreases s
  {
    if s == {} {
      DivModUnique(1, p, 0, 1);
    } else {
      var y :| y in s;
      ProductSplit(s, f, y);
      NonzeroProducts(p, s - {y}, f);
      NonzeroProduct(p, f(y), Product(s - {y}, f));
    }
  }

  /** No point that differs from zero is without weight at zero. */
  lemma {:induction false} NonzeroBasis(p: int, s: set<nat>, x: nat)
    requires IsPrime(p) && Separated(p, s) && x in s && forall y :: y in s ==> y % p != 0
    ensures Basis(p, s, x) % p != 0
  {
    forall y | y in s - {x}
      ensures Factors(p, x)(y) % p != 0
    {
      NonzeroNegative(p, y);
      NonzeroInverse(p, x - y);
      NonzeroProduct(p, 0 - y, Inv(p, x - y));
    }
    NonzeroProducts(p, s - {x}, Factors(p, x));
  }

  // ---------- Quorums and polynomials ----------

  lemma {:induction false} CancelRest(p: int, a: int, b: int, w: int, u: int, v: int)
    requires IsPrime(p) && w % p != 0 && u % p == v % p && (a * w + u) % p == (b * w + v) % p
    ensures a % p == b % p
  {
    AddCong(a * w + u, b * w + v, u, v, p);
    assert a * w == w * a && b * w == w * b;
    CancelFactor(p, w, a, b);
  }

  lemma {:induction false} RestsAgree(p: int, s: set<nat>, f: nat -> int, g: nat -> int, v: nat)
    requires p > 0 && forall x :: x in s && x != v ==> f(x) % p == g(x) % p
    ensures Sum(s - {v}, Terms(p, s, f)) % p == Sum(s - {v}, Terms(p, s, g)) % p
  {
    forall x | x in s - {v}
      ensures Terms(p, s, f)(x) % p == Terms(p, s, g)(x) % p
    {
      MulCong(f(x), g(x), Basis(p, s, x), p);
    }
    SumCong(p, s - {v}, Terms(p, s, f), Terms(p, s, g));
  }

  lemma {:induction false} SplitAt(p: int, s: set<nat>, f: nat -> int, v: nat)
    requires v in s
    ensures AtZero(p, s, f) == f(v) * Basis(p, s, v) + Sum(s - {v}, Terms(p, s, f))
  {
    SumSplit(s, Terms(p, s, f), v);
  }

  /** A value is forced by the others and the value at zero. */
  lemma {:induction false} ForcedValue(p: int, s: set<nat>, f: nat -> int, g: nat -> int, v: nat)
    requires IsPrime(p) && Separated(p, s) && v in s && forall y :: y in s ==> y % p != 0
    requires forall x :: x in s && x != v ==> f(x) % p == g(x) % p
    requires AtZero(p, s, f) % p == AtZero(p, s, g) % p
    ensures f(v) % p == g(v) % p
  {
    RestsAgree(p, s, f, g, v);
    SplitAt(p, s, f, v);
    SplitAt(p, s, g, v);
    NonzeroBasis(p, s, v);
    CancelRest(p, f(v), g(v), Basis(p, s, v), Sum(s - {v}, Terms(p, s, f)), Sum(s - {v}, Terms(p, s, g)));
  }

  ghost predicate IsQuorum(s: set<nat>, t: nat, q: set<nat>)
  {
    q <= s && |q| == t
  }

  /** All quorums of `t` positions interpolate to one value at zero. */
  ghost predicate QuorumsRecoverOne(p: int, s: set<nat>, t: nat, f: nat -> int)
    requires p > 0
  {
    forall a, b :: IsQuorum(s, t, a) && IsQuorum(s, t, b) ==> AtZero(p, a, f) % p == AtZero(p, b, f) % p
  }

  ghost predicate LiesOn(p: int, s: set<nat>, f: nat -> int, cs: seq<int>)
    requires p > 0
  {
    forall x :: x in s ==> Eval(cs, x) % p == f(x) % p
  }

  /** The values lie on one polynomial with at most `t` coefficients. */
  ghost predicate OnOnePolynomial(p: int, s: set<nat>, t: nat, f: nat -> int)
    requires p > 0
  {
    exists cs: seq<int> :: |cs| <= t && LiesOn(p, s, f, cs)
  }

  lemma {:induction false} SomeQuorum(s: set<nat>, t: nat) returns (q: set<nat>)
    requires t <= |s|
    ensures IsQuorum(s, t, q)
  {
    if t == 0 {
      q := {};
    } else {
      var x :| x in s;
      var rest := SomeQuorum(s - {x}, t - 1);
      q := rest + {x};
    }
  }

  lemma {:induction false} QuorumInterpolates(p: int, q: set<nat>, f: nat -> int, cs: seq<int>)
    requires IsPrime(p) && Separated(p, q) && |cs| <= |q| && LiesOn(p, q, f, cs)
    ensures AtZero(p, q, f) % p == Eval(cs, 0) % p
  {
    AtZeroCong(p, q, f, Poly(cs));
    InterpolatesConstantTerm(p, q, cs);
  }

  lemma {:induction false} Swapped(s: set<nat>, t: nat, q: set<nat>, u: nat, v: nat)
    requires IsQuorum(s, t, q) && u in q && v in s && v !in q
    ensures IsQuorum(s, t, q - {u} + {v})
  {
  }

  /** A quorum that recovers what a polynomial says, and agrees with it but at one position, agrees there too. */
  lemma {:induction false} AgreesAtLast(p: int, q: set<nat>, f: nat -> int, cs: seq<int>, v: nat)
    requires IsPrime(p) && Separated(p, q) && (forall y :: y in q ==> y % p != 0) && v in q && |cs| <= |q|
    requires LiesOn(p, q - {v}, f, cs) && AtZero(p, q, f) % p == Eval(cs, 0) % p
    ensures f(v) % p == Eval(cs, v) % p
  {
    InterpolatesConstantTerm(p, q, cs);
    forall x | x in q && x != v
      ensures f(x) % p == Poly(cs)(x) % p
    {
      assert x in q - {v};
    }
    ForcedValue(p, q, f, Poly(cs), v);
  }

  lemma {:induction false} SwapIn(p: int, s: set<nat>, t: nat, f: nat -> int, q: set<nat>, cs: seq<int>, v: nat)
    requires IsPrime(p) && Separated(p, s) && (forall y :: y in s ==> y % p != 0) && t >= 1
    requires QuorumsRecoverOne(p, s, t, f) && IsQuorum(s, t, q) && v in s && v !in q
    requires |cs| <= t && LiesOn(p, q, f, cs)
    ensures f(v) % p == Eval(cs, v) % p
  {
    assert |q| > 0;
    var u :| u in q;
    var other := q - {u} + {v};
    Swapped(s, t, q, u, v);
    assert AtZero(p, other, f) % p == Eval(cs, 0) % p by {
      QuorumInterpolates(p, q, f, cs);
    }
    assert LiesOn(p, other - {v}, f, cs);
    AgreesAtLast(p, other, f, cs, v);
  }

  /**
   Values at nonzero positions give every quorum of `t` the same value at zero exactly when
   they lie on one polynomial with at most `t` coefficients.
   */
  lemma {:induction false} RecoverOneIff(p: int, s: set<nat>, t: nat, f: nat -> int)
    requires IsPrime(p) && Separated(p, s) && (forall y :: y in s ==> y % p != 0) && 1 <= t <= |s|
    ensures QuorumsRecoverOne(p, s, t, f) <==> OnOnePolynomial(p, s, t, f)
  {
    if OnOnePolynomial(p, s, t, f) {
      var cs: seq<int> :| |cs| <= t && LiesOn(p, s, f, cs);
      forall a, b | IsQuorum(s, t, a) && IsQuorum(s, t, b)
        ensures AtZero(p, a, f) % p == AtZero(p, b, f) % p
      {
        QuorumInterpolates(p, a, f, cs);
        QuorumInterpolates(p, b, f, cs);
      }
    }
    if QuorumsRecoverOne(p, s, t, f) {
      var q := SomeQuorum(s, t);
      var cs := Fit(p, q, f);
      forall x | x in s
        ensures Eval(cs, x) % p == f(x) % p
      {
        if x !in q {
          SwapIn(p, s, t, f, q, cs, x);
        }
      }
      assert LiesOn(p, s, f, cs);
    }
  }

  // ---------- Contributions on no polynomial ----------

  /** The rows each contributor committed to, one per position. */
  type Contributions = seq<seq<ShareRow>>

  ghost predicate ForPositions(rows: Contributions, n: nat)
  {
    forall i :: 0 <= i < |rows| ==> |rows[i]| == n
  }

  /** What position `j` received. */
  ghost function ReceivedBy(rows: Contributions, n: nat, j: nat): seq<ShareRow>
    requires ForPositions(rows, n) && 1 <= j <= n
  {
    seq(|rows|, i requires 0 <= i < |rows| => rows[i][j - 1])
  }

  /** Element `k` of every position's master share. */
  ghost function Aggregated(p: nat, rows: Contributions, n: nat, k: nat): nat -> int
    requires p > 0 && k < SEED_ELEMENTS && ForPositions(rows, n)
  {
    (j: nat) => if 1 <= j <= n then Column(ReceivedBy(rows, n, j), k) % p else 0
  }

  /** The positions `1 ..= n`. */
  function AllPositions(n: nat): set<nat>
  {
    Range(n + 1) - {0}
  }

  lemma {:induction false} PositionCount(n: nat)
    ensures |AllPositions(n)| == n
  {
    RangeSize(n + 1);
    assert 0 in Range(n + 1);
  }

  lemma {:induction false} PositionsAreNonzero(p: nat, n: nat)
    requires n < p
    ensures Separated(p, AllPositions(n)) && forall y :: y in AllPositions(n) ==> y % p != 0
  {
    SmallPositionsSeparated(p, AllPositions(n));
    forall y | y in AllPositions(n)
      ensures y % p != 0
    {
      DivModUnique(y, p, 0, y);
    }
  }

  /**
   Whatever rows the contributors committed to, all quorums of `t` holders recover one value
   exactly when the holders' master shares lie on one polynomial with at most `t` coefficients.
   */
  lemma {:induction false} CeremonyRecoversOneIff(p: nat, rows: Contributions, n: nat, t: nat, k: nat)
    requires IsPrime(p) && k < SEED_ELEMENTS && ForPositions(rows, n) && 1 <= t <= n < p
    ensures QuorumsRecoverOne(p, AllPositions(n), t, Aggregated(p, rows, n, k))
       <==> OnOnePolynomial(p, AllPositions(n), t, Aggregated(p, rows, n, k))
  {
    PositionCount(n);
    PositionsAreNonzero(p, n);
    RecoverOneIff(p, AllPositions(n), t, Aggregated(p, rows, n, k));
  }

  // ---------- One such ceremony ----------

  /** Rows that are one at the first position and zero at all others. */
  function SpikedRows(n: nat): seq<ShareRow>
  {
    seq(n, i requires 0 <= i < n => ShareRow(i + 1, seq(SEED_ELEMENTS, k => if i == 0 then 1 else 0)))
  }

  lemma {:induction false} SpikedShares(p: nat, n: nat, k: nat, j: nat)
    requires p > 1 && k < SEED_ELEMENTS && 1 <= j <= n
    ensures ForPositions([SpikedRows(n)], n)
    ensures Aggregated(p, [SpikedRows(n)], n, k)(j) == if j == 1 then 1 else 0
  {
    var rows := [SpikedRows(n)];
    var received := ReceivedBy(rows, n, j);
    assert received == [SpikedRows(n)[j - 1]];
    assert received[..0] == [];
    assert Column(received, k) == if j == 1 then 1 else 0;
    DivModUnique(Column(received, k), p, 0, Column(received, k));
  }

  lemma {:induction false} ZeroValues(p: int, s: set<nat>, f: nat -> int)
    requires p > 0 && forall x :: x in s ==> f(x) == 0
    ensures AtZero(p, s, f) == 0
  {
    AtZeroLinear(p, s, f, f, f, 1);
  }

  lemma {:induction false} SpikeWeighs(p: int, s: set<nat>, f: nat -> int)
    requires IsPrime(p) && Separated(p, s) && 1 in s && (forall y :: y in s ==> y % p != 0)
    requires f(1) == 1 && forall x :: x in s && x != 1 ==> f(x) == 0
    ensures AtZero(p, s, f) % p != 0
  {
    NonzeroBasis(p, s, 1);
    SplitAt(p, s, f, 1);
    forall x | x in s - {1}
      ensures Terms(p, s, f)(x) == 0
    {
      assert f(x) * Basis(p, s, x) == 0 * Basis(p, s, x);
    }
    SumOfZeros(p, s - {1}, Terms(p, s, f));
    assert f(1) * Basis(p, s, 1) == Basis(p, s, 1);
  }

  lemma {:induction false} SumOfZeros(p: int, s: set<nat>, f: nat -> int)
    requires p > 0 && forall x :: x in s ==> f(x) == 0
    ensures Sum(s, f) == 0
    decreases s
  {
    if s != {} {
      var x :| x in s;
      SumSplit(s, f, x);
      SumOfZeros(p, s - {x}, f);
    }
  }

  lemma {:induction false} OneOddSplits(p: nat, n: nat, t: nat, f: nat -> int)
    requires IsPrime(p) && 1 <= t < n < p && f(1) == 1 && forall j :: j in AllPositions(n) && j != 1 ==> f(j) == 0
    ensures !QuorumsRecoverOne(p, AllPositions(n), t, f)
  {
    var a := AllPositions(t);
    var b := a - {1} + {t + 1};
    PositionCount(t);
    assert IsQuorum(AllPositions(n), t, a) && IsQuorum(AllPositions(n), t, b);
    PositionsAreNonzero(p, t);
    SpikeWeighs(p, a, f);
    ZeroValues(p, b, f);
  }

  /** With fewer holders in a quorum than there are, the spiked rows give two quorums different secrets. */
  lemma {:induction false} SpikeSplitsQuorums(p: nat, n: nat, t: nat, k: nat)
    requires IsPrime(p) && k < SEED_ELEMENTS && 1 <= t < n < p
    ensures ForPositions([SpikedRows(n)], n)
    ensures !QuorumsRecoverOne(p, AllPositions(n), t, Aggregated(p, [SpikedRows(n)], n, k))
  {
    var f := Aggregated(p, [SpikedRows(n)], n, k);
    SpikedShares(p, n, k, 1);
    forall j | j in AllPositions(n) && j != 1
      ensures f(j) == 0
    {
      SpikedShares(p, n, k, j);
    }
    OneOddSplits(p, n, t, f);
  }

  /** The recipient at position `i + 1` accepts its row. */
  ghost predicate AcceptedAt(h: Hasher, p: nat, kem: Kem, signer: Signer, round: Round, rows: seq<ShareRow>, out: Output,
                             pk: seq<byte>, i: nat, sk: seq<byte>)
  {
    && i < |rows| && i < |out.envelopes|
    && Received(h, p, kem, signer, out.envelopes[i].0, out.envelopes[i].1, out.commitment, pk, round, i + 1, sk)
    == Ok(rows[i])
  }

  lemma {:induction false} SpikedRowFits(p: nat, n: nat, i: nat)
    requires p > 1 && i < n
    ensures |SpikedRows(n)| == n && SpikedRows(n)[i].receiver == i + 1 && Canonical(p, SpikedRows(n)[i].values)
  {
  }

  lemma {:induction false} AnyRowAccepted(h: Hasher, p: nat, kem: Kem, signer: Signer, round: Round, pks: seq<seq<byte>>,
                                          coins: nat -> nat, signKey: seq<byte>, rows: seq<ShareRow>, out: Output,
                                          pk: seq<byte>, i: nat, sk: seq<byte>)
    requires p <= U64 && round.n < U32 && i < round.n == |pks| == |rows|
    requires Canonical(p, rows[i].values) && rows[i].receiver == i + 1
    requires SigningPair(signer, pk, signKey) && KeyPair(kem, pks[i], sk)
    ensures Publishes(h, kem, signer, round, pks, coins, signKey, rows, out) ==>
              AcceptedAt(h, p, kem, signer, round, rows, out, pk, i, sk)
  {
    if Publishes(h, kem, signer, round, pks, coins, signKey, rows, out) {
      PublishedRowAccepted(h, p, kem, signer, round, pks, coins, signKey, rows, out, pk, i + 1, sk);
    }
  }

  /**
   A contributor that publishes the spiked rows is accepted by every recipient, and if it is
   the only contributor, two quorums recover different secrets.
   */
  lemma {:induction false} AcceptedDealerSplitsQuorums(h: Hasher, p: nat, kem: Kem, signer: Signer, round: Round,
                                                       pks: seq<seq<byte>>, coins: nat -> nat, signKey: seq<byte>,
                                                       out: Output, pk: seq<byte>, sks: seq<seq<byte>>, k: nat)
    requires IsPrime(p) && p <= U64 && k < SEED_ELEMENTS && 1 <= round.threshold < round.n < p && round.n < U32
    requires Publishes(h, kem, signer, round, pks, coins, signKey, SpikedRows(round.n), out)
    requires SigningPair(signer, pk, signKey) && |sks| == round.n
    requires forall i :: 0 <= i < round.n ==> KeyPair(kem, pks[i], sks[i])
    ensures forall i :: 0 <= i < round.n ==> AcceptedAt(h, p, kem, signer, round, SpikedRows(round.n), out, pk, i, sks[i])
    ensures ForPositions([SpikedRows(round.n)], round.n)
    ensures !QuorumsRecoverOne(p, AllPositions(round.n), round.threshold, Aggregated(p, [SpikedRows(round.n)], round.n, k))
  {
    forall i | 0 <= i < round.n
      ensures AcceptedAt(h, p, kem, signer, round, SpikedRows(round.n), out, pk, i, sks[i])
    {
      SpikedRowFits(p, round.n, i);
      AnyRowAccepted(h, p, kem, signer, round, pks, coins, signKey, SpikedRows(round.n), out, pk, i, sks[i]);
    }
    SpikeSplitsQuorums(p, round.n, round.threshold, k);
  }
}
