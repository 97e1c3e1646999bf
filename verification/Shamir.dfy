/**
 Shamir sharing as the distributed key generation uses it: sampling of polynomial
 coefficients, evaluation at every committee position, summation of the contributors'
 rows into master shares, and reconstruction of the master secret. The field is the
 integers modulo a prime `p`; elements are kept canonical, in `0 .. p`.
 */
module Shamir {
  import opened Prelude
  import opened Bytes
  import opened ModArith
  import opened Interpolation

  /** Number of field elements in a seed, each shared by its own polynomial. */
  const SEED_ELEMENTS: nat := 8

  type Values = s: seq<nat> | |s| == SEED_ELEMENTS witness seq(SEED_ELEMENTS, i => 0)

  predicate Canonical(p: nat, s: seq<nat>)
  {
    forall k :: 0 <= k < |s| ==> s[k] < p
  }

  // ---------- Rejection sampling ----------

  const MAX_REJECTION_RETRIES: nat := 64

  datatype SampleKey = SampleKey(domain: seq<byte>, seed: Digest, fromIndex: nat, element: nat, coeff: nat)

  /** The candidates drawn for a key, by attempt. */
  function Draws(h: Hasher, key: SampleKey): nat -> u64
  {
    (attempt: nat) =>
      ReadU64(h(key.domain + key.seed + Le(key.fromIndex, 4) + Le(key.element, 4) + Le(key.coeff, 4)
                + Le(attempt, 8))[..8])
  }

  /** Attempt `a` is the first, within the retry budget, that draws a canonical element. */
  ghost predicate Accepted(p: nat, draw: nat -> u64, a: nat)
  {
    a < MAX_REJECTION_RETRIES && draw(a) < p && forall b: nat :: b < a ==> draw(b) >= p
  }

  ghost function FirstAccepted(p: nat, draw: nat -> u64): (r: Option<nat>)
    ensures r.Some? ==> r.value < p
  {
    if a: nat :| Accepted(p, draw, a) then Some(draw(a)) else None
  }

  ghost function Sample(p: nat, h: Hasher, key: SampleKey): (r: Option<nat>)
    ensures r.Some? ==> r.value < p
  {
    FirstAccepted(p, Draws(h, key))
  }

  /** Sampling gives the first canonical candidate, and fails only when all 64 are rejected. */
  method SampleGoldilocks(p: nat, draw: nat -> u64) returns (r: Option<nat>)
    ensures r == FirstAccepted(p, draw)
    ensures r.None? <==> forall a: nat :: a < MAX_REJECTION_RETRIES ==> draw(a) >= p
  {
    var attempt := 0;
    while true
      invariant 0 <= attempt <= MAX_REJECTION_RETRIES
      invariant forall b: nat :: b < attempt ==> draw(b) >= p
      decreases MAX_REJECTION_RETRIES - attempt
    {
      if attempt >= MAX_REJECTION_RETRIES {
        return None;
      }
      var val := draw(attempt);
      if val < p {
        assert Accepted(p, draw, attempt);
        return Some(val);
      }
      attempt := attempt + 1;
    }
  }

  // ---------- Splitting ----------

  const POLY_COEFF_DOMAIN: seq<byte> := Ascii("PYDE_DKG_POLY_COEFF_V1\0")

  function CoeffKey(seed: Digest, fromIndex: nat, element: nat, k: nat): SampleKey
  {
    SampleKey(POLY_COEFF_DOMAIN, seed, fromIndex, element, k)
  }

  /** `cs` is the polynomial a contributor shares a seed element with. */
  ghost predicate IsSharingPolynomial(p: nat, h: Hasher, seed: Digest, fromIndex: nat, element: nat,
                                      threshold: nat, secret: nat, cs: seq<nat>)
  {
    && |cs| == (if threshold == 0 then 1 else threshold)
    && cs[0] == secret
    && forall k :: 1 <= k < |cs| ==> Sample(p, h, CoeffKey(seed, fromIndex, element, k)) == Some(cs[k])
  }

  function Pow(x: int, k: nat): int
  {
    if k == 0 then 1 else x * Pow(x, k - 1)
  }

  lemma {:induction false} EvalSnoc(cs: seq<int>, c: int, x: int)
    ensures Eval(cs + [c], x) == Eval(cs, x) + c * Pow(x, |cs|)
  {
    if cs == [] {
      assert (cs + [c])[1..] == [];
      assert x * Eval([], x) == 0;
    } else {
      var rest := cs[1..];
      EvalSnoc(rest, c, x);
      assert (cs + [c])[1..] == rest + [c];
      PullOut(x, Eval(rest, x), c, Pow(x, |rest|));
    }
  }

  lemma {:induction false} PullOut(x: int, e: int, c: int, w: int)
    ensures x * (e + c * w) == x * e + c * (x * w)
  {
    assert x * (e + c * w) == x * e + x * (c * w);
    assert x * (c * w) == c * (x * w);
  }

  lemma {:induction false} EvalStep(p: nat, cs: seq<nat>, i: nat, x: int, y: int, w: int)
    requires p > 0 && i < |cs| && y == Eval(cs[..i], x) % p && w == Pow(x, i) % p
    ensures (y + (cs[i] * w) % p) % p == Eval(cs[..i + 1], x) % p
    ensures (w * x) % p == Pow(x, i + 1) % p
  {
    var c, full := cs[i], Pow(x, i);
    assert cs[..i + 1] == cs[..i] + [c];
    EvalSnoc(cs[..i], c, x);
    ModIdempotent(full, p);
    ModIdempotent(Eval(cs[..i], x), p);
    MulCong(w, full, c, p);
    assert w * c == c * w && full * c == c * full;
    ModIdempotent(c * w, p);
    AddCong(y, Eval(cs[..i], x), (c * w) % p, c * full, p);
    MulCong(w, full, x, p);
    assert full * x == x * full;
  }

  /** Evaluation respects congruence of the point. */
  lemma {:induction false} EvalCong(p: nat, cs: seq<nat>, x: int, x': int)
    requires p > 0 && x % p == x' % p
    ensures Eval(cs, x) % p == Eval(cs, x') % p
  {
    if cs != [] {
      var e, e' := Eval(cs[1..], x), Eval(cs[1..], x');
      EvalCong(p, cs[1..], x, x');
      MulCong(x, x', e, p);
      MulCong(e, e', x', p);
      assert e * x' == x' * e && e' * x' == x' * e';
      AddCong(cs[0], cs[0], x * e, x' * e', p);
    }
  }

  method EvaluateAt(p: nat, coeffs: seq<nat>, j: nat) returns (y: nat)
    requires p > 1
    ensures y == Eval(coeffs, j) % p
  {
    var x := j % p;
    y := 0;
    var xPow := 1;
    assert coeffs[..0] == [];
    for i := 0 to |coeffs|
      invariant y == Eval(coeffs[..i], x) % p && xPow == Pow(x, i) % p
    {
      EvalStep(p, coeffs, i, x, y, xPow);
      y := (y + (coeffs[i] * xPow) % p) % p;
      xPow := (xPow * x) % p;
    }
    assert coeffs[..|coeffs|] == coeffs;
    ModIdempotent(j, p);
    EvalCong(p, coeffs, x, j);
  }

  /** Every position `j` in `1 ..= n` gets the value at `j` of one polynomial with constant term `secret`. */
  method ShamirSplitY(p: nat, h: Hasher, secret: nat, n: nat, threshold: nat, seed: Digest, fromIndex: nat,
                      element: nat)
    returns (r: Option<seq<nat>>, ghost poly: seq<nat>)
    requires p > 1
    ensures r.Some? ==> IsSharingPolynomial(p, h, seed, fromIndex, element, threshold, secret, poly)
    ensures r.Some? ==> |r.value| == n && forall j :: 1 <= j <= n ==> r.value[j - 1] == Eval(poly, j) % p
    ensures r.None? <==> exists k :: 1 <= k < threshold && Sample(p, h, CoeffKey(seed, fromIndex, element, k)).None?
  {
    var coeffs := [secret];
    var k := 1;
    while k < threshold
      invariant 1 <= k && (k <= threshold || k == 1) && |coeffs| == k && coeffs[0] == secret
      invariant forall i :: 1 <= i < k ==> Sample(p, h, CoeffKey(seed, fromIndex, element, i)) == Some(coeffs[i])
    {
      var c := SampleGoldilocks(p, Draws(h, CoeffKey(seed, fromIndex, element, k)));
      if c.None? {
        return None, [];
      }
      coeffs := coeffs + [c.value];
      k := k + 1;
    }
    var ys := [];
    for j := 1 to n + 1
      invariant |ys| == j - 1 && forall i :: 1 <= i < j ==> ys[i - 1] == Eval(coeffs, i) % p
    {
      var y := EvaluateAt(p, coeffs, j);
      ys := ys + [y];
    }
    r, poly := Some(ys), coeffs;
  }

  // ---------- Aggregation ----------

  datatype ShareRow = ShareRow(receiver: nat, values: Values)

  datatype MasterShare = MasterShare(index: nat, values: Values)

  datatype AggregateError = NoContributors | DifferentHolder

  /** The sum of the `k`-th values of all rows. */
  function Column(rows: seq<ShareRow>, k: nat): nat
    requires k < SEED_ELEMENTS
  {
    if rows == [] then 0 else Column(rows[..|rows| - 1], k) + rows[|rows| - 1].values[k]
  }

  method AddRow(p: nat, values: Values, row: ShareRow) returns (r: Values)
    requires p > 0
    ensures forall k :: 0 <= k < SEED_ELEMENTS ==> r[k] == (values[k] + row.values[k]) % p
  {
    r := values;
    for k := 0 to SEED_ELEMENTS
      invariant forall i :: 0 <= i < k ==> r[i] == (values[i] + row.values[i]) % p
      invariant forall i :: k <= i < SEED_ELEMENTS ==> r[i] == values[i]
    {
      r := r[k := (r[k] + row.values[k]) % p];
    }
  }

  /** Sums the rows element by element; every row must address the holder. */
  method AggregateLocalShare(p: nat, holder: nat, rows: seq<ShareRow>) returns (r: Result<MasterShare, AggregateError>)
    requires p > 0
    ensures r == Err(NoContributors) <==> rows == []
    ensures r == Err(DifferentHolder) <==> exists i :: 0 <= i < |rows| && rows[i].receiver != holder
    ensures r.Ok? <==> rows != [] && forall i :: 0 <= i < |rows| ==> rows[i].receiver == holder
    ensures r.Ok? ==> r.value.index == holder
                      && forall k :: 0 <= k < SEED_ELEMENTS ==> r.value.values[k] == Column(rows, k) % p
  {
    if rows == [] {
      return Err(NoContributors);
    }
    var values: Values := seq(SEED_ELEMENTS, i => 0);
    for i := 0 to |rows|
      invariant forall j :: 0 <= j < i ==> rows[j].receiver == holder
      invariant forall k :: 0 <= k < SEED_ELEMENTS ==> values[k] == Column(rows[..i], k) % p
    {
      if rows[i].receiver != holder {
        return Err(DifferentHolder);
      }
      ghost var before := values;
      values := AddRow(p, values, rows[i]);
      forall k | 0 <= k < SEED_ELEMENTS
        ensures values[k] == Column(rows[..i + 1], k) % p
      {
        assert rows[..i + 1][..i] == rows[..i];
        ModIdempotent(Column(rows[..i], k), p);
        AddCong(before[k], Column(rows[..i], k), rows[i].values[k], rows[i].values[k], p);
      }
    }
    assert rows[..|rows|] == rows;
    r := Ok(MasterShare(holder, values));
  }
}
