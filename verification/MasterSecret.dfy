/**
 What the master shares of a key generation hide: interpolating any quorum of them at
 zero gives the sum of the contributors' secrets.
 */
module MasterSecret {
  import opened Prelude
  import opened ModArith
  import opened Interpolation
  import opened Shamir

  // ---------- Interpolation as computed ----------

  /** `inv` inverts every nonzero field element. */
  ghost predicate Inverts(p: nat, inv: nat -> nat)
    requires p > 0
  {
    forall d: nat :: 0 < d < p ==> (d * inv(d)) % p == 1
  }

  ghost predicate DistinctPoints(points: seq<(nat, nat)>)
  {
    forall i, j :: 0 <= i < j < |points| ==> points[i].0 != points[j].0
  }

  ghost function Positions(points: seq<(nat, nat)>): (s: set<nat>)
    ensures forall x: nat :: x in s <==> exists i :: 0 <= i < |points| && points[i].0 == x
  {
    set i: nat | i < |points| :: points[i].0
  }

  ghost function ValueAt(points: seq<(nat, nat)>): nat -> int
  {
    (x: nat) => if i :| 0 <= i < |points| && points[i].0 == x then points[i].1 else 0
  }

  lemma {:induction false} PositionsSnoc(points: seq<(nat, nat)>, i: nat)
    requires DistinctPoints(points) && i < |points|
    ensures points[i].0 !in Positions(points[..i])
    ensures Positions(points[..i + 1]) == Positions(points[..i]) + {points[i].0}
  {
    var a, b := points[..i], points[..i + 1];
    assert b == a + [points[i]];
    forall x | x in Positions(a) + {points[i].0}
      ensures x in Positions(b)
    {
      if x in Positions(a) {
        var k :| 0 <= k < |a| && a[k].0 == x;
        assert b[k].0 == x;
      } else {
        assert b[i].0 == x;
      }
    }
  }

  /** The inverse the computation uses is the one the basis is defined with, modulo `p`. */
  lemma {:induction false} SameInverse(p: nat, inv: nat -> nat, d: int)
    requires IsPrime(p) && Inverts(p, inv) && d % p != 0
    ensures inv(d % p) % p == Inv(p, d) % p
  {
    var a := inv(d % p);
    ModIdempotent(d, p);
    MulCong(d % p, d, a, p);
    CancelFactor(p, d, a, Inv(p, d));
  }

  /** One factor of a basis coefficient, computed on canonical elements. */
  lemma {:induction false} FactorStep(p: nat, inv: nat -> nat, xi: nat, xj: nat, basis: nat, prod: int)
    requires IsPrime(p) && Inverts(p, inv) && (xi - xj) % p != 0 && basis % p == prod % p
    ensures (basis * (((0 - xj) % p * inv((xi - xj) % p)) % p)) % p == (Factors(p, xi)(xj) * prod) % p
  {
    var num, i, i' := (0 - xj) % p, inv((xi - xj) % p), Inv(p, xi - xj);
    SameInverse(p, inv, xi - xj);
    ModIdempotent(0 - xj, p);
    MulCong(num, 0 - xj, i, p);
    MulCong(i, i', 0 - xj, p);
    assert i * (0 - xj) == (0 - xj) * i && i' * (0 - xj) == (0 - xj) * i';
    var f, f' := (num * i) % p, (0 - xj) * i';
    ModIdempotent(num * i, p);
    MulCong(f, f', basis, p);
    MulCong(basis, prod, f', p);
    assert f * basis == basis * f && f' * basis == basis * f' && prod * f' == f' * prod;
  }

  method BasisAtZero(p: nat, inv: nat -> nat, points: seq<(nat, nat)>, i: nat) returns (basis: nat)
    requires IsPrime(p) && Inverts(p, inv) && DistinctPoints(points) && i < |points|
    requires Separated(p, Positions(points))
    ensures basis == Basis(p, Positions(points), points[i].0) % p
  {
    ghost var xi := points[i].0;
    basis := 1;
    assert Positions(points[..0]) - {xi} == {};
    DivModUnique(1, p, 0, 1);
    for j := 0 to |points|
      invariant basis == Product(Positions(points[..j]) - {xi}, Factors(p, xi)) % p
    {
      PositionsSnoc(points, j);
      ghost var before, after := Positions(points[..j]) - {xi}, Positions(points[..j + 1]) - {xi};
      if i != j {
        ghost var xj := points[j].0;
        assert xi in Positions(points) && xj in Positions(points);
        assert after == before + {xj} && after - {xj} == before;
        ProductSplit(after, Factors(p, xi), xj);
        ModIdempotent(Product(before, Factors(p, xi)), p);
        FactorStep(p, inv, xi, xj, basis, Product(before, Factors(p, xi)));
        var num := (0 - points[j].0) % p;
        var den := (points[i].0 - points[j].0) % p;
        basis := (basis * ((num * inv(den)) % p)) % p;
      } else {
        assert after == before;
      }
    }
    assert points[..|points|] == points;
  }

  /** The nested loops compute the interpolation at zero. */
  method LagrangeAtZero(p: nat, inv: nat -> nat, points: seq<(nat, nat)>) returns (result: nat)
    requires IsPrime(p) && Inverts(p, inv) && DistinctPoints(points) && Separated(p, Positions(points))
    ensures result == AtZero(p, Positions(points), ValueAt(points)) % p
  {
    ghost var s := Positions(points);
    ghost var terms := Terms(p, s, ValueAt(points));
    result := 0;
    for i := 0 to |points|
      invariant result == Sum(Positions(points[..i]), terms) % p
    {
      var basis := BasisAtZero(p, inv, points, i);
      AddTerm(p, points, i, terms, result, basis);
      result := (result + (points[i].1 * basis) % p) % p;
    }
    assert points[..|points|] == points;
  }

  lemma {:induction false} SumExtend(p: nat, points: seq<(nat, nat)>, i: nat, terms: nat -> int)
    requires p > 0 && DistinctPoints(points) && i < |points|
    requires terms == Terms(p, Positions(points), ValueAt(points))
    ensures Sum(Positions(points[..i + 1]), terms)
         == points[i].1 * Basis(p, Positions(points), points[i].0) + Sum(Positions(points[..i]), terms)
  {
    var x, after := points[i].0, Positions(points[..i + 1]);
    PositionsSnoc(points, i);
    assert after - {x} == Positions(points[..i]);
    SumSplit(after, terms, x);
    assert ValueAt(points)(x) == points[i].1;
  }

  lemma {:induction false} AddTerm(p: nat, points: seq<(nat, nat)>, i: nat, terms: nat -> int, result: nat, basis: nat)
    requires p > 0 && DistinctPoints(points) && i < |points|
    requires terms == Terms(p, Positions(points), ValueAt(points))
    requires result == Sum(Positions(points[..i]), terms) % p
    requires basis == Basis(p, Positions(points), points[i].0) % p
    ensures (result + (points[i].1 * basis) % p) % p == Sum(Positions(points[..i + 1]), terms) % p
  {
    SumExtend(p, points, i, terms);
    TermStep(p, Sum(Positions(points[..i]), terms), points[i].1, Basis(p, Positions(points), points[i].0),
             Sum(Positions(points[..i + 1]), terms), result, basis);
  }

  lemma {:induction false} TermStep(p: nat, sum: int, y: nat, b: int, next: int, result: nat, basis: nat)
    requires p > 0 && result == sum % p && basis == b % p && next == y * b + sum
    ensures (result + (y * basis) % p) % p == next % p
  {
    ModIdempotent(b, p);
    MulCong(basis, b, y, p);
    assert basis * y == y * basis && b * y == y * b;
    ModIdempotent(y * basis, p);
    ModIdempotent(sum, p);
    AddCong(result, sum, (y * basis) % p, y * b, p);
  }

  // ---------- Sums of polynomials ----------

  /** The sum at `x` of all the polynomials. */
  ghost function Total(css: seq<seq<nat>>, x: int): int
  {
    if css == [] then 0 else Total(css[..|css| - 1], x) + Eval(css[|css| - 1], x)
  }

  ghost function Totals(css: seq<seq<nat>>): nat -> int
  {
    (x: nat) => Total(css, x)
  }

  lemma {:induction false} AtZeroCong(p: int, s: set<nat>, f: nat -> int, g: nat -> int)
    requires p > 0 && forall x :: x in s ==> f(x) % p == g(x) % p
    ensures AtZero(p, s, f) % p == AtZero(p, s, g) % p
  {
    forall x | x in s
      ensures Terms(p, s, f)(x) % p == Terms(p, s, g)(x) % p
    {
      MulCong(f(x), g(x), Basis(p, s, x), p);
    }
    SumCong(p, s, Terms(p, s, f), Terms(p, s, g));
  }

  /** Interpolating the sum of polynomials at zero gives the sum of their constant terms. */
  lemma {:induction false} TotalAtZero(p: int, s: set<nat>, css: seq<seq<nat>>)
    requires IsPrime(p) && Separated(p, s) && forall i :: 0 <= i < |css| ==> |css[i]| <= |s|
    ensures AtZero(p, s, Totals(css)) % p == Total(css, 0) % p
  {
    if css == [] {
      AtZeroLinear(p, s, Totals(css), Totals(css), Totals(css), 1);
    } else {
      var init, last := css[..|css| - 1], css[|css| - 1];
      TotalAtZero(p, s, init);
      InterpolatesConstantTerm(p, s, last);
      AtZeroLinear(p, s, Totals(init), Poly(last), Totals(css), 1);
      AddCong(AtZero(p, s, Totals(init)), Total(init, 0), AtZero(p, s, Poly(last)), Eval(last, 0), p);
    }
  }

  // ---------- The ceremony ----------

  /** One contributor's polynomials, one per seed element. */
  type Dealing = d: seq<seq<nat>> | |d| == SEED_ELEMENTS witness seq(SEED_ELEMENTS, i => [])

  /** Every polynomial has a constant term and at most `t` coefficients. */
  ghost predicate DegreesBelow(ds: seq<Dealing>, t: nat)
  {
    forall i, k :: 0 <= i < |ds| && 0 <= k < SEED_ELEMENTS ==> 0 < |ds[i][k]| <= t
  }

  /** The row the contributor hands to position `j`. */
  function RowFor(p: nat, d: Dealing, j: nat): ShareRow
    requires p > 0
  {
    ShareRow(j, seq(SEED_ELEMENTS, k requires 0 <= k < SEED_ELEMENTS => Eval(d[k], j) % p))
  }

  function RowsFor(p: nat, ds: seq<Dealing>, j: nat): seq<ShareRow>
    requires p > 0
  {
    seq(|ds|, i requires 0 <= i < |ds| => RowFor(p, ds[i], j))
  }

  /** The polynomials for seed element `k`. */
  function Element(ds: seq<Dealing>, k: nat): seq<seq<nat>>
    requires k < SEED_ELEMENTS
  {
    seq(|ds|, i requires 0 <= i < |ds| => ds[i][k])
  }

  /** The sum of the contributors' secrets for seed element `k`. */
  function MasterSecretOf(ds: seq<Dealing>, k: nat): nat
    requires k < SEED_ELEMENTS && forall i :: 0 <= i < |ds| ==> |ds[i][k]| > 0
  {
    if ds == [] then 0 else MasterSecretOf(ds[..|ds| - 1], k) + ds[|ds| - 1][k][0]
  }

  /** Element `k` of every position's master share. */
  ghost function MasterValues(p: nat, ds: seq<Dealing>, k: nat): nat -> int
    requires p > 0 && k < SEED_ELEMENTS
  {
    (j: nat) => Column(RowsFor(p, ds, j), k) % p
  }

  lemma {:induction false} ColumnIsTotal(p: nat, ds: seq<Dealing>, j: nat, k: nat)
    requires p > 0 && k < SEED_ELEMENTS
    ensures Column(RowsFor(p, ds, j), k) % p == Total(Element(ds, k), j) % p
  {
    if ds != [] {
      var init, last := ds[..|ds| - 1], ds[|ds| - 1];
      ColumnIsTotal(p, init, j, k);
      var rows, css := RowsFor(p, ds, j), Element(ds, k);
      assert rows[..|rows| - 1] == RowsFor(p, init, j);
      assert css[..|css| - 1] == Element(init, k);
      ModIdempotent(Eval(last[k], j), p);
      AddCong(Column(RowsFor(p, init, j), k), Total(Element(init, k), j), Eval(last[k], j) % p, Eval(last[k], j), p);
    }
  }

  lemma {:induction false} SecretIsTotal(ds: seq<Dealing>, k: nat)
    requires k < SEED_ELEMENTS && forall i :: 0 <= i < |ds| ==> |ds[i][k]| > 0
    ensures MasterSecretOf(ds, k) == Total(Element(ds, k), 0)
  {
    if ds != [] {
      SecretIsTotal(ds[..|ds| - 1], k);
      var css := Element(ds, k);
      assert css[..|css| - 1] == Element(ds[..|ds| - 1], k);
      var last := css[|css| - 1];
      assert Eval(last, 0) == last[0] + 0 * Eval(last[1..], 0);
    }
  }

  lemma {:induction false} SmallPositionsSeparated(p: nat, s: set<nat>)
    requires p > 0 && forall x :: x in s ==> x < p
    ensures Separated(p, s)
  {
    forall x, y | x in s && y in s && x != y
      ensures (x - y) % p != 0
    {
      if x > y {
        DivModUnique(x - y, p, 0, x - y);
      } else {
        DivModUnique(x - y, p, -1, x - y + p);
      }
    }
  }

  /**
   Any `t` or more positions of a committee smaller than the field recover, from their
   master shares alone, the sum of the contributors' secrets.
   */
  lemma {:induction false} MasterSecretRecovered(p: nat, ds: seq<Dealing>, t: nat, s: set<nat>, k: nat)
    requires IsPrime(p) && k < SEED_ELEMENTS
    requires DegreesBelow(ds, t)
    requires |s| >= t && forall x :: x in s ==> x < p
    ensures AtZero(p, s, MasterValues(p, ds, k)) % p == MasterSecretOf(ds, k) % p
  {
    SmallPositionsSeparated(p, s);
    var css := Element(ds, k);
    forall x | x in s
      ensures MasterValues(p, ds, k)(x) % p == Totals(css)(x) % p
    {
      ColumnIsTotal(p, ds, x, k);
      ModIdempotent(Column(RowsFor(p, ds, x), k), p);
    }
    AtZeroCong(p, s, MasterValues(p, ds, k), Totals(css));
    TotalAtZero(p, s, css);
    SecretIsTotal(ds, k);
  }

  /** Any two quorums reconstruct the same master secret. */
  lemma {:induction false} QuorumsAgree(p: nat, ds: seq<Dealing>, t: nat, s1: set<nat>, s2: set<nat>, k: nat)
    requires IsPrime(p) && k < SEED_ELEMENTS
    requires DegreesBelow(ds, t)
    requires |s1| >= t && |s2| >= t && (forall x :: x in s1 ==> x < p) && (forall x :: x in s2 ==> x < p)
    ensures AtZero(p, s1, MasterValues(p, ds, k)) % p == AtZero(p, s2, MasterValues(p, ds, k)) % p
  {
    MasterSecretRecovered(p, ds, t, s1, k);
    MasterSecretRecovered(p, ds, t, s2, k);
  }

  lemma {:induction false} PositionsSize(points: seq<(nat, nat)>)
    requires DistinctPoints(points)
    ensures |Positions(points)| == |points|
  {
    if points != [] {
      var n := |points| - 1;
      PositionsSize(points[..n]);
      PositionsSnoc(points, n);
      assert points[..n + 1] == points;
    } else {
      assert Positions(points) == {};
    }
  }

  /** Interpolating the master shares of `t` distinct holders yields the master secret. */
  method Reconstruct(p: nat, inv: nat -> nat, shares: seq<MasterShare>, k: nat, ghost ds: seq<Dealing>, ghost t: nat)
    returns (secret: nat)
    requires IsPrime(p) && Inverts(p, inv) && k < SEED_ELEMENTS && DegreesBelow(ds, t) && |shares| >= t
    requires forall i, j :: 0 <= i < j < |shares| ==> shares[i].index != shares[j].index
    requires forall i :: 0 <= i < |shares| ==> shares[i].index < p
    requires forall i :: 0 <= i < |shares| ==>
                           shares[i].values[k] == Column(RowsFor(p, ds, shares[i].index), k) % p
    ensures secret == MasterSecretOf(ds, k) % p
  {
    var points := seq(|shares|, i requires 0 <= i < |shares| => (shares[i].index, shares[i].values[k]));
    ghost var s := Positions(points);
    PositionsSize(points);
    SmallPositionsSeparated(p, s);
    secret := LagrangeAtZero(p, inv, points);
    ShareValues(p, points, ds, k);
    MasterSecretRecovered(p, ds, t, s, k);
  }

  lemma {:induction false} ShareValues(p: nat, points: seq<(nat, nat)>, ds: seq<Dealing>, k: nat)
    requires p > 0 && k < SEED_ELEMENTS
    requires forall i :: 0 <= i < |points| ==> points[i].1 == Column(RowsFor(p, ds, points[i].0), k) % p
    ensures AtZero(p, Positions(points), ValueAt(points)) % p == AtZero(p, Positions(points), MasterValues(p, ds, k)) % p
  {
    AtZeroCong(p, Positions(points), ValueAt(points), MasterValues(p, ds, k));
  }
}
