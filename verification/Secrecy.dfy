/** Fewer shares than the threshold are consistent with every secret. */
module Secrecy {
  import opened Prelude
  import opened ModArith
  import opened Interpolation
  import opened Shamir
  import opened MasterSecret

  /** The coefficients of `c + (X - k) * q`. */
  ghost function Build(c: int, k: int, q: seq<int>): (cs: seq<int>)
    ensures |cs| == |q| + 1
    decreases q
  {
    if q == [] then [c] else [c - k * q[0]] + Build(q[0], k, q[1..])
  }

  lemma {:induction false} BuildEval(c: int, k: int, q: seq<int>, x: int)
    ensures Eval(Build(c, k, q), x) == c + (x - k) * Eval(q, x)
    decreases q
  {
    if q == [] {
      assert Build(c, k, q)[1..] == [];
    } else {
      assert Build(c, k, q)[1..] == Build(q[0], k, q[1..]);
      BuildEval(q[0], k, q[1..], x);
      BuildStep(c, k, x, q[0], Eval(q[1..], x));
    }
  }

  lemma {:induction false} BuildStep(c: int, k: int, x: int, a: int, e: int)
    ensures (c - k * a) + x * (a + (x - k) * e) == c + (x - k) * (a + x * e)
  {
    assert x * (a + (x - k) * e) == x * a + (x - k) * (x * e);
    assert (x - k) * (a + x * e) == (x - k) * a + (x - k) * (x * e);
    assert (x - k) * a == x * a - k * a;
  }

  /** The values a quotient by `X - k` has to take. */
  ghost function Divided(p: int, f: nat -> int, k: nat): nat -> int
  {
    (x: nat) => (f(x) - f(k)) * Inv(p, x - k)
  }

  lemma {:induction false} Undivided(p: int, f: int, c: int, d: int, q: int)
    requires IsPrime(p) && d % p != 0 && q % p == ((f - c) * Inv(p, d)) % p
    ensures (c + d * q) % p == f % p
  {
    var i := Inv(p, d);
    MulCong(q, (f - c) * i, d, p);
    assert q * d == d * q;
    UnitFactor(p, d, i, f - c);
    assert ((f - c) * i) * d == (d * (f - c)) * i;
    AddCong(c, c, d * q, f - c, p);
  }

  /** Through any points with distinct residues runs a polynomial with as many coefficients. */
  lemma {:induction false} Fit(p: int, s: set<nat>, f: nat -> int) returns (cs: seq<int>)
    requires IsPrime(p) && Separated(p, s)
    ensures |cs| == |s| && forall x :: x in s ==> Eval(cs, x) % p == f(x) % p
    decreases s
  {
    if s == {} {
      cs := [];
    } else {
      var k :| k in s;
      SeparatedSubset(p, s, k);
      var q := Fit(p, s - {k}, Divided(p, f, k));
      cs := Build(f(k), k, q);
      forall x | x in s
        ensures Eval(cs, x) % p == f(x) % p
      {
        if x != k {
          assert x in s - {k};
        }
        FitsAt(p, f, k, q, x);
      }
    }
  }

  lemma {:induction false} FitsAt(p: int, f: nat -> int, k: nat, q: seq<int>, x: nat)
    requires IsPrime(p) && (x != k ==> (x - k) % p != 0 && Eval(q, x) % p == Divided(p, f, k)(x) % p)
    ensures Eval(Build(f(k), k, q), x) % p == f(x) % p
  {
    BuildEval(f(k), k, q, x);
    if x != k {
      Undivided(p, f(x), f(k), x - k, Eval(q, x));
    } else {
      assert (x - k) * Eval(q, x) == 0;
    }
  }

  ghost function Reduced(p: int, cs: seq<int>): (r: seq<nat>)
    requires p > 0
    ensures |r| == |cs| && forall i :: 0 <= i < |r| ==> r[i] < p
  {
    seq(|cs|, i requires 0 <= i < |cs| => cs[i] % p)
  }

  lemma {:induction false} ReducedEval(p: int, cs: seq<int>, x: int)
    requires p > 0
    ensures Eval(Reduced(p, cs), x) % p == Eval(cs, x) % p
  {
    if cs != [] {
      var e, e' := Eval(Reduced(p, cs[1..]), x), Eval(cs[1..], x);
      ReducedEval(p, cs[1..], x);
      assert Reduced(p, cs)[1..] == Reduced(p, cs[1..]);
      HornerCong(p, cs[0], x, e, e');
    }
  }

  lemma {:induction false} HornerCong(p: int, c: int, x: int, e: int, e': int)
    requires p > 0 && e % p == e' % p
    ensures (c % p + x * e) % p == (c + x * e') % p
  {
    ModIdempotent(c, p);
    MulCong(e, e', x, p);
    assert e * x == x * e && e' * x == x * e';
    AddCong(c % p, c, x * e, x * e', p);
  }

  lemma {:induction false} PadEval(cs: seq<int>, n: nat, x: int)
    ensures Eval(cs + Zeros(n), x) == Eval(cs, x)
  {
    if n == 0 {
      assert cs + Zeros(n) == cs;
    } else {
      PadEval(cs, n - 1, x);
      assert cs + Zeros(n) == (cs + Zeros(n - 1)) + [0];
      EvalSnoc(cs + Zeros(n - 1), 0, x);
    }
  }

  ghost function Zeros(n: nat): (z: seq<int>)
    ensures |z| == n
  {
    seq(n, i => 0)
  }

  ghost function WithSecret(f: nat -> int, secret: int): nat -> int
  {
    (x: nat) => if x == 0 then secret else f(x)
  }

  lemma {:induction false} ConstantTerm(p: int, cs: seq<nat>, secret: nat)
    requires cs != [] && cs[0] < p && secret < p && Eval(cs, 0) % p == secret % p
    ensures cs[0] == secret
  {
    assert Eval(cs, 0) == cs[0] + 0 * Eval(cs[1..], 0);
    DivModUnique(cs[0], p, 0, cs[0]);
    DivModUnique(secret, p, 0, secret);
  }

  /**
   Whatever values fewer than `t` positions hold, every secret has a sharing
   polynomial with `t` coefficients that gives those positions those values.
   */
  lemma {:induction false} BelowThresholdHidesSecret(p: int, s: set<nat>, f: nat -> int, t: nat, secret: nat)
    returns (cs: seq<nat>)
    requires IsPrime(p) && |s| < t && (forall x :: x in s ==> 0 < x < p) && secret < p
    ensures |cs| == t && Canonical(p, cs) && cs[0] == secret
    ensures forall x :: x in s ==> Eval(cs, x) % p == f(x) % p
  {
    var all, g := s + {0}, WithSecret(f, secret);
    SmallPositionsSeparated(p, all);
    var fit := Fit(p, all, g);
    var padded := fit + Zeros(t - |all|);
    cs := Reduced(p, padded);
    forall x | x in all
      ensures Eval(cs, x) % p == g(x) % p
    {
      PadEval(fit, t - |all|, x);
      ReducedEval(p, padded, x);
    }
    assert 0 in all;
    ConstantTerm(p, cs, secret);
  }

  // ---------- Counting ----------

  lemma {:induction false} BuildQuotient(cs: seq<int>, k: int)
    requires cs != []
    ensures Build(Eval(cs, k), k, Quotient(cs, k)) == cs
  {
    if |cs| == 1 {
      assert cs[1..] == [];
      assert Eval(cs, k) == cs[0] + k * 0;
    } else {
      BuildQuotient(cs[1..], k);
      assert Quotient(cs, k)[1..] == Quotient(cs[1..], k);
      assert cs == [cs[0]] + cs[1..];
    }
  }

  lemma {:induction false} BuildVanishes(p: int, c: int, k: int, q: seq<int>)
    requires p > 0 && c % p == 0 && forall i :: 0 <= i < |q| ==> q[i] % p == 0
    ensures forall i :: 0 <= i < |Build(c, k, q)| ==> Build(c, k, q)[i] % p == 0
    decreases q
  {
    if q != [] {
      BuildVanishes(p, q[0], k, q[1..]);
      HeadVanishes(p, c, k, q[0]);
    }
  }

  lemma {:induction false} HeadVanishes(p: int, c: int, k: int, a: int)
    requires p > 0 && c % p == 0 && a % p == 0
    ensures (c - k * a) % p == 0
  {
    MulCong(a, 0, k, p);
    assert a * k == k * a;
    AddCong(c, 0, k * a, 0, p);
  }

  lemma {:induction false} QuotientVanishes(p: int, cs: seq<int>, k: nat, x: nat)
    requires IsPrime(p) && (x - k) % p != 0 && Eval(cs, x) % p == 0 && Eval(cs, k) % p == 0
    ensures Eval(Quotient(cs, k), x) % p == 0
  {
    Division(cs, k, x);
    AddCong(Eval(cs, x), 0, Eval(cs, k), 0, p);
    CancelFactor(p, x - k, Eval(Quotient(cs, k), x), 0);
  }

  /** A polynomial that vanishes at as many residues as it has coefficients is zero. */
  lemma {:induction false} OnlyZeroVanishes(p: int, s: set<nat>, cs: seq<int>)
    requires IsPrime(p) && Separated(p, s) && |cs| <= |s| && forall x :: x in s ==> Eval(cs, x) % p == 0
    ensures forall i :: 0 <= i < |cs| ==> cs[i] % p == 0
    decreases |cs|
  {
    if cs != [] {
      assert |s| > 0;
      var k :| k in s;
      SeparatedSubset(p, s, k);
      forall x | x in s - {k}
        ensures Eval(Quotient(cs, k), x) % p == 0
      {
        QuotientVanishes(p, cs, k, x);
      }
      OnlyZeroVanishes(p, s - {k}, Quotient(cs, k));
      BuildQuotient(cs, k);
      BuildVanishes(p, Eval(cs, k), k, Quotient(cs, k));
    }
  }

  ghost function Difference(a: seq<int>, b: seq<int>): (d: seq<int>)
    requires |a| == |b|
    ensures |d| == |a|
  {
    seq(|a|, i requires 0 <= i < |a| => a[i] - b[i])
  }

  lemma {:induction false} DifferenceEval(a: seq<int>, b: seq<int>, x: int)
    requires |a| == |b|
    ensures Eval(Difference(a, b), x) == Eval(a, x) - Eval(b, x)
  {
    if a != [] {
      DifferenceEval(a[1..], b[1..], x);
      assert Difference(a, b)[1..] == Difference(a[1..], b[1..]);
      assert x * (Eval(a[1..], x) - Eval(b[1..], x)) == x * Eval(a[1..], x) - x * Eval(b[1..], x);
    }
  }

  lemma {:induction false} SameCanonical(p: int, a: nat, b: nat)
    requires a < p && b < p && (a - b) % p == 0
    ensures a == b
  {
    if a > b {
      DivModUnique(a - b, p, 0, a - b);
    } else if a < b {
      DivModUnique(a - b, p, -1, a - b + p);
    }
  }

  lemma {:induction false} EqualResidues(p: int, a: int, b: int)
    requires p > 0 && a % p == b % p
    ensures (a - b) % p == 0
  {
    AddCong(a, b, b, b, p);
  }

  lemma {:induction false} DifferenceVanishes(p: int, a: seq<int>, b: seq<int>, x: int)
    requires p > 0 && |a| == |b| && Eval(a, x) % p == Eval(b, x) % p
    ensures Eval(Difference(a, b), x) % p == 0
  {
    DifferenceEval(a, b, x);
    EqualResidues(p, Eval(a, x), Eval(b, x));
  }

  lemma {:induction false} SameCoefficients(p: int, a: seq<nat>, b: seq<nat>)
    requires p > 0 && |a| == |b| && Canonical(p, a) && Canonical(p, b)
    requires forall i :: 0 <= i < |a| ==> Difference(a, b)[i] % p == 0
    ensures a == b
  {
    forall i | 0 <= i < |a|
      ensures a[i] == b[i]
    {
      assert Difference(a, b)[i] % p == 0;
      SameCanonical(p, a[i], b[i]);
    }
  }

  /** Two canonical polynomials that agree at as many residues as they have coefficients are equal. */
  lemma {:induction false} OnePolynomial(p: int, s: set<nat>, a: seq<nat>, b: seq<nat>)
    requires IsPrime(p) && Separated(p, s) && |a| == |b| <= |s| && Canonical(p, a) && Canonical(p, b)
    requires forall x :: x in s ==> Eval(a, x) % p == Eval(b, x) % p
    ensures a == b
  {
    forall x | x in s
      ensures Eval(Difference(a, b), x) % p == 0
    {
      DifferenceVanishes(p, a, b, x);
    }
    OnlyZeroVanishes(p, s, Difference(a, b));
    SameCoefficients(p, a, b);
  }

  /** `cs` shares `secret` with threshold `t` and gives the positions in `s` the values `f`. */
  ghost predicate Explains(p: int, s: set<nat>, f: nat -> int, t: nat, secret: nat, cs: seq<nat>)
    requires p > 0
  {
    |cs| == t > 0 && Canonical(p, cs) && cs[0] == secret && forall x :: x in s ==> Eval(cs, x) % p == f(x) % p
  }

  lemma {:induction false} SecretAtZero(cs: seq<nat>, secret: nat)
    requires cs != [] && cs[0] == secret
    ensures Eval(cs, 0) == secret
  {
    assert Eval(cs, 0) == cs[0] + 0 * Eval(cs[1..], 0);
  }

  /** Any `t - 1` shares have exactly one sharing polynomial for each secret, so they make no secret likelier than another. */
  lemma {:induction false} SecretsEquallyExplained(p: int, s: set<nat>, f: nat -> int, t: nat, secret: nat)
    returns (cs: seq<nat>)
    requires IsPrime(p) && |s| + 1 == t && (forall x :: x in s ==> 0 < x < p) && secret < p
    ensures Explains(p, s, f, t, secret, cs)
    ensures forall other :: Explains(p, s, f, t, secret, other) ==> other == cs
  {
    cs := BelowThresholdHidesSecret(p, s, f, t, secret);
    var all := s + {0};
    SmallPositionsSeparated(p, all);
    forall other | Explains(p, s, f, t, secret, other)
      ensures other == cs
    {
      SecretAtZero(cs, secret);
      SecretAtZero(other, secret);
      OnePolynomial(p, all, other, cs);
    }
  }
}
