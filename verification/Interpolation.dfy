/**
 Arithmetic modulo a prime and Lagrange interpolation at zero. Sums and products are
 taken over the integers and compared modulo the prime.
 */
module Interpolation {
  import opened ModArith

  ghost predicate IsPrime(p: int)
  {
    p >= 2 && forall d :: 1 < d < p ==> p % d != 0
  }

  // ---------- Inverses ----------

  /** Every nonzero residue has an inverse, by descending on remainders of the prime. */
  lemma {:induction false} InverseExists(p: int, a: int) returns (x: int)
    requires IsPrime(p) && 0 < a < p
    ensures (a * x) % p == 1
    decreases a
  {
    if a == 1 {
      x := 1;
    } else {
      var q, r := p / a, p % a;
      assert p == q * a + r;
      var y := InverseExists(p, r);
      x := -q * y;
      InverseStep(p, a, q, r, y);
    }
  }

  lemma {:induction false} InverseStep(p: int, a: int, q: int, r: int, y: int)
    requires p > 0 && p == q * a + r
    ensures (a * (-q * y)) % p == (r * y) % p
  {
    assert (q * a) * y == p * y - r * y;
    assert a * (-q * y) == -((q * a) * y);
    SameResidue(a * (-q * y), r * y, -y, p);
  }

  /** The inverse of `d` modulo `p`, and 0 where there is none. */
  ghost function Inv(p: int, d: int): (x: int)
    ensures IsPrime(p) && d % p != 0 ==> (d * x) % p == 1
  {
    if IsPrime(p) && d % p != 0 then
      assert exists x :: (d * x) % p == 1 by {
        var y := InverseExists(p, d % p);
        ModIdempotent(d, p);
        MulCong(d % p, d, y, p);
        assert (d * y) % p == 1;
      }
      var x :| (d * x) % p == 1; x
    else 0
  }

  lemma {:induction false} CancelFactor(p: int, d: int, a: int, b: int)
    requires IsPrime(p) && d % p != 0
    requires (d * a) % p == (d * b) % p
    ensures a % p == b % p
  {
    var i := Inv(p, d);
    MulCong(d * a, d * b, i, p);
    UnitFactor(p, d, i, a);
    UnitFactor(p, d, i, b);
  }

  lemma {:induction false} UnitFactor(p: int, d: int, i: int, a: int)
    requires p > 1 && (d * i) % p == 1
    ensures ((d * a) * i) % p == a % p
  {
    DivModUnique(1, p, 0, 1);
    MulCong(d * i, 1, a, p);
    assert (d * i) * a == (d * a) * i;
  }

  // ---------- Finite sums and products ----------

  ghost function Sum(s: set<nat>, f: nat -> int): int
  {
    if s == {} then 0 else var x :| x in s; f(x) + Sum(s - {x}, f)
  }

  ghost function Product(s: set<nat>, f: nat -> int): int
  {
    if s == {} then 1 else var x :| x in s; f(x) * Product(s - {x}, f)
  }

  lemma {:induction false} SumSplit(s: set<nat>, f: nat -> int, y: nat)
    requires y in s
    ensures Sum(s, f) == f(y) + Sum(s - {y}, f)
    decreases s
  {
    var x :| x in s && Sum(s, f) == f(x) + Sum(s - {x}, f);
    if x != y {
      SumSplit(s - {x}, f, y);
      SumSplit(s - {y}, f, x);
      assert s - {x} - {y} == s - {y} - {x};
    }
  }

  lemma {:induction false} ProductSplit(s: set<nat>, f: nat -> int, y: nat)
    requires y in s
    ensures Product(s, f) == f(y) * Product(s - {y}, f)
    decreases s
  {
    var x :| x in s && Product(s, f) == f(x) * Product(s - {x}, f);
    if x != y {
      ProductSplit(s - {x}, f, y);
      ProductSplit(s - {y}, f, x);
      assert s - {x} - {y} == s - {y} - {x};
      var rest := Product(s - {x} - {y}, f);
      assert f(x) * (f(y) * rest) == f(y) * (f(x) * rest);
    }
  }

  lemma {:induction false} SumCong(p: int, s: set<nat>, f: nat -> int, g: nat -> int)
    requires p > 0 && forall x :: x in s ==> f(x) % p == g(x) % p
    ensures Sum(s, f) % p == Sum(s, g) % p
    decreases s
  {
    if s != {} {
      var x :| x in s && Sum(s, f) == f(x) + Sum(s - {x}, f);
      SumSplit(s, g, x);
      SumCong(p, s - {x}, f, g);
      AddCong(f(x), g(x), Sum(s - {x}, f), Sum(s - {x}, g), p);
    }
  }

  /** Sums are linear: `a * f + b * g`. */
  lemma {:induction false} SumLinear(s: set<nat>, f: nat -> int, g: nat -> int, h: nat -> int, a: int, b: int)
    requires forall x :: x in s ==> h(x) == a * f(x) + b * g(x)
    ensures Sum(s, h) == a * Sum(s, f) + b * Sum(s, g)
    decreases s
  {
    if s != {} {
      var x :| x in s && Sum(s, h) == h(x) + Sum(s - {x}, h);
      SumSplit(s, f, x);
      SumSplit(s, g, x);
      SumLinear(s - {x}, f, g, h, a, b);
      Distribute(a, f(x), Sum(s - {x}, f), b, g(x), Sum(s - {x}, g));
    }
  }

  lemma {:induction false} Distribute(a: int, u: int, v: int, b: int, w: int, z: int)
    ensures a * (u + v) + b * (w + z) == (a * u + b * w) + (a * v + b * z)
  {
    assert a * (u + v) == a * u + a * v;
    assert b * (w + z) == b * w + b * z;
  }

  // ---------- Polynomials ----------

  /** `cs[0] + cs[1] x + cs[2] x^2 + ...` */
  function Eval(cs: seq<int>, x: int): int
  {
    if cs == [] then 0 else cs[0] + x * Eval(cs[1..], x)
  }

  /** Synthetic division by `X - k`: one coefficient fewer. */
  function Quotient(cs: seq<int>, k: int): (q: seq<int>)
    ensures |q| == if cs == [] then 0 else |cs| - 1
  {
    if |cs| <= 1 then [] else [Eval(cs[1..], k)] + Quotient(cs[1..], k)
  }

  lemma {:induction false} Division(cs: seq<int>, k: int, x: int)
    ensures Eval(cs, x) - Eval(cs, k) == (x - k) * Eval(Quotient(cs, k), x)
  {
    if |cs| > 1 {
      var rest, q := cs[1..], Quotient(cs[1..], k);
      Division(rest, k, x);
      assert Quotient(cs, k)[1..] == q;
      DivisionStep(x, k, Eval(rest, x), Eval(rest, k), Eval(q, x));
    } else if |cs| == 1 {
      assert cs[1..] == [];
    }
  }

  lemma {:induction false} DivisionStep(x: int, k: int, fx: int, fk: int, qx: int)
    requires fx - fk == (x - k) * qx
    ensures x * fx - k * fk == (x - k) * (fk + x * qx)
  {
    assert (x - k) * (fk + x * qx) == (x - k) * fk + x * ((x - k) * qx);
    assert (x - k) * fk == x * fk - k * fk;
    assert x * (fx - fk) == x * fx - x * fk;
  }

  // ---------- Lagrange interpolation at zero ----------

  /** The points have pairwise different residues. */
  ghost predicate Separated(p: int, s: set<nat>)
    requires p > 0
  {
    forall x, y :: x in s && y in s && x != y ==> (x - y) % p != 0
  }

  /** The factors of the basis coefficient of `x` at zero: `(0 - y) / (x - y)`. */
  ghost function Factors(p: int, x: nat): nat -> int
  {
    (y: nat) => (0 - y) * Inv(p, x - y)
  }

  /** The Lagrange basis coefficient of the point `x` at zero. */
  ghost function Basis(p: int, s: set<nat>, x: nat): int
  {
    Product(s - {x}, Factors(p, x))
  }

  ghost function Terms(p: int, s: set<nat>, f: nat -> int): nat -> int
  {
    (x: nat) => f(x) * Basis(p, s, x)
  }

  /** The value at zero of the polynomial through the points `(x, f(x))`. */
  ghost function AtZero(p: int, s: set<nat>, f: nat -> int): int
  {
    Sum(s, Terms(p, s, f))
  }

  lemma {:induction false} BasisSplit(p: int, s: set<nat>, x: nat, k: nat)
    requires x in s && k in s && x != k
    ensures Basis(p, s, x) == ((0 - k) * Inv(p, x - k)) * Basis(p, s - {k}, x)
  {
    ProductSplit(s - {x}, Factors(p, x), k);
    assert s - {x} - {k} == s - {k} - {x};
  }

  lemma {:induction false} DropTerm(p: int, d: int, k: int, g: int, b: int)
    requires IsPrime(p) && d % p != 0
    ensures ((d * g) * (((0 - k) * Inv(p, d)) * b)) % p == ((0 - k) * (g * b)) % p
  {
    var i, n := Inv(p, d), 0 - k;
    var rest := n * (g * b);
    assert (d * g) * ((n * i) * b) == (d * rest) * i by {
      assert (d * g) * ((n * i) * b) == d * (g * ((n * i) * b));
      assert g * ((n * i) * b) == rest * i;
      assert d * (rest * i) == (d * rest) * i;
    }
    UnitFactor(p, d, i, rest);
  }

  ghost function Scaled(a: int, f: nat -> int): nat -> int
  {
    (x: nat) => a * f(x)
  }

  lemma {:induction false} DropTerms(p: int, s: set<nat>, k: nat, f: nat -> int, g: nat -> int, x: nat)
    requires IsPrime(p) && Separated(p, s) && k in s && x in s && x != k
    requires f(x) == (x - k) * g(x)
    ensures Terms(p, s, f)(x) % p == Scaled(0 - k, Terms(p, s - {k}, g))(x) % p
  {
    BasisSplit(p, s, x, k);
    DropTerm(p, x - k, k, g(x), Basis(p, s - {k}, x));
  }

  /** Values that vanish at `k` through the factor `x - k` let the point `k` be dropped. */
  lemma {:induction false} DropPoint(p: int, s: set<nat>, k: nat, f: nat -> int, g: nat -> int)
    requires IsPrime(p) && Separated(p, s) && k in s
    requires forall x :: x in s ==> f(x) == (x - k) * g(x)
    ensures AtZero(p, s, f) % p == ((0 - k) * AtZero(p, s - {k}, g)) % p
  {
    var rest := s - {k};
    var fs, gs := Terms(p, s, f), Terms(p, rest, g);
    SumSplit(s, fs, k);
    VanishesAt(f(k), g(k), Basis(p, s, k));
    forall x | x in rest
      ensures fs(x) % p == Scaled(0 - k, gs)(x) % p
    {
      DropTerms(p, s, k, f, g, x);
    }
    SumCong(p, rest, fs, Scaled(0 - k, gs));
    SumScaled(rest, gs, 0 - k);
  }

  lemma {:induction false} VanishesAt(f: int, g: int, b: int)
    requires f == 0 * g
    ensures f * b == 0
  {
  }

  lemma {:induction false} SumScaled(s: set<nat>, f: nat -> int, a: int)
    ensures Sum(s, Scaled(a, f)) == a * Sum(s, f)
  {
    SumLinear(s, f, f, Scaled(a, f), a, 0);
  }

  ghost function Const(c: int): nat -> int
  {
    (x: nat) => c
  }

  ghost function Minus(k: nat): nat -> int
  {
    (x: nat) => x - k
  }

  ghost function Poly(cs: seq<int>): nat -> int
  {
    (x: nat) => Eval(cs, x)
  }

  /** Interpolation is linear in the values. */
  lemma {:induction false} AtZeroLinear(p: int, s: set<nat>, f: nat -> int, g: nat -> int, h: nat -> int, a: int)
    requires forall x :: x in s ==> h(x) == f(x) + a * g(x)
    ensures AtZero(p, s, h) == AtZero(p, s, f) + a * AtZero(p, s, g)
  {
    var hs, fs, gs := Terms(p, s, h), Terms(p, s, f), Terms(p, s, g);
    forall x | x in s
      ensures hs(x) == 1 * fs(x) + a * gs(x)
    {
      TermLinear(f(x), g(x), h(x), a, Basis(p, s, x));
    }
    SumLinear(s, fs, gs, hs, 1, a);
  }

  lemma {:induction false} TermLinear(f: int, g: int, h: int, a: int, b: int)
    requires h == f + a * g
    ensures h * b == f * b + a * (g * b)
  {
    assert (f + a * g) * b == f * b + (a * g) * b;
  }

  lemma {:induction false} SeparatedSubset(p: int, s: set<nat>, k: nat)
    requires p > 0 && Separated(p, s)
    ensures Separated(p, s - {k})
  {
  }

  /** The factor `x - k` alone interpolates to `-k`. */
  lemma {:induction false} MinusAtZero(p: int, s: set<nat>, k: nat)
    requires IsPrime(p) && Separated(p, s) && k in s
    requires AtZero(p, s - {k}, Const(1)) % p == 1
    ensures AtZero(p, s, Minus(k)) % p == (0 - k) % p
  {
    DropPoint(p, s, k, Minus(k), Const(1));
    DivModUnique(1, p, 0, 1);
    var one := AtZero(p, s - {k}, Const(1));
    MulCong(one, 1, 0 - k, p);
    assert one * (0 - k) == (0 - k) * one;
  }

  lemma {:induction false} OnePoint(p: int, u: nat)
    ensures AtZero(p, {u}, Const(1)) == 1
  {
    var terms := Terms(p, {u}, Const(1));
    SumSplit({u}, terms, u);
    assert {u} - {u} == {};
    assert Basis(p, {u}, u) == 1;
    assert terms(u) == 1 * 1;
  }

  lemma {:induction false} SolveForOnes(p: int, d: int, u: int, v: int, a: int, b: int, ones: int)
    requires IsPrime(p) && d == v - u && d % p != 0
    requires a == b + d * ones && a % p == (0 - u) % p && b % p == (0 - v) % p
    ensures ones % p == 1
  {
    AddCong(a, 0 - u, b, 0 - v, p);
    assert (0 - u) - (0 - v) == d;
    CancelFactor(p, d, ones, 1);
    DivModUnique(1, p, 0, 1);
  }

  lemma {:induction false} Another(s: set<nat>, u: nat) returns (v: nat)
    requires u in s && s != {u}
    ensures v in s && v != u
  {
    v :| v in s && v != u;
  }

  /** The basis coefficients at zero sum to one. */
  lemma {:induction false} BasisSumsToOne(p: int, s: set<nat>)
    requires IsPrime(p) && Separated(p, s) && s != {}
    ensures AtZero(p, s, Const(1)) % p == 1
    decreases s
  {
    var u :| u in s;
    if s == {u} {
      OnePoint(p, u);
      DivModUnique(1, p, 0, 1);
    } else {
      var v := Another(s, u);
      assert v in s - {u} && u in s - {v};
      SeparatedSubset(p, s, u);
      SeparatedSubset(p, s, v);
      BasisSumsToOne(p, s - {u});
      BasisSumsToOne(p, s - {v});
      TwoPoints(p, s, u, v);
    }
  }

  lemma {:induction false} TwoPoints(p: int, s: set<nat>, u: nat, v: nat)
    requires IsPrime(p) && Separated(p, s) && u in s && v in s && u != v
    requires AtZero(p, s - {u}, Const(1)) % p == 1 && AtZero(p, s - {v}, Const(1)) % p == 1
    ensures AtZero(p, s, Const(1)) % p == 1
  {
    var a, b, ones := AtZero(p, s, Minus(u)), AtZero(p, s, Minus(v)), AtZero(p, s, Const(1));
    assert a % p == (0 - u) % p by {
      MinusAtZero(p, s, u);
    }
    assert b % p == (0 - v) % p by {
      MinusAtZero(p, s, v);
    }
    assert a == b + (v - u) * ones by {
      MinusDiffer(p, s, u, v);
    }
    SolveForOnes(p, v - u, u, v, a, b, ones);
  }

  lemma {:induction false} MinusDiffer(p: int, s: set<nat>, u: nat, v: nat)
    ensures AtZero(p, s, Minus(u)) == AtZero(p, s, Minus(v)) + (v - u) * AtZero(p, s, Const(1))
  {
    AtZeroLinear(p, s, Minus(v), Const(1), Minus(u), v - u);
  }

  ghost function Shifted(cs: seq<int>, c: int): nat -> int
  {
    (x: nat) => Eval(cs, x) - c
  }

  lemma {:induction false} ShiftedAtZero(p: int, s: set<nat>, cs: seq<int>, k: nat)
    requires IsPrime(p) && Separated(p, s) && k in s
    ensures AtZero(p, s, Shifted(cs, Eval(cs, k))) % p == ((0 - k) * AtZero(p, s - {k}, Poly(Quotient(cs, k)))) % p
  {
    var q := Quotient(cs, k);
    forall x | x in s
      ensures Shifted(cs, Eval(cs, k))(x) == (x - k) * Poly(q)(x)
    {
      Division(cs, k, x);
    }
    DropPoint(p, s, k, Shifted(cs, Eval(cs, k)), Poly(q));
  }

  lemma {:induction false} NoCoefficients(p: int, s: set<nat>)
    ensures AtZero(p, s, Poly([])) == 0
  {
    AtZeroLinear(p, s, Poly([]), Poly([]), Poly([]), 1);
  }

  /**
   Lagrange interpolation at zero recovers the constant term of every polynomial
   with at most as many coefficients as there are points.
   */
  lemma {:induction false} InterpolatesConstantTerm(p: int, s: set<nat>, cs: seq<int>)
    requires IsPrime(p) && Separated(p, s) && |cs| <= |s|
    ensures AtZero(p, s, Poly(cs)) % p == Eval(cs, 0) % p
    decreases |cs|
  {
    if cs == [] {
      NoCoefficients(p, s);
    } else {
      assert |s| > 0;
      var k :| k in s;
      var c, q := Eval(cs, k), Quotient(cs, k);
      SeparatedSubset(p, s, k);
      InterpolatesConstantTerm(p, s - {k}, q);
      ShiftedAtZero(p, s, cs, k);
      BasisSumsToOne(p, s);
      ShiftBack(p, s, cs, c);
      DivisionAtZero(cs, k);
      Assemble(p, k, c, AtZero(p, s - {k}, Poly(q)), Eval(q, 0), Eval(cs, 0),
               AtZero(p, s, Shifted(cs, c)), AtZero(p, s, Const(1)), AtZero(p, s, Poly(cs)));
    }
  }

  lemma {:induction false} DivisionAtZero(cs: seq<int>, k: int)
    ensures Eval(cs, 0) == Eval(cs, k) - k * Eval(Quotient(cs, k), 0)
  {
    Division(cs, k, 0);
    assert (0 - k) * Eval(Quotient(cs, k), 0) == -(k * Eval(Quotient(cs, k), 0));
  }

  lemma {:induction false} ShiftBack(p: int, s: set<nat>, cs: seq<int>, c: int)
    ensures AtZero(p, s, Poly(cs)) == AtZero(p, s, Shifted(cs, c)) + c * AtZero(p, s, Const(1))
  {
    AtZeroLinear(p, s, Shifted(cs, c), Const(1), Poly(cs), c);
  }

  lemma {:induction false} Assemble(p: int, k: int, c: int, rest: int, q: int, e: int,
                                     shifted: int, ones: int, whole: int)
    requires p > 1 && rest % p == q % p && shifted % p == ((0 - k) * rest) % p && ones % p == 1
    requires e == c - k * q && whole == shifted + c * ones
    ensures whole % p == e % p
  {
    MulCong(rest, q, 0 - k, p);
    assert rest * (0 - k) == (0 - k) * rest && q * (0 - k) == (0 - k) * q;
    DivModUnique(1, p, 0, 1);
    MulCong(ones, 1, c, p);
    assert ones * c == c * ones;
    AddCong(shifted, (0 - k) * q, c * ones, c, p);
  }
}
