/** Residue arithmetic modulo an arbitrary positive number. */
module ModArith {

  lemma {:induction false} MulGrows(k: int, n: int)
    requires k >= 1 && n >= 0
    ensures k * n >= n
  {
    assert k * n == (k - 1) * n + n;
    assert (k - 1) * n >= 0;
  }

  lemma {:induction false} SmallMultiple(k: int, n: int)
    requires n > 0 && -n < k * n < n
    ensures k == 0
  {
    if k >= 1 {
      MulGrows(k, n);
    } else if k <= -1 {
      MulGrows(-k, n);
    }
  }

  /** Quotient and remainder are determined by the usual equation. */
  lemma {:induction false} DivModUnique(x: int, n: int, q: int, r: int)
    requires n > 0 && 0 <= r < n && x == q * n + r
    ensures x / n == q && x % n == r
  {
    var q', r' := x / n, x % n;
    assert x == q' * n + r';
    assert (q - q') * n == q * n - q' * n;
    SmallMultiple(q - q', n);
  }

  /** Adding a multiple of the modulus changes nothing. */
  lemma {:induction false} AddMultiple(x: int, k: int, n: int)
    requires n > 0
    ensures (x + k * n) % n == x % n
  {
    var q, r := x / n, x % n;
    assert x == q * n + r;
    assert x + k * n == (q + k) * n + r by {
      assert (q + k) * n == q * n + k * n;
    }
    DivModUnique(x + k * n, n, q + k, r);
  }

  lemma {:induction false} SameResidue(x: int, y: int, k: int, n: int)
    requires n > 0 && x == y + k * n
    ensures x % n == y % n
  {
    AddMultiple(y, k, n);
  }

  lemma {:induction false} AddCong(a: int, a': int, b: int, b': int, n: int)
    requires n > 0 && a % n == a' % n && b % n == b' % n
    ensures (a + b) % n == (a' + b') % n && (a - b) % n == (a' - b') % n
  {
    var k, l := a / n - a' / n, b / n - b' / n;
    assert a == a' + k * n by {
      assert k * n == a / n * n - a' / n * n;
    }
    assert b == b' + l * n by {
      assert l * n == b / n * n - b' / n * n;
    }
    assert (k + l) * n == k * n + l * n && (k - l) * n == k * n - l * n;
    SameResidue(a + b, a' + b', k + l, n);
    SameResidue(a - b, a' - b', k - l, n);
  }

  lemma {:induction false} MulCong(a: int, a': int, b: int, n: int)
    requires n > 0 && a % n == a' % n
    ensures (a * b) % n == (a' * b) % n
  {
    var k := a / n - a' / n;
    assert a == a' + k * n by {
      assert k * n == a / n * n - a' / n * n;
    }
    assert a * b == a' * b + (k * b) * n by {
      assert (a' + k * n) * b == a' * b + (k * n) * b;
      assert (k * n) * b == (k * b) * n;
    }
    SameResidue(a * b, a' * b, k * b, n);
  }

  lemma {:induction false} ModIdempotent(a: int, n: int)
    requires n > 0
    ensures (a % n) % n == a % n
  {
    DivModUnique(a % n, n, 0, a % n);
  }

  lemma {:induction false} ModShift(x: int, d: int, n: int)
    requires 0 <= d < n
    ensures (x + d) % n == if x % n + d < n then x % n + d else x % n + d - n
  {
    var q, r := x / n, x % n;
    assert x == q * n + r;
    if r + d < n {
      DivModUnique(x + d, n, q, r + d);
    } else {
      assert (q + 1) * n == q * n + n;
      DivModUnique(x + d, n, q + 1, r + d - n);
    }
  }
}
