/** Integer facts the index arithmetic of the structured grid relies on.
    Python's `//` and `%` with a positive divisor agree with Dafny's `/` and `%`. */
module IndexArithmetic {

  /** Division with a positive divisor is determined by any quotient/remainder pair. */
  lemma DivModUnique(b: int, n: int, q: int, r: int)
    requires n > 0 && 0 <= r < n && b == q * n + r
    ensures b / n == q && b % n == r
  {
    var q', r' := b / n, b % n;
    assert b == q' * n + r';
    if q' < q {
      MulLeq(q' + 1, q, n);
    } else if q' > q {
      MulLeq(q + 1, q', n);
    }
  }

  lemma MulLeq(a: int, b: int, n: int)
    requires a <= b && n >= 0
    ensures a * n <= b * n
  {
    assert b * n - a * n == (b - a) * n;
  }

  lemma MulSucc(r: int, c: int)
    ensures r * (c + 1) == r * c + r
  {
  }

  lemma MulAssoc(a: int, b: int, c: int)
    ensures a * (b * c) == a * b * c
  {
  }

  /** `i // r == c` exactly when `i` lies in the r-wide window starting at `r * c`. */
  lemma DivWindow(i: int, r: int, c: int)
    requires r > 0
    ensures i / r == c <==> r * c <= i < r * c + r
  {
    if r * c <= i < r * c + r {
      DivModUnique(i, r, c, i - r * c);
    }
    if i / r == c {
      assert i == (i / r) * r + i % r;
    }
  }

  lemma DivMonotone(a: int, b: int, r: int)
    requires r > 0 && a <= b
    ensures a / r <= b / r
  {
    if a / r > b / r {
      assert a == (a / r) * r + a % r;
      assert b == (b / r) * r + b % r;
      MulLeq(b / r + 1, a / r, r);
    }
  }

  /** A non-negative b below m * d has a quotient by d below m. */
  lemma QuotientBelow(b: int, d: int, m: int)
    requires d > 0 && 0 <= b < m * d
    ensures 0 <= b / d < m
  {
    var q := b / d;
    assert b == q * d + b % d;
    if q >= m {
      MulLeq(m, q, d);
    }
    if q < 0 {
      MulLeq(q, -1, d);
    }
  }

  /** Splitting b by d and then its quotient by e, and putting it back
      together with the lowest part first. */
  lemma Recompose(b: int, d: int, e: int)
    requires d > 0 && e > 0
    ensures b == (b / d / e) * d * e + (b % d + (b / d % e) * d)
  {
    var q, r := b / d, b % d;
    var k, j := q / e, q % e;
    assert b == q * d + r;
    assert q == k * e + j;
    assert q * d == (k * e) * d + j * d;
    MulAssoc(k, e, d);
    MulAssoc(k, d, e);
  }

  /** A product of three non-negative counts is positive only when each is. */
  lemma FactorsPositive(a: int, b: int, c: int)
    requires a >= 0 && b >= 0 && c >= 0 && a * b * c > 0
    ensures a > 0 && b > 0 && c > 0
  {
    ZeroFactor(a, b, c);
  }

  lemma ZeroFactor(a: int, b: int, c: int)
    ensures a == 0 || b == 0 || c == 0 ==> a * b * c == 0
  {
    if a == 0 || b == 0 {
      assert a * b == 0;
    }
  }
}
