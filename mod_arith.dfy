/**
 * Arithmetic modulo the group order. The group operations of the model reduce
 * every discrete logarithm with Dafny's `%`, which is Euclidean (never negative);
 * the lemmas here let a chain of reductions be collapsed into one.
 */
module ModArith {

  /** `d` is a positive divisor of `n`. */
  predicate Divides(d: int, n: int) {
    d > 0 && n % d == 0
  }

  /** `p` is a prime number. */
  ghost predicate IsPrime(p: int) {
    p > 1 && forall d :: 1 < d < p ==> !Divides(d, p)
  }

  /** Quotient and remainder are unique. */
  lemma ModUnique(x: int, q: int, k: int, r: int)
    requires q > 0 && 0 <= r < q && x == q * k + r
    ensures x % q == r && x / q == k
  {
    var d := k - x / q;
    assert q * d == x % q - r;
    assert d >= 1 ==> q * d == q * (d - 1) + q && q * (d - 1) >= 0;
    assert d <= -1 ==> q * -d == q * (-d - 1) + q && q * (-d - 1) >= 0;
  }

  /** Adding a multiple of `q` does not change the residue. */
  lemma ModShift(y: int, q: int, k: int)
    requires q > 0
    ensures (y + q * k) % q == y % q
  {
    assert y + q * k == q * (y / q + k) + y % q;
    ModUnique(y + q * k, q, y / q + k, y % q);
  }

  /** Reducing the right summand first does not change the residue of a sum. */
  lemma ModAddRight(a: int, b: int, q: int)
    requires q > 0
    ensures (a + b % q) % q == (a + b) % q
  {
    assert a + b % q == (a + b) + q * (-(b / q));
    ModShift(a + b, q, -(b / q));
  }

  /** Reducing the left summand first does not change the residue of a sum. */
  lemma ModAddLeft(a: int, b: int, q: int)
    requires q > 0
    ensures (a % q + b) % q == (a + b) % q
  {
    ModAddRight(b, a, q);
  }

  /** Reducing the right factor first does not change the residue of a product. */
  lemma ModMulRight(a: int, b: int, q: int)
    requires q > 0
    ensures (a * (b % q)) % q == (a * b) % q
  {
    assert b % q == b - q * (b / q);
    assert a * (b % q) == a * b + q * (-(a * (b / q)));
    ModShift(a * b, q, -(a * (b / q)));
  }

  /** Reducing the left factor first does not change the residue of a product. */
  lemma ModMulLeft(a: int, b: int, q: int)
    requires q > 0
    ensures ((a % q) * b) % q == (a * b) % q
  {
    ModMulRight(b, a, q);
    assert (a % q) * b == b * (a % q);
    assert a * b == b * a;
  }

  /** Two numbers have the same residue exactly when their difference is divisible by `q`. */
  lemma ModEqIffDiffZero(x: int, y: int, q: int)
    requires q > 0
    ensures x % q == y % q <==> (x - y) % q == 0
  {
    var d := x % q - y % q;
    assert x - y == d + q * (x / q - y / q);
    ModShift(d, q, x / q - y / q);
    if d >= 0 {
      ModUnique(d, q, 0, d);
    } else {
      ModUnique(d, q, -1, d + q);
    }
  }

  /**
   * If a prime `p` divides `x * y` for some `0 < x < p`, it divides `y`. By strong
   * induction on `x`: `p % x` is a smaller positive number whose product with `y`
   * is again divisible by `p`.
   */
  lemma {:induction false} PrimeDividesSmallProduct(p: int, x: int, y: int)
    requires IsPrime(p) && 0 < x < p && (x * y) % p == 0
    ensures y % p == 0
    decreases x
  {
    if x == 1 {
      assert x * y == y;
    } else {
      assert !Divides(x, p);
      var k, r := p / x, p % x;
      assert 0 < r < x;
      var m := (x * y) / p;
      assert x * y == p * m;
      calc {
        r * y;
        (p - x * k) * y;
        p * y - k * (x * y);
        p * y - k * (p * m);
        p * (y - k * m);
      }
      ModUnique(r * y, p, y - k * m, 0);
      PrimeDividesSmallProduct(p, r, y);
    }
  }

  /** Euclid's lemma: a prime dividing a product divides one of the factors. */
  lemma EuclidLemma(p: int, x: int, y: int)
    requires IsPrime(p) && (x * y) % p == 0
    ensures x % p == 0 || y % p == 0
  {
    if x % p != 0 {
      ModMulLeft(x, y, p);
      PrimeDividesSmallProduct(p, x % p, y);
    }
  }

  /** Multiplying by a factor the prime does not divide keeps distinct residues distinct. */
  lemma MulKeepsResiduesApart(p: int, b: int, x: int, y: int)
    requires IsPrime(p) && b % p != 0 && x % p != y % p
    ensures (b * x) % p != (b * y) % p
  {
    ModEqIffDiffZero(x, y, p);
    ModEqIffDiffZero(b * x, b * y, p);
    assert b * x - b * y == b * (x - y);
    if (b * (x - y)) % p == 0 {
      EuclidLemma(p, b, x - y);
    }
  }
}
