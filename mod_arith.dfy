/**
 * Facts about Euclidean `/` and `%` (Dafny's, which agree with the
 * unsigned arithmetic of the modelled code on non-negative operands)
 * used to reason about residues.
 */
module ModArith {

  /** A positive multiple of `p` is at least `p`. */
  lemma MulAtLeast(k: int, p: int)
    requires k >= 1 && p > 0
    ensures k * p >= p
  {
    var j := k - 1;
    assert k * p == j * p + p;
    assert j * p >= 0;
  }

  /** Division with remainder. */
  lemma DivMod(n: int, p: int)
    requires p > 0
    ensures n == (n / p) * p + n % p
  {
  }

  /** Regrouping a product of three factors. */
  lemma MulRegroup(a: int, b: int, c: int)
    ensures (a * b) * c == (a * c) * b
    ensures (a * b) * c == a * (b * c)
  {
  }

  lemma MulSubDistrib(a: int, b: int, c: int)
    ensures (a - b) * c == a * c - b * c
  {
  }

  /** Quotient and remainder are unique. */
  lemma ModUnique(n: int, p: int, q: int, r: int)
    requires p > 0 && n == q * p + r && 0 <= r < p
    ensures n / p == q && n % p == r
  {
    var q0, r0 := n / p, n % p;
    assert n == q0 * p + r0;
    assert q * p - q0 * p == r0 - r;
    assert (q - q0) * p == q * p - q0 * p;
    if q > q0 {
      MulAtLeast(q - q0, p);
    } else if q < q0 {
      MulAtLeast(q0 - q, p);
    }
  }

  /** Adding a multiple of `p` does not change the residue. */
  lemma ModAddMultiple(x: int, k: int, p: int)
    requires p > 0
    ensures (x + k * p) % p == x % p
  {
    ModUnique(x + k * p, p, x / p + k, x % p);
  }

  lemma ModAddRight(x: int, y: int, p: int)
    requires p > 0
    ensures (x + y % p) % p == (x + y) % p
  {
    ModAddMultiple(x + y % p, y / p, p);
  }

  lemma ModAddLeft(x: int, y: int, p: int)
    requires p > 0
    ensures (x % p + y) % p == (x + y) % p
  {
    ModAddRight(y, x, p);
  }

  lemma ModSubRight(x: int, y: int, p: int)
    requires p > 0
    ensures (x - y % p) % p == (x - y) % p
  {
    ModAddMultiple(x - y, y / p, p);
  }

  lemma ModSubLeft(x: int, y: int, p: int)
    requires p > 0
    ensures (x % p - y) % p == (x - y) % p
  {
    ModAddMultiple(x % p - y, x / p, p);
  }

  lemma ModMulRight(x: int, y: int, p: int)
    requires p > 0
    ensures (x * (y % p)) % p == (x * y) % p
  {
    var k := y / p;
    assert x * y == x * (y % p) + (x * k) * p by {
      assert y == k * p + y % p;
    }
    ModAddMultiple(x * (y % p), x * k, p);
  }

  lemma ModMulLeft(x: int, y: int, p: int)
    requires p > 0
    ensures ((x % p) * y) % p == (x * y) % p
  {
    ModMulRight(y, x, p);
  }

  /** A value already in [0, p) is its own residue. */
  lemma ModSmall(x: int, p: int)
    requires 0 <= x < p
    ensures x % p == x
  {
    ModUnique(x, p, 0, x);
  }
}
