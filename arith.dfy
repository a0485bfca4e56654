/** Facts about Euclidean division used by the byte-order proofs. */
module Arith {

  /** A positive multiple of `d` is at least `d`. */
  lemma MulAtLeast(e: int, d: int)
    requires e >= 1 && d >= 0
    ensures e * d >= d
  {
    assert e * d == (e - 1) * d + d;
    assert (e - 1) * d >= 0;
  }

  /** Quotient and remainder are determined by any decomposition. */
  lemma DivUnique(n: int, d: int, x: int, y: int)
    requires d > 0 && 0 <= y < d && n == x * d + y
    ensures n / d == x && n % d == y
  {
    var q, r := n / d, n % d;
    assert n == q * d + r;
    assert (x - q) * d == r - y;
    if x > q {
      MulAtLeast(x - q, d);
    } else if x < q {
      MulAtLeast(q - x, d);
    }
  }

  /** Dividing twice is dividing by the product. */
  lemma DivDiv(n: nat, a: nat, b: nat)
    requires a > 0 && b > 0
    ensures n / a / b == n / (a * b)
  {
    var q, r := n / (a * b), n % (a * b);
    assert n == q * (a * b) + r;
    var s, t := r / a, r % a;
    assert r == s * a + t;
    assert q * (a * b) == (q * b) * a;
    assert n == (q * b + s) * a + t;
    DivUnique(n, a, q * b + s, t);
    assert s < b by {
      if s >= b {
        MulAtLeast(s - b + 1, a);
      }
    }
    DivUnique(n / a, b, q, s);
  }

  /** The remainder modulo `256 * p` splits into the low byte and the rest. */
  lemma ModSplit(n: nat, p: nat)
    requires p > 0
    ensures n % (256 * p) == n % 256 + 256 * ((n / 256) % p)
  {
    var q, r := (n / 256) / p, (n / 256) % p;
    assert n / 256 == q * p + r;
    assert n == q * (256 * p) + (256 * r + n % 256);
    DivUnique(n, 256 * p, q, 256 * r + n % 256);
  }

  /** Multiplying a sum by 256 moves the factor into the second product. */
  lemma MulAddShift(a: int, x: int, y: int)
    ensures 256 * (a + x * y) == 256 * a + x * (256 * y)
  {
  }
}
