/** Facts about `%` with a variable divisor, used for masked bus addresses. */
module Modular {

  /** The quotient and remainder of a division are unique. */
  lemma {:induction false} ModUnique(x: int, q: int, r: int, n: int)
    requires 0 <= r < n
    requires x == q * n + r
    ensures x % n == r
  {
    var k := x / n - q;
    assert x == n * (x / n) + x % n;
    assert k * n == r - x % n;
    assert k != 0 ==> k * n >= n || k * n <= -n;
  }

  lemma {:induction false} DivUnique(x: int, q: int, r: int, n: int)
    requires 0 <= r < n
    requires x == q * n + r
    ensures x / n == q
  {
    ModUnique(x, q, r, n);
    var k := x / n - q;
    assert x == n * (x / n) + x % n;
    assert k * n == 0;
    assert k != 0 ==> k * n >= n || k * n <= -n;
  }

  lemma {:induction false} ModAddMultiple(x: int, k: int, n: int)
    requires 0 < n
    ensures (x + k * n) % n == x % n
  {
    assert x == (x / n) * n + x % n;
    assert x + k * n == (x / n + k) * n + x % n;
    ModUnique(x + k * n, x / n + k, x % n, n);
  }

  /** Reducing a summand first changes nothing. */
  lemma {:induction false} ModSum(a: int, b: int, n: int)
    requires 0 < n
    ensures (a % n + b) % n == (a + b) % n
  {
    assert a % n + b == a + b + (-(a / n)) * n;
    ModAddMultiple(a + b, -(a / n), n);
  }

  /** A 2^32 wrap in front of the bus mask is invisible when the mask divides 2^32. */
  lemma {:induction false} ModOfMod(x: int, big: int, n: int)
    requires 0 < n && 0 < big && big % n == 0
    ensures (x % big) % n == x % n
  {
    var k := big / n;
    assert big == k * n;
    assert x % big == x + (-(x / big) * k) * n;
    ModAddMultiple(x, -(x / big) * k, n);
  }

  /** Equal residues differ by a multiple. */
  lemma {:induction false} ModEqual(a: int, b: int, n: int)
    requires 0 < n
    ensures a % n == b % n <==> (a - b) % n == 0
  {
    var k := a / n - b / n;
    assert a - b == k * n + (a % n - b % n);
    if a % n == b % n {
      ModUnique(a - b, k, 0, n);
    } else if a % n > b % n {
      ModUnique(a - b, k, a % n - b % n, n);
    } else {
      assert a - b == (k - 1) * n + (n + a % n - b % n);
      ModUnique(a - b, k - 1, n + a % n - b % n, n);
    }
  }

  /** `c` lies at offset `(c - a) % n` from `a`, going up around the circle. */
  lemma {:induction false} OffsetOf(a: int, c: int, n: int)
    requires 0 <= c < n
    ensures (a + (c - a) % n) % n == c
  {
    ModSum(c - a, a, n);
    ModUnique(c, 0, c, n);
  }

  /** The cell `i` steps above `a` lies at offset `i`. */
  lemma {:induction false} CellOffset(a: int, i: int, n: int)
    requires 0 <= i < n
    ensures ((a + i) % n - a) % n == i
  {
    ModSum(a + i, -a, n);
    ModUnique(i, 0, i, n);
  }

  lemma {:induction false} DivMod(x: int, n: int)
    requires 0 < n
    ensures x == n * (x / n) + x % n
  {
  }

  /** The two low bytes. */
  lemma {:induction false} TwoBytes(x: int)
    ensures x % 256 + 256 * (x / 256 % 256) == x % 65536
  {
    var q := x / 256;
    DivMod(x, 256);
    DivMod(q, 256);
    ModUnique(x, q / 256, x % 256 + 256 * (q % 256), 65536);
  }

  lemma {:induction false} ModSmall(x: int, n: int)
    requires 0 <= x < n
    ensures x % n == x
  {
    ModUnique(x, 0, x, n);
  }
}
