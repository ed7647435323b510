/** Facts about integer division, remainder and products that the verifier does not
    find unaided; the byte encoding and the wrapping counter rest on them. */
module Arithmetic {

  lemma DivBound(n: nat, p: nat)
    requires p >= 1
    requires n < 256 * p
    ensures n / 256 < p
  {
  }

  lemma MulAtLeast(d: nat, k: int)
    requires k >= 1
    ensures d * k >= d
  {
    var j: nat := k - 1;
    assert d * k == d * j + d;
  }

  lemma DivUnique(n: int, d: nat, q: int, r: int)
    requires d >= 1
    requires n == d * q + r && 0 <= r < d
    ensures n / d == q
    ensures n % d == r
  {
    var q0 := n / d;
    var r0 := n % d;
    assert n == d * q0 + r0;
    assert d * (q - q0) == r0 - r by {
      assert d * (q - q0) == d * q - d * q0;
    }
    if q > q0 {
      MulAtLeast(d, q - q0);
    } else if q < q0 {
      MulAtLeast(d, q0 - q);
    }
  }

  lemma MulDistrib(a: int, b: int, q: int, r: int)
    ensures a * (b * q + r) == (a * b) * q + a * r
  {
  }

  lemma MulMonotone(a: nat, x: nat, y: nat)
    requires x <= y
    ensures a * x <= a * y
  {
    var d: nat := y - x;
    assert a * y == a * x + a * d;
  }

  lemma DivDiv(n: nat, a: nat, b: nat)
    requires a >= 1 && b >= 1
    ensures (n / a) / b == n / (a * b)
  {
    var q := n / a;
    var r := n % a;
    var q2 := q / b;
    var r2 := q % b;
    MulDistrib(a, b, q2, r2);
    assert n == (a * b) * q2 + (a * r2 + r);
    MulMonotone(a, 0, r2);
    MulMonotone(a, r2, b - 1);
    MulDistrib(a, 1, b, -1);
    DivUnique(n, a * b, q2, a * r2 + r);
  }

  lemma ModSucc(x: nat, m: nat)
    requires m >= 1
    ensures (x % m + 1) % m == (x + 1) % m
  {
    var q := x / m;
    var r := x % m;
    assert x == m * q + r;
    if r + 1 < m {
      DivUnique(r + 1, m, 0, r + 1);
      DivUnique(x + 1, m, q, r + 1);
    } else {
      DivUnique(r + 1, m, 1, 0);
      DivUnique(x + 1, m, q + 1, 0);
    }
  }

  lemma ModAddMultiple(c: nat, k: nat, m: nat)
    requires m >= 1 && c < m && k % m == 0
    ensures (c + k) % m == c
  {
    var q := k / m;
    assert k == m * q;
    DivUnique(c + k, m, q, c);
  }

  lemma ModAddNonMultiple(c: nat, k: nat, m: nat)
    requires m >= 1 && c < m && k % m != 0
    ensures (c + k) % m != c
  {
    var q := k / m;
    var r := k % m;
    assert k == m * q + r;
    if c + r < m {
      DivUnique(c + k, m, q, c + r);
    } else {
      DivUnique(c + k, m, q + 1, c + r - m);
    }
  }
}
