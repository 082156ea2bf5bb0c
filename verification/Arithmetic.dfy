/** Facts about products, quotients and remainders that the solver does not find alone. */
module Arithmetic {
  lemma MulAssociative(x: nat, y: nat, z: nat)
    ensures x * (y * z) == (x * y) * z
  {
  }

  lemma RemainderIsUnique(n: nat, q: int, r: nat)
    requires r < n
    ensures (n * q + r) % n == r
  {
    var x := n * q + r;
    var k := q - x / n;
    assert n * k == n * q - n * (x / n);
    assert n * k == x % n - r;
    if k >= 1 {
      MultipleAtLeast(n, k);
    } else if k <= -1 {
      assert n * -k == -(n * k);
      MultipleAtLeast(n, -k);
    }
  }

  lemma SmallRemainder(x: nat, n: nat)
    requires x < n
    ensures x % n == x
  {
    RemainderIsUnique(n, 0, x);
  }

  lemma MultipleAtLeast(n: nat, k: nat)
    requires k > 0
    ensures n * k >= n
  {
    assert n * k == n + n * (k - 1);
  }

  lemma DivDiv(x: nat, d: nat)
    requires d > 0
    ensures x / 0x100 / d == x / (0x100 * d)
  {
    var q, r := x / 0x100, x % 0x100;
    var t, s := q / d, q % d;
    var rem := 0x100 * s + r;
    assert x == (0x100 * d) * t + rem by {
      assert q == d * t + s;
      assert 0x100 * (d * t) == (0x100 * d) * t;
    }
    assert rem < 0x100 * d;
    QuotientIsUnique(x, 0x100 * d, t, rem);
  }

  lemma QuotientIsUnique(x: nat, d: nat, t: nat, r: nat)
    requires d > 0 && r < d && x == d * t + r
    ensures x / d == t
  {
    var t' := x / d;
    assert d * (t' - t) == d * t' - d * t;
    if t < t' {
      MultipleAtLeast(d, t' - t);
    } else if t' < t {
      assert d * (t - t') == -(d * (t' - t));
      MultipleAtLeast(d, t - t');
    }
  }

  lemma DigitAndRest(digit: nat, rest: nat)
    requires digit < 0x100
    ensures (digit + 0x100 * rest) % 0x100 == digit
    ensures (digit + 0x100 * rest) / 0x100 == rest
  {
  }

  lemma SumModFour(a: nat, b: nat)
    ensures (a + b) % 4 == (a % 4 + b % 4) % 4
  {
    var low := a % 4 + b % 4;
    assert a + b == 4 * (a / 4 + b / 4 + low / 4) + low % 4;
    RemainderIsUnique(4, a / 4 + b / 4 + low / 4, low % 4);
  }

  /** A thousand is a multiple of four. */
  lemma ThousandModFour(x: nat)
    ensures x % 4 == x % 1000 % 4
  {
    var low := x % 1000;
    assert x == 4 * (250 * (x / 1000) + low / 4) + low % 4;
    RemainderIsUnique(4, 250 * (x / 1000) + low / 4, low % 4);
  }

  lemma SumAligned(a: nat, b: nat)
    requires a % 4 == 0 && b % 4 == 0
    ensures (a + b) % 4 == 0
  {
  }
}
