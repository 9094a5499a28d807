/** Facts about products, quotients and remainders that several modules use. */
module Arithmetic {
  function Pow2(n: nat): (r: nat)
    ensures r >= 1
  {
    if n == 0 then 1 else 2 * Pow2(n - 1)
  }

  lemma DivMul(q: int, d: int)
    requires d > 0
    ensures (q * d) / d == q && (q * d) % d == 0
  {
    var x := q * d;
    assert x == (x / d) * d + x % d;
    MulCancel(q, x / d, x % d, d);
  }

  lemma MulCancel(q: int, q': int, r: int, d: int)
    requires d > 0 && 0 <= r < d && q * d == q' * d + r
    ensures q == q' && r == 0
  {
    assert (q - q') * d == r;
    if q - q' >= 1 {
      MulMonotone(1, q - q', d);
    } else if q - q' <= -1 {
      MulMonotone(q - q', -1, d);
    }
  }

  lemma DivExact(a: int, q: int, d: int)
    requires d > 0 && a == q * d
    ensures a / d == q && a % d == 0
  {
    DivMul(q, d);
  }

  /** An aligned offset is a multiple of the block size, and conversely. */
  lemma AlignedIsMultiple(a: nat, d: nat) returns (q: nat)
    requires d > 0 && a % d == 0
    ensures q == a / d && a == q * d
  {
    q := a / d;
    assert a == (a / d) * d + a % d;
  }

  lemma MulMonotone(a: int, b: int, d: int)
    requires a <= b && d >= 0
    ensures a * d <= b * d
  {
  }

  /** Multiples of `s` that are, or are not, multiples of `2 * s`. */
  lemma EvenOrOdd(a: nat, s: nat)
    requires s > 0 && a % s == 0
    ensures a % (2 * s) == 0 <==> (a / s) % 2 == 0
    ensures a % (2 * s) != 0 ==> a >= s && (a - s) % (2 * s) == 0
    ensures a % (2 * s) == 0 ==> (a + s) % (2 * s) != 0 && (a + s) % s == 0 && (a + s) / s == a / s + 1
  {
    var q := AlignedIsMultiple(a, s);
    DivExact(a + s, q + 1, s) by { Distribute(q, 1, s); }
    var h := q / 2;
    HalfMultiple(h, s);
    if q == 2 * h + 1 {
      Distribute(2 * h, 1, s);
      MulMonotone(0, 2 * h, s);
    }
  }

  lemma Distribute(a: int, b: int, d: int)
    ensures (a + b) * d == a * d + b * d
  {
  }

  lemma HalfMultiple(h: nat, s: nat)
    requires s > 0
    ensures ((2 * h) * s) % (2 * s) == 0
    ensures ((2 * h) * s + s) % (2 * s) != 0
  {
    var d := 2 * s;
    var a := (2 * h) * s;
    assert a == h * d;
    DivExact(a, h, d);
    if (a + s) % d == 0 {
      var r := AlignedIsMultiple(a + s, d);
      MulCancel(r, h, s, d);
    }
  }

  /** Between an aligned offset and a larger aligned one there is room for a whole block. */
  lemma AlignedRoom(a: nat, b: nat, d: nat)
    requires d > 0 && a % d == 0 && b % d == 0 && a < b
    ensures a + d <= b
  {
    var p := AlignedIsMultiple(a, d);
    var q := AlignedIsMultiple(b, d);
    MulStrictlyMonotone(p, q, d);
    MulMonotone(p + 1, q, d);
  }

  lemma MulStrictlyMonotone(a: int, b: int, d: int)
    requires a * d < b * d && d >= 0
    ensures a < b
  {
    if a >= b { MulMonotone(b, a, d); }
  }

  lemma MultipleModulo(a: nat, m: nat, d: nat)
    requires d > 0 && m > 0 && m * d > 0 && a % (m * d) == 0
    ensures a % d == 0
  {
    var q := AlignedIsMultiple(a, m * d);
    assert a == (q * m) * d by { assert q * (m * d) == (q * m) * d; }
    DivMul(q * m, d);
  }

  lemma LowBits(bit: nat, p: nat)
    requires p <= bit < 2 * p
    ensures bit % p == bit - p
  {
    var x, y := bit / p, bit % p;
    assert bit == x * p + y;
    if x >= 2 {
      MulMonotone(2, x, p);
    } else if x <= 0 {
      MulMonotone(x, 0, p);
    }
  }

  lemma HalfQuotient(a: nat, s: nat)
    requires s > 0 && a % (2 * s) == 0
    ensures a / s == 2 * (a / (2 * s))
  {
    var q := AlignedIsMultiple(a, 2 * s);
    assert a == (2 * q) * s;
    DivExact(a, 2 * q, s);
  }

  lemma SumAligned(a: nat, b: nat, d: nat)
    requires d > 0 && a % d == 0 && b % d == 0
    ensures (a + b) % d == 0
  {
    var p := AlignedIsMultiple(a, d);
    var q := AlignedIsMultiple(b, d);
    DivExact(a + b, p + q, d);
  }

  lemma QuotientTimes(a: nat, d: nat)
    requires d > 0
    ensures (a / d) * d <= a
  {
    var q, r := a / d, a % d;
    assert a == q * d + r;
  }
}
