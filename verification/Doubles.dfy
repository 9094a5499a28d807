/** Doubles as OSSL_PARAM_REAL holds them (crypto/params.c): the binary64 format of IEEE 754. */
module Doubles {
  import opened Arithmetic

  const SIGN: nat := 0x8000_0000_0000_0000
  const UNIT: nat := 0x10_0000_0000_0000
  const LIMIT: nat := 0x20_0000_0000_0000

  /** A finite number, or an infinity or NaN, which compare with no integer. */
  datatype Double = Finite(x: real) | NotFinite

  /** `m * 2^e` */
  function Scaled(m: nat, e: int): real {
    if e >= 0 then (m * Pow2(e)) as real else m as real / Pow2(-e) as real
  }

  function WithSign(negative: bool, x: real): real {
    if negative then -x else x
  }

  /** What 64 bits stand for: a sign, 11 bits of exponent, and 52 bits of fraction. */
  function FromBits(bits: nat): Double {
    var negative, exponent, fraction := bits >= SIGN, (bits / UNIT) % 2048, bits % UNIT;
    if exponent == 2047 then NotFinite
    else if exponent == 0 then Finite(WithSign(negative, Scaled(fraction, -1074)))
    else Finite(WithSign(negative, Scaled(UNIT + fraction, exponent - 1075)))
  }

  /** How far a number below 2^53 must be shifted for its top bit to be bit 52. */
  function Shift(m: nat): nat
    requires 0 < m < LIMIT
    decreases LIMIT - m
  {
    if m >= UNIT then 0 else Shift(2 * m) + 1
  }

  lemma {:induction false} ShiftFits(m: nat)
    requires 0 < m < LIMIT
    ensures UNIT <= m * Pow2(Shift(m)) < LIMIT
    decreases LIMIT - m
  {
    if m < UNIT {
      ShiftFits(2 * m);
      assert m * (2 * Pow2(Shift(2 * m))) == (2 * m) * Pow2(Shift(2 * m));
    }
  }

  lemma {:induction false} ShiftSmall(m: nat, k: nat)
    requires 0 < m < LIMIT && k <= 52 && m * Pow2(k) >= UNIT
    ensures Shift(m) <= k
    decreases k
  {
    if m < UNIT && k > 0 {
      assert m * (2 * Pow2(k - 1)) == (2 * m) * Pow2(k - 1);
      ShiftSmall(2 * m, k - 1);
    }
  }

  /** `(double)v` for the integers every one of which is a double. */
  function ToBits(v: int): (bits: nat)
    requires 0 - LIMIT < v < LIMIT
  {
    if v == 0 then 0
    else
      var m: nat := if v < 0 then -v else v;
      var k := Shift(m);
      ShiftFits(m);
      AtMost52(m);
      (if v < 0 then SIGN else 0) + (1075 - k) * UNIT + (m * Pow2(k) - UNIT)
  }

  lemma AtMost52(m: nat)
    requires 0 < m < LIMIT
    ensures Shift(m) <= 52
  {
    Pow2Of52();
    assert m * UNIT >= UNIT;
    ShiftSmall(m, 52);
  }

  lemma Pow2Of52()
    ensures Pow2(52) == UNIT
  {
    assert Pow2(13) == 0x2000;
    Pow2Sum(13, 13);
    Pow2Sum(26, 26);
  }

  lemma {:induction false} Pow2Sum(a: nat, b: nat)
    ensures Pow2(a + b) == Pow2(a) * Pow2(b)
  {
    if a > 0 {
      Pow2Sum(a - 1, b);
      assert 2 * (Pow2(a - 1) * Pow2(b)) == (2 * Pow2(a - 1)) * Pow2(b);
    }
  }

  /** Converted to a double, such an integer stays the same number. */
  lemma ExactDouble(v: int)
    requires 0 - LIMIT < v < LIMIT
    ensures ToBits(v) < 2 * SIGN && FromBits(ToBits(v)) == Finite(v as real)
  {
    if v == 0 {
      assert Scaled(0, -1074) == 0.0;
    } else {
      var m: nat := if v < 0 then -v else v;
      var k := Shift(m);
      ShiftFits(m);
      AtMost52(m);
      var s := m * Pow2(k);
      var bits := ToBits(v);
      Fields(v < 0, 1075 - k, s - UNIT);
      ScaledBack(m, k);
    }
  }

  /** Zero becomes the zero without a sign. */
  lemma SignOfDouble(v: int)
    requires 0 - LIMIT < v < LIMIT
    ensures ToBits(v) >= SIGN <==> v < 0
  {
    if v != 0 {
      var m: nat := if v < 0 then -v else v;
      ShiftFits(m);
      AtMost52(m);
      Fields(v < 0, 1075 - Shift(m), m * Pow2(Shift(m)) - UNIT);
    }
  }

  lemma Fields(negative: bool, exponent: nat, fraction: nat)
    requires exponent < 2048 && fraction < UNIT
    ensures var bits := (if negative then SIGN else 0) + exponent * UNIT + fraction;
            bits < 2 * SIGN && (bits >= SIGN <==> negative)
            && (bits / UNIT) % 2048 == exponent && bits % UNIT == fraction
  {
  }

  lemma ScaledBack(m: nat, k: nat)
    ensures Scaled(m * Pow2(k), 0 - k) == m as real
  {
    var p := Pow2(k);
    if k > 0 {
      Cancel(m as real, p as real);
      assert (m * p) as real == m as real * p as real;
    } else {
      assert p == 1 && m * p * 1 == m;
    }
  }

  lemma Cancel(a: real, b: real)
    requires b > 0.0
    ensures (a * b) / b == a
  {
  }

  // ---------- All doubles ----------

  lemma ScaledOnce(m: nat, e: int)
    ensures Scaled(2 * m, e) == Scaled(m, e + 1)
  {
    if e >= 0 {
      assert (2 * m) * Pow2(e) == m * Pow2(e + 1);
    } else {
      var p := Pow2(-e - 1);
      assert Pow2(-e) == 2 * p;
      Halve(m as real, p as real);
    }
  }

  lemma Halve(a: real, p: real)
    requires p > 0.0
    ensures (2.0 * a) / (2.0 * p) == a / p
  {
  }

  lemma ScaledSum(m: nat, n: nat, e: int)
    ensures Scaled(m + n, e) == Scaled(m, e) + Scaled(n, e)
  {
    if e >= 0 {
      assert (m + n) * Pow2(e) == m * Pow2(e) + n * Pow2(e);
    } else {
      AddFractions(m as real, n as real, Pow2(-e) as real);
    }
  }

  lemma AddFractions(a: real, b: real, p: real)
    requires p > 0.0
    ensures (a + b) / p == a / p + b / p
  {
  }

  /** The exponent and the fraction of the bits of a double that is not negative. */
  lemma Parts(exponent: nat, fraction: nat)
    requires exponent < 2048 && fraction < UNIT
    ensures FromBits(exponent * UNIT + fraction) ==
            if exponent == 2047 then NotFinite
            else if exponent == 0 then Finite(Scaled(fraction, -1074))
            else Finite(Scaled(UNIT + fraction, exponent - 1075))
  {
    Fields(false, exponent, fraction);
    hide Scaled;
  }

  /** The doubles that are not negative, in the order of their bits: they start from 0, go up by
      2^-1074 twice 2^52 times, and then by twice as much for every further 2^52. */
  lemma NextUp(exponent: nat, fraction: nat)
    requires exponent < 2047 && fraction < UNIT && !(exponent == 2046 && fraction == UNIT - 1)
    ensures var bits := exponent * UNIT + fraction;
            && FromBits(bits).Finite? && FromBits(bits + 1).Finite?
            && FromBits(bits + 1).x == FromBits(bits).x + Scaled(1, (if exponent == 0 then 1 else exponent) - 1075)
    ensures FromBits(0) == Finite(0.0)
  {
    hide Scaled, FromBits;
    Parts(exponent, fraction);
    Parts(0, 0);
    assert Scaled(0, -1074) == 0.0 by { Nought(); }
    var e := (if exponent == 0 then 1 else exponent) - 1075;
    var m := if exponent == 0 then fraction else UNIT + fraction;
    ScaledSum(m, 1, e);
    if fraction < UNIT - 1 {
      Parts(exponent, fraction + 1);
    } else {
      Parts(exponent + 1, 0);
      assert (exponent + 1) * UNIT + 0 == exponent * UNIT + fraction + 1;
      if exponent > 0 {
        ScaledOnce(UNIT, e);
      }
    }
  }

  lemma Nought()
    ensures Scaled(0, -1074) == 0.0
  {
    NoughtOf(Pow2(1074) as real);
  }

  lemma NoughtOf(p: real)
    requires p > 0.0
    ensures 0.0 / p == 0.0
  {
  }

  /** The top bit is the sign; the largest exponent is for what is not finite. */
  lemma SignAndLimit(bits: nat)
    requires bits < SIGN
    ensures FromBits(SIGN + bits) == if FromBits(bits).Finite? then Finite(-FromBits(bits).x) else NotFinite
    ensures FromBits(bits).NotFinite? <==> bits >= 2047 * UNIT
  {
    var exponent, fraction := bits / UNIT, bits % UNIT;
    assert bits == exponent * UNIT + fraction;
    Fields(true, exponent, fraction);
    Parts(exponent, fraction);
    hide Scaled;
  }

  /** Instances: one half, one and a half, and minus one. */
  lemma SomeDoubles()
    ensures FromBits(0x3FE0_0000_0000_0000) == Finite(0.5) && FromBits(0x3FF8_0000_0000_0000) == Finite(1.5)
    ensures FromBits(0xBFF0_0000_0000_0000) == Finite(-1.0) && FromBits(0x7FF0_0000_0000_0000) == NotFinite
  {
    hide Scaled, FromBits;
    Parts(1022, 0);
    Parts(1023, UNIT / 2);
    Parts(1023, 0);
    SignAndLimit(0x3FF0_0000_0000_0000);
    SignAndLimit(0x7FF0_0000_0000_0000);
    SomeScaled();
  }

  lemma SomeScaled()
    ensures Scaled(UNIT, -53) == 0.5 && Scaled(UNIT + UNIT / 2, -52) == 1.5 && Scaled(UNIT, -52) == 1.0
  {
    Pow2Of52();
    assert Pow2(53) == 2 * Pow2(52);
  }

  // ---------- Doubles that are integers ----------

  /** C's conversion to an integer type that has room for the result. */
  function Trunc(x: real): int {
    if x >= 0.0 then x.Floor else -((-x).Floor)
  }

  lemma TruncExactly(x: real)
    ensures x == Trunc(x) as real <==> x == x.Floor as real
    ensures x == Trunc(x) as real ==> Trunc(x) == x.Floor
  {
    if x < 0.0 {
      FloorOf(-Trunc(x));
      FloorOf(Trunc(x));
      FloorOf(-x.Floor);
    }
  }

  lemma FloorOf(n: int)
    ensures (n as real).Floor == n && (-n) as real == -(n as real)
  {
  }
}
