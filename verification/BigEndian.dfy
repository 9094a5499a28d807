/** Numbers as big-endian byte strings, and the length octets of section 8.1.3 of X.690. */
module BigEndian {
  import opened Arithmetic

  type Byte = x: int | 0 <= x < 256

  function Pow256(n: nat): (r: nat)
    ensures r >= 1
  {
    if n == 0 then 1 else 256 * Pow256(n - 1)
  }

  /** The `n` low bytes of `v`, most significant first. */
  function Bytes(v: nat, n: nat): (r: seq<Byte>)
    ensures |r| == n
  {
    if n == 0 then [] else Bytes(v / 256, n - 1) + [v % 256]
  }

  function Value(b: seq<Byte>): nat {
    if b == [] then 0 else Value(b[..|b| - 1]) * 256 + b[|b| - 1]
  }

  lemma DivTwice(n: nat, a: nat, b: nat)
    requires a > 0 && b > 0
    ensures a * b > 0 && n / a / b == n / (a * b)
  {
    var q := n / a / b;
    var r := n - q * (a * b);
    assert q * (a * b) == (q * b) * a;
    assert n / a == q * b + (n / a) % b && (n / a) % b <= b - 1;
    assert n == ((n / a) * a) + n % a;
    assert (q * b + (n / a) % b) * a == (q * b) * a + ((n / a) % b) * a;
    MulMonotone((n / a) % b, b - 1, a);
    MulMonotone(0, (n / a) % b, a);
    assert (b - 1) * a + a == a * b;
    assert 0 <= r < a * b;
    DivAdd(q, r, a * b);
  }

  lemma DivAdd(q: nat, r: nat, d: nat)
    requires r < d
    ensures (q * d + r) / d == q
  {
    var n := q * d + r;
    assert n == (n / d) * d + n % d;
    if n / d < q {
      MulMonotone(n / d + 1, q, d);
      Distribute(n / d, 1, d);
    } else if n / d > q {
      MulMonotone(q + 1, n / d, d);
      Distribute(q, 1, d);
    }
  }

  /** Byte `i` from the left of the `n` low bytes of a number. */
  lemma {:induction false} BytesAt(v: nat, n: nat, i: nat)
    requires i < n
    ensures Bytes(v, n)[i] == (v / Pow256(n - 1 - i)) % 256
  {
    if i < n - 1 {
      BytesAt(v / 256, n - 1, i);
      assert Pow256(n - 1 - i) == 256 * Pow256(n - 2 - i);
      hide Pow256;
      DivTwice(v, 256, Pow256(n - 2 - i));
    }
  }

  /** Reading back what was written, up to the bytes that did not fit. */
  lemma {:induction false} ValueOfBytes(v: nat, n: nat)
    ensures Value(Bytes(v, n)) < Pow256(n)
    ensures v < Pow256(n) <==> Value(Bytes(v, n)) == v
  {
    if n == 0 {
    } else {
      ValueOfBytes(v / 256, n - 1);
      var b := Bytes(v, n);
      assert b[..|b| - 1] == Bytes(v / 256, n - 1);
    }
  }

  /** Writing back what was read. */
  lemma {:induction false} BytesOfValue(b: seq<Byte>)
    ensures Bytes(Value(b), |b|) == b && Value(b) < Pow256(|b|)
  {
    if b == [] {
    } else {
      var init := b[..|b| - 1];
      BytesOfValue(init);
      assert Value(b) / 256 == Value(init) && Value(b) % 256 == b[|b| - 1];
      assert b == init + [b[|b| - 1]];
    }
  }

  lemma {:induction false} ValueLeadingZero(b: seq<Byte>)
    ensures Value([0] + b) == Value(b)
  {
    if b == [] {
      assert [0] + b == [0];
      assert ([0] + b)[..0] == [];
    } else {
      ValueLeadingZero(b[..|b| - 1]);
      assert ([0] + b)[..|b|] == [0] + b[..|b| - 1];
    }
  }

  /** The number of bytes it takes to write `v`, at least one. */
  function Size(v: nat): (n: nat)
    ensures n >= 1 && v < Pow256(n)
    ensures v >= 256 ==> Pow256(n - 1) <= v
    ensures v < 256 ==> n == 1
  {
    if v < 256 then assert Pow256(0) == 1; 1 else Size(v / 256) + 1
  }

  lemma SizeOfMore(v: nat)
    requires v >= 256
    ensures Size(v) == 1 + Size(v / 256)
  {
    hide Pow256;
  }

  /** No fewer bytes would do. */
  lemma {:induction false} SizeIsLeast(v: nat, n: nat)
    requires n >= 1
    ensures v < Pow256(n) <==> Size(v) <= n
  {
    if v < 256 {
      PowMonotone(1, n);
    } else if n > 1 {
      SizeIsLeast(v / 256, n - 1);
    }
  }

  lemma {:induction false} PowMonotone(a: nat, b: nat)
    requires a <= b
    ensures Pow256(a) <= Pow256(b)
    decreases b
  {
    if a < b {
      PowMonotone(a, b - 1);
    }
  }

  /** Definite lengths in the fewest octets, sections 8.1.3 and 10.1 of X.690; a content of 256^127
      bytes or more has none. */
  function DerLength(n: nat): seq<Byte> {
    if n < 0x80 then [n]
    else if Size(n) < 0x80 then [0x80 + Size(n)] + Bytes(n, Size(n))
    else []
  }
}
