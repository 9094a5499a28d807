/** Integers as byte strings of any length, unsigned or in two's complement, and when they fit a
    shorter or longer string.  Most significant byte first. */
module TwosComplement {
  import opened Arithmetic
  import opened BigEndian
  import opened Sequences

  /** The value in two's complement. */
  function Signed(b: seq<Byte>): int
    requires b != []
  {
    Value(b) - if b[0] >= 0x80 then Pow256(|b|) else 0
  }

  function Half(n: nat): (h: nat)
    requires n > 0
    ensures 2 * h == Pow256(n) && h >= 128
  {
    128 * Pow256(n - 1)
  }

  /** One's complement. */
  function Flipped(b: seq<Byte>): (c: seq<Byte>)
    ensures |c| == |b|
  {
    seq(|b|, i requires 0 <= i < |b| => 255 - b[i])
  }

  lemma {:induction false} ValueOfSplit(p: seq<Byte>, t: seq<Byte>)
    ensures Value(p + t) == Value(p) * Pow256(|t|) + Value(t)
  {
    if t == [] {
      assert p + t == p;
    } else {
      var init, last := t[..|t| - 1], t[|t| - 1];
      assert (p + t)[..|p + t| - 1] == p + init;
      ValueOfSplit(p, init);
      ScaledSum(Value(p), Pow256(|init|), Value(init));
    }
  }

  lemma ScaledSum(a: nat, b: nat, c: nat)
    ensures (a * b + c) * 256 == a * (256 * b) + c * 256
  {
  }

  lemma ValueBelow(b: seq<Byte>)
    ensures Value(b) < Pow256(|b|)
  {
    BytesOfValue(b);
  }

  /** A value is small exactly when its leading bytes are zero. */
  lemma LeadingZeros(p: seq<Byte>, t: seq<Byte>)
    ensures Value(p + t) < Pow256(|t|) <==> forall i :: 0 <= i < |p| ==> p[i] == 0
    ensures (forall i :: 0 <= i < |p| ==> p[i] == 0) ==> Value(p + t) == Value(t)
  {
    hide Value, Pow256;
    ValueOfSplit(p, t);
    ValueBelow(t);
    ZeroValue(p);
    Multiples(Value(p), Pow256(|t|), Value(t));
  }

  lemma Multiples(n: nat, unit: nat, rest: nat)
    requires rest < unit
    ensures n * unit + rest < unit <==> n == 0
  {
    if n > 0 {
      MulMonotone(1, n, unit);
    }
  }

  lemma {:induction false} ZeroValue(p: seq<Byte>)
    ensures Value(p) == 0 <==> forall i :: 0 <= i < |p| ==> p[i] == 0
  {
    if p != [] {
      var init := p[..|p| - 1];
      ZeroValue(init);
      if forall i :: 0 <= i < |init| ==> init[i] == 0 {
        assert Value(init) == 0;
      }
      assert forall i :: 0 <= i < |init| ==> init[i] == p[i];
    }
  }

  /** The top bit tells whether a value reaches half the range. */
  lemma TopBit(t: seq<Byte>)
    requires t != []
    ensures Value(t) < Half(|t|) <==> t[0] < 0x80
  {
    var rest := t[1..];
    assert t == [t[0]] + rest;
    ValueOfSplit([t[0]], rest);
    assert [t[0]][..0] == [];
    assert Value([t[0]]) == t[0];
    ValueBelow(rest);
    if t[0] < 0x80 {
      MulMonotone(t[0], 127, Pow256(|rest|));
    } else {
      MulMonotone(128, t[0], Pow256(|rest|));
    }
  }

  lemma {:induction false} FlippedValue(b: seq<Byte>)
    ensures Value(Flipped(b)) == Pow256(|b|) - 1 - Value(b)
  {
    if b != [] {
      var init := b[..|b| - 1];
      FlippedValue(init);
      assert Flipped(b)[..|b| - 1] == Flipped(init);
    }
  }

  /** The range of the signed integers is what the type of their length holds. */
  lemma SignedRange(b: seq<Byte>)
    requires b != []
    ensures 0 - Half(|b|) <= Signed(b) < Half(|b|)
    ensures Signed(b) < 0 <==> b[0] >= 0x80
    ensures b[0] >= 0x80 ==> Signed(b) == -1 - Value(Flipped(b))
  {
    TopBit(b);
    ValueBelow(b);
    FlippedValue(b);
  }

  // ---------- Changing the length ----------

  /** Unsigned: leading zeros. */
  lemma ShortenUnsigned(p: seq<Byte>, t: seq<Byte>)
    ensures Value(p + t) < Pow256(|t|) <==> p == Repeat(0, |p|)
    ensures p == Repeat(0, |p|) ==> Value(p + t) == Value(t)
  {
    LeadingZeros(p, t);
    assert p == Repeat(0, |p|) <==> forall i :: 0 <= i < |p| ==> p[i] == 0;
  }

  /** Unsigned to signed: leading zeros and a clear top bit. */
  lemma ShortenToSigned(p: seq<Byte>, t: seq<Byte>)
    requires t != []
    ensures Value(p + t) < Half(|t|) <==> p == Repeat(0, |p|) && t[0] < 0x80
    ensures p == Repeat(0, |p|) && t[0] < 0x80 ==> Signed(t) == Value(p + t)
  {
    ShortenUnsigned(p, t);
    TopBit(t);
  }

  /** Signed: leading sign bytes and a top bit that agrees with them. */
  lemma ShortenSigned(p: seq<Byte>, t: seq<Byte>)
    requires t != []
    ensures var s, pad: Byte := p + t, if (p + t)[0] >= 0x80 then 0xff else 0;
            && (0 - Half(|t|) <= Signed(s) < Half(|t|) <==> p == Repeat(pad, |p|) && (t[0] >= 0x80 <==> pad == 0xff))
            && (p == Repeat(pad, |p|) && (t[0] >= 0x80 <==> pad == 0xff) ==> Signed(t) == Signed(s))
  {
    var s := p + t;
    SignedRange(s);
    if s[0] < 0x80 {
      ShortenToSigned(p, t);
    } else {
      FlippedSplit(p, t);
      ShortenToSigned(Flipped(p), Flipped(t));
      FlippedPad(p);
      if p == Repeat(0xff, |p|) && t[0] >= 0x80 {
        SignedRange(t);
      }
    }
  }

  lemma FlippedSplit(p: seq<Byte>, t: seq<Byte>)
    ensures Flipped(p + t) == Flipped(p) + Flipped(t)
  {
  }

  lemma FlippedPad(p: seq<Byte>)
    ensures Flipped(p) == Repeat(0, |p|) <==> p == Repeat(0xff, |p|)
  {
    if Flipped(p) == Repeat(0, |p|) {
      forall i | 0 <= i < |p| ensures p[i] == 0xff {
        assert Flipped(p)[i] == Repeat(0, |p|)[i];
      }
    }
  }
}
