/** Integer parameters of any size, crypto/params.c: copying between native integers of different
    lengths and signs, and the 4- and 8-byte cases handled directly. */
module Params {
  import Arithmetic
  import opened BigEndian
  import opened Doubles
  import opened Sequences
  import opened TwosComplement

  /** OSSL_PARAM_INTEGER, OSSL_PARAM_UNSIGNED_INTEGER, OSSL_PARAM_REAL, and the types that hold no
      number: strings and pointers. */
  datatype Kind = SignedInteger | UnsignedInteger | RealNumber | NoNumber

  predicate IntegerKind(k: Kind) {
    k == SignedInteger || k == UnsignedInteger
  }

  /** Native bytes, most significant first. */
  function Ordered(big: bool, b: seq<Byte>): (r: seq<Byte>)
    ensures |r| == |b|
  {
    if big then b else seq(|b|, i requires 0 <= i < |b| => b[|b| - 1 - i])
  }

  function Number(k: Kind, big: bool, b: seq<Byte>): int
    requires b != []
  {
    if k == SignedInteger then Signed(Ordered(big, b)) else Value(Ordered(big, b))
  }

  /** The integers of a type of `n` bytes. */
  predicate InRange(k: Kind, n: nat, v: int)
    requires n > 0
  {
    if k == SignedInteger then 0 - Half(n) <= v < Half(n) else 0 <= v < Pow256(n)
  }

  /** What native bytes hold is always in the range of their type. */
  lemma NumberInRange(k: Kind, big: bool, b: seq<Byte>)
    requires b != []
    ensures InRange(k, |b|, Number(k, big, b))
  {
    SignedRange(Ordered(big, b));
    ValueBelow(Ordered(big, b));
  }

  /** `is_negative`. */
  predicate IsNegative(big: bool, number: seq<Byte>)
    requires number != []
  {
    (if big then number[0] else number[|number| - 1]) >= 0x80
  }

  /** `check_sign_bytes`. */
  method CheckSignBytes(p: seq<Byte>, s: Byte) returns (r: bool)
    ensures r == (p == Repeat(s, |p|))
  {
    for i := 0 to |p|
      invariant forall j :: 0 <= j < i ==> p[j] == s
    {
      if p[i] != s {
        assert Repeat(s, |p|)[i] == s;
        return false;
      }
    }
    assert p == Repeat(s, |p|);
    return true;
  }

  /** What `copy_integer` leaves, most significant byte first: padded in front, or cut there if
      the bytes cut off are padding and, for signed integers, the top bit left is too. */
  predicate Copied(s: seq<Byte>, n: nat, pad: Byte, signedInt: bool, ok: bool, d: seq<Byte>)
    requires n > 0
  {
    if |s| < n then ok && d == Repeat(pad, n - |s|) + s
    else
      var k := |s| - n;
      && ok == (s[..k] == Repeat(pad, k) && (signedInt ==> (s[k] >= 0x80 <==> pad >= 0x80)))
      && (ok ==> d == s[k..])
  }

  /** `copy_integer`. */
  method CopyInteger(big: bool, dest: array<Byte>, src: seq<Byte>, pad: Byte, signedInt: bool) returns (ok: bool)
    requires dest.Length > 0 && src != []
    modifies dest
    ensures Copied(Ordered(big, src), dest.Length, pad, signedInt, ok, Ordered(big, dest[..]))
    ensures !ok ==> dest[..] == old(dest[..])
  {
    if big {
      ok := CopyBig(dest, src, pad, signedInt);
    } else {
      ok := CopyLittle(dest, src, pad, signedInt);
    }
  }

  method CopyBig(dest: array<Byte>, src: seq<Byte>, pad: Byte, signedInt: bool) returns (ok: bool)
    requires dest.Length > 0 && src != []
    modifies dest
    ensures Copied(src, dest.Length, pad, signedInt, ok, dest[..])
    ensures !ok ==> dest[..] == old(dest[..])
  {
    if |src| < dest.Length {
      var n := dest.Length - |src|;
      forall i | 0 <= i < n {
        dest[i] := pad;
      }
      forall i | 0 <= i < |src| {
        dest[n + i] := src[i];
      }
      assert dest[..] == Repeat(pad, n) + src;
      return true;
    }
    var n := |src| - dest.Length;
    var plain := CheckSignBytes(src[..n], pad);
    if !plain || (signedInt && (pad >= 0x80) != (src[n] >= 0x80)) {
      return false;
    }
    forall i | 0 <= i < dest.Length {
      dest[i] := src[n + i];
    }
    assert dest[..] == src[n..];
    return true;
  }

  method CopyLittle(dest: array<Byte>, src: seq<Byte>, pad: Byte, signedInt: bool) returns (ok: bool)
    requires dest.Length > 0 && src != []
    modifies dest
    ensures Copied(Ordered(false, src), dest.Length, pad, signedInt, ok, Ordered(false, dest[..]))
    ensures !ok ==> dest[..] == old(dest[..])
  {
    ghost var s := Ordered(false, src);
    if |src| < dest.Length {
      var n := dest.Length - |src|;
      forall i | 0 <= i < n {
        dest[|src| + i] := pad;
      }
      forall i | 0 <= i < |src| {
        dest[i] := src[i];
      }
      assert Ordered(false, dest[..]) == Repeat(pad, n) + s;
      return true;
    }
    var n := |src| - dest.Length;
    var plain := CheckSignBytes(src[dest.Length..], pad);
    TailIsFront(src, dest.Length, pad);
    if !plain || (signedInt && (pad >= 0x80) != (src[dest.Length - 1] >= 0x80)) {
      return false;
    }
    forall i | 0 <= i < dest.Length {
      dest[i] := src[i];
    }
    assert Ordered(false, dest[..]) == s[n..];
    return true;
  }

  /** The last bytes in memory are the first ones in order. */
  lemma TailIsFront(src: seq<Byte>, n: nat, pad: Byte)
    requires 0 < n <= |src|
    ensures var s, k := Ordered(false, src), |src| - n;
            && (src[n..] == Repeat(pad, k) <==> s[..k] == Repeat(pad, k))
            && s[k] == src[n - 1]
  {
    var s, k := Ordered(false, src), |src| - n;
    if s[..k] == Repeat(pad, k) {
      forall i | 0 <= i < k ensures src[n..][i] == pad {
        assert s[..k][k - 1 - i] == pad;
      }
    }
    if src[n..] == Repeat(pad, k) {
      forall i | 0 <= i < k ensures s[..k][i] == pad {
        assert src[n..][k - 1 - i] == pad;
      }
    }
  }

  // ---------- The four conversions ----------

  /** A conversion succeeds exactly when the number is in the range of the destination's type, and
      then stores the same number; otherwise nothing is written. */
  ghost predicate Converted(dk: Kind, sk: Kind, big: bool, src: seq<Byte>, before: seq<Byte>, ok: bool,
                            after: seq<Byte>)
    requires src != [] && before != [] && |after| == |before|
  {
    var v := Number(sk, big, src);
    && ok == InRange(dk, |before|, v)
    && (if ok then Number(dk, big, after) == v else after == before)
  }

  lemma NegativeIsSigned(big: bool, b: seq<Byte>)
    requires b != []
    ensures IsNegative(big, b) <==> Number(SignedInteger, big, b) < 0
    ensures IsNegative(big, b) <==> Ordered(big, b)[0] >= 0x80
  {
    SignedRange(Ordered(big, b));
  }

  lemma CopiedSigned(s: seq<Byte>, n: nat, ok: bool, d: seq<Byte>)
    requires s != [] && n > 0 && |d| == n && Copied(s, n, if s[0] >= 0x80 then 0xff else 0, true, ok, d)
    ensures ok <==> 0 - Half(n) <= Signed(s) < Half(n)
    ensures ok ==> Signed(d) == Signed(s)
  {
    var pad: Byte := if s[0] >= 0x80 then 0xff else 0;
    if |s| < n {
      SignedRange(d);
      ShortenSigned(Repeat(pad, n - |s|), s);
      SignedRange(s);
      assert d[0] == pad;
      HalfMonotone(|s|, n);
    } else {
      var k := |s| - n;
      assert s[..k] + s[k..] == s;
      ShortenSigned(s[..k], s[k..]);
    }
  }

  lemma HalfMonotone(a: nat, b: nat)
    requires 0 < a <= b
    ensures Half(a) <= Half(b)
  {
    PowMonotone(a - 1, b - 1);
  }

  lemma CopiedUnsigned(s: seq<Byte>, n: nat, ok: bool, d: seq<Byte>)
    requires s != [] && n > 0 && |d| == n && Copied(s, n, 0, false, ok, d)
    ensures ok <==> Value(s) < Pow256(n)
    ensures ok ==> Value(d) == Value(s)
  {
    if |s| < n {
      ShortenUnsigned(Repeat(0, n - |s|), s);
      ValueBelow(s);
      PowMonotone(|s|, n);
    } else {
      var k := |s| - n;
      assert s[..k] + s[k..] == s;
      ShortenUnsigned(s[..k], s[k..]);
    }
  }

  lemma CopiedToSigned(s: seq<Byte>, n: nat, ok: bool, d: seq<Byte>)
    requires s != [] && n > 0 && |d| == n && Copied(s, n, 0, true, ok, d)
    ensures ok <==> Value(s) < Half(n)
    ensures ok ==> Signed(d) == Value(s)
  {
    if |s| < n {
      ShortenUnsigned(Repeat(0, n - |s|), s);
      ValueBelow(s);
      PowMonotone(|s|, n - 1);
    } else {
      var k := |s| - n;
      assert s[..k] + s[k..] == s;
      ShortenToSigned(s[..k], s[k..]);
    }
  }

  /** `signed_from_signed`. */
  method SignedFromSigned(big: bool, dest: array<Byte>, src: seq<Byte>) returns (ok: bool)
    requires dest.Length > 0 && src != []
    modifies dest
    ensures Converted(SignedInteger, SignedInteger, big, src, old(dest[..]), ok, dest[..])
  {
    NegativeIsSigned(big, src);
    hide Copied, Ordered, Value, Pow256;
    ok := CopyInteger(big, dest, src, if IsNegative(big, src) then 0xff else 0, true);
    CopiedSigned(Ordered(big, src), dest.Length, ok, Ordered(big, dest[..]));
  }

  /** `signed_from_unsigned`. */
  method SignedFromUnsigned(big: bool, dest: array<Byte>, src: seq<Byte>) returns (ok: bool)
    requires dest.Length > 0 && src != []
    modifies dest
    ensures Converted(SignedInteger, UnsignedInteger, big, src, old(dest[..]), ok, dest[..])
  {
    hide Copied, Ordered, Value, Pow256;
    ok := CopyInteger(big, dest, src, 0, true);
    CopiedToSigned(Ordered(big, src), dest.Length, ok, Ordered(big, dest[..]));
  }

  /** `unsigned_from_signed`. */
  method UnsignedFromSigned(big: bool, dest: array<Byte>, src: seq<Byte>) returns (ok: bool)
    requires dest.Length > 0 && src != []
    modifies dest
    ensures Converted(UnsignedInteger, SignedInteger, big, src, old(dest[..]), ok, dest[..])
  {
    NegativeIsSigned(big, src);
    hide Copied, Ordered, Value, Pow256;
    if IsNegative(big, src) {
      return false;
    }
    ok := CopyInteger(big, dest, src, 0, false);
    CopiedUnsigned(Ordered(big, src), dest.Length, ok, Ordered(big, dest[..]));
  }

  /** `unsigned_from_unsigned`. */
  method UnsignedFromUnsigned(big: bool, dest: array<Byte>, src: seq<Byte>) returns (ok: bool)
    requires dest.Length > 0 && src != []
    modifies dest
    ensures Converted(UnsignedInteger, UnsignedInteger, big, src, old(dest[..]), ok, dest[..])
  {
    hide Copied, Ordered, Value, Pow256;
    ok := CopyInteger(big, dest, src, 0, false);
    CopiedUnsigned(Ordered(big, src), dest.Length, ok, Ordered(big, dest[..]));
  }

  // ---------- Parameters ----------

  /** An OSSL_PARAM with its data, or none. */
  class Param {
    var kind: Kind
    var data: array?<Byte>

    constructor (k: Kind, d: array?<Byte>)
      ensures kind == k && data == d
    {
      kind, data := k, d;
    }
  }

  const INT32_MIN: int := -0x8000_0000
  const INT32_MAX: int := 0x7FFF_FFFF
  const UINT32_MAX: int := 0xFFFF_FFFF
  const INT64_MIN: int := -0x8000_0000_0000_0000
  const INT64_MAX: int := 0x7FFF_FFFF_FFFF_FFFF
  const UINT64_MAX: int := 0xFFFF_FFFF_FFFF_FFFF

  lemma Sizes()
    ensures Pow256(4) == 0x1_0000_0000 && Pow256(8) == 0x1_0000_0000_0000_0000
    ensures Half(4) == 0x8000_0000 && Half(8) == 0x8000_0000_0000_0000
  {
    assert Pow256(2) == 0x1_0000;
    assert Pow256(3) == 0x100_0000;
    assert Pow256(6) == 0x1_0000_0000_0000;
    assert Pow256(7) == 0x100_0000_0000_0000;
  }

  /** The integer a parameter denotes, if it does: of doubles only the integral ones do. */
  datatype Denoted = Nothing | Just(v: int)

  function RealAt(big: bool, data: seq<Byte>): Double {
    FromBits(Value(Ordered(big, data)))
  }

  function Denotes(pk: Kind, big: bool, data: seq<Byte>): Denoted
    requires data != []
  {
    match pk
    case NoNumber => Nothing
    case RealNumber => if |data| == 8 then Integral(RealAt(big, data)) else Nothing
    case _ => Just(Number(pk, big, data))
  }

  function Integral(d: Double): Denoted {
    if d.Finite? && d.x == d.x.Floor as real then Just(d.x.Floor) else Nothing
  }

  /** Reading a parameter as a number of type `k` with `n` bytes: it succeeds exactly when the
      parameter denotes an integer in that range, and yields it. */
  ghost predicate Got(pk: Kind, big: bool, data: seq<Byte>, k: Kind, n: nat, ok: bool, val: int)
    requires data != [] && n > 0
  {
    var d := Denotes(pk, big, data);
    && ok == (d.Just? && InRange(k, n, d.v))
    && (ok ==> val == d.v)
  }

  /** The integers a parameter of `n` bytes takes: a double takes those below 2^53 only, although
      it could hold some of the larger ones. */
  predicate Takes(pk: Kind, n: nat, val: int)
    requires n > 0
  {
    match pk
    case NoNumber => false
    case RealNumber => n == 8 && 0 - LIMIT < val < LIMIT
    case _ => InRange(pk, n, val)
  }

  /** Storing a number in a parameter: it succeeds exactly when the parameter takes the number, and
      then it denotes it; a failure writes nothing. */
  ghost predicate Stored(pk: Kind, big: bool, before: seq<Byte>, val: int, ok: bool, after: seq<Byte>)
    requires before != [] && |after| == |before|
  {
    && ok == Takes(pk, |before|, val)
    && (if ok then Denotes(pk, big, after) == Just(val) else after == before)
  }

  /** The native bytes of a number. */
  function Native(big: bool, n: nat, v: int): (b: seq<Byte>)
    requires n > 0 && (InRange(SignedInteger, n, v) || InRange(UnsignedInteger, n, v))
    ensures |b| == n
  {
    Ordered(big, Bytes(if v < 0 then v + Pow256(n) else v, n))
  }

  lemma NativeNumber(k: Kind, big: bool, n: nat, v: int)
    requires n > 0 && IntegerKind(k) && InRange(k, n, v)
    ensures Number(k, big, Native(big, n, v)) == v
  {
    var u := if v < 0 then v + Pow256(n) else v;
    var b := Bytes(u, n);
    OrderedTwice(big, b);
    ValueOfBytes(u, n);
    TopBit(b);
  }

  lemma OrderedTwice(big: bool, b: seq<Byte>)
    ensures Ordered(big, Ordered(big, b)) == b
  {
  }

  /** Storing through a pointer of the integer's own type. */
  method Store(k: Kind, big: bool, data: array<Byte>, v: int)
    requires data.Length > 0 && IntegerKind(k) && InRange(k, data.Length, v)
    modifies data
    ensures Number(k, big, data[..]) == v
  {
    var b := Native(big, data.Length, v);
    NativeNumber(k, big, data.Length, v);
    forall i | 0 <= i < data.Length {
      data[i] := b[i];
    }
    assert data[..] == b;
  }

  /** Storing through a pointer to a double. */
  method StoreReal(big: bool, data: array<Byte>, v: int)
    requires data.Length == 8 && 0 - LIMIT < v < LIMIT
    modifies data
    ensures Denotes(RealNumber, big, data[..]) == Just(v)
  {
    var bits := Bytes(ToBits(v), 8);
    var b := Ordered(big, bits);
    RealOfBits(big, v);
    forall i | 0 <= i < data.Length {
      data[i] := b[i];
    }
    assert data[..] == b;
  }

  lemma RealOfBits(big: bool, v: int)
    requires 0 - LIMIT < v < LIMIT
    ensures Integral(RealAt(big, Ordered(big, Bytes(ToBits(v), 8)))) == Just(v)
  {
    hide FromBits, ToBits, Value;
    Sizes();
    ExactDouble(v);
    ValueOfBytes(ToBits(v), 8);
    OrderedTwice(big, Bytes(ToBits(v), 8));
    FloorOf(v);
  }

  /** What the readers test of a double. */
  lemma IntegralExactly(d: Double, lo: int, hi: int)
    ensures var n := Integral(d);
            && (d.Finite? && lo as real <= d.x <= hi as real && d.x == Trunc(d.x) as real
                <==> n.Just? && lo <= n.v <= hi)
            && (d.Finite? && lo as real <= d.x < (hi + 1) as real && d.x == Trunc(d.x) as real
                <==> n.Just? && lo <= n.v <= hi)
            && (n.Just? ==> n.v == Trunc(d.x))
  {
    if d.Finite? {
      TruncExactly(d.x);
    }
  }

  /** An instance: a double can be 2^53, which is read as that integer but cannot be set. */
  lemma NotTaken()
    ensures FromBits(1076 * UNIT) == Finite(LIMIT as real) && Integral(Finite(LIMIT as real)) == Just(LIMIT)
    ensures InRange(SignedInteger, 8, LIMIT) && !Takes(RealNumber, 8, LIMIT)
  {
    Sizes();
    Fields(false, 1076, 0);
    assert Scaled(UNIT, 1) == (UNIT * Arithmetic.Pow2(1)) as real;
    assert Arithmetic.Pow2(1) == 2 * Arithmetic.Pow2(0);
    FloorOf(LIMIT);
  }

  /** `general_get_int`. */
  method GeneralGetInt(big: bool, p: Param, n: nat) returns (ok: bool, val: int)
    requires p.data != null && p.data.Length > 0 && n > 0
    ensures p.kind != RealNumber ==> Got(p.kind, big, p.data[..], SignedInteger, n, ok, val)
    ensures p.kind == RealNumber ==> !ok
  {
    var dest := new Byte[n];
    ok := false;
    if p.kind == SignedInteger {
      ok := SignedFromSigned(big, dest, p.data[..]);
    } else if p.kind == UnsignedInteger {
      ok := SignedFromUnsigned(big, dest, p.data[..]);
    }
    val := Number(SignedInteger, big, dest[..]);
  }

  /** `general_get_uint`. */
  method GeneralGetUint(big: bool, p: Param, n: nat) returns (ok: bool, val: int)
    requires p.data != null && p.data.Length > 0 && n > 0
    ensures p.kind != RealNumber ==> Got(p.kind, big, p.data[..], UnsignedInteger, n, ok, val)
    ensures p.kind == RealNumber ==> !ok
  {
    var dest := new Byte[n];
    ok := false;
    if p.kind == SignedInteger {
      ok := UnsignedFromSigned(big, dest, p.data[..]);
    } else if p.kind == UnsignedInteger {
      ok := UnsignedFromUnsigned(big, dest, p.data[..]);
    }
    val := Number(UnsignedInteger, big, dest[..]);
  }

  /** `general_set_int`. */
  method GeneralSetInt(big: bool, p: Param, val: int, n: nat) returns (ok: bool)
    requires n > 0 && InRange(SignedInteger, n, val) && (p.data != null ==> p.data.Length > 0)
    modifies p.data
    ensures p.data == null ==> ok
    ensures p.data != null && p.kind != RealNumber ==> Stored(p.kind, big, old(p.data[..]), val, ok, p.data[..])
    ensures p.data != null && p.kind == RealNumber ==> !ok && p.data[..] == old(p.data[..])
  {
    if p.data == null {
      return true;
    }
    ok := false;
    NativeNumber(SignedInteger, big, n, val);
    if p.kind == SignedInteger {
      ok := SignedFromSigned(big, p.data, Native(big, n, val));
    } else if p.kind == UnsignedInteger {
      ok := UnsignedFromSigned(big, p.data, Native(big, n, val));
    }
  }

  /** `general_set_uint`. */
  method GeneralSetUint(big: bool, p: Param, val: int, n: nat) returns (ok: bool)
    requires n > 0 && InRange(UnsignedInteger, n, val) && (p.data != null ==> p.data.Length > 0)
    modifies p.data
    ensures p.data == null ==> ok
    ensures p.data != null && p.kind != RealNumber ==> Stored(p.kind, big, old(p.data[..]), val, ok, p.data[..])
    ensures p.data != null && p.kind == RealNumber ==> !ok && p.data[..] == old(p.data[..])
  {
    if p.data == null {
      return true;
    }
    ok := false;
    NativeNumber(UnsignedInteger, big, n, val);
    if p.kind == SignedInteger {
      ok := SignedFromUnsigned(big, p.data, Native(big, n, val));
    } else if p.kind == UnsignedInteger {
      ok := UnsignedFromUnsigned(big, p.data, Native(big, n, val));
    }
  }

  /** `OSSL_PARAM_get_int32`. */
  method GetInt32(big: bool, p: Param) returns (ok: bool, val: int)
    requires p.data != null && p.data.Length > 0
    ensures Got(p.kind, big, p.data[..], SignedInteger, 4, ok, val)
  {
    Sizes();
    NumberInRange(p.kind, big, p.data[..]);
    hide Number, Pow256, Half, RealAt, Integral, Trunc;
    ok, val := false, 0;
    if p.kind == SignedInteger {
      if p.data.Length == 4 {
        return true, Number(SignedInteger, big, p.data[..]);
      } else if p.data.Length == 8 {
        var i64 := Number(SignedInteger, big, p.data[..]);
        if INT32_MIN <= i64 <= INT32_MAX {
          return true, i64;
        }
        return;
      }
      ok, val := GeneralGetInt(big, p, 4);
    } else if p.kind == UnsignedInteger {
      if p.data.Length == 4 || p.data.Length == 8 {
        var u := Number(UnsignedInteger, big, p.data[..]);
        if u <= INT32_MAX {
          return true, u;
        }
        return;
      }
      ok, val := GeneralGetInt(big, p, 4);
    } else if p.kind == RealNumber {
      if p.data.Length == 8 {
        var d := RealAt(big, p.data[..]);
        IntegralExactly(d, INT32_MIN, INT32_MAX);
        if d.Finite? && INT32_MIN as real <= d.x <= INT32_MAX as real && d.x == Trunc(d.x) as real {
          return true, Trunc(d.x);
        }
      }
    }
  }

  /** `OSSL_PARAM_get_uint32`. */
  method GetUint32(big: bool, p: Param) returns (ok: bool, val: int)
    requires p.data != null && p.data.Length > 0
    ensures Got(p.kind, big, p.data[..], UnsignedInteger, 4, ok, val)
  {
    Sizes();
    NumberInRange(p.kind, big, p.data[..]);
    hide Number, Pow256, Half, RealAt, Integral, Trunc;
    ok, val := false, 0;
    if p.kind == UnsignedInteger {
      if p.data.Length == 4 {
        return true, Number(UnsignedInteger, big, p.data[..]);
      } else if p.data.Length == 8 {
        var u64 := Number(UnsignedInteger, big, p.data[..]);
        if u64 <= UINT32_MAX {
          return true, u64;
        }
        return;
      }
      ok, val := GeneralGetUint(big, p, 4);
    } else if p.kind == SignedInteger {
      if p.data.Length == 4 {
        var i32 := Number(SignedInteger, big, p.data[..]);
        if i32 >= 0 {
          return true, i32;
        }
        return;
      } else if p.data.Length == 8 {
        var i64 := Number(SignedInteger, big, p.data[..]);
        if 0 <= i64 <= UINT32_MAX {
          return true, i64;
        }
        return;
      }
      ok, val := GeneralGetUint(big, p, 4);
    } else if p.kind == RealNumber {
      if p.data.Length == 8 {
        var d := RealAt(big, p.data[..]);
        IntegralExactly(d, 0, UINT32_MAX);
        if d.Finite? && 0 as real <= d.x <= UINT32_MAX as real && d.x == Trunc(d.x) as real {
          return true, Trunc(d.x);
        }
      }
    }
  }

  /** `OSSL_PARAM_get_int64`. */
  method GetInt64(big: bool, p: Param) returns (ok: bool, val: int)
    requires p.data != null && p.data.Length > 0
    ensures Got(p.kind, big, p.data[..], SignedInteger, 8, ok, val)
  {
    Sizes();
    NumberInRange(p.kind, big, p.data[..]);
    hide Number, Pow256, Half, RealAt, Integral, Trunc;
    ok, val := false, 0;
    if p.kind == SignedInteger {
      if p.data.Length == 4 || p.data.Length == 8 {
        return true, Number(SignedInteger, big, p.data[..]);
      }
      ok, val := GeneralGetInt(big, p, 8);
    } else if p.kind == UnsignedInteger {
      if p.data.Length == 4 {
        return true, Number(UnsignedInteger, big, p.data[..]);
      } else if p.data.Length == 8 {
        var u64 := Number(UnsignedInteger, big, p.data[..]);
        if u64 <= INT64_MAX {
          return true, u64;
        }
        return;
      }
      ok, val := GeneralGetInt(big, p, 8);
    } else if p.kind == RealNumber {
      if p.data.Length == 8 {
        var d := RealAt(big, p.data[..]);
        IntegralExactly(d, INT64_MIN, INT64_MAX);
        if d.Finite? && INT64_MIN as real <= d.x < (INT64_MAX + 1) as real && d.x == Trunc(d.x) as real {
          return true, Trunc(d.x);
        }
      }
    }
  }

  /** `OSSL_PARAM_get_uint64`. */
  method GetUint64(big: bool, p: Param) returns (ok: bool, val: int)
    requires p.data != null && p.data.Length > 0
    ensures Got(p.kind, big, p.data[..], UnsignedInteger, 8, ok, val)
  {
    Sizes();
    NumberInRange(p.kind, big, p.data[..]);
    hide Number, Pow256, Half, RealAt, Integral, Trunc;
    ok, val := false, 0;
    if p.kind == UnsignedInteger {
      if p.data.Length == 4 || p.data.Length == 8 {
        return true, Number(UnsignedInteger, big, p.data[..]);
      }
      ok, val := GeneralGetUint(big, p, 8);
    } else if p.kind == SignedInteger {
      if p.data.Length == 4 || p.data.Length == 8 {
        var i := Number(SignedInteger, big, p.data[..]);
        if i >= 0 {
          return true, i;
        }
        return;
      }
      ok, val := GeneralGetUint(big, p, 8);
    } else if p.kind == RealNumber {
      if p.data.Length == 8 {
        var d := RealAt(big, p.data[..]);
        IntegralExactly(d, 0, UINT64_MAX);
        if d.Finite? && 0 as real <= d.x < (UINT64_MAX + 1) as real && d.x == Trunc(d.x) as real {
          return true, Trunc(d.x);
        }
      }
    }
  }

  /** `OSSL_PARAM_set_int32`. */
  method SetInt32(big: bool, p: Param, val: int) returns (ok: bool)
    requires InRange(SignedInteger, 4, val) && (p.data != null ==> p.data.Length > 0)
    modifies p.data
    ensures p.data == null ==>
              ok == (p.kind == SignedInteger || p.kind == RealNumber || (p.kind == UnsignedInteger && val >= 0))
    ensures p.data != null ==> Stored(p.kind, big, old(p.data[..]), val, ok, p.data[..])
  {
    Sizes();
    hide Number, Pow256, Half, RealAt, Integral;
    ok := false;
    if p.kind == SignedInteger {
      if p.data == null {
        return true;
      }
      if p.data.Length == 4 || p.data.Length == 8 {
        Store(SignedInteger, big, p.data, val);
        return true;
      }
      ok := GeneralSetInt(big, p, val, 4);
    } else if p.kind == UnsignedInteger && val >= 0 {
      if p.data == null {
        return true;
      }
      if p.data.Length == 4 || p.data.Length == 8 {
        Store(UnsignedInteger, big, p.data, val);
        return true;
      }
      ok := GeneralSetInt(big, p, val, 4);
    } else if p.kind == RealNumber {
      if p.data == null {
        return true;
      }
      // all values have fewer bits than the 53 of a double
      if p.data.Length == 8 {
        StoreReal(big, p.data, val);
        return true;
      }
    }
  }

  /** `OSSL_PARAM_set_uint32`. */
  method SetUint32(big: bool, p: Param, val: int) returns (ok: bool)
    requires InRange(UnsignedInteger, 4, val) && (p.data != null ==> p.data.Length > 0)
    modifies p.data
    ensures p.data == null ==> ok == (p.kind != NoNumber)
    ensures p.data != null ==> Stored(p.kind, big, old(p.data[..]), val, ok, p.data[..])
  {
    Sizes();
    hide Number, Pow256, Half, RealAt, Integral;
    ok := false;
    if p.kind == UnsignedInteger {
      if p.data == null {
        return true;
      }
      if p.data.Length == 4 || p.data.Length == 8 {
        Store(UnsignedInteger, big, p.data, val);
        return true;
      }
      ok := GeneralSetUint(big, p, val, 4);
    } else if p.kind == SignedInteger {
      if p.data == null {
        return true;
      }
      if p.data.Length == 4 {
        if val <= INT32_MAX {
          Store(SignedInteger, big, p.data, val);
          return true;
        }
        return false;
      } else if p.data.Length == 8 {
        Store(SignedInteger, big, p.data, val);
        return true;
      }
      ok := GeneralSetUint(big, p, val, 4);
    } else if p.kind == RealNumber {
      if p.data == null {
        return true;
      }
      // all values have fewer bits than the 53 of a double
      if p.data.Length == 8 {
        StoreReal(big, p.data, val);
        return true;
      }
    }
  }

  /** `OSSL_PARAM_set_int64`. */
  method SetInt64(big: bool, p: Param, val: int) returns (ok: bool)
    requires InRange(SignedInteger, 8, val) && (p.data != null ==> p.data.Length > 0)
    modifies p.data
    ensures p.data == null ==>
              ok == (p.kind == SignedInteger || p.kind == RealNumber || (p.kind == UnsignedInteger && val >= 0))
    ensures p.data != null ==> Stored(p.kind, big, old(p.data[..]), val, ok, p.data[..])
  {
    Sizes();
    hide Number, Pow256, Half, RealAt, Integral;
    ok := false;
    if p.kind == SignedInteger {
      if p.data == null {
        return true;
      }
      if p.data.Length == 4 {
        if INT32_MIN <= val <= INT32_MAX {
          Store(SignedInteger, big, p.data, val);
          return true;
        }
        return false;
      } else if p.data.Length == 8 {
        Store(SignedInteger, big, p.data, val);
        return true;
      }
      ok := GeneralSetInt(big, p, val, 8);
    } else if p.kind == UnsignedInteger && val >= 0 {
      if p.data == null {
        return true;
      }
      if p.data.Length == 4 {
        if val <= UINT32_MAX {
          Store(UnsignedInteger, big, p.data, val);
          return true;
        }
        return false;
      } else if p.data.Length == 8 {
        Store(UnsignedInteger, big, p.data, val);
        return true;
      }
      ok := GeneralSetInt(big, p, val, 8);
    } else if p.kind == RealNumber {
      if p.data == null {
        return true;
      }
      if p.data.Length == 8 {
        var u64 := if val < 0 then -val else val;
        if u64 / LIMIT == 0 {
          StoreReal(big, p.data, val);
          return true;
        }
      }
    }
  }

  /** `OSSL_PARAM_set_uint64`. */
  method SetUint64(big: bool, p: Param, val: int) returns (ok: bool)
    requires InRange(UnsignedInteger, 8, val) && (p.data != null ==> p.data.Length > 0)
    requires p.kind == RealNumber ==> p.data != null
    modifies p.data
    ensures p.data == null ==> ok == (p.kind != NoNumber)
    ensures p.data != null ==> Stored(p.kind, big, old(p.data[..]), val, ok, p.data[..])
  {
    Sizes();
    hide Number, Pow256, Half, RealAt, Integral;
    ok := false;
    if p.kind == UnsignedInteger {
      if p.data == null {
        return true;
      }
      if p.data.Length == 4 {
        if val <= UINT32_MAX {
          Store(UnsignedInteger, big, p.data, val);
          return true;
        }
        return false;
      } else if p.data.Length == 8 {
        Store(UnsignedInteger, big, p.data, val);
        return true;
      }
      ok := GeneralSetUint(big, p, val, 8);
    } else if p.kind == SignedInteger {
      if p.data == null {
        return true;
      }
      if p.data.Length == 4 {
        if val <= INT32_MAX {
          Store(SignedInteger, big, p.data, val);
          return true;
        }
        return false;
      } else if p.data.Length == 8 {
        if val <= INT64_MAX {
          Store(SignedInteger, big, p.data, val);
          return true;
        }
        return false;
      }
      ok := GeneralSetUint(big, p, val, 8);
    } else if p.kind == RealNumber {
      if p.data.Length == 8 {
        var u64 := val;
        if u64 / LIMIT == 0 {
          StoreReal(big, p.data, val);
          return true;
        }
      }
    }
  }

  /** Two ways of storing the same number that are both right leave the same bytes: the direct
      cases and the general path agree. */
  lemma SameBytes(k: Kind, big: bool, a: seq<Byte>, b: seq<Byte>)
    requires a != [] && |a| == |b| && IntegerKind(k) && Number(k, big, a) == Number(k, big, b)
    ensures a == b
  {
    var x, y := Ordered(big, a), Ordered(big, b);
    SignedRange(x);
    SignedRange(y);
    BytesOfValue(x);
    BytesOfValue(y);
    OrderedTwice(big, a);
    OrderedTwice(big, b);
  }
}
