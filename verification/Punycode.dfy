/** Decoding Punycode, crypto/punycode.c, against the decoder of section 6.2 of RFC 3492 on
    unbounded integers. */
module Punycode {
  import opened Arithmetic
  import opened BigEndian

  const BASE: nat := 36
  const TMIN: nat := 1
  const TMAX: nat := 26
  const SKEW: nat := 38
  const DAMP: nat := 700
  const INITIAL_BIAS: nat := 72
  const INITIAL_N: nat := 0x80
  const MAXINT: nat := 0xFFFF_FFFF
  const DELIMITER: nat := 0x2D

  function Max(a: nat, b: nat): nat {
    if a >= b then a else b
  }

  function Product(a: nat, b: nat): nat {
    a * b
  }

  function Quotient(a: nat, b: nat): (q: nat)
    requires b > 0
    ensures q <= a
  {
    Below(a, b);
    a / b
  }

  function Remainder(a: nat, b: nat): (r: nat)
    requires b > 0
    ensures r < b
  {
    a % b
  }

  lemma Below(a: nat, b: nat)
    requires b > 0
    ensures 0 <= a / b <= a
  {
    var q, r := a / b, a % b;
    assert a == b * q + r;
    if q < 0 {
      MulMonotone(q, -1, b);
    } else {
      MulMonotone(1, b, q);
    }
  }

  // ---------- RFC 3492 ----------

  /** Section 5: the value of a digit, -1 for anything else. */
  function Digit(a: Byte): int {
    if 0x41 <= a <= 0x5A then a - 0x41
    else if 0x61 <= a <= 0x7A then a - 0x61
    else if 0x30 <= a <= 0x39 then a - 0x30 + 26
    else -1
  }

  function Scaled(delta: nat, k: nat): nat {
    if delta > ((BASE - TMIN) * TMAX) / 2 then Scaled(delta / (BASE - TMIN), k + BASE)
    else k + ((BASE - TMIN + 1) * delta) / (delta + SKEW)
  }

  /** Section 6.1: bias adaptation. */
  function Adapt(delta: nat, numpoints: nat, firsttime: bool): nat
    requires numpoints > 0
  {
    var d := if firsttime then delta / DAMP else delta / 2;
    Scaled(d + Quotient(d, numpoints), 0)
  }

  function Threshold(k: nat, bias: nat): (t: nat)
    ensures TMIN <= t <= TMAX
  {
    if k <= bias then TMIN else if k >= bias + TMAX then TMAX else k - bias
  }

  /** A generalized variable-length integer: the new `i`, where it ends, and the largest value `i`
      and `w` take on the way. */
  datatype Integer = NoInteger | Integer(i: nat, pos: nat, peak: nat)

  function ReadInteger(s: seq<Byte>, pos: nat, i: nat, w: nat, k: nat, bias: nat): (r: Integer)
    ensures r.Integer? ==> pos < r.pos <= |s| && i <= r.i
    decreases |s| - pos
  {
    if pos >= |s| || Digit(s[pos]) < 0 then NoInteger
    else
      var digit, t := Digit(s[pos]), Threshold(k, bias);
      var i' := i + Product(digit, w);
      if digit < t then Integer(i', pos + 1, Max(i', w))
      else
        match ReadInteger(s, pos + 1, i', Product(w, BASE - t), k + BASE, bias)
        case NoInteger => NoInteger
        case Integer(j, p, peak) => Integer(j, p, Max(peak, Max(i', w)))
  }

  /** The whole output, and the largest value any of the variables takes. */
  datatype Outcome = Fail | Done(output: seq<nat>, peak: nat)

  function Insert(out: seq<nat>, j: nat, n: nat): seq<nat>
    requires j <= |out|
  {
    out[..j] + [n] + out[j..]
  }

  function Insertions(s: seq<Byte>, pos: nat, n: nat, i: nat, bias: nat, out: seq<nat>): Outcome
    decreases |s| - pos
  {
    if pos >= |s| then Done(out, 0)
    else
      match ReadInteger(s, pos, i, 1, BASE, bias)
      case NoInteger => Fail
      case Integer(j, p, peak) =>
        var len := |out| + 1;
        var n' := n + Quotient(j, len);
        match Insertions(s, p, n', Remainder(j, len) + 1, Adapt(j - i, len, i == 0), Insert(out, Remainder(j, len), n'))
        case Fail => Fail
        case Done(o, more) => Done(o, Max(more, Max(peak, n')))
  }

  /** How many code points come before the last delimiter, 0 if there is none. */
  function BasicCount(s: seq<Byte>): (b: nat)
    ensures b <= |s| && (b > 0 ==> b < |s| && s[b] == DELIMITER)
    ensures forall k :: b < k < |s| ==> s[k] != DELIMITER
    ensures b == 0 ==> forall k :: 0 < k < |s| ==> s[k] != DELIMITER
  {
    if s == [] then 0
    else if s[|s| - 1] == DELIMITER then |s| - 1
    else BasicCount(s[..|s| - 1])
  }

  function Start(b: nat): nat {
    if b > 0 then b + 1 else 0
  }

  function Decode(s: seq<Byte>): Outcome {
    var b := BasicCount(s);
    if exists k :: 0 <= k < b && s[k] >= 0x80 then Fail
    else Insertions(s, Start(b), INITIAL_N, 0, INITIAL_BIAS, s[..b])
  }

  // ---------- Properties of the decoder ----------

  /** The basic code points of a string, in order. */
  function Basic(out: seq<nat>): seq<nat> {
    if out == [] then []
    else Basic(out[..|out| - 1]) + if out[|out| - 1] < 0x80 then [out[|out| - 1]] else []
  }

  lemma {:induction false} BasicJoined(a: seq<nat>, b: seq<nat>)
    ensures Basic(a + b) == Basic(a) + Basic(b)
  {
    if b == [] {
      assert a + b == a;
    } else {
      assert (a + b)[..|a + b| - 1] == a + b[..|b| - 1];
      BasicJoined(a, b[..|b| - 1]);
    }
  }

  lemma {:induction false} AllBasic(out: seq<nat>)
    requires forall k :: 0 <= k < |out| ==> out[k] < 0x80
    ensures Basic(out) == out
  {
    if out != [] {
      AllBasic(out[..|out| - 1]);
    }
  }

  lemma InsertKeepsBasic(out: seq<nat>, j: nat, n: nat)
    requires j <= |out| && n >= 0x80
    ensures Basic(Insert(out, j, n)) == Basic(out)
  {
    var a, b := out[..j], out[j..];
    NotBasic(a, n);
    BasicJoined(a + [n], b);
    BasicJoined(a, b);
    SplitBack(out, j);
    hide Basic;
  }

  lemma SplitBack(out: seq<nat>, j: nat)
    requires j <= |out|
    ensures out[..j] + out[j..] == out
  {
  }

  lemma NotBasic(a: seq<nat>, n: nat)
    requires n >= 0x80
    ensures Basic(a + [n]) == Basic(a)
  {
    assert (a + [n])[..|a|] == a;
  }

  /** Insertions only lengthen the output and never add basic code points. */
  lemma {:induction false} InsertionsKeep(s: seq<Byte>, pos: nat, n: nat, i: nat, bias: nat, out: seq<nat>)
    requires n >= 0x80 && Insertions(s, pos, n, i, bias, out).Done?
    ensures var o := Insertions(s, pos, n, i, bias, out).output; |o| >= |out| && Basic(o) == Basic(out)
    decreases |s| - pos
  {
    hide Basic, Adapt, ReadInteger, Max;
    if pos < |s| {
      var r := ReadInteger(s, pos, i, 1, BASE, bias);
      var len := |out| + 1;
      var q, j := Quotient(r.i, len), Remainder(r.i, len);
      InsertKeepsBasic(out, j, n + q);
      InsertionsKeep(s, r.pos, n + q, j + 1, Adapt(r.i - i, len, i == 0), Insert(out, j, n + q));
    }
  }

  /** The basic code points of the result are exactly those before the last delimiter, in order. */
  lemma BasicPrefix(s: seq<Byte>)
    requires Decode(s).Done?
    ensures Basic(Decode(s).output) == s[..BasicCount(s)]
  {
    var b := BasicCount(s);
    InsertionsKeep(s, Start(b), INITIAL_N, 0, INITIAL_BIAS, s[..b]);
    AllBasic(s[..b]);
  }

  // ---------- The decoder on machine integers ----------

  /** How small delta is after `k` / 36 divisions by 35. */
  predicate Shrunk(k: nat, d: nat) {
    (k == 0 && d <= MAXINT) || (k == 36 && d <= 122713351) || (k == 72 && d <= 3506095) || (k == 108 && d <= 100174)
    || (k == 144 && d <= 2862) || (k == 180 && d <= 81)
  }

  lemma ShrinkStep(k: nat, d: nat)
    requires Shrunk(k, d) && d > ((BASE - TMIN) * TMAX) / 2
    ensures Shrunk(k + BASE, d / (BASE - TMIN))
  {
  }

  lemma BiasSmall(k: nat, d: nat)
    requires Shrunk(k, d) && d <= ((BASE - TMIN) * TMAX) / 2
    ensures Scaled(d, k) == k + ((BASE - TMIN + 1) * d) / (d + SKEW) <= 216
  {
    QuotientAtMost((BASE - TMIN + 1) * d, d + SKEW, 36);
  }

  lemma QuotientAtMost(a: nat, b: nat, q: nat)
    requires b > 0 && a <= q * b
    ensures a / b <= q
  {
    var p := a / b;
    QuotientTimes(a, b);
    assert (q + 1) * b == q * b + b;
    if p > q {
      MulMonotone(q + 1, p, b);
    }
  }

  /** `adapt`: nothing overflows. */
  method AdaptBias(delta: nat, numpoints: nat, firsttime: bool) returns (bias: nat)
    requires delta <= MAXINT && 0 < numpoints <= MAXINT
    ensures bias == Adapt(delta, numpoints, firsttime) && bias <= 216
  {
    var k: nat := 0;
    var d: nat := if firsttime then delta / DAMP else delta / 2;
    d := d + Quotient(d, numpoints);
    ghost var start := d;
    assert Adapt(delta, numpoints, firsttime) == Scaled(start, 0);
    hide Shrunk, Adapt;
    StartShrunk(d);
    while d > ((BASE - TMIN) * TMAX) / 2
      invariant Scaled(start, 0) == Scaled(d, k) && Shrunk(k, d)
      decreases d
    {
      ShrinkStep(k, d);
      d := d / (BASE - TMIN);
      k := k + BASE;
    }
    BiasSmall(k, d);
    bias := k + ((BASE - TMIN + 1) * d) / (d + SKEW);
  }

  lemma StartShrunk(d: nat)
    requires d <= MAXINT
    ensures Shrunk(0, d)
  {
  }

  /** Overflow checks by division are exact. */
  lemma CheckedProduct(digit: nat, w: nat, room: nat)
    requires w > 0
    ensures digit > room / w <==> digit * w > room
  {
    var q, r := room / w, room % w;
    assert room == q * w + r;
    assert (q + 1) * w == q * w + w;
    if digit > q {
      MulMonotone(q + 1, digit, w);
    } else {
      MulMonotone(digit, q, w);
    }
  }

  /** `a` and `b` go on to the same end, and `b` exceeds `MAXINT` whenever `a` does. */
  predicate SameInteger(a: Integer, b: Integer) {
    (a.Integer? <==> b.Integer?) && (a.Integer? ==>
        a.i == b.i && a.pos == b.pos && (a.peak <= MAXINT <==> b.peak <= MAXINT))
  }

  predicate GoodInteger(r: Integer) {
    r.Integer? && r.peak <= MAXINT
  }

  /** The bound that keeps the loop short: each further digit multiplies `w` by at least 10. */
  predicate WeightBound(k: nat, w: nat) {
    w >= 1 && (k > 36 * 10 ==> w > MAXINT) && k % 36 == 0 && k >= 36
    && (k == 72 ==> w >= 10) && (k == 108 ==> w >= 100) && (k == 144 ==> w >= 1000) && (k == 180 ==> w >= 10000)
    && (k == 216 ==> w >= 100000) && (k == 252 ==> w >= 1000000) && (k == 288 ==> w >= 10000000)
    && (k == 324 ==> w >= 100000000) && (k == 360 ==> w >= 1000000000)
  }

  lemma WeightStep(k: nat, w: nat, t: nat)
    requires WeightBound(k, w) && TMIN <= t <= TMAX && w <= MAXINT
    ensures WeightBound(k + BASE, w * (BASE - t))
  {
    MulMonotone(10, BASE - t, w);
  }

  /** The inner loop: a variable-length integer, as long as `i` and `w` stay below 2^32. */
  method DecodeInteger(s: seq<Byte>, start: nat, oldi: nat, bias: nat) returns (ok: bool, i: nat, loop: nat)
    requires start < |s| <= MAXINT && oldi <= MAXINT && bias <= MAXINT - TMAX
    ensures ok == GoodInteger(ReadInteger(s, start, oldi, 1, BASE, bias))
    ensures ok ==> var r := ReadInteger(s, start, oldi, 1, BASE, bias); i == r.i <= MAXINT && loop == r.pos
  {
    ghost var whole := ReadInteger(s, start, oldi, 1, BASE, bias);
    var w: nat, k: nat := 1, BASE;
    ok, i, loop := false, oldi, start;
    while true
      invariant start <= loop <= |s| && i <= MAXINT && 1 <= w <= MAXINT && WeightBound(k, w)
      invariant SameInteger(ReadInteger(s, loop, i, w, k, bias), whole)
      decreases |s| - loop
    {
      ghost var rest := ReadInteger(s, loop, i, w, k, bias);
      if loop >= |s| {
        return;
      }
      var digit := Digit(s[loop]);
      loop := loop + 1;
      if digit < 0 {
        return;
      }
      CheckedProduct(digit, w, MAXINT - i);
      if digit > (MAXINT - i) / w {
        assert rest.Integer? ==> rest.peak > MAXINT;
        return;
      }
      i := i + digit * w;
      var t := Threshold(k, bias);
      if digit < t {
        break;
      }
      CheckedProduct(w, BASE - t, MAXINT);
      if w > MAXINT / (BASE - t) {
        PeakOfStart(s, loop, i, w * (BASE - t), k + BASE, bias);
        return;
      }
      WeightStep(k, w, t);
      w := w * (BASE - t);
      assert k + BASE <= MAXINT;
      k := k + BASE;
    }
    ok := true;
  }

  lemma PeakOfStart(s: seq<Byte>, pos: nat, i: nat, w: nat, k: nat, bias: nat)
    ensures var r := ReadInteger(s, pos, i, w, k, bias); r.Integer? ==> r.peak >= w
  {
  }

  /** A decoding that `ossl_punycode_decode` can represent. */
  predicate Fits(o: Outcome, maxOut: nat) {
    o.Done? && o.peak <= MAXINT && |o.output| <= maxOut
  }

  predicate SameOutcome(a: Outcome, b: Outcome) {
    (a.Done? <==> b.Done?) && (a.Done? ==> a.output == b.output && (a.peak <= MAXINT <==> b.peak <= MAXINT))
  }

  /** How a decoding goes on after reading the integer `r`. */
  function After(s: seq<Byte>, n: nat, i: nat, bias: nat, out: seq<nat>, r: Integer): Outcome
    requires r.Integer? && r.i >= i
  {
    var len := |out| + 1;
    var n', j := n + Quotient(r.i, len), Remainder(r.i, len);
    Insertions(s, r.pos, n', j + 1, Adapt(r.i - i, len, i == 0), Insert(out, j, n'))
  }

  lemma Unfolded(s: seq<Byte>, pos: nat, n: nat, i: nat, bias: nat, out: seq<nat>, r: Integer)
    requires pos < |s| && n >= 0x80 && r == ReadInteger(s, pos, i, 1, BASE, bias)
    ensures !r.Integer? ==> Insertions(s, pos, n, i, bias, out) == Fail
    ensures r.Integer? ==>
      var next, n' := After(s, n, i, bias, out, r), n + Quotient(r.i, |out| + 1);
      Insertions(s, pos, n, i, bias, out)
      == if next.Fail? then Fail else Done(next.output, Max(next.peak, Max(r.peak, n')))
  {
    hide ReadInteger, Adapt, Insert, Quotient;
  }

  lemma AfterLonger(s: seq<Byte>, n: nat, i: nat, bias: nat, out: seq<nat>, r: Integer)
    requires r.Integer? && r.i >= i && n >= 0x80
    ensures After(s, n, i, bias, out, r).Done? ==> |After(s, n, i, bias, out, r).output| >= |out| + 1
  {
    var len := |out| + 1;
    var n', j := n + Quotient(r.i, len), Remainder(r.i, len);
    hide Insertions;
    if After(s, n, i, bias, out, r).Done? {
      InsertionsKeep(s, r.pos, n', j + 1, Adapt(r.i - i, len, i == 0), Insert(out, j, n'));
    }
  }

  /** One insertion: what has to hold for the decoding to fit, and how it goes on. */
  lemma InsertionStep(s: seq<Byte>, pos: nat, n: nat, i: nat, bias: nat, out: seq<nat>, r: Integer, maxOut: nat)
    requires pos < |s| && n >= 0x80 && r == ReadInteger(s, pos, i, 1, BASE, bias)
    ensures !GoodInteger(r) ==> !Fits(Insertions(s, pos, n, i, bias, out), maxOut)
    ensures r.Integer? && (n + Quotient(r.i, |out| + 1) > MAXINT || |out| >= maxOut) ==>
      !Fits(Insertions(s, pos, n, i, bias, out), maxOut)
    ensures GoodInteger(r) && n + Quotient(r.i, |out| + 1) <= MAXINT ==>
      SameOutcome(After(s, n, i, bias, out, r), Insertions(s, pos, n, i, bias, out))
  {
    Unfolded(s, pos, n, i, bias, out, r);
    if r.Integer? {
      AfterLonger(s, n, i, bias, out, r);
    }
    hide Insertions, ReadInteger, After, Quotient;
  }

  /** The scan for the last delimiter. */
  method FindBasicCount(s: seq<Byte>) returns (b: nat)
    ensures b == BasicCount(s)
  {
    b := 0;
    for loop := 0 to |s|
      invariant b == BasicCount(s[..loop])
    {
      assert s[..loop + 1][..loop] == s[..loop];
      if s[loop] == DELIMITER {
        b := loop;
      }
    }
    assert s[..|s|] == s;
  }

  /** Making room at `i` and storing `n` there. */
  method InsertAt(dec: array<nat>, i: nat, writtenOut: nat, n: nat)
    requires i <= writtenOut < dec.Length
    modifies dec
    ensures dec[..writtenOut + 1] == Insert(old(dec[..writtenOut]), i, n)
    ensures forall p :: writtenOut < p < dec.Length ==> dec[p] == old(dec[p])
  {
    forall j | i <= j < writtenOut {
      dec[j + 1] := dec[j];
    }
    dec[i] := n;
  }

  /** `ossl_punycode_decode`: succeeds exactly when the decoder of the RFC does with no value above
      2^32 - 1 and no more than `maxOut` code points, and then yields the same output. */
  method PunycodeDecode(s: seq<Byte>, dec: array<nat>, maxOut: nat) returns (ok: bool, outLen: nat)
    requires |s| <= MAXINT && maxOut <= MAXINT && maxOut <= dec.Length
    modifies dec
    ensures ok == Fits(Decode(s), maxOut)
    ensures ok ==> outLen == |Decode(s).output| && dec[..outLen] == Decode(s).output
    ensures forall p :: maxOut <= p < dec.Length ==> dec[p] == old(dec[p])
  {
    ok, outLen := false, 0;
    var basicCount := FindBasicCount(s);
    var copied := CopyBasic(s, dec, basicCount, maxOut);
    if !copied {
      return;
    }
    var loop, writtenOut := Start(basicCount), basicCount;
    var n: nat, i: nat, bias: nat := INITIAL_N, 0, INITIAL_BIAS;
    ghost var whole := Decode(s);
    while loop < |s|
      invariant writtenOut <= maxOut && writtenOut <= loop <= |s| + 1 && (loop > |s| ==> false)
      invariant 0x80 <= n <= MAXINT && i <= writtenOut && bias <= 216
      invariant SameOutcome(Insertions(s, loop, n, i, bias, dec[..writtenOut]), whole)
      invariant forall p :: maxOut <= p < dec.Length ==> dec[p] == old(dec[p])
      decreases |s| - loop
    {
      ok, n, i, bias, loop := DecodeOne(s, dec, loop, n, i, bias, writtenOut, maxOut, whole);
      if !ok {
        return;
      }
      writtenOut := writtenOut + 1;
    }
    assert Insertions(s, loop, n, i, bias, dec[..writtenOut]) == Done(dec[..writtenOut], 0);
    ok, outLen := true, writtenOut;
  }

  /** The basic code points, if there is room and they are basic. */
  method CopyBasic(s: seq<Byte>, dec: array<nat>, basicCount: nat, maxOut: nat) returns (ok: bool)
    requires basicCount == BasicCount(s) && maxOut <= dec.Length
    modifies dec
    ensures !ok ==> !Fits(Decode(s), maxOut)
    ensures ok ==> basicCount <= maxOut && dec[..basicCount] == s[..basicCount]
    ensures ok ==> Decode(s) == Insertions(s, Start(basicCount), INITIAL_N, 0, INITIAL_BIAS, dec[..basicCount])
    ensures forall p :: maxOut <= p < dec.Length ==> dec[p] == old(dec[p])
  {
    ok := false;
    if basicCount > 0 {
      if basicCount > maxOut {
        if Decode(s).Done? {
          InsertionsKeep(s, Start(basicCount), INITIAL_N, 0, INITIAL_BIAS, s[..basicCount]);
        }
        return;
      }
      for loop := 0 to basicCount
        invariant forall k :: 0 <= k < loop ==> s[k] < 0x80 && dec[k] == s[k]
        invariant forall p :: maxOut <= p < dec.Length ==> dec[p] == old(dec[p])
      {
        if s[loop] >= 0x80 {
          return;
        }
        dec[loop] := s[loop];
      }
    }
    assert dec[..basicCount] == s[..basicCount];
    ok := true;
  }

  /** The outer loop's body. */
  method DecodeOne(s: seq<Byte>, dec: array<nat>, start: nat, n0: nat, oldi: nat, bias0: nat, writtenOut: nat,
                   maxOut: nat,
                   ghost whole: Outcome)
    returns (ok: bool, n: nat, i: nat, bias: nat, loop: nat)
    requires start < |s| <= MAXINT && maxOut <= dec.Length && writtenOut <= maxOut && writtenOut <= start
    requires 0x80 <= n0 <= MAXINT && oldi <= writtenOut && bias0 <= 216
    requires SameOutcome(Insertions(s, start, n0, oldi, bias0, dec[..writtenOut]), whole)
    modifies dec
    ensures !ok ==> !Fits(whole, maxOut)
    ensures ok ==>
      start < loop <= |s| && writtenOut + 1 <= maxOut && 0x80 <= n <= MAXINT && i <= writtenOut + 1 && bias <= 216
    ensures ok ==> SameOutcome(Insertions(s, loop, n, i, bias, dec[..writtenOut + 1]), whole)
    ensures forall p :: maxOut <= p < dec.Length ==> dec[p] == old(dec[p])
  {
    ghost var r := ReadInteger(s, start, oldi, 1, BASE, bias0);
    InsertionStep(s, start, n0, oldi, bias0, dec[..writtenOut], r, maxOut);
    hide Insertions, ReadInteger, After, Quotient;
    n, bias := n0, bias0;
    ok, i, loop := DecodeInteger(s, start, oldi, bias0);
    if ok {
      ok, n, i, bias := Place(s, dec, n0, oldi, bias0, i, writtenOut, maxOut, r);
    }
  }

  /** The code point and where it goes. */
  method Place(s: seq<Byte>, dec: array<nat>, n0: nat, oldi: nat, bias0: nat, i0: nat, writtenOut: nat, maxOut: nat,
               ghost r: Integer)
    returns (ok: bool, n: nat, i: nat, bias: nat)
    requires r.Integer? && r.i == i0 <= MAXINT && oldi <= i0 && n0 <= MAXINT && writtenOut < MAXINT
    requires maxOut <= dec.Length && writtenOut <= maxOut
    modifies dec
    ensures ok == (n0 + Quotient(i0, writtenOut + 1) <= MAXINT && writtenOut < maxOut)
    ensures ok ==> n0 <= n <= MAXINT && i <= writtenOut + 1 && bias <= 216
    ensures ok ==>
      Insertions(s, r.pos, n, i, bias, dec[..writtenOut + 1]) == After(s, n0, oldi, bias0, old(dec[..writtenOut]), r)
    ensures forall p :: maxOut <= p < dec.Length ==> dec[p] == old(dec[p])
  {
    hide Insertions, After, Adapt, Insert, Quotient, Remainder;
    AfterIs(s, n0, oldi, bias0, dec[..writtenOut], r);
    ok, n, i := false, n0, i0;
    bias := AdaptBias(i - oldi, writtenOut + 1, oldi == 0);
    if Quotient(i, writtenOut + 1) > MAXINT - n {
      return;
    }
    n := n + Quotient(i, writtenOut + 1);
    i := Remainder(i, writtenOut + 1);
    if writtenOut >= maxOut {
      return;
    }
    InsertAt(dec, i, writtenOut, n);
    i := i + 1;
    ok := true;
  }

  lemma AfterIs(s: seq<Byte>, n: nat, i: nat, bias: nat, out: seq<nat>, r: Integer)
    requires r.Integer? && r.i >= i
    ensures var len := |out| + 1;
            var n', j := n + Quotient(r.i, len), Remainder(r.i, len);
            After(s, n, i, bias, out, r) ==
              Insertions(s, r.pos, n', j + 1, Adapt(r.i - i, len, i == 0), Insert(out, j, n'))
  {
  }
}
