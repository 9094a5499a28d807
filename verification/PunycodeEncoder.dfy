/** The encoder of section 6.3 of RFC 3492, with the digits of its section 5 written out, and the
    round trip through the decoder of crypto/punycode.c. */
module PunycodeEncoder {
  import opened Arithmetic
  import opened BigEndian
  import opened Punycode

  // ---------- Digits ----------

  const DIGITS := "abcdefghijklmnopqrstuvwxyz0123456789"
  const CAPITALS := "ABCDEFGHIJKLMNOPQRSTUVWXYZ"

  /** `c` is a digit of value `d`, in either case. */
  predicate Spells(c: Byte, d: nat) {
    d < 36 && (c == DIGITS[d] as int || (d < 26 && c == CAPITALS[d] as int))
  }

  lemma SpelledDigit(c: Byte, d: nat)
    requires Spells(c, d)
    ensures Digit(c) == d && c != DELIMITER
  {
  }

  /** The digits of a generalized variable-length integer. */
  function Digits(q: nat, k: nat, bias: nat): (r: seq<nat>)
    ensures r != [] && forall m :: 0 <= m < |r| ==> r[m] < 36
  {
    var t := Threshold(k, bias);
    if q < t then [q]
    else
      Below(q - t, BASE - t);
      [t + Remainder(q - t, BASE - t)] + Digits(Quotient(q - t, BASE - t), k + BASE, bias)
  }

  predicate SpelledAt(s: seq<Byte>, pos: nat, ds: seq<nat>) {
    pos + |ds| <= |s| && forall m {:trigger ds[m]} :: 0 <= m < |ds| ==> Spells(s[pos + m], ds[m])
  }

  lemma SpelledParts(s: seq<Byte>, pos: nat, a: seq<nat>, b: seq<nat>)
    requires SpelledAt(s, pos, a + b)
    ensures SpelledAt(s, pos, a) && SpelledAt(s, pos + |a|, b)
  {
    hide Spells;
    forall m | 0 <= m < |a| ensures Spells(s[pos + m], a[m]) {
      assert (a + b)[m] == a[m];
    }
    forall m | 0 <= m < |b| ensures Spells(s[pos + |a| + m], b[m]) {
      assert (a + b)[|a| + m] == b[m];
    }
  }

  /** Reading the digits of `q` adds `q` times the weight; nothing on the way is much larger. */
  lemma {:induction false} ReadDigits(s: seq<Byte>, pos: nat, i: nat, w: nat, q: nat, k: nat, bias: nat)
    requires SpelledAt(s, pos, Digits(q, k, bias)) && w >= 1
    ensures var r := ReadInteger(s, pos, i, w, k, bias);
            && r.Integer? && r.i == i + Product(q, w) && r.pos == pos + |Digits(q, k, bias)|
            && r.peak <= i + 36 * Product(q, w) + w
    decreases q
  {
    hide Spells, Product;
    var t := Threshold(k, bias);
    var ds := Digits(q, k, bias);
    SpelledDigit(s[pos], ds[0]);
    if q < t {
      LastDigit(q, w);
    } else {
      var rest, w' := Quotient(q - t, BASE - t), Product(w, BASE - t);
      SpelledParts(s, pos, [ds[0]], Digits(rest, k + BASE, bias));
      Below(q - t, BASE - t);
      WeightOf(q, w, t);
      ReadDigits(s, pos + 1, i + Product(ds[0], w), w', rest, k + BASE, bias);
    }
  }

  lemma LastDigit(q: nat, w: nat)
    requires w >= 1
    ensures Product(q, w) >= 0
  {
  }

  /** A digit and what is left of `q`, with their weights. */
  lemma WeightOf(q: nat, w: nat, t: nat)
    requires w >= 1 && TMIN <= t <= TMAX && t <= q
    ensures var d, rest, w' := t + Remainder(q - t, BASE - t), Quotient(q - t, BASE - t), Product(w, BASE - t);
            && w' >= 1 && Product(q, w) == Product(d, w) + Product(rest, w')
            && w' + Product(d, w) <= 36 * Product(d, w) + w
  {
    var d, rest, u := t + (q - t) % (BASE - t), (q - t) / (BASE - t), BASE - t;
    assert q == d + rest * u;
    assert (d + rest * u) * w == d * w + rest * (w * u) by { assert (rest * u) * w == rest * (w * u); }
    MulMonotone(1, d, w);
    MulMonotone(u, 35, w);
    MulMonotone(1, u, w);
    assert w * u == u * w;
  }

  // ---------- The encoder ----------

  predicate SomeFrom(out: seq<nat>, n: nat) {
    exists k :: 0 <= k < |out| && out[k] >= n
  }

  /** The least code point that is at least `n`. */
  function Least(out: seq<nat>, n: nat): (m: nat)
    requires SomeFrom(out, n)
    ensures n <= m && m in out && forall k :: 0 <= k < |out| && out[k] >= n ==> m <= out[k]
  {
    if out[0] < n then Least(out[1..], n)
    else if SomeFrom(out[1..], n) then
      var m := Least(out[1..], n);
      if out[0] <= m then out[0] else m
    else out[0]
  }

  /** What one pass over the string writes, and `delta`, `bias` and `h` after it. */
  datatype Run = Run(digits: seq<nat>, delta: nat, bias: nat, h: nat)

  /** The inner loop from position `j` on: smaller code points are passed over, `n` is inserted. */
  function Pass(out: seq<nat>, n: nat, j: nat, delta: nat, bias: nat, h: nat, b: nat): (r: Run)
    ensures r.h >= h && forall m :: 0 <= m < |r.digits| ==> r.digits[m] < 36
    decreases |out| - j
  {
    if j >= |out| then Run([], delta, bias, h)
    else if out[j] < n then Pass(out, n, j + 1, delta + 1, bias, h, b)
    else if out[j] == n then
      var rest := Pass(out, n, j + 1, 0, Adapt(delta, h + 1, h == b), h + 1, b);
      rest.(digits := Digits(delta, BASE, bias) + rest.digits)
    else Pass(out, n, j + 1, delta, bias, h, b)
  }

  /** Above every code point of the string. */
  function Above(out: seq<nat>): (n: nat)
    ensures forall k :: 0 <= k < |out| ==> out[k] < n
  {
    if out == [] then 0 else Max(out[0] + 1, Above(out[1..]))
  }

  /** The outer loop: the passes for the code points from `n` on, in ascending order. */
  function Passes(out: seq<nat>, n: nat, delta: nat, bias: nat, h: nat, b: nat): (r: seq<nat>)
    ensures forall m :: 0 <= m < |r| ==> r[m] < 36
    decreases Above(out) - n
  {
    if !SomeFrom(out, n) then []
    else
      var m := Least(out, n);
      var run := Pass(out, m, 0, delta + Product(m - n, h + 1), bias, h, b);
      run.digits + Passes(out, m + 1, run.delta + 1, run.bias, run.h, b)
  }

  /** The digits that follow the basic code points. */
  function Extended(out: seq<nat>): (r: seq<nat>)
    ensures forall m :: 0 <= m < |r| ==> r[m] < 36
  {
    var b := |Basic(out)|;
    Passes(out, INITIAL_N, 0, INITIAL_BIAS, b, b)
  }

  /** `s` encodes the string: its basic code points, a delimiter if there are any, and digits. */
  predicate Encodes(s: seq<Byte>, out: seq<nat>) {
    var basic := Basic(out);
    && |basic| <= |s| && (forall k :: 0 <= k < |basic| ==> s[k] == basic[k])
    && (basic != [] ==> |basic| < |s| && s[|basic|] == DELIMITER)
    && |s| == Start(|basic|) + |Extended(out)| && SpelledAt(s, Start(|basic|), Extended(out))
  }

  // ---------- The part of the string already written ----------

  function Small(c: nat, n: nat): seq<nat> {
    if c < n then [c] else []
  }

  /** The code points below `n`, in order. */
  function Keep(out: seq<nat>, n: nat): (r: seq<nat>)
    ensures |r| <= |out|
  {
    if out == [] then [] else Small(out[0], n) + Keep(out[1..], n)
  }

  lemma Associate(a: seq<nat>, b: seq<nat>, c: seq<nat>)
    ensures (a + b) + c == a + (b + c)
  {
  }

  lemma {:induction false} KeepJoined(a: seq<nat>, b: seq<nat>, n: nat)
    ensures Keep(a + b, n) == Keep(a, n) + Keep(b, n)
  {
    hide Small;
    if a == [] {
      assert a + b == b;
    } else {
      KeepJoined(a[1..], b, n);
      assert (a + b)[1..] == a[1..] + b;
      Associate(Small(a[0], n), Keep(a[1..], n), Keep(b, n));
    }
  }

  lemma KeepOne(c: nat, n: nat)
    ensures Keep([c], n) == Small(c, n)
  {
    assert [c][1..] == [];
  }

  lemma {:induction false} KeepBasic(out: seq<nat>)
    ensures Keep(out, INITIAL_N) == Basic(out)
  {
    if out != [] {
      var a, c := out[..|out| - 1], out[|out| - 1];
      assert out == a + [c];
      KeepBasic(a);
      KeepJoined(a, [c], INITIAL_N);
      KeepOne(c, INITIAL_N);
    }
  }

  lemma {:induction false} KeepSame(out: seq<nat>, n: nat, m: nat)
    requires n <= m && forall k :: 0 <= k < |out| && out[k] >= n ==> m <= out[k]
    ensures Keep(out, n) == Keep(out, m)
  {
    if out != [] {
      assert forall k :: 0 <= k < |out[1..]| ==> out[1..][k] == out[k + 1];
      KeepSame(out[1..], n, m);
    }
  }

  lemma {:induction false} KeepAll(out: seq<nat>, n: nat)
    requires !SomeFrom(out, n)
    ensures Keep(out, n) == out
  {
    if out != [] {
      assert out[0] < n;
      assert forall k :: 0 <= k < |out[1..]| ==> out[1..][k] == out[k + 1];
      KeepAll(out[1..], n);
      assert out == [out[0]] + out[1..];
    }
  }

  /** In the pass for `n` at position `j`: the smaller code points, and `n` as far as `j`. */
  function Part(out: seq<nat>, n: nat, j: nat): seq<nat>
    requires j <= |out|
  {
    Keep(out[..j], n + 1) + Keep(out[j..], n)
  }

  /** Where the next code point goes. */
  function Spot(out: seq<nat>, n: nat, j: nat): nat
    requires j <= |out|
  {
    |Keep(out[..j], n + 1)|
  }

  lemma PartEnds(out: seq<nat>, n: nat)
    ensures Part(out, n, 0) == Keep(out, n) && Spot(out, n, 0) == 0
    ensures Part(out, n, |out|) == Keep(out, n + 1) && Spot(out, n, |out|) == |Keep(out, n + 1)|
  {
    assert out[..0] == [] && out[0..] == out && out[..|out|] == out && out[|out|..] == [];
  }

  lemma PartNext(out: seq<nat>, n: nat, j: nat)
    requires j < |out|
    ensures Spot(out, n, j) <= |Part(out, n, j)|
    ensures if out[j] == n then Part(out, n, j + 1) == Insert(Part(out, n, j), Spot(out, n, j), n)
            else Part(out, n, j + 1) == Part(out, n, j)
    ensures Spot(out, n, j + 1) == Spot(out, n, j) + if out[j] <= n then 1 else 0
    ensures out[j] == n ==> |Part(out, n, j + 1)| == |Part(out, n, j)| + 1 <= |out|
  {
    hide Keep;
    var c := out[j];
    assert out[..j + 1] == out[..j] + [c] && out[j..] == [c] + out[j + 1..];
    KeepJoined(out[..j], [c], n + 1);
    KeepJoined([c], out[j + 1..], n);
    KeepOne(c, n + 1);
    KeepOne(c, n);
    var a, b := Keep(out[..j], n + 1), Keep(out[j + 1..], n);
    if c < n {
      Associate(a, [c], b);
    } else if c == n {
      InsertBetween(a, b, n);
    }
  }

  lemma InsertBetween(a: seq<nat>, b: seq<nat>, n: nat)
    ensures Insert(a + b, |a|, n) == (a + [n]) + b
  {
  }

  // ---------- Decoding what was encoded ----------

  /** What the decoder's variables stay below when no code point exceeds `top`. */
  function PeakBound(out: seq<nat>, top: nat): nat {
    36 * Product(top + 1, |out|)
  }

  /** The first decoding ends as the second does, and goes at most as high as it or `bound`. */
  predicate LeadsTo(a: Outcome, b: Outcome, bound: nat) {
    b.Done? ==> a.Done? && a.output == b.output && a.peak <= Max(b.peak, bound)
  }

  /** Dividing the sum of a multiple and a smaller number. */
  lemma Divided(q: nat, h: nat, spot: nat)
    requires spot <= h
    ensures Quotient(Product(q, h + 1) + spot, h + 1) == q && Remainder(Product(q, h + 1) + spot, h + 1) == spot
  {
    var n := q * (h + 1) + spot;
    assert n == (n / (h + 1)) * (h + 1) + n % (h + 1);
    if n / (h + 1) < q {
      MulMonotone(n / (h + 1) + 1, q, h + 1);
      Distribute(n / (h + 1), 1, h + 1);
    } else if n / (h + 1) > q {
      MulMonotone(q + 1, n / (h + 1), h + 1);
      Distribute(q, 1, h + 1);
    }
  }

  lemma PeakBounded(out: seq<nat>, top: nat, n: nat, nd: nat, h: nat, spot: nat)
    requires nd <= n <= top && spot <= h < |out| && nd >= 1
    ensures 36 * (Product(n - nd, h + 1) + spot) + 1 <= PeakBound(out, top) && n <= PeakBound(out, top)
  {
    Distribute(n - nd, 1, h + 1);
    MulMonotone(n - nd + 1, top, h + 1);
    MulMonotone(h + 1, |out|, top);
    assert top * (h + 1) == (h + 1) * top && top * |out| == |out| * top;
    Distribute(top, 1, |out|);
    MulMonotone(1, |out|, top);
  }

  /** One integer read and one code point inserted. */
  lemma OneInsertion(s: seq<Byte>, pos: nat, n: nat, i: nat, bias: nat, out: seq<nat>, delta: nat, n': nat, j: nat)
    requires SpelledAt(s, pos, Digits(delta, BASE, bias)) && 0x80 <= n <= n' && j <= |out|
    requires delta + i == Product(n' - n, |out| + 1) + j
    ensures LeadsTo(Insertions(s, pos, n, i, bias, out),
                    Insertions(s, pos + |Digits(delta, BASE, bias)|, n', j + 1,
                               Adapt(delta, |out| + 1, i == 0), Insert(out, j, n')),
                    Max(i + 36 * delta + 1, n'))
  {
    hide Digits, ReadInteger, Insertions, Adapt, Insert, Product, Quotient, Remainder, Spells;
    var r := ReadInteger(s, pos, i, 1, BASE, bias);
    ReadDigits(s, pos, i, 1, delta, BASE, bias);
    TimesOne(delta);
    Divided(n' - n, |out|, j);
    Unfolded(s, pos, n, i, bias, out, r);
    AfterIs(s, n, i, bias, out, r);
  }

  /** One code point read back. */
  lemma ReadBack(s: seq<Byte>, pos: nat, out: seq<nat>, top: nat, n: nat, j: nat, nd: nat, id: nat, delta: nat,
                 bias: nat)
    requires j < |out| && out[j] == n <= top && 0x80 <= nd <= n && SpelledAt(s, pos, Digits(delta, BASE, bias))
    requires delta + id == Product(n - nd, |Part(out, n, j)| + 1) + Spot(out, n, j)
    ensures var h := |Part(out, n, j)|;
            LeadsTo(Insertions(s, pos, nd, id, bias, Part(out, n, j)),
                    Insertions(s, pos + |Digits(delta, BASE, bias)|, n, Spot(out, n, j) + 1,
                               Adapt(delta, h + 1, id == 0), Part(out, n, j + 1)),
                    PeakBound(out, top))
  {
    hide Part, Spot, Digits, Insertions, Adapt, Insert, PeakBound, Product, SpelledAt;
    PartNext(out, n, j);
    PeakBounded(out, top, n, nd, |Part(out, n, j)|, Spot(out, n, j));
    OneInsertion(s, pos, nd, id, bias, Part(out, n, j), delta, n, Spot(out, n, j));
  }

  lemma TimesOne(n: nat)
    ensures Product(n, 1) == n
  {
  }

  /** The decoder is as far as the encoder: its last code point and position account for `delta`. */
  ghost predicate InStep(out: seq<nat>, n: nat, j: nat, delta: nat, h: nat, b: nat, nd: nat, id: nat) {
    && j <= |out| && h == |Part(out, n, j)| && b <= h && 0x80 <= nd <= n && (id == 0 <==> h == b)
    && delta + id == Product(n - nd, h + 1) + Spot(out, n, j)
  }

  /** A pass of the encoder, decoded. */
  lemma {:induction false} PassDecoded(s: seq<Byte>, pos: nat, out: seq<nat>, top: nat, n: nat, j: nat, delta: nat,
                                       bias: nat, h: nat, b: nat, nd: nat, id: nat)
    returns (nd': nat, id': nat)
    requires InStep(out, n, j, delta, h, b, nd, id) && n <= top
    requires SpelledAt(s, pos, Pass(out, n, j, delta, bias, h, b).digits)
    ensures var run := Pass(out, n, j, delta, bias, h, b);
            && InStep(out, n, |out|, run.delta, run.h, b, nd', id')
            && LeadsTo(Insertions(s, pos, nd, id, bias, Part(out, n, j)),
                       Insertions(s, pos + |run.digits|, nd', id', run.bias, Part(out, n, |out|)),
                       PeakBound(out, top))
    decreases |out| - j
  {
    hide Part, Spot, Digits, Insertions, Adapt, Insert, PeakBound, Product, SpelledAt;
    if j == |out| {
      nd', id' := nd, id;
    } else {
      PartNext(out, n, j);
      if out[j] < n {
        nd', id' := PassDecoded(s, pos, out, top, n, j + 1, delta + 1, bias, h, b, nd, id);
      } else if out[j] == n {
        var bias' := Adapt(delta, h + 1, h == b);
        var ds, rest := Digits(delta, BASE, bias), Pass(out, n, j + 1, 0, bias', h + 1, b);
        SpelledParts(s, pos, ds, rest.digits);
        ReadBack(s, pos, out, top, n, j, nd, id, delta, bias);
        NothingYet(h + 2);
        nd', id' := PassDecoded(s, pos + |ds|, out, top, n, j + 1, 0, bias', h + 1, b, n, Spot(out, n, j) + 1);
      } else {
        nd', id' := PassDecoded(s, pos, out, top, n, j + 1, delta, bias, h, b, nd, id);
      }
    }
  }

  lemma NothingYet(n: nat)
    ensures Product(0, n) == 0
  {
  }

  /** All passes, decoded. */
  lemma {:induction false} PassesDecoded(s: seq<Byte>, pos: nat, out: seq<nat>, top: nat, n: nat, delta: nat,
                                         bias: nat, h: nat, b: nat, nd: nat, id: nat)
    requires InStep(out, n, 0, delta, h, b, nd, id) && forall k :: 0 <= k < |out| ==> out[k] <= top
    requires SpelledAt(s, pos, Passes(out, n, delta, bias, h, b)) && |s| == pos + |Passes(out, n, delta, bias, h, b)|
    ensures LeadsTo(Insertions(s, pos, nd, id, bias, Keep(out, n)), Done(out, 0), PeakBound(out, top))
    decreases Above(out) - n
  {
    hide Part, Spot, Insertions, PeakBound, Product, SpelledAt, Keep, InStep;
    PartEnds(out, n);
    if !SomeFrom(out, n) {
      KeepAll(out, n);
      AtEnd(s, pos, nd, id, bias, out);
    } else {
      var m := Least(out, n);
      KeepSame(out, n, m);
      PartEnds(out, m);
      var delta' := delta + Product(m - n, h + 1);
      NextPass(out, n, m, delta, h, b, nd, id);
      var run := Pass(out, m, 0, delta', bias, h, b);
      SpelledParts(s, pos, run.digits, Passes(out, m + 1, run.delta + 1, run.bias, run.h, b));
      var nd', id' := PassDecoded(s, pos, out, top, m, 0, delta', bias, h, b, nd, id);
      PassOver(out, m, run.delta, run.h, b, nd', id');
      PartEnds(out, m + 1);
      PassesDecoded(s, pos + |run.digits|, out, top, m + 1, run.delta + 1, run.bias, run.h, b, nd', id');
    }
  }

  lemma AtEnd(s: seq<Byte>, pos: nat, nd: nat, id: nat, bias: nat, out: seq<nat>)
    requires pos >= |s|
    ensures Insertions(s, pos, nd, id, bias, out) == Done(out, 0)
  {
  }

  /** On to the next code point that occurs. */
  lemma NextPass(out: seq<nat>, n: nat, m: nat, delta: nat, h: nat, b: nat, nd: nat, id: nat)
    requires InStep(out, n, 0, delta, h, b, nd, id) && n <= m && Keep(out, n) == Keep(out, m)
    ensures InStep(out, m, 0, delta + Product(m - n, h + 1), h, b, nd, id)
  {
    hide Keep;
    PartEnds(out, n);
    PartEnds(out, m);
    Distribute(m - n, n - nd, h + 1);
  }

  /** On to the next code point at all. */
  lemma PassOver(out: seq<nat>, n: nat, delta: nat, h: nat, b: nat, nd: nat, id: nat)
    requires InStep(out, n, |out|, delta, h, b, nd, id)
    ensures InStep(out, n + 1, 0, delta + 1, h, b, nd, id)
  {
    hide Keep;
    PartEnds(out, n);
    PartEnds(out, n + 1);
    Distribute(n - nd, 1, h + 1);
  }

  /** The decoder takes an encoded string back to what it encodes. */
  lemma RoundTrip(s: seq<Byte>, out: seq<nat>, top: nat)
    requires Encodes(s, out) && forall k :: 0 <= k < |out| ==> out[k] <= top
    ensures Decode(s).Done? && Decode(s).output == out && Decode(s).peak <= PeakBound(out, top)
  {
    hide Keep, Insertions, PeakBound, SpelledAt, Basic, Passes;
    var basic := Basic(out);
    KeepBasic(out);
    PartEnds(out, INITIAL_N);
    NothingYet(|basic| + 1);
    CountEncoded(s, out);
    BasicsSmall(out);
    assert s[..|basic|] == basic;
    assert InStep(out, INITIAL_N, 0, 0, |basic|, |basic|, INITIAL_N, 0);
    PassesDecoded(s, Start(|basic|), out, top, INITIAL_N, 0, INITIAL_BIAS, |basic|, |basic|, INITIAL_N, 0);
  }

  lemma {:induction false} BasicsSmall(out: seq<nat>)
    ensures forall k :: 0 <= k < |Basic(out)| ==> Basic(out)[k] < 0x80
  {
    if out != [] {
      BasicsSmall(out[..|out| - 1]);
    }
  }

  lemma CountEncoded(s: seq<Byte>, out: seq<nat>)
    requires Encodes(s, out)
    ensures BasicCount(s) == |Basic(out)|
  {
    hide Basic, Extended, Spells;
    var b, start := |Basic(out)|, Start(|Basic(out)|);
    forall p | start <= p < |s| ensures s[p] != DELIMITER {
      assert Spells(s[start + (p - start)], Extended(out)[p - start]);
      SpelledDigit(s[p], Extended(out)[p - start]);
    }
    LastDelimiter(s, b);
  }

  lemma LastDelimiter(s: seq<Byte>, b: nat)
    requires if b > 0 then b < |s| && s[b] == DELIMITER else s == [] || s[0] != DELIMITER
    requires forall p :: b < p < |s| ==> s[p] != DELIMITER
    ensures BasicCount(s) == b
  {
  }

  // ---------- Encoded labels ----------

  function BasicBytes(out: seq<nat>): (r: seq<Byte>)
    ensures |r| == |Basic(out)| && forall k :: 0 <= k < |r| ==> r[k] == Basic(out)[k]
  {
    BasicsSmall(out);
    var basic := Basic(out);
    seq(|basic|, k requires 0 <= k < |basic| => basic[k])
  }

  function Letters(ds: seq<nat>): (r: seq<Byte>)
    requires forall m :: 0 <= m < |ds| ==> ds[m] < 36
    ensures |r| == |ds| && forall m :: 0 <= m < |ds| ==> r[m] == LetterOf(ds[m])
  {
    seq(|ds|, m requires 0 <= m < |ds| => LetterOf(ds[m]))
  }

  function LetterOf(d: nat): (c: Byte)
    requires d < 36
    ensures Spells(c, d)
  {
    DIGITS[d] as int
  }

  /** Section 6.3, with lower-case digits. */
  function Encode(out: seq<nat>): seq<Byte> {
    BasicBytes(out) + (if Basic(out) != [] then [DELIMITER] else []) + Letters(Extended(out))
  }

  lemma EncodeEncodes(out: seq<nat>)
    ensures Encodes(Encode(out), out)
  {
    hide Basic, Extended, Spells, LetterOf;
    var start := Start(|Basic(out)|);
    forall m | 0 <= m < |Extended(out)| ensures Spells(Encode(out)[start + m], Extended(out)[m]) {
      assert Encode(out)[start + m] == LetterOf(Extended(out)[m]);
    }
  }

  /** A label, at most 63 Unicode code points, stays within 32 bits on the way back. */
  lemma LabelFits(s: seq<Byte>, out: seq<nat>, maxOut: nat)
    requires Encodes(s, out) && |out| <= 63 && |out| <= maxOut && forall k :: 0 <= k < |out| ==> out[k] <= 0x10FFFF
    ensures Fits(Decode(s), maxOut)
  {
    hide Encodes;
    RoundTrip(s, out, 0x10FFFF);
    MulMonotone(|out|, 63, 0x11_0000);
    assert Product(0x11_0000, |out|) == |out| * 0x11_0000;
  }

  /** `ossl_punycode_decode` gives back every label that was encoded, whatever the case of the digits. */
  method DecodeLabel(s: seq<Byte>, ghost out: seq<nat>) returns (ok: bool, back: seq<nat>)
    requires Encodes(s, out) && |s| <= MAXINT && |out| <= 63 && forall k :: 0 <= k < |out| ==> out[k] <= 0x10FFFF
    ensures ok && back == out
  {
    hide Encodes;
    LabelFits(s, out, 512);
    RoundTrip(s, out, 0x10FFFF);
    var buf := new nat[512];
    var outLen;
    ok, outLen := PunycodeDecode(s, buf, 512);
    back := buf[..outLen];
  }
}
