/** Labels decoded by hand: an example of section 7.1 of RFC 3492 and a shorter one.  They fix the
    parameters of section 5 and the bias adaptation of section 6.1. */
module KnownLabels {
  import opened BigEndian
  import opened Punycode
  import opened PunycodeEncoder

  /** One insertion on the way to `whole`. */
  lemma Step(s: seq<Byte>, pos: nat, n: nat, i: nat, bias: nat, out: seq<nat>, delta: nat, ds: seq<nat>, n': nat,
             j: nat, bias': nat, out': seq<nat>, whole: seq<nat>)
    requires Digits(delta, BASE, bias) == ds && SpelledAt(s, pos, ds) && 0x80 <= n <= n' && j <= |out|
    requires delta + i == Product(n' - n, |out| + 1) + j
    requires bias' == Adapt(delta, |out| + 1, i == 0) && out' == Insert(out, j, n')
    requires Insertions(s, pos + |ds|, n', j + 1, bias', out').Done?
    requires Insertions(s, pos + |ds|, n', j + 1, bias', out').output == whole
    ensures Insertions(s, pos, n, i, bias, out).Done? && Insertions(s, pos, n, i, bias, out).output == whole
  {
    hide Digits, Insertions, Adapt, Insert, SpelledAt;
    OneInsertion(s, pos, n, i, bias, out, delta, n', j);
  }

  lemma FirstDigit(q: nat, k: nat, bias: nat, t: nat, d: nat, rest: nat)
    requires t == Threshold(k, bias) <= q && d == t + (q - t) % (36 - t) && rest == (q - t) / (36 - t)
    ensures Digits(q, k, bias) == [d] + Digits(rest, k + 36, bias)
  {
    hide Threshold;
  }

  lemma LastDigitOf(q: nat, k: nat, bias: nat)
    requires q < Threshold(k, bias)
    ensures Digits(q, k, bias) == [q]
  {
    hide Threshold;
  }

  lemma ShrinkMore(delta: nat, k: nat, d: nat)
    requires delta > 455 && d == delta / 35
    ensures Scaled(delta, k) == Scaled(d, k + 36)
  {
  }

  lemma ShrunkEnough(delta: nat, k: nat, d: nat)
    requires delta <= 455 && d == (36 * delta) / (delta + 38)
    ensures Scaled(delta, k) == k + d
  {
  }

  // ---------- "mnchen-3ya" ----------

  lemma Munich(s: seq<Byte>)
    requires s == [0x6D, 0x6E, 0x63, 0x68, 0x65, 0x6E, 0x2D, 0x33, 0x79, 0x61]
    ensures Decode(s).Done? && Decode(s).output == [0x6D, 0xFC, 0x6E, 0x63, 0x68, 0x65, 0x6E]
  {
    hide Digits, Insertions, Adapt, Insert, Spells;
    var basic: seq<nat> := [0x6D, 0x6E, 0x63, 0x68, 0x65, 0x6E];
    assert s[..6] == basic;
    LastDelimiter(s, 6);
    MunichDigits();
    MunichSpelled(s);
    InsertBetween([0x6D], [0x6E, 0x63, 0x68, 0x65, 0x6E], 0xFC);
    assert [0x6D] + [0x6E, 0x63, 0x68, 0x65, 0x6E] == basic;
    OneInsertion(s, 7, INITIAL_N, 0, INITIAL_BIAS, basic, 869, 0xFC, 1);
    AtEnd(s, 10, 0xFC, 2, Adapt(869, 7, true), Insert(basic, 1, 0xFC));
  }

  lemma MunichSpelled(s: seq<Byte>)
    requires |s| == 10 && s[7] == 0x33 && s[8] == 0x79 && s[9] == 0x61
    ensures SpelledAt(s, 7, [29, 24, 0])
  {
    hide Spells;
    Numeral(3);
    Letter(24);
    Letter(0);
  }

  lemma MunichDigits()
    ensures Digits(869, BASE, INITIAL_BIAS) == [29, 24, 0]
  {
    hide Digits;
    LastDigitOf(0, 108, 72);
    FirstDigit(24, 72, 72, 1, 24, 0);
    FirstDigit(869, 36, 72, 1, 29, 24);
  }

  lemma Letter(d: nat)
    requires d < 26
    ensures Spells(0x61 + d, d)
  {
  }

  lemma Numeral(d: nat)
    requires d < 10
    ensures Spells(0x30 + d, 26 + d)
  {
  }

  // ---------- Example (L) of section 7.1 ----------

  /** "3B-ww4c5e180e575a65lsy2b" */
  function Label(): seq<Byte> {
    [0x33, 0x42, 0x2D, 0x77, 0x77, 0x34, 0x63, 0x35, 0x65, 0x31, 0x38, 0x30, 0x65, 0x35, 0x37, 0x35,
     0x61, 0x36, 0x35, 0x6C, 0x73, 0x79, 0x32, 0x62]
  }

  lemma LabelFrom0()
    ensures |Label()| == 24
    ensures Label()[0] == 0x33 && Label()[1] == 0x42 && Label()[2] == 0x2D
    ensures Label()[3] == 0x77 && Label()[4] == 0x77 && Label()[5] == 0x34
  {
  }

  lemma LabelFrom6()
    ensures |Label()| == 24
    ensures Label()[6] == 0x63 && Label()[7] == 0x35 && Label()[8] == 0x65
    ensures Label()[9] == 0x31 && Label()[10] == 0x38 && Label()[11] == 0x30
  {
  }

  lemma LabelFrom12()
    ensures |Label()| == 24
    ensures Label()[12] == 0x65 && Label()[13] == 0x35 && Label()[14] == 0x37
    ensures Label()[15] == 0x35 && Label()[16] == 0x61 && Label()[17] == 0x36
  {
  }

  lemma LabelFrom18()
    ensures |Label()| == 24
    ensures Label()[18] == 0x35 && Label()[19] == 0x6C && Label()[20] == 0x73
    ensures Label()[21] == 0x79 && Label()[22] == 0x32 && Label()[23] == 0x62
  {
  }

  lemma LabelBytes()
    ensures |Label()| == 24
    ensures Label()[0] == 0x33 && Label()[1] == 0x42 && Label()[2] == 0x2D && Label()[3] == 0x77
    ensures Label()[4] == 0x77 && Label()[5] == 0x34 && Label()[6] == 0x63 && Label()[7] == 0x35
    ensures Label()[8] == 0x65 && Label()[9] == 0x31 && Label()[10] == 0x38 && Label()[11] == 0x30
    ensures Label()[12] == 0x65 && Label()[13] == 0x35 && Label()[14] == 0x37 && Label()[15] == 0x35
    ensures Label()[16] == 0x61 && Label()[17] == 0x36 && Label()[18] == 0x35 && Label()[19] == 0x6C
    ensures Label()[20] == 0x73 && Label()[21] == 0x79 && Label()[22] == 0x32 && Label()[23] == 0x62
  {
    hide Label;
    LabelFrom0();
    LabelFrom6();
    LabelFrom12();
    LabelFrom18();
  }

  lemma LabelCount()
    ensures BasicCount(Label()) == 2
  {
    hide Label;
    LabelBytes();
    LastDelimiter(Label(), 2);
  }

  const KINPACHI: seq<nat> := [0x33, 0x5E74, 0x42, 0x7D44, 0x91D1, 0x516B, 0x5148, 0x751F]

  lemma SixthSpelled()
    ensures SpelledAt(Label(), 20, [18, 24, 28, 1])
  {
    hide Label, Spells;
    LabelBytes();
    Letter(1);
    Letter(18);
    Letter(24);
    Numeral(2);
  }

  lemma SixthDigits()
    ensures Digits(42088, BASE, 67) == [18, 24, 28, 1]
  {
    hide Digits;
    LastDigitOf(1, 144, 67);
    FirstDigit(38, 108, 67, 26, 28, 1);
    FirstDigit(1202, 72, 67, 5, 24, 38);
    FirstDigit(42088, 36, 67, 1, 18, 1202);
  }

  lemma SixthBias()
    ensures Adapt(42088, 8, false) == 84
  {
    hide Scaled;
    assert Quotient(21044, 8) == 2630;
    ShrunkEnough(19, 72, 12);
    ShrinkMore(676, 36, 19);
    ShrinkMore(23674, 0, 676);
  }

  lemma Sixth()
    ensures var o := Insertions(Label(), 20, 0x7D44, 4, 67, [0x33, 0x5E74, 0x42, 0x7D44, 0x516B, 0x5148, 0x751F]);
            o.Done? && o.output == KINPACHI
  {
    hide SpelledAt, Digits, Insertions, Adapt, Label;
    LabelBytes();
    AtEnd(Label(), 24, 0x91D1, 5, 84, KINPACHI);
    SixthSpelled();
    SixthDigits();
    SixthBias();
    var before := [0x33, 0x5E74, 0x42, 0x7D44, 0x516B, 0x5148, 0x751F];
    InsertBetween([0x33, 0x5E74, 0x42, 0x7D44], [0x516B, 0x5148, 0x751F], 0x91D1);
    assert [0x33, 0x5E74, 0x42, 0x7D44] + [0x516B, 0x5148, 0x751F] == before;
    Step(Label(), 20, 0x7D44, 4, 67, before, 42088, [18, 24, 28, 1], 0x91D1, 4, 84,
         [0x33, 0x5E74, 0x42, 0x7D44, 0x91D1, 0x516B, 0x5148, 0x751F], KINPACHI);
  }

  lemma FifthSpelled()
    ensures SpelledAt(Label(), 17, [32, 31, 11])
  {
    hide Label, Spells;
    LabelBytes();
    Letter(11);
    Numeral(5);
    Numeral(6);
  }

  lemma FifthDigits()
    ensures Digits(14592, BASE, 82) == [32, 31, 11]
  {
    hide Digits;
    LastDigitOf(11, 108, 82);
    FirstDigit(416, 72, 82, 1, 31, 11);
    FirstDigit(14592, 36, 82, 1, 32, 416);
  }

  lemma FifthBias()
    ensures Adapt(14592, 7, false) == 67
  {
    hide Scaled;
    assert Quotient(7296, 7) == 1042;
    ShrunkEnough(238, 36, 31);
    ShrinkMore(8338, 0, 238);
  }

  lemma Fifth()
    ensures var o := Insertions(Label(), 17, 0x751F, 6, 82, [0x33, 0x5E74, 0x42, 0x516B, 0x5148, 0x751F]);
            o.Done? && o.output == KINPACHI
  {
    hide SpelledAt, Digits, Insertions, Adapt, Label;
    Sixth();
    FifthSpelled();
    FifthDigits();
    FifthBias();
    var before := [0x33, 0x5E74, 0x42, 0x516B, 0x5148, 0x751F];
    InsertBetween([0x33, 0x5E74, 0x42], [0x516B, 0x5148, 0x751F], 0x7D44);
    assert [0x33, 0x5E74, 0x42] + [0x516B, 0x5148, 0x751F] == before;
    Step(Label(), 17, 0x751F, 6, 82, before, 14592, [32, 31, 11], 0x7D44, 3, 67,
         [0x33, 0x5E74, 0x42, 0x7D44, 0x516B, 0x5148, 0x751F], KINPACHI);
  }

  lemma FourthSpelled()
    ensures SpelledAt(Label(), 13, [31, 33, 31, 0])
  {
    hide Label, Spells;
    LabelBytes();
    Letter(0);
    Numeral(5);
    Numeral(7);
  }

  lemma FourthDigits()
    ensures Digits(34821, BASE, 67) == [31, 33, 31, 0]
  {
    hide Digits;
    LastDigitOf(0, 144, 67);
    FirstDigit(31, 108, 67, 26, 31, 0);
    FirstDigit(994, 72, 67, 5, 33, 31);
    FirstDigit(34821, 36, 67, 1, 31, 994);
  }

  lemma FourthBias()
    ensures Adapt(34821, 6, false) == 82
  {
    hide Scaled;
    assert Quotient(17410, 6) == 2901;
    ShrunkEnough(16, 72, 10);
    ShrinkMore(580, 36, 16);
    ShrinkMore(20311, 0, 580);
  }

  lemma Fourth()
    ensures var o := Insertions(Label(), 13, 0x5E74, 2, 67, [0x33, 0x5E74, 0x42, 0x516B, 0x5148]);
            o.Done? && o.output == KINPACHI
  {
    hide SpelledAt, Digits, Insertions, Adapt, Label;
    Fifth();
    FourthSpelled();
    FourthDigits();
    FourthBias();
    var before := [0x33, 0x5E74, 0x42, 0x516B, 0x5148];
    InsertBetween([0x33, 0x5E74, 0x42, 0x516B, 0x5148], [], 0x751F);
    assert [0x33, 0x5E74, 0x42, 0x516B, 0x5148] + [] == before;
    Step(Label(), 13, 0x5E74, 2, 67, before, 34821, [31, 33, 31, 0], 0x751F, 5, 82,
         [0x33, 0x5E74, 0x42, 0x516B, 0x5148, 0x751F], KINPACHI);
  }

  lemma ThirdSpelled()
    ensures SpelledAt(Label(), 9, [27, 34, 26, 4])
  {
    hide Label, Spells;
    LabelBytes();
    Letter(4);
    Numeral(0);
    Numeral(1);
    Numeral(8);
  }

  lemma ThirdDigits()
    ensures Digits(16683, BASE, 24) == [27, 34, 26, 4]
  {
    hide Digits;
    LastDigitOf(4, 144, 24);
    FirstDigit(66, 108, 24, 26, 26, 4);
    FirstDigit(694, 72, 24, 26, 34, 66);
    FirstDigit(16683, 36, 24, 12, 27, 694);
  }

  lemma ThirdBias()
    ensures Adapt(16683, 5, false) == 67
  {
    hide Scaled;
    assert Quotient(8341, 5) == 1668;
    ShrunkEnough(285, 36, 31);
    ShrinkMore(10009, 0, 285);
  }

  lemma Third()
    ensures var o := Insertions(Label(), 9, 0x516B, 3, 24, [0x33, 0x42, 0x516B, 0x5148]);
            o.Done? && o.output == KINPACHI
  {
    hide SpelledAt, Digits, Insertions, Adapt, Label;
    Fourth();
    ThirdSpelled();
    ThirdDigits();
    ThirdBias();
    var before := [0x33, 0x42, 0x516B, 0x5148];
    InsertBetween([0x33], [0x42, 0x516B, 0x5148], 0x5E74);
    assert [0x33] + [0x42, 0x516B, 0x5148] == before;
    Step(Label(), 9, 0x516B, 3, 24, before, 16683, [27, 34, 26, 4], 0x5E74, 1, 67,
         [0x33, 0x5E74, 0x42, 0x516B, 0x5148], KINPACHI);
  }

  lemma SecondSpelled()
    ensures SpelledAt(Label(), 7, [31, 4])
  {
    hide Label, Spells;
    LabelBytes();
    Letter(4);
    Numeral(5);
  }

  lemma SecondDigits()
    ensures Digits(139, BASE, 27) == [31, 4]
  {
    hide Digits;
    LastDigitOf(4, 72, 27);
    FirstDigit(139, 36, 27, 9, 31, 4);
  }

  lemma SecondBias()
    ensures Adapt(139, 4, false) == 24
  {
    hide Scaled;
    assert Quotient(69, 4) == 17;
    ShrunkEnough(86, 0, 24);
  }

  lemma Second()
    ensures var o := Insertions(Label(), 7, 0x5148, 3, 27, [0x33, 0x42, 0x5148]);
            o.Done? && o.output == KINPACHI
  {
    hide SpelledAt, Digits, Insertions, Adapt, Label;
    Third();
    SecondSpelled();
    SecondDigits();
    SecondBias();
    var before := [0x33, 0x42, 0x5148];
    InsertBetween([0x33, 0x42], [0x5148], 0x516B);
    assert [0x33, 0x42] + [0x5148] == before;
    Step(Label(), 7, 0x5148, 3, 27, before, 139, [31, 4], 0x516B, 2, 24,
         [0x33, 0x42, 0x516B, 0x5148], KINPACHI);
  }

  lemma FirstSpelled()
    ensures SpelledAt(Label(), 3, [22, 22, 30, 2])
  {
    hide Label, Spells;
    LabelBytes();
    Letter(2);
    Letter(22);
    Numeral(4);
  }

  lemma FirstDigits()
    ensures Digits(62042, BASE, 72) == [22, 22, 30, 2]
  {
    hide Digits;
    LastDigitOf(2, 144, 72);
    FirstDigit(50, 108, 72, 26, 30, 2);
    FirstDigit(1772, 72, 72, 1, 22, 50);
    FirstDigit(62042, 36, 72, 1, 22, 1772);
  }

  lemma FirstBias()
    ensures Adapt(62042, 3, true) == 27
  {
    hide Scaled;
    assert Quotient(88, 3) == 29;
    ShrunkEnough(117, 0, 27);
  }

  lemma First()
    ensures var o := Insertions(Label(), 3, 0x80, 0, 72, [0x33, 0x42]);
            o.Done? && o.output == KINPACHI
  {
    hide SpelledAt, Digits, Insertions, Adapt, Label;
    Second();
    FirstSpelled();
    FirstDigits();
    FirstBias();
    var before := [0x33, 0x42];
    InsertBetween([0x33, 0x42], [], 0x5148);
    assert [0x33, 0x42] + [] == before;
    Step(Label(), 3, 0x80, 0, 72, before, 62042, [22, 22, 30, 2], 0x5148, 2, 27,
         [0x33, 0x42, 0x5148], KINPACHI);
  }

  lemma Kinpachi()
    ensures Decode(Label()).Done? && Decode(Label()).output == KINPACHI
  {
    hide Insertions, Label;
    LabelBytes();
    LabelCount();
    assert Label()[..2] == [0x33, 0x42];
    First();
  }

  // ---------- The largest code point ----------

  /** One digit of an integer that goes on. */
  lemma OneDigit(s: seq<Byte>, pos: nat, i: nat, w: nat, k: nat, d: nat, t: nat, next: Integer)
    requires pos < |s| && Spells(s[pos], d) && t == Threshold(k, INITIAL_BIAS) <= d && next.Integer?
    requires next == ReadInteger(s, pos + 1, i + Product(d, w), Product(w, 36 - t), k + 36, INITIAL_BIAS)
    ensures ReadInteger(s, pos, i, w, k, INITIAL_BIAS) ==
            Integer(next.i, next.pos, Max(next.peak, Max(i + Product(d, w), w)))
  {
    hide Threshold, Spells, Product;
    SpelledDigit(s[pos], d);
  }

  lemma FinalDigit(s: seq<Byte>, pos: nat, i: nat, w: nat, k: nat)
    requires pos < |s| && Spells(s[pos], 0)
    ensures ReadInteger(s, pos, i, w, k, INITIAL_BIAS) == Integer(i, pos + 1, Max(i, w))
  {
    hide Spells;
    SpelledDigit(s[pos], 0);
  }

  /** "902716a", after two digits. */
  lemma LastSeven(s: seq<Byte>, i: nat)
    requires |s| == 9 && s[2..] == [0x39, 0x30, 0x32, 0x37, 0x31, 0x36, 0x61]
    ensures ReadInteger(s, 2, i, 1225, 108, INITIAL_BIAS) == Integer(i + 4294966375, 9, i + 4294966375)
  {
    hide Spells, ReadInteger;
    assert forall k :: 2 <= k < 9 ==> s[k] == s[2..][k - 2];
    Letter(0);
    Numeral(0);
    Numeral(1);
    Numeral(2);
    Numeral(6);
    Numeral(7);
    Numeral(9);
    FinalDigit(s, 8, i + 4294966375, 1225000000, 324);
    OneDigit(s, 7, i + 374966375, 122500000, 288, 32, 26, Integer(i + 4294966375, 9, i + 4294966375));
    OneDigit(s, 6, i + 44216375, 12250000, 252, 27, 26, Integer(i + 4294966375, 9, i + 4294966375));
    OneDigit(s, 5, i + 3791375, 1225000, 216, 33, 26, Integer(i + 4294966375, 9, i + 4294966375));
    OneDigit(s, 4, i + 361375, 122500, 180, 28, 26, Integer(i + 4294966375, 9, i + 4294966375));
    OneDigit(s, 3, i + 42875, 12250, 144, 26, 26, Integer(i + 4294966375, 9, i + 4294966375));
    OneDigit(s, 2, i, 1225, 108, 35, 26, Integer(i + 4294966375, 9, i + 4294966375));
  }

  /** "ww902716a" and "xw902716a": the largest code point that is an unsigned int, and one more. */
  lemma LargestCodePoint(s: seq<Byte>)
    requires |s| == 9 && (s[0] == 0x77 || s[0] == 0x78) && s[1] == 0x77
    requires s[2..] == [0x39, 0x30, 0x32, 0x37, 0x31, 0x36, 0x61]
    ensures Fits(Decode(s), 1) <==> s[0] == 0x77
    ensures s[0] == 0x77 ==> Decode(s).output == [0xFFFF_FFFF]
  {
    hide Spells, ReadInteger, Insertions;
    var d := if s[0] == 0x77 then 22 else 23;
    Letter(22);
    Letter(23);
    LastSeven(s, d + 770);
    OneDigit(s, 1, d, 35, 72, 22, 1, Integer(d + 4294967145, 9, d + 4294967145));
    OneDigit(s, 0, 0, 1, 36, d, 1, Integer(d + 4294967145, 9, d + 4294967145));
    assert forall k :: 2 <= k < 9 ==> s[k] == s[2..][k - 2];
    LastDelimiter(s, 0);
    OnlyInsertion(s, Integer(d + 4294967145, 9, d + 4294967145));
  }

  lemma OnlyInsertion(s: seq<Byte>, r: Integer)
    requires |s| == 9 && r.Integer? && r.pos == 9 && r == ReadInteger(s, 0, 0, 1, 36, INITIAL_BIAS)
    requires BasicCount(s) == 0
    ensures Decode(s) == Done([0x80 + r.i], Max(r.peak, 0x80 + r.i))
  {
    hide ReadInteger, Insertions, Adapt, Insert;
    Unfolded(s, 0, 0x80, 0, INITIAL_BIAS, [], r);
    AfterIs(s, 0x80, 0, INITIAL_BIAS, [], r);
    Alone(r.i);
    AtEnd(s, 9, 0x80 + r.i, 1, Adapt(r.i, 1, true), [0x80 + r.i]);
  }

  lemma Alone(i: nat)
    ensures Quotient(i, 1) == i && Remainder(i, 1) == 0 && Insert([], 0, 0x80 + i) == [0x80 + i]
  {
  }
}
