/** Numbers in parameters worked out by hand (crypto/params.c): bytes in both orders, the limits of
    the integer types, and what is stored and refused. */
module KnownParams {
  import opened BigEndian
  import opened Doubles
  import opened TwosComplement
  import opened Params

  /** Two bytes, in the order of a big-endian or a little-endian machine. */
  function Pair(big: bool, high: Byte, low: Byte): seq<Byte> {
    if big then [high, low] else [low, high]
  }

  lemma PairIs(big: bool, high: Byte, low: Byte)
    ensures Number(UnsignedInteger, big, Pair(big, high, low)) == 256 * high + low
    ensures Number(SignedInteger, big, Pair(big, high, low)) ==
            256 * high + low - if high >= 0x80 then 0x1_0000 else 0
  {
    var b := [high, low];
    assert Ordered(big, Pair(big, high, low)) == b;
    assert b[..1] == [high] && [high][..0] == [];
    assert Value([high]) == high;
    assert Pow256(1) == 0x100 && Pow256(2) == 0x1_0000;
  }

  /** The limits of the integer types of 4 and 8 bytes. */
  lemma Limits(v: int)
    ensures InRange(SignedInteger, 4, v) <==> -2147483648 <= v <= 2147483647
    ensures InRange(UnsignedInteger, 4, v) <==> 0 <= v <= 4294967295
    ensures InRange(SignedInteger, 8, v) <==> -9223372036854775808 <= v <= 9223372036854775807
    ensures InRange(UnsignedInteger, 8, v) <==> 0 <= v <= 18446744073709551615
    ensures Takes(RealNumber, 8, v) <==> -9007199254740991 <= v <= 9007199254740991
  {
    Sizes();
    hide Half, Pow256;
  }

  /** The bytes FF FE as a signed and as an unsigned number. */
  method ReadPair(big: bool) returns (ok: bool, minusTwo: int, refused: bool, ok': bool, large: int)
    ensures ok && minusTwo == -2 && !refused && ok' && large == 65534
  {
    hide Number, InRange;
    var bytes := Pair(big, 0xFF, 0xFE);
    var data := new Byte[2](i requires 0 <= i < 2 => bytes[i]);
    assert data[..] == bytes;
    PairIs(big, 0xFF, 0xFE);
    Limits(-2);
    Limits(65534);
    var signed := new Param(SignedInteger, data);
    var unsigned := new Param(UnsignedInteger, data);
    ok, minusTwo := GetInt32(big, signed);
    var ignored;
    refused, ignored := GetUint32(big, signed);
    ok', large := GetInt32(big, unsigned);
  }

  /** Minus two is stored in two bytes as FF FE, not at all in an unsigned number, and 256 not in
      one byte. */
  method WritePair(big: bool) returns (ok: bool, out: seq<Byte>, refused: bool, tooLarge: bool, kept: seq<Byte>)
    ensures ok && out == Pair(big, 0xFF, 0xFE) && !refused && !tooLarge && kept == [7]
  {
    hide Number;
    var data := new Byte[2](_ => 0);
    PairIs(big, 0xFF, 0xFE);
    Limits(-2);
    var signed := new Param(SignedInteger, data);
    var unsigned := new Param(UnsignedInteger, data);
    ok := SetInt32(big, signed, -2);
    out := data[..];
    SameBytes(SignedInteger, big, out, Pair(big, 0xFF, 0xFE));
    refused := SetInt32(big, unsigned, -2);
    var one := new Byte[1](_ => 7);
    var small := new Param(UnsignedInteger, one);
    Limits(256);
    tooLarge := SetUint32(big, small, 256);
    kept := one[..];
  }
}
