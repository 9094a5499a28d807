/** Decoding DER signatures, crypto/asn1_dsa.c, with the read cursors of include/internal/packet.h. */
module DerDecoder {
  import opened BigEndian
  import opened PacketFrames
  import opened DerWriter
  import opened DerSignature

  // ---------- What decoding means ----------

  datatype Option<T> = None | Some(value: T)

  /** The first `n` bytes and the rest. */
  function Split(s: seq<Byte>, n: nat): Option<(seq<Byte>, seq<Byte>)> {
    if n <= |s| then Some((s[..n], s[n..])) else None
  }

  /** Two bytes in network order. */
  function Net2(a: nat, b: nat): nat {
    a * 256 + b
  }

  /** Length and contents, and what follows: lengths of at most two bytes, not necessarily minimal. */
  function DecodeLength(s: seq<Byte>): Option<(seq<Byte>, seq<Byte>)> {
    if s == [] then None
    else if s[0] < 0x80 then Split(s[1..], s[0])
    else if s[0] == 0x81 && |s| >= 2 then Split(s[2..], s[1])
    else if s[0] == 0x82 && |s| >= 3 then Split(s[3..], Net2(s[1], s[2]))
    else None
  }

  /** Contents of a non-negative INTEGER without needless leading zeros. */
  predicate Minimal(c: seq<Byte>) {
    |c| >= 1 && c[0] < 0x80 && (c[0] == 0 && |c| >= 2 ==> c[1] >= 0x80)
  }

  function DecodeInteger(s: seq<Byte>): Option<(nat, seq<Byte>)> {
    if s == [] || s[0] != ID_INTEGER then None
    else
      match DecodeLength(s[1..])
      case None => None
      case Some((c, rest)) => if Minimal(c) then Some((Value(c), rest)) else None
  }

  function DecodeSig(s: seq<Byte>): Option<(nat, nat, seq<Byte>)> {
    if s == [] || s[0] != ID_SEQUENCE then None
    else
      match DecodeLength(s[1..])
      case None => None
      case Some((c, rest)) =>
        match DecodeInteger(c)
        case None => None
        case Some((r, more)) =>
          match DecodeInteger(more)
          case None => None
          case Some((t, left)) => if left == [] then Some((r, t, rest)) else None
  }

  // ---------- Decoding undoes encoding ----------

  lemma TwoBytes(n: nat)
    requires n <= 0xffff
    ensures Bytes(n, 2) == [n / 256, n % 256]
  {
    assert Bytes(n / 256, 1) == Bytes(0, 0) + [n / 256];
  }

  lemma ShortForms(n: nat)
    requires n <= 0xffff
    ensures DerLength(n) == if n <= 0x7f then [n] else if n <= 0xff then [0x81, n] else [0x82, n / 256, n % 256]
  {
    ShortLength(n);
    OneByte(0x81);
    OneByte(0x82);
    if n <= 0xff {
      OneByte(n);
    } else {
      TwoBytes(n);
    }
  }

  lemma LengthRoundTrip(c: seq<Byte>, rest: seq<Byte>)
    requires |c| <= 0xffff
    ensures DecodeLength(DerLength(|c|) + c + rest) == Some((c, rest))
  {
    hide DerLength;
    var n := |c|;
    var all := DerLength(n) + c + rest;
    ShortForms(n);
    assert (c + rest)[..n] == c && (c + rest)[n..] == rest;
    assert all[|DerLength(n)|..] == c + rest;
  }

  /** `ossl_decode_der_integer` reads back what `ossl_DER_w_uint32` and `ossl_encode_der_integer` write. */
  lemma IntegerRoundTrip(v: nat, rest: seq<Byte>)
    requires |IntegerBytes(v)| <= 0xffff
    ensures DecodeInteger(Tlv(ID_INTEGER, IntegerBytes(v)) + rest) == Some((v, rest))
  {
    var c := IntegerBytes(v);
    IntegerBytesRight(v);
    hide IntegerBytes, DerLength, DecodeLength;
    var all := Tlv(ID_INTEGER, c) + rest;
    assert all[1..] == DerLength(|c|) + c + rest;
    LengthRoundTrip(c, rest);
  }

  lemma Uint32RoundTrip(v: nat, rest: seq<Byte>)
    requires v < 0x1_0000_0000
    ensures WellTagged(Tagged(-1, DerInteger(v)))
    ensures DecodeInteger(EncodeDer(Tagged(-1, DerInteger(v))) + rest) == Some((v, rest))
  {
    FourBytes(v);
    SizeIsLeast(v, 4);
    IntegerRoundTrip(v, rest);
  }

  lemma SigParts(r: nat, t: nat)
    requires |SigContent(r, t)| <= 0xffff
    ensures Supported(r, t) && DecodeInteger(SigContent(r, t)) == Some((r, Tlv(ID_INTEGER, IntegerBytes(t))))
    ensures DecodeInteger(Tlv(ID_INTEGER, IntegerBytes(t))) == Some((t, []))
  {
    var b := Tlv(ID_INTEGER, IntegerBytes(t));
    hide IntegerBytes, DecodeInteger, DerLength;
    IntegerRoundTrip(r, b);
    IntegerRoundTrip(t, []);
    assert b + [] == b;
  }

  /** The two integers come back, and the encoding ends where it ends, whatever follows. */
  lemma SigRoundTrip(r: nat, t: nat, rest: seq<Byte>)
    requires Supported(r, t)
    ensures DecodeSig(DerSig(r, t) + rest) == Some((r, t, rest))
  {
    hide IntegerBytes, DerLength, DecodeLength, DecodeInteger, SigContent;
    var c, all := SigContent(r, t), DerSig(r, t) + rest;
    assert all[0] == ID_SEQUENCE && all[1..] == DerLength(|c|) + c + rest;
    LengthRoundTrip(c, rest);
    SigParts(r, t);
  }

  // ---------- What is accepted beside DER ----------

  /** The length octets at the start of `s` are the fewest possible (section 10.1 of X.690), for
      lengths of at most two bytes. */
  predicate Shortest(s: seq<Byte>) {
    s != [] && (
      || s[0] < 0x80
      || (s[0] == 0x81 && |s| >= 2 && s[1] >= 0x80)
      || (s[0] == 0x82 && |s| >= 3 && s[1] > 0))
  }

  /** The length octets read are those of the encoder exactly when they are the fewest possible; they
      are never fewer. */
  lemma LengthExactly(s: seq<Byte>, c: seq<Byte>, rest: seq<Byte>)
    requires DecodeLength(s) == Some((c, rest))
    ensures |c| <= 0xffff && |DerLength(|c|) + c + rest| <= |s|
    ensures s == DerLength(|c|) + c + rest <==> Shortest(s)
  {
    hide DerLength;
    var n := |c|;
    ShortForms(n);
    if s[0] < 0x80 {
      assert s == [n] + c + rest;
    } else if s[0] == 0x81 {
      assert s == [0x81, n] + c + rest;
    } else {
      assert s == [0x82, n / 256, n % 256] + c + rest;
    }
  }

  lemma {:induction false} SizeOfValue(b: seq<Byte>)
    requires b != [] && b[0] != 0
    ensures Size(Value(b)) == |b|
  {
    var init := b[..|b| - 1];
    if init == [] {
      assert Value(init) == 0;
    } else {
      SizeOfValue(init);
      assert Value(init) >= 1 by {
        if |init| == 1 {
          assert Value(init[..0]) == 0;
        }
      }
      assert Value(b) / 256 == Value(init);
      SizeOfMore(Value(b));
    }
  }

  /** Contents the decoder lets pass are the only ones for their number. */
  lemma MinimalIsUnique(c: seq<Byte>)
    requires Minimal(c)
    ensures IntegerBytes(Value(c)) == c
  {
    if c[0] != 0 {
      SizeOfValue(c);
      BytesOfValue(c);
    } else if |c| == 1 {
      BytesOfValue(c);
      assert c == [0];
    } else {
      var d := c[1..];
      assert c == [0] + d;
      ValueLeadingZero(d);
      SizeOfValue(d);
      BytesOfValue(d);
    }
  }

  lemma AfterTag(s: seq<Byte>, c: seq<Byte>, rest: seq<Byte>)
    requires s != []
    ensures s == Tlv(s[0], c) + rest <==> s[1..] == DerLength(|c|) + c + rest
    ensures |Tlv(s[0], c) + rest| == 1 + |DerLength(|c|) + c + rest|
  {
    var all := DerLength(|c|) + c + rest;
    assert Tlv(s[0], c) + rest == [s[0]] + all;
    assert s == [s[0]] + s[1..] && ([s[0]] + all)[1..] == all;
  }

  /** What `ossl_decode_der_integer` accepts is the DER encoding of the number it returns if and only
      if the length is written in the fewest octets. */
  lemma IntegerExactly(s: seq<Byte>, v: nat, rest: seq<Byte>)
    requires DecodeInteger(s) == Some((v, rest))
    ensures |IntegerBytes(v)| <= 0xffff && |Tlv(ID_INTEGER, IntegerBytes(v)) + rest| <= |s|
    ensures s == Tlv(ID_INTEGER, IntegerBytes(v)) + rest <==> Shortest(s[1..])
  {
    hide DecodeLength, IntegerBytes, DerLength, Shortest, Minimal, Tlv;
    var c := DecodeLength(s[1..]).value.0;
    LengthExactly(s[1..], c, rest);
    MinimalIsUnique(c);
    AfterTag(s, c, rest);
  }

  /** All three lengths of a signature are written in the fewest octets. */
  predicate ShortestSig(s: seq<Byte>)
    requires DecodeSig(s).Some?
  {
    var c := DecodeLength(s[1..]).value.0;
    var more := DecodeInteger(c).value.1;
    Shortest(s[1..]) && Shortest(c[1..]) && Shortest(more[1..])
  }

  lemma SigIsShortest(s: seq<Byte>, r: nat, t: nat, rest: seq<Byte>, c: seq<Byte>, more: seq<Byte>)
    requires Supported(r, t) && s == DerSig(r, t) + rest
    requires s != [] && DecodeLength(s[1..]) == Some((c, rest))
    requires DecodeInteger(c) == Some((r, more)) && DecodeInteger(more) == Some((t, []))
    ensures Shortest(s[1..]) && c != [] && Shortest(c[1..]) && more != [] && Shortest(more[1..])
  {
    hide DecodeLength, IntegerBytes, DerLength, Shortest;
    var a, b := Tlv(ID_INTEGER, IntegerBytes(r)), Tlv(ID_INTEGER, IntegerBytes(t));
    var content := SigContent(r, t);
    assert s[1..] == DerLength(|content|) + content + rest;
    LengthRoundTrip(content, rest);
    LengthExactly(s[1..], c, rest);
    IntegerRoundTrip(r, b);
    IntegerExactly(c, r, more);
    IntegerExactly(more, t, []);
    assert b + [] == b;
  }

  lemma SigOfParts(s: seq<Byte>, r: nat, t: nat, rest: seq<Byte>, c: seq<Byte>, more: seq<Byte>)
    requires s != [] && s[0] == ID_SEQUENCE && s[1..] == DerLength(|c|) + c + rest
    requires c == Tlv(ID_INTEGER, IntegerBytes(r)) + more && more == Tlv(ID_INTEGER, IntegerBytes(t)) + []
    ensures s == DerSig(r, t) + rest
  {
    hide IntegerBytes, DerLength;
    assert c == SigContent(r, t);
    assert s == [ID_SEQUENCE] + s[1..];
  }

  /** What `ossl_decode_der_dsa_sig` accepts is the DER encoding of the signature it returns if and
      only if all three lengths are written in the fewest octets. */
  lemma SigExactly(s: seq<Byte>, r: nat, t: nat, rest: seq<Byte>)
    requires DecodeSig(s) == Some((r, t, rest))
    ensures Supported(r, t)
    ensures s == DerSig(r, t) + rest <==> ShortestSig(s)
  {
    var c := DecodeLength(s[1..]).value.0;
    var more := DecodeInteger(c).value.1;
    hide DecodeLength, DecodeInteger, IntegerBytes, DerLength, Shortest, Tlv;
    LengthExactly(s[1..], c, rest);
    IntegerExactly(c, r, more);
    IntegerExactly(more, t, []);
    var b := Tlv(ID_INTEGER, IntegerBytes(t));
    assert b + [] == b && |SigContent(r, t)| <= 0xffff;
    if s == DerSig(r, t) + rest {
      SigIsShortest(s, r, t, rest, c, more);
    } else if ShortestSig(s) {
      SigOfParts(s, r, t, rest, c, more);
    }
  }

  /** An instance: a length in more octets than needed is not DER but is accepted. */
  lemma NotOnlyDer()
    ensures DecodeInteger([ID_INTEGER, 0x81, 1, 5]) == DecodeInteger([ID_INTEGER, 1, 5]) == Some((5, []))
  {
    var long, short: seq<Byte> := [ID_INTEGER, 0x81, 1, 5], [ID_INTEGER, 1, 5];
    assert long[1..][2..][..1] == [5] && short[1..][1..][..1] == [5];
    assert long[1..][2..][1..] == [] && short[1..][1..][1..] == [];
    assert DecodeLength(long[1..]) == Some(([5], [])) && DecodeLength(short[1..]) == Some(([5], []));
    var five: seq<Byte> := [5];
    assert five[..0] == [];
    assert Value(five) == Value([]) * 256 + 5;
  }

  lemma LongLength(c: seq<Byte>, rest: seq<Byte>)
    requires |c| <= 0xff
    ensures DecodeLength([0x81, |c|] + c + rest) == Some((c, rest))
  {
    var s := [0x81, |c|] + c + rest;
    assert s[2..] == c + rest;
    assert (c + rest)[..|c|] == c && (c + rest)[|c|..] == rest;
  }

  /** Instances: a signature with short contents is also accepted with a needless length octet. */
  lemma NotOnlyDerSig(r: nat, t: nat, rest: seq<Byte>)
    requires |SigContent(r, t)| < 0x80
    ensures Supported(r, t)
    ensures var long := [ID_SEQUENCE, 0x81, |SigContent(r, t)|] + SigContent(r, t) + rest;
            DecodeSig(long) == Some((r, t, rest)) && long != DerSig(r, t) + rest
  {
    hide DecodeLength, DecodeInteger, IntegerBytes, DerLength, Tlv, SigContent, DerSig;
    var c := SigContent(r, t);
    var long := [ID_SEQUENCE, 0x81, |c|] + c + rest;
    SigParts(r, t);
    assert long[1..] == [0x81, |c|] + c + rest;
    LongLength(c, rest);
    SigExactly(long, r, t, rest);
    assert long[1..][0] == 0x81 && long[1..][1] == |c|;
  }

  // ---------- Cursors ----------

  /** PACKET: a position in a buffer and how many bytes are left. */
  class Packet {
    const data: seq<Byte>
    var curr: nat
    var remaining: nat

    ghost predicate Valid()
      reads this
    {
      curr + remaining <= |data|
    }

    function Rest(): seq<Byte>
      requires Valid()
      reads this
    {
      data[curr..curr + remaining]
    }

    /** `PACKET_buf_init`, for lengths it accepts. */
    constructor (buf: seq<Byte>, from: nat, len: nat)
      requires from + len <= |buf|
      ensures Valid() && data == buf && curr == from && remaining == len && Rest() == buf[from..from + len]
    {
      data, curr, remaining := buf, from, len;
    }

    /** `PACKET_get_1`. */
    method Get1() returns (ok: bool, b: Byte)
      requires Valid()
      modifies this
      ensures Valid() && ok == (old(Rest()) != []) && curr + remaining == old(curr + remaining)
      ensures ok ==> b == old(Rest())[0] && Rest() == old(Rest())[1..] && curr == old(curr) + 1
      ensures !ok ==> curr == old(curr)
    {
      b := 0;
      if remaining == 0 {
        return false, 0;
      }
      b := data[curr];
      curr, remaining := curr + 1, remaining - 1;
      ok := true;
    }

    /** `PACKET_get_sub_packet` and `PACKET_get_bytes`. */
    method GetSubPacket(len: nat) returns (ok: bool, sub: Packet)
      requires Valid() && remaining <= SIZE_MAX / 2
      modifies this
      ensures Valid() && ok == (len <= |old(Rest())|) && sub.Valid() && fresh(sub)
      ensures ok ==> sub.Rest() == old(Rest())[..len] && Rest() == old(Rest())[len..]
      ensures ok ==> sub.remaining == len
      ensures sub.remaining <= old(remaining)
      ensures curr + remaining == old(curr + remaining) && curr >= old(curr)
    {
      if remaining < len {
        sub := new Packet(data, 0, 0);
        return false, sub;
      }
      sub := new Packet(data, curr, len);
      curr, remaining := curr + len, remaining - len;
      ok := true;
    }

    /** `PACKET_get_length_prefixed_1`: a failure leaves the cursor where it was. */
    method GetLengthPrefixed1() returns (ok: bool, sub: Packet)
      requires Valid() && remaining <= SIZE_MAX / 2
      modifies this
      ensures Valid() && sub.Valid() && fresh(sub) && sub.remaining <= old(remaining)
      ensures var s := old(Rest()); ok == (s != [] && s[0] <= |s| - 1)
      ensures ok ==> sub.Rest() == old(Rest())[1..][..old(Rest())[0]] && Rest() == old(Rest())[1..][old(Rest())[0]..]
      ensures curr + remaining == old(curr + remaining) && (!ok ==> curr == old(curr)) && curr >= old(curr)
    {
      var tmp := new Packet(data, curr, remaining);
      var length;
      ok, length := tmp.Get1();
      if !ok {
        return false, tmp;
      }
      ok, sub := tmp.GetSubPacket(length);
      if ok {
        curr, remaining := tmp.curr, tmp.remaining;
      }
    }

    /** `PACKET_get_length_prefixed_2`. */
    method GetLengthPrefixed2() returns (ok: bool, sub: Packet)
      requires Valid() && remaining <= SIZE_MAX / 2
      modifies this
      ensures Valid() && sub.Valid() && fresh(sub) && sub.remaining <= old(remaining)
      ensures var s := old(Rest()); ok == (|s| >= 2 && Net2(s[0], s[1]) <= |s| - 2)
      ensures ok ==>
        var s := old(Rest()); sub.Rest() == s[2..][..Net2(s[0], s[1])] && Rest() == s[2..][Net2(s[0], s[1])..]
      ensures curr + remaining == old(curr + remaining) && (!ok ==> curr == old(curr)) && curr >= old(curr)
    {
      var tmp := new Packet(data, curr, remaining);
      if remaining < 2 {
        return false, tmp;
      }
      var length := Net2(data[curr], data[curr + 1]);
      tmp.curr, tmp.remaining := curr + 2, remaining - 2;
      ok, sub := tmp.GetSubPacket(length);
      if ok {
        curr, remaining := tmp.curr, tmp.remaining;
      }
    }
  }

  /** `ossl_decode_der_length`. */
  method DecodeDerLength(pkt: Packet) returns (ok: bool, sub: Packet)
    requires pkt.Valid() && pkt.remaining <= SIZE_MAX / 2
    modifies pkt
    ensures pkt.Valid() && sub.Valid() && fresh(sub) && sub.remaining <= old(pkt.remaining)
    ensures ok == DecodeLength(old(pkt.Rest())).Some?
    ensures ok ==> DecodeLength(old(pkt.Rest())).value == (sub.Rest(), pkt.Rest())
    ensures pkt.curr + pkt.remaining == old(pkt.curr + pkt.remaining) && pkt.curr >= old(pkt.curr)
  {
    ghost var s := pkt.Rest();
    var byte;
    ok, byte := pkt.Get1();
    if !ok {
      sub := new Packet([], 0, 0);
      return;
    }
    if byte < 0x80 {
      ok, sub := pkt.GetSubPacket(byte);
    } else if byte == 0x81 {
      ok, sub := pkt.GetLengthPrefixed1();
      assert |s| >= 2 ==> s[1..][1..] == s[2..];
    } else if byte == 0x82 {
      ok, sub := pkt.GetLengthPrefixed2();
      assert |s| >= 3 ==> s[1..][2..] == s[3..];
    } else {
      ok := false;
      sub := new Packet([], 0, 0);
    }
  }

  /** `ossl_decode_der_integer`. */
  method DecodeDerInteger(pkt: Packet) returns (ok: bool, n: nat)
    requires pkt.Valid() && pkt.remaining <= SIZE_MAX / 2
    modifies pkt
    ensures pkt.Valid() && ok == DecodeInteger(old(pkt.Rest())).Some?
    ensures ok ==> DecodeInteger(old(pkt.Rest())).value == (n, pkt.Rest())
    ensures pkt.curr + pkt.remaining == old(pkt.curr + pkt.remaining) && pkt.curr >= old(pkt.curr)
  {
    n := 0;
    var tag;
    ok, tag := pkt.Get1();
    if !ok || tag != ID_INTEGER {
      return false, 0;
    }
    var contpkt;
    ok, contpkt := DecodeDerLength(pkt);
    if !ok {
      return;
    }
    var tmppkt := new Packet(contpkt.data, contpkt.curr, contpkt.remaining);
    var tmp;
    ok, tmp := tmppkt.Get1();
    if !ok || tmp >= 0x80 {
      return false, 0;
    }
    if tmppkt.remaining > 0 && tmp == 0 {
      ok, tmp := tmppkt.Get1();
      if !ok || tmp < 0x80 {
        return false, 0;
      }
    }
    n := Value(contpkt.Rest());
  }

  /** `ossl_decode_der_dsa_sig`: the numbers and how many bytes were consumed, 0 for an error. */
  method DecodeDerDsaSig(input: seq<Byte>) returns (r: nat, s: nat, consumed: nat)
    ensures consumed > 0 <==> |input| <= SIZE_MAX / 2 && DecodeSig(input).Some?
    ensures consumed > 0 ==> consumed <= |input| && DecodeSig(input).value == (r, s, input[consumed..])
  {
    r, s, consumed := 0, 0, 0;
    if |input| > SIZE_MAX / 2 {
      return;
    }
    var pkt := new Packet(input, 0, |input|);
    assert pkt.Rest() == input;
    var ok, tag := pkt.Get1();
    if !ok || tag != ID_SEQUENCE {
      return;
    }
    var contpkt;
    ok, contpkt := DecodeDerLength(pkt);
    if !ok {
      return;
    }
    ok, r := DecodeDerInteger(contpkt);
    if !ok {
      return;
    }
    ok, s := DecodeDerInteger(contpkt);
    if !ok || contpkt.remaining != 0 {
      return;
    }
    consumed := pkt.curr;
  }

  /** The decoder returns what was encoded and exactly the length of the encoding. */
  method RoundTrip(r: nat, s: nat, rest: seq<Byte>) returns (r': nat, s': nat, consumed: nat)
    requires Supported(r, s) && |DerSig(r, s) + rest| <= SIZE_MAX / 2
    ensures r' == r && s' == s && consumed == |DerSig(r, s)|
  {
    SigRoundTrip(r, s, rest);
    var all := DerSig(r, s) + rest;
    r', s', consumed := DecodeDerDsaSig(all);
    assert |all[consumed..]| == |rest|;
  }
}
