/** DER encoding and decoding of DSA and ECDSA signatures, crypto/asn1_dsa.c.  A BIGNUM is an
    integer. */
module DerSignature {
  import opened BigEndian
  import opened PacketFrames
  import opened Wpacket
  import opened DerWriter

  const ID_SEQUENCE: Byte := 0x30
  const ID_INTEGER: Byte := 0x02

  // ---------- The encoding ----------

  /** `BN_num_bits`. */
  function NumBits(n: nat): nat {
    if n == 0 then 0 else NumBits(n / 2) + 1
  }

  function SigContent(r: nat, s: nat): seq<Byte> {
    Tlv(ID_INTEGER, IntegerBytes(r)) + Tlv(ID_INTEGER, IntegerBytes(s))
  }

  /** DSA-Sig-Value, section 2.2.2 of RFC 3279. */
  function DerSig(r: nat, s: nat): seq<Byte> {
    Tlv(ID_SEQUENCE, SigContent(r, s))
  }

  /** Signatures the encoder supports: no negative numbers, and two-byte lengths. */
  predicate Supported(r: int, s: int) {
    r >= 0 && s >= 0 && |IntegerBytes(r)| <= 0xffff && |IntegerBytes(s)| <= 0xffff && |SigContent(r, s)| <= 0xffff
  }

  lemma BitsByFour(n: nat)
    requires n >= 8
    ensures NumBits(n) == NumBits(n / 16) + 4
  {
    assert NumBits(n) == NumBits(n / 2) + 1;
    assert NumBits(n / 2) == NumBits(n / 2 / 2) + 1;
    assert NumBits(n / 2 / 2) == NumBits(n / 2 / 2 / 2) + 1;
    assert NumBits(n / 2 / 2 / 2) == NumBits(n / 2 / 2 / 2 / 2) + 1;
    assert n / 2 / 2 / 2 / 2 == n / 16;
  }

  lemma BitsByByte(n: nat)
    requires n >= 256
    ensures NumBits(n) == NumBits(n / 256) + 8
  {
    BitsByFour(n);
    BitsByFour(n / 16);
    assert n / 16 / 16 == n / 256;
  }

  lemma BitsOfByte(n: nat)
    requires n < 256
    ensures NumBits(n) / 8 + 1 == if n >= 0x80 then 2 else 1
  {
    SmallBits(n);
  }

  lemma SmallBits(n: nat)
    requires n < 256
    ensures n < 128 ==> NumBits(n) <= 7
    ensures n >= 128 ==> NumBits(n) == 8
  {
    if n >= 8 {
      BitsByFour(n);
    }
    if n >= 128 {
      BitsByFour(n / 16);
    } else {
      FewBits(if n >= 8 then n / 16 else n);
    }
  }

  lemma FewBits(n: nat)
    requires n < 8
    ensures NumBits(n) <= 3
  {
    assert NumBits(n) <= NumBits(n / 2) + 1;
    assert NumBits(n / 2) <= NumBits(n / 2 / 2) + 1;
    assert NumBits(n / 2 / 2) <= NumBits(0) + 1;
  }

  /** The content length computed from the bit length is that of the shortest INTEGER contents, and
      padding the number to it gives those contents. */
  lemma {:induction false} PaddedInteger(n: nat)
    ensures NumBits(n) / 8 + 1 == |IntegerBytes(n)| && Bytes(n, NumBits(n) / 8 + 1) == IntegerBytes(n)
  {
    if n < 256 {
      BitsOfByte(n);
      OneByte(n);
      assert Bytes(n, 2) == Bytes(n / 256, 1) + [n % 256];
      OneByte(0);
    } else {
      BitsByByte(n);
      PaddedInteger(n / 256);
      var m := n / 256;
      assert Bytes(n, Size(n)) == Bytes(m, Size(m)) + [n % 256];
      assert IntegerBytes(n) == IntegerBytes(m) + [n % 256];
    }
  }

  // ---------- Writing it ----------

  /** What writing `b` to a forward writer comes to; into a buffer of fixed size, or none, it
      succeeds exactly when it fits. */
  ghost predicate Appended(w: Writer, w': Writer, ok: bool, b: seq<Byte>) {
    && (ok ==> w.frames != [] && w'.frames == Add(false, w.frames, b) && w'.written == w.written + |b|)
    && (w.kind != Growing ==> ok == (|b| <= w.max - w.written))
  }

  lemma AppendedTwice(w: Writer, w': Writer, w'': Writer, ok: bool, a: seq<Byte>, b: seq<Byte>)
    requires Appended(w, w', true, a) && Appended(w', w'', ok, b) && w'.kind == w.kind && w'.max == w.max
    ensures Appended(w, w'', ok, a + b)
  {
    if ok {
      AddTwice(w.frames, a, b);
    }
  }

  lemma AppendedNot(w: Writer, w': Writer, w'': Writer, a: seq<Byte>, b: seq<Byte>)
    requires Appended(w, w', false, a)
    ensures Appended(w, w'', false, a + b)
  {
  }

  /** `WPACKET_put_bytes__` of a value that fits. */
  method Put(w: Wpacket, val: nat, size: nat) returns (ok: bool)
    requires w.Valid() && !w.endfirst && w.frames != [] && 1 <= size <= 8 && val < Pow256(size)
    modifies w`data, w`written, w`curr, w`frames, w.data
    ensures w.Valid() && (w.data == old(w.data) || (w.kind == Growing && fresh(w.data)))
    ensures Appended(old(w.View()), w.View(), ok, Bytes(val, size)) && w.frames != []
  {
    SoundFacts(w.View());
    hide Sound, Bytes, Grown, Pow256, KeptOutside;
    ok := w.PutBytes(val, size);
  }

  /** `ossl_encode_der_length`. */
  method EncodeDerLength(w: Wpacket, contLen: nat) returns (ok: bool)
    requires w.Valid() && !w.endfirst && w.frames != []
    modifies w`data, w`written, w`curr, w`frames, w.data
    ensures w.Valid() && (w.data == old(w.data) || (w.kind == Growing && fresh(w.data))) && w.frames != []
    ensures contLen > 0xffff ==> !ok
    ensures contLen <= 0xffff ==> Appended(old(w.View()), w.View(), ok, DerLength(contLen))
  {
    if contLen > 0xffff {
      return false;
    }
    ShortLength(contLen);
    ghost var v := w.View();
    hide Sound, Bytes, Pow256, Appended, DerLength, Add;
    if contLen > 0xff {
      ok := Put(w, 0x82, 1);
      ghost var u := w.View();
      if !ok {
        AppendedNot(v, u, u, Bytes(0x82, 1), Bytes(contLen, 2));
        return;
      }
      ok := Put(w, contLen, 2);
      AppendedTwice(v, u, w.View(), ok, Bytes(0x82, 1), Bytes(contLen, 2));
    } else if contLen > 0x7f {
      ok := Put(w, 0x81, 1);
      ghost var u := w.View();
      if !ok {
        AppendedNot(v, u, u, Bytes(0x81, 1), Bytes(contLen, 1));
        return;
      }
      ok := Put(w, contLen, 1);
      AppendedTwice(v, u, w.View(), ok, Bytes(0x81, 1), Bytes(contLen, 1));
    } else {
      ok := Put(w, contLen, 1);
    }
  }

  /** The three forms of a length below 2^16. */
  lemma ShortLength(n: nat)
    requires n <= 0xffff
    ensures Pow256(1) == 0x100 && Pow256(2) == 0x1_0000
    ensures DerLength(n) == if n > 0xff then Bytes(0x82, 1) + Bytes(n, 2)
                            else if n > 0x7f then Bytes(0x81, 1) + Bytes(n, 1) else Bytes(n, 1)
    ensures 1 <= |DerLength(n)| <= 3
  {
    OneByte(0x81);
    OneByte(0x82);
    if n <= 0xff {
      OneByte(n);
    } else {
      assert Size(n) == Size(n / 256) + 1 == 2;
    }
  }

  /** Closing a sub-packet that has no length joins it to the one around it. */
  lemma JoinedSub(v: Writer, outer: seq<Frame>, c: seq<Byte>, v': Writer)
    requires Sound(v) && Sound(v') && !v.e && outer != [] && v.frames == outer + [Frame(0, 0, c)]
    requires |Top(v.frames).content| <= SIZE_MAX && IsClosed(v, v')
    ensures v'.frames == Add(false, outer, c) && v'.written == v.written
  {
    InitSnoc(outer, Frame(0, 0, c));
    assert Bytes(|c|, 0) + c == c;
    SizeSmall(|c|);
    AddParts(false, outer, c);
    assert Total(v.frames) == Total(outer) + |c|;
  }

  /** `WPACKET_close` of a sub-packet without a length. */
  method CloseSub(w: Wpacket, ghost outer: seq<Frame>, ghost c: seq<Byte>) returns (ok: bool)
    requires w.Valid() && !w.endfirst && outer != [] && w.frames == outer + [Frame(0, 0, c)]
    modifies w`data, w`written, w`curr, w`frames, w`subs, w`output, w.data
    ensures ok && w.Valid() && w.data == old(w.data)
    ensures w.frames == Add(false, outer, c) && w.written == old(w.written)
  {
    ghost var v := w.View();
    SoundFacts(v);
    InitSnoc(outer, Frame(0, 0, c));
    hide Sound, KeptOutside, IsClosed, Add;
    ok := w.Close();
    JoinedSub(v, outer, c, w.View());
  }

  /** `ossl_encode_der_integer`. */
  method EncodeDerInteger(w: Wpacket, n: int) returns (ok: bool)
    requires w.Valid() && !w.endfirst && w.frames != []
    modifies w`data, w`written, w`curr, w`frames, w`subs, w`output, w.data
    ensures w.data == old(w.data) || (w.kind == Growing && fresh(w.data))
    ensures ok ==> w.Valid() && w.frames != []
    ensures n < 0 || |IntegerBytes(n)| > 0xffff ==> !ok
    ensures n >= 0 && |IntegerBytes(n)| <= 0xffff ==>
      Appended(old(w.View()), w.View(), ok, Tlv(ID_INTEGER, IntegerBytes(n)))
  {
    if n < 0 {
      return false;
    }
    PaddedInteger(n);
    var contLen := NumBits(n) / 8 + 1;
    SoundFacts(w.View());
    assert Tlv(ID_INTEGER, IntegerBytes(n)) == [ID_INTEGER] + DerLength(contLen) + IntegerBytes(n);
    hide Sound, KeptOutside, NumBits, IntegerBytes, Bytes, Add, Tlv, DerLength;
    ok := w.StartSubPacketLen(0);
    if ok {
      ok := EncodeContents(w, Bytes(n, contLen), old(w.frames));
    }
  }

  /** The rest, in a sub-packet without a length: the contents `c` are written after closing it. */
  method EncodeContents(w: Wpacket, c: seq<Byte>, ghost outer: seq<Frame>) returns (ok: bool)
    requires w.Valid() && !w.endfirst && outer != [] && w.frames == outer + [Frame(0, 0, [])] && |c| >= 1
    modifies w`data, w`written, w`curr, w`frames, w`subs, w`output, w.data
    ensures w.data == old(w.data) || (w.kind == Growing && fresh(w.data))
    ensures ok ==> w.Valid() && |c| <= 0xffff && w.frames == Add(false, outer, [ID_INTEGER] + DerLength(|c|) + c)
    ensures ok ==> w.written == old(w.written) + |[ID_INTEGER] + DerLength(|c|) + c|
    ensures w.kind != Growing ==>
      ok == (|c| <= 0xffff && |[ID_INTEGER] + DerLength(|c|) + c| <= w.maxsize - old(w.written))
  {
    hide Sound, KeptOutside, Add, DerLength, Replace;
    var p;
    ghost var junk;
    ok, p, junk := AllocateInteger(w, |c|, outer);
    if ok {
      ok := CloseSub(w, outer, [ID_INTEGER] + DerLength(|c|) + junk);
      IntegerOver(outer, [ID_INTEGER] + DerLength(|c|), junk, c);
      w.WriteAt(p, c);
    }
  }

  /** The tag, the length and room for the contents. */
  method AllocateInteger(w: Wpacket, contLen: nat, ghost outer: seq<Frame>)
    returns (ok: bool, p: Pointer, ghost junk: seq<Byte>)
    requires w.Valid() && !w.endfirst && w.frames == outer + [Frame(0, 0, [])] && contLen >= 1
    modifies w`data, w`written, w`curr, w`frames, w.data
    ensures w.Valid() && (w.data == old(w.data) || (w.kind == Growing && fresh(w.data)))
    ensures ok ==> contLen <= 0xffff && |junk| == contLen
    ensures ok ==> w.frames == outer + [Frame(0, 0, [ID_INTEGER] + DerLength(contLen) + junk)]
    ensures ok ==> w.written == old(w.written) + 1 + |DerLength(contLen)| + contLen
    ensures ok ==> p == if w.kind == NoBuffer then Null else At(w.written - contLen)
    ensures w.kind != Growing ==>
        ok == (contLen <= 0xffff && 1 + |DerLength(contLen)| + contLen <= w.maxsize - old(w.written))
  {
    ghost var v, base, len := w.View(), w.frames, DerLength(contLen);
    junk, p := [], Null;
    OneByte(ID_INTEGER);
    hide Sound, Appended, Add, DerLength;
    ok := PutHeader(w, contLen);
    if !ok {
      return;
    }
    HeaderWritten(v, w.View(), [ID_INTEGER] + len);
    ok, p, junk := w.AllocateBytes(contLen);
    AddTwice(base, [ID_INTEGER] + len, junk);
    FilledFrame(false, outer, 0, [ID_INTEGER] + len + junk);
  }

  lemma HeaderWritten(w: Writer, w': Writer, b: seq<Byte>)
    requires Appended(w, w', true, b)
    ensures w.frames != [] && w'.frames == Add(false, w.frames, b) && w'.written == w.written + |b|
    ensures w.kind != Growing ==> |b| <= w.max - w.written
  {
  }

  /** The tag and the length of an INTEGER. */
  method PutHeader(w: Wpacket, contLen: nat) returns (ok: bool)
    requires w.Valid() && !w.endfirst && w.frames != []
    modifies w`data, w`written, w`curr, w`frames, w.data
    ensures w.Valid() && (w.data == old(w.data) || (w.kind == Growing && fresh(w.data))) && w.frames != []
    ensures contLen > 0xffff ==> !ok
    ensures contLen <= 0xffff ==> Appended(old(w.View()), w.View(), ok, [ID_INTEGER] + DerLength(contLen))
  {
    ghost var v := w.View();
    OneByte(ID_INTEGER);
    hide Sound, Appended, Add, DerLength;
    ok := Put(w, 2, 1);
    ghost var u := w.View();
    if !ok {
      AppendedNot(v, u, u, [ID_INTEGER], DerLength(contLen));
      return;
    }
    ok := EncodeDerLength(w, contLen);
    if contLen <= 0xffff {
      AppendedTwice(v, u, w.View(), ok, [ID_INTEGER], DerLength(contLen));
    }
  }

  lemma IntegerOver(outer: seq<Frame>, h: seq<Byte>, junk: seq<Byte>, b: seq<Byte>)
    requires outer != [] && |junk| == |b|
    ensures var fs := Add(false, outer, h + junk);
            fs != [] && |b| <= |Top(fs).content| && Replace(false, fs, b) == Add(false, outer, h + b)
  {
    AddParts(false, outer, h + junk);
    AddParts(false, outer, h);
    hide Add, Replace;
    AddTwice(outer, h, junk);
    AddTwice(outer, h, b);
    ReplaceAdded(false, Add(false, outer, h), junk, b);
  }

  /** The content length, computed by writing to nowhere. */
  method ContentLength(r: int, s: int) returns (ok: bool, contLen: nat)
    ensures ok == (r >= 0 && s >= 0 && |IntegerBytes(r)| <= 0xffff && |IntegerBytes(s)| <= 0xffff)
    ensures ok ==> contLen == |SigContent(r, s)|
  {
    contLen := 0;
    var dummy := new Wpacket.InitNull(0);
    ghost var v := dummy.View();
    hide Sound, IntegerBytes, Tlv, Add;
    if r >= 0 && s >= 0 {
      TlvSize(IntegerBytes(r));
      TlvSize(IntegerBytes(s));
    }
    ok := EncodeDerInteger(dummy, r);
    if !ok {
      return;
    }
    ghost var u := dummy.View();
    ok := EncodeDerInteger(dummy, s);
    if !ok {
      return;
    }
    AppendedTwice(v, u, dummy.View(), true, Tlv(ID_INTEGER, IntegerBytes(r)), Tlv(ID_INTEGER, IntegerBytes(s)));
    AloneForward(SigContent(r, s));
    ok, contLen := dummy.GetLength();
    SoundFacts(dummy.View());
    var finished := dummy.Finish();
    ok := ok && finished;
  }

  lemma TlvSize(c: seq<Byte>)
    ensures |c| <= 0xffff ==> |Tlv(ID_INTEGER, c)| <= |c| + 4
  {
    if |c| <= 0xffff {
      ShortLength(|c|);
    }
  }

  lemma AloneForward(c: seq<Byte>)
    ensures Add(false, [Frame(0, 0, [])], c) == [Frame(0, 0, c)]
  {
    assert [] + c == c;
  }

  /** Both integers, one after the other. */
  method EncodeIntegers(w: Wpacket, r: int, s: int) returns (ok: bool)
    requires w.Valid() && !w.endfirst && w.frames != []
    modifies w`data, w`written, w`curr, w`frames, w`subs, w`output, w.data
    ensures w.data == old(w.data) || (w.kind == Growing && fresh(w.data))
    ensures ok ==> w.Valid() && w.frames != []
    ensures !(r >= 0 && s >= 0 && |IntegerBytes(r)| <= 0xffff && |IntegerBytes(s)| <= 0xffff) ==> !ok
    ensures r >= 0 && s >= 0 && |IntegerBytes(r)| <= 0xffff && |IntegerBytes(s)| <= 0xffff ==>
      Appended(old(w.View()), w.View(), ok, SigContent(r, s))
  {
    ghost var v := w.View();
    hide Sound, IntegerBytes, Tlv, Add, Appended;
    ok := EncodeDerInteger(w, r);
    ghost var u := w.View();
    if !ok {
      if r >= 0 && s >= 0 && |IntegerBytes(r)| <= 0xffff {
        AppendedNot(v, u, u, Tlv(ID_INTEGER, IntegerBytes(r)), Tlv(ID_INTEGER, IntegerBytes(s)));
      }
      return;
    }
    ok := EncodeDerInteger(w, s);
    if s >= 0 && |IntegerBytes(s)| <= 0xffff {
      AppendedTwice(v, u, w.View(), ok, Tlv(ID_INTEGER, IntegerBytes(r)), Tlv(ID_INTEGER, IntegerBytes(s)));
    }
  }

  /** The tag and the length of the SEQUENCE. */
  method PutSequenceHeader(w: Wpacket, contLen: nat) returns (ok: bool)
    requires w.Valid() && !w.endfirst && w.frames != []
    modifies w`data, w`written, w`curr, w`frames, w.data
    ensures w.Valid() && (w.data == old(w.data) || (w.kind == Growing && fresh(w.data))) && w.frames != []
    ensures contLen > 0xffff ==> !ok
    ensures contLen <= 0xffff ==> Appended(old(w.View()), w.View(), ok, [ID_SEQUENCE] + DerLength(contLen))
  {
    ghost var v := w.View();
    OneByte(ID_SEQUENCE);
    hide Sound, Appended, Add, DerLength;
    ok := Put(w, ID_SEQUENCE, 1);
    ghost var u := w.View();
    if !ok {
      AppendedNot(v, u, u, [ID_SEQUENCE], DerLength(contLen));
      return;
    }
    ok := EncodeDerLength(w, contLen);
    if contLen <= 0xffff {
      AppendedTwice(v, u, w.View(), ok, [ID_SEQUENCE], DerLength(contLen));
    }
  }

  /** Inside the sub-packet of a signature, with a buffer. */
  method EncodeInside(w: Wpacket, r: int, s: int) returns (ok: bool)
    requires w.Valid() && !w.endfirst && w.frames != []
    modifies w`data, w`written, w`curr, w`frames, w`subs, w`output, w.data
    ensures w.data == old(w.data) || (w.kind == Growing && fresh(w.data))
    ensures ok ==> w.Valid() && Supported(r, s)
    ensures !Supported(r, s) ==> !ok
    ensures Supported(r, s) ==> Appended(old(w.View()), w.View(), ok, DerSig(r, s))
  {
    hide Sound, IntegerBytes, SigContent, Add, Appended, DerLength;
    var contLen;
    ok, contLen := ContentLength(r, s);
    if ok {
      ok := EncodeParts(w, r, s, contLen);
    }
  }

  method EncodeParts(w: Wpacket, r: nat, s: nat, contLen: nat) returns (ok: bool)
    requires w.Valid() && !w.endfirst && w.frames != []
    requires |IntegerBytes(r)| <= 0xffff && |IntegerBytes(s)| <= 0xffff && contLen == |SigContent(r, s)|
    modifies w`data, w`written, w`curr, w`frames, w`subs, w`output, w.data
    ensures w.data == old(w.data) || (w.kind == Growing && fresh(w.data))
    ensures ok ==> w.Valid() && contLen <= 0xffff
    ensures contLen > 0xffff ==> !ok
    ensures contLen <= 0xffff ==> Appended(old(w.View()), w.View(), ok, DerSig(r, s))
  {
    ghost var v := w.View();
    assert DerSig(r, s) == [ID_SEQUENCE] + DerLength(contLen) + SigContent(r, s);
    hide Sound, IntegerBytes, SigContent, Add, Appended, DerLength, DerSig;
    ok := PutSequenceHeader(w, contLen);
    ghost var u := w.View();
    if !ok {
      if contLen <= 0xffff {
        AppendedNot(v, u, u, [ID_SEQUENCE] + DerLength(contLen), SigContent(r, s));
      }
      return;
    }
    ok := EncodeIntegers(w, r, s);
    AppendedTwice(v, u, w.View(), ok, [ID_SEQUENCE] + DerLength(contLen), SigContent(r, s));
  }

  /** Inside the sub-packet of a signature, without a buffer: only the size matters. */
  method MeasureInside(w: Wpacket, r: int, s: int) returns (ok: bool)
    requires w.Valid() && !w.endfirst && w.frames != [] && w.kind == NoBuffer && Top(w.frames).content == []
    modifies w`data, w`written, w`curr, w`frames, w`subs, w`output, w.data
    ensures w.data == old(w.data)
    ensures ok ==> w.Valid() && Supported(r, s)
    ensures !Supported(r, s) ==> !ok
    ensures Supported(r, s) ==>
      Appended(old(w.View()), w.View(), ok, SigContent(r, s) + ([ID_SEQUENCE] + DerLength(|SigContent(r, s)|)))
  {
    ghost var v := w.View();
    var contLen;
    hide Sound, IntegerBytes, SigContent, DerLength;
    ok := EncodeIntegers(w, r, s);
    ghost var u := w.View();
    if !ok {
      if Supported(r, s) {
        AppendedNot(v, u, u, SigContent(r, s), [ID_SEQUENCE] + DerLength(|SigContent(r, s)|));
      }
      return;
    }
    AddParts(false, v.frames, SigContent(r, s));
    SoundFacts(w.View());
    ok, contLen := w.GetLength();
    assert ok && contLen == |SigContent(r, s)|;
    hide Appended;
    ok := PutSequenceHeader(w, contLen);
    if Supported(r, s) {
      AppendedTwice(v, u, w.View(), ok, SigContent(r, s), [ID_SEQUENCE] + DerLength(contLen));
    }
  }

  /** `ossl_encode_der_dsa_sig`: succeeds exactly when the numbers are supported and the encoding
      fits; without a buffer it counts the same bytes. */
  method EncodeDsaSig(w: Wpacket, r: int, s: int) returns (ok: bool, ghost b: seq<Byte>)
    requires w.Valid() && !w.endfirst && w.frames != []
    modifies w`data, w`written, w`curr, w`frames, w`subs, w`output, w.data
    ensures w.data == old(w.data) || (w.kind == Growing && fresh(w.data))
    ensures ok ==> w.Valid() && Supported(r, s) && |b| == |DerSig(r, s)| && (w.kind != NoBuffer ==> b == DerSig(r, s))
    ensures ok ==> w.frames == Add(false, old(w.frames), b) && w.written == old(w.written) + |DerSig(r, s)|
    ensures w.kind != Growing ==> ok == (Supported(r, s) && |DerSig(r, s)| <= w.maxsize - old(w.written))
  {
    ghost var outer := w.frames;
    b := [];
    SoundFacts(w.View());
    hide Sound, IntegerBytes, SigContent, DerLength, KeptOutside, Add;
    var isnull := w.IsNullBuf();
    ok := w.StartSubPacketLen(0);
    InitSnoc(outer, Frame(0, 0, []));
    if isnull {
      if Supported(r, s) {
        b := SigContent(r, s) + ([ID_SEQUENCE] + DerLength(|SigContent(r, s)|));
      }
      ok := MeasureInside(w, r, s);
    } else {
      if Supported(r, s) {
        b := DerSig(r, s);
      }
      ok := EncodeInside(w, r, s);
    }
    if ok {
      FilledFrame(false, outer, 0, b);
      ok := CloseSub(w, outer, b);
    }
  }
}
