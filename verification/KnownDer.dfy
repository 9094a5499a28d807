/** DER worked out by hand (crypto/der_writer.c, crypto/asn1_dsa.c): identifiers, lengths, integers
    and a signature, as X.690 and section 2.2.2 of RFC 3279 have them. */
module KnownDer {
  import opened BigEndian
  import opened PacketFrames
  import opened Wpacket
  import opened DerWriter
  import opened DerRuns
  import opened DerSignature
  import opened DerDecoder
  import opened KnownPackets

  /** Short lengths are a byte, longer ones have a count in front. */
  lemma Lengths(n: nat)
    ensures n < 128 ==> DerLength(n) == [n]
    ensures 128 <= n < 256 ==> DerLength(n) == [0x81, n]
    ensures 256 <= n < 0x1_0000 ==> DerLength(n) == [0x82, n / 256, n % 256]
  {
    if 128 <= n < 256 {
      LowByte(n);
    } else if 256 <= n < 0x1_0000 {
      LowByte(n / 256);
    }
  }

  lemma LowByte(n: nat)
    requires n < 256
    ensures Bytes(n, 1) == [n]
  {
    assert Bytes(0, 0) == [];
  }

  /** A number whose top bit is set has a zero byte in front. */
  lemma Integers()
    ensures IntegerBytes(0) == [0] && IntegerBytes(1) == [1] && IntegerBytes(127) == [127]
    ensures IntegerBytes(128) == [0, 128] && IntegerBytes(256) == [1, 0] && IntegerBytes(0xFFFF) == [0, 0xFF, 0xFF]
  {
    LowByte(0);
    LowByte(1);
    LowByte(127);
    LowByte(128);
    LowByte(255);
  }

  /** An element with short contents. */
  lemma Element(tag: Byte, c: seq<Byte>)
    requires |c| < 128
    ensures Tlv(tag, c) == [tag, |c|] + c
  {
    Lengths(|c|);
  }

  /** Identifiers: NULL is 05, INTEGER 02, OCTET STRING 04, SEQUENCE 30, and explicit tags start
      from A0. */
  lemma Identifiers(k: nat)
    requires k <= 30
    ensures EncodeDer(Tagged(-1, DerNull)) == [0x05, 0]
    ensures EncodeDer(Tagged(-1, DerInteger(128))) == [0x02, 2, 0, 0x80]
    ensures EncodeDer(Tagged(-1, DerOctets([7, 8]))) == [0x04, 2, 7, 8]
    ensures EncodeDer(Tagged(-1, DerSequence([]))) == [0x30, 0]
    ensures EncodeDer(Tagged(k, DerNull)) == [0xA0 + k, 2, 0x05, 0]
  {
    hide Tlv, IntegerBytes;
    Integers();
    Element(0x05, []);
    Element(0x02, [0, 0x80]);
    Element(0x04, [7, 8]);
    Element(0x30, []);
    Element(0xA0 + k, [0x05, 0]);
    NullBytes();
  }

  lemma NullBytes()
    ensures [0x05, 0] + [] == [0x05, 0]
  {
  }

  const NESTED: Der := DerSequence([Tagged(-1, DerInteger(128)), Tagged(3, DerNull)])

  lemma NestedBytes()
    ensures WellTagged(Tagged(-1, NESTED)) && Callable(NESTED)
    ensures EncodeDer(Tagged(-1, NESTED)) == [0x30, 8, 0x02, 2, 0, 0x80, 0xA3, 2, 0x05, 0]
  {
    var items := [Tagged(-1, DerInteger(128)), Tagged(3, DerNull)];
    Identifiers(3);
    assert items[1..] == [Tagged(3, DerNull)] && items[1..][1..] == [];
    var c := [0x02, 2, 0, 0x80, 0xA3, 2, 0x05, 0];
    assert EncodeItems(items[1..]) == EncodeDer(items[1]) + EncodeItems([]);
    hide EncodeDer, Tlv;
    assert EncodeItems(items) == c;
    Element(0x30, c);
    NestedIs(items);
  }

  lemma NestedIs(items: seq<Tagged>)
    requires WellTagged(Tagged(-1, DerSequence(items)))
    ensures EncodeDer(Tagged(-1, DerSequence(items))) == Tlv(0x30, EncodeItems(items))
  {
    hide Tlv, EncodeItems;
  }

  /** A sequence of an INTEGER and a tagged NULL, at the end of a buffer of twelve bytes. */
  method Nested() returns (ok: bool, n: nat, out: seq<Byte>)
    ensures ok && n == 10
    ensures out == [0xEE, 0xEE, 0x30, 8, 0x02, 2, 0, 0x80, 0xA3, 2, 0x05, 0]
  {
    hide EncodeDer, WellTagged, Callable;
    NestedBytes();
    var buf := new Byte[12](_ => 0xEE);
    ok, n := Produce(buf, Tagged(-1, NESTED));
    out := buf[..];
    assert out == out[..2] + out[2..];
  }

  // ---------- Signatures ----------

  lemma SignatureBytes()
    ensures DerSig(1, 128) == [0x30, 7, 0x02, 1, 1, 0x02, 2, 0, 0x80] && Supported(1, 128)
  {
    hide Tlv, IntegerBytes;
    Integers();
    Element(0x02, [1]);
    Element(0x02, [0, 0x80]);
    assert SigContent(1, 128) == [0x02, 1, 1, 0x02, 2, 0, 0x80];
    Element(0x30, SigContent(1, 128));
  }

  /** The signature with the numbers 1 and 128, written and read back. */
  method Signature() returns (ok: bool, out: seq<Byte>, r: nat, s: nat, consumed: nat)
    ensures ok && out == [0x30, 7, 0x02, 1, 1, 0x02, 2, 0, 0x80]
    ensures r == 1 && s == 128 && consumed == 9
  {
    hide Sound, DerSig, Supported, Add;
    SignatureBytes();
    var buf := new Byte[9];
    var w := new Wpacket.InitStaticLen(buf, 0);
    SoundFacts(w.View());
    ghost var b;
    ok, b := EncodeDsaSig(w, 1, 128);
    AddToEmpty(b);
    ok, out := FinishPlain(w, Frame(0, 0, b));
    r, s, consumed := DerDecoder.RoundTrip(1, 128, []);
  }

  lemma AddToEmpty(b: seq<Byte>)
    ensures Add(false, [Frame(0, 0, [])], b) == [Frame(0, 0, b)] && Finished(false, Frame(0, 0, b)) == b
  {
    assert [] + b == b && Bytes(|b|, 0) == [];
    InitSnoc([], Frame(0, 0, []));
  }

  /** What is refused: the indefinite length, lengths of three bytes, lengths cut off, other tags,
      no contents, a set sign bit, and a needless zero byte. */
  lemma NotDecoded()
    ensures DecodeLength([]) == None && DecodeLength([0x80]) == None && DecodeLength([0x83, 0, 0, 0]) == None
    ensures DecodeLength([0x81]) == None && DecodeLength([0x82, 0]) == None && DecodeLength([1]) == None
    ensures DecodeInteger([]) == None && DecodeInteger([0x03, 1, 1]) == None && DecodeInteger([0x02, 0]) == None
    ensures DecodeInteger([0x02, 1, 0x80]) == None && DecodeInteger([0x02, 2, 0, 0x7F]) == None
    ensures DecodeSig([0x31, 6, 0x02, 1, 1, 0x02, 1, 1]) == None
  {
    assert [0x02, 1, 0x80][1..][1..][..1] == [0x80];
    assert [0x02, 2, 0, 0x7F][1..][1..][..2] == [0, 0x7F];
  }

  // ---------- Abandoned sequences ----------

  const EMPTY: Frame := Frame(0, 0, [])
  const ABANDONED: Frame := Frame(0, 2, [])

  lemma EmptySequence()
    ensures SequenceTlv(-1, []) == [0x30, 0]
  {
    Element(0x30, []);
    hide Tlv;
    assert [0x30, 0] + [] == [0x30, 0];
  }

  lemma EndedFrames(tag: int)
    requires -1 <= tag <= 30
    ensures Ended([EMPTY, EMPTY], tag, ABANDONED) == if tag < 0 then [EMPTY, ABANDONED] else [EMPTY, EMPTY]
    ensures Ended([EMPTY], -1, ABANDONED) == [ABANDONED]
  {
    hide SequenceTlv;
    assert Init([EMPTY, EMPTY]) == [EMPTY] && Init([EMPTY]) == [];
  }

  lemma EndedOuter()
    ensures Ended([EMPTY], -1, EMPTY) == [Frame(0, 0, [0x30, 0])]
  {
    hide SequenceTlv;
    EmptySequence();
    assert Init([EMPTY]) == [] && [0x30, 0] + [] == [0x30, 0];
  }

  lemma FinishedFrames()
    ensures Finished(true, ABANDONED) == [] && Finished(true, Frame(0, 0, [0x30, 0])) == [0x30, 0]
  {
  }

  lemma FlagSet(fs: seq<Frame>)
    ensures Init(fs + [EMPTY]) + [Top(fs + [EMPTY]).(flags := 2)] == fs + [ABANDONED]
  {
    InitSnoc(fs, EMPTY);
  }

  /** An empty sequence that is to be abandoned, inside another: it leaves nothing.  If it has no
      tag around it, the other one is abandoned with it. */
  method EmptyInside(tag: int) returns (ok: bool, out: seq<Byte>)
    requires -1 <= tag <= 30
    ensures ok && out == if tag < 0 then [] else [0x30, 0]
  {
    hide Sound, KeptOutside, Ended, Around;
    var w := OpenBoth(tag);
    EndedFrames(tag);
    var ended := EndSequence(w, tag, [EMPTY, EMPTY], ABANDONED);
    ok, out := EndOuter(w, if tag < 0 then ABANDONED else EMPTY);
  }

  /** The two sequences, open, the inner one flagged. */
  method OpenBoth(tag: int) returns (w: Wpacket)
    requires -1 <= tag <= 30
    ensures fresh(w) && fresh(w.data) && w.Valid() && w.endfirst && w.kind == Static
    ensures w.maxsize == 8 && w.written == 0 && w.frames == Around([EMPTY, EMPTY], tag) + [ABANDONED]
  {
    hide Sound, KeptOutside, Around, Init, Top;
    var buf := new Byte[8];
    w := new Wpacket.InitDer(buf);
    AroundNone([EMPTY]);
    var begun := BeginSequence(w, -1);
    assert [EMPTY] + [EMPTY] == [EMPTY, EMPTY];
    begun := BeginSequence(w, tag);
    SoundFacts(w.View());
    FlagSet(Around([EMPTY, EMPTY], tag));
    begun := w.SetFlags(2);
  }

  lemma AroundNone(fs: seq<Frame>)
    ensures Around(fs, -1) == fs
  {
  }

  method EndOuter(w: Wpacket, ghost f: Frame) returns (ok: bool, out: seq<Byte>)
    requires w.Valid() && w.endfirst && w.kind == Static && w.maxsize == 8 && w.written == 0
    requires w.frames == [EMPTY, f] && (f == ABANDONED || f == EMPTY)
    modifies w`data, w`written, w`curr, w`frames, w`subs, w`output, w.data
    ensures ok && out == if f == ABANDONED then [] else [0x30, 0]
  {
    hide Sound, KeptOutside, Ended, Around, Finished;
    EndedFrames(-1);
    EndedOuter();
    FinishedFrames();
    AroundNone([EMPTY]);
    OuterSize();
    assert [EMPTY] + [f] == [EMPTY, f];
    ok := EndSequence(w, -1, [EMPTY], f);
    ok, out := FinishPlain(w, w.frames[0]);
  }

  lemma OuterSize()
    ensures |SequenceTlv(-1, [])| == 2 && Abandoned(ABANDONED) && !Abandoned(EMPTY)
    ensures !Refused(ABANDONED) && !Refused(EMPTY)
  {
    EmptySequence();
  }
}
