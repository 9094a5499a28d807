/** Writing DER back to front, crypto/der_writer.c, against the encoding rules of X.690. */
module DerWriter {
  import opened BigEndian
  import opened PacketFrames
  import opened Wpacket

  const DER_P_INTEGER: Byte := 2
  const DER_P_OCTET_STRING: Byte := 4
  const DER_P_NULL: Byte := 5
  const DER_P_SEQUENCE: Byte := 16
  const DER_F_CONSTRUCTED: Byte := 0x20
  const DER_C_CONTEXT: Byte := 0x80

  // ---------- X.690 ----------

  /** Identifier, length and contents, section 8.1 of X.690. */
  function Tlv(tag: Byte, c: seq<Byte>): seq<Byte> {
    [tag] + DerLength(|c|) + c
  }

  /** The contents of a non-negative INTEGER, section 8.3 of X.690: the fewest bytes whose top bit
      is clear. */
  function IntegerBytes(v: nat): seq<Byte> {
    var b := Bytes(v, Size(v));
    if b[0] >= 0x80 then [0] + b else b
  }

  /** Explicit tagging, section 8.14 of X.690; a negative tag is none. */
  function InContext(tag: int, c: seq<Byte>): seq<Byte>
    requires tag <= 30
  {
    if tag < 0 then c else Tlv(DER_C_CONTEXT + DER_F_CONSTRUCTED + tag, c)
  }

  datatype Der = DerNull | DerInteger(v: nat) | DerOctets(b: seq<Byte>) | DerSequence(items: seq<Tagged>)
  datatype Tagged = Tagged(tag: int, x: Der)

  predicate WellTagged(t: Tagged) {
    t.tag <= 30 && match t.x
      case DerNull => true
      case DerInteger(v) => v < 0x1_0000_0000
      case DerOctets(b) => |b| <= SIZE_MAX
      case DerSequence(items) => forall k :: 0 <= k < |items| ==> WellTagged(items[k])
  }

  function EncodeDer(t: Tagged): seq<Byte>
    requires WellTagged(t)
  {
    InContext(t.tag, match t.x
      case DerNull => Tlv(DER_P_NULL, [])
      case DerInteger(v) => Tlv(DER_P_INTEGER, IntegerBytes(v))
      case DerOctets(b) => Tlv(DER_P_OCTET_STRING, b)
      case DerSequence(items) => Tlv(DER_F_CONSTRUCTED + DER_P_SEQUENCE, EncodeItems(items)))
  }

  function EncodeItems(items: seq<Tagged>): seq<Byte>
    requires forall k :: 0 <= k < |items| ==> WellTagged(items[k])
  {
    if items == [] then [] else EncodeDer(items[0]) + EncodeItems(items[1..])
  }

  /** The contents of an INTEGER read back as the number, with its sign bit clear, and no shorter
      contents would do (section 8.3.2 of X.690). */
  lemma IntegerBytesRight(v: nat)
    ensures var b := IntegerBytes(v);
            && |b| >= 1 && Value(b) == v && b[0] < 0x80
            && (|b| >= 2 && b[0] == 0 ==> b[1] >= 0x80)
  {
    var b := Bytes(v, Size(v));
    ValueOfBytes(v, Size(v));
    if b[0] >= 0x80 {
      ValueLeadingZero(b);
    } else if |b| >= 2 {
      TopByte(v, Size(v));
    }
  }

  /** The top byte of a number of `n` bytes is not zero. */
  lemma {:induction false} TopByte(v: nat, n: nat)
    requires n == Size(v)
    ensures n >= 2 ==> Bytes(v, n)[0] != 0
  {
    if n >= 2 {
      assert Bytes(v, n)[0] == Bytes(v / 256, n - 1)[0];
      if n > 2 {
        TopByte(v / 256, n - 1);
      } else {
        OneByte(v / 256);
      }
    }
  }

  // ---------- The writers ----------

  /** `int_start_context`. */
  method StartContext(w: Wpacket, tag: int) returns (ok: bool)
    requires w.Valid() && w.endfirst && w.frames != []
    modifies w`data, w`written, w`curr, w`frames, w`subs
    ensures w.data == old(w.data) && ok == (tag <= 30)
    ensures ok ==> w.Valid() && w.written == old(w.written)
    ensures ok ==> w.frames == if tag < 0 then old(w.frames) else old(w.frames) + [Frame(0, 0, [])]
    ensures KeptOutside(old(w.View()), w.View()) && old(w.written) <= w.written
  {
    SoundFacts(w.View());
    hide Sound;
    if tag < 0 {
      return true;
    }
    if tag > 30 {
      return false;
    }
    ok := w.StartSubPacketLen(0);
  }

  lemma ClosedDer(v: Writer, outer: seq<Frame>, f: Frame, v': Writer)
    requires Sound(v) && Sound(v') && v.e && outer != [] && v.frames == outer + [f] && f.lenbytes == 0
    requires |Top(v.frames).content| <= SIZE_MAX && IsClosed(v, v')
    ensures v'.frames == ClosedElement(outer, f) && v'.written == v.written + ClosedLonger(f)
  {
    InitSnoc(outer, f);
    SizeSmall(|f.content|);
    AddParts(true, outer, DerLength(|f.content|) + f.content);
    assert Total(v.frames) == Total(outer) + |f.content|;
  }

  /** A sub-packet flagged as non-empty that is empty. */
  predicate Refused(f: Frame) {
    f.content == [] && NonZeroFlag(f.flags)
  }

  function ClosedElement(outer: seq<Frame>, f: Frame): seq<Frame>
    requires outer != []
  {
    if Abandoned(f) then outer else Add(true, outer, DerLength(|f.content|) + f.content)
  }

  function ClosedLonger(f: Frame): (n: nat)
    ensures Abandoned(f) ==> n == 0
    ensures !Abandoned(f) && |f.content| <= SIZE_MAX ==> n > 0
  {
    if Abandoned(f) then 0 else SomeLength(|f.content|); |DerLength(|f.content|)|
  }

  lemma SomeLength(n: nat)
    ensures n <= SIZE_MAX ==> |DerLength(n)| > 0
  {
    if n <= SIZE_MAX {
      SizeSmall(n);
    }
  }

  /** `WPACKET_close`: the length is written unless the sub-packet is abandoned. */
  method CloseDer(w: Wpacket, ghost outer: seq<Frame>, ghost f: Frame) returns (ok: bool)
    requires w.Valid() && w.endfirst && outer != [] && w.frames == outer + [f] && f.lenbytes == 0
    modifies w`data, w`written, w`curr, w`frames, w`subs, w`output, w.data
    ensures w.data == old(w.data) && old(w.written) <= w.written && |f.content| <= SIZE_MAX
    ensures ok == (!Refused(f) && ClosedLonger(f) <= w.maxsize - old(w.written))
    ensures ok ==> w.Valid() && w.frames == ClosedElement(outer, f) && w.written == old(w.written) + ClosedLonger(f)
    ensures KeptOutside(old(w.View()), w.View())
  {
    ghost var v := w.View();
    SoundFacts(v);
    InitSnoc(outer, f);
    hide Sound, KeptOutside, DerLength, Size, IsClosed, Add, ClosedElement;
    ok := w.Close();
    if ok {
      ClosedDer(v, outer, f, w.View());
    }
  }

  /** `WPACKET_close` and then the identifier in front. */
  method EndTagged(w: Wpacket, tag: Byte, ghost outer: seq<Frame>, ghost c: seq<Byte>) returns (ok: bool)
    requires w.Valid() && w.endfirst && outer != [] && w.frames == outer + [Frame(0, 0, c)]
    modifies w`data, w`written, w`curr, w`frames, w`subs, w`output, w.data
    ensures w.data == old(w.data) && old(w.written) <= w.written
    ensures ok == (|Tlv(tag, c)| - |c| <= w.maxsize - old(w.written))
    ensures ok ==> w.Valid() && w.frames == Add(true, outer, Tlv(tag, c))
    ensures ok ==> w.written == old(w.written) + |Tlv(tag, c)| - |c|
    ensures KeptOutside(old(w.View()), w.View())
  {
    TlvSteps(outer, tag, c);
    hide KeptOutside, DerLength, Add, Tlv;
    ok := CloseDer(w, outer, Frame(0, 0, c));
    if ok {
      ghost var v := w.View();
      ok := w.PutBackward(tag, 1);
      KeptTwice(old(w.View()), v, w.View());
    }
  }

  lemma TlvSteps(outer: seq<Frame>, tag: Byte, c: seq<Byte>)
    requires outer != []
    ensures Pow256(1) == 256 && |Tlv(tag, c)| == 1 + |DerLength(|c|)| + |c|
    ensures Add(true, outer, DerLength(|c|) + c) != []
    ensures Add(true, Add(true, outer, DerLength(|c|) + c), Bytes(tag, 1)) == Add(true, outer, Tlv(tag, c))
  {
    OneByte(tag);
    AddTwice(outer, DerLength(|c|) + c, [tag]);
    Joined([tag], DerLength(|c|), c);
  }

  /** `int_end_context`: the identifier is written only if closing wrote a length. */
  method EndContext(w: Wpacket, tag: int, ghost outer: seq<Frame>, ghost f: Frame) returns (ok: bool)
    requires w.Valid() && w.endfirst && outer != [] && tag <= 30 && f.lenbytes == 0
    requires w.frames == if tag < 0 then Add(true, outer, f.content) else outer + [f]
    modifies w`data, w`written, w`curr, w`frames, w`subs, w`output, w.data
    ensures w.data == old(w.data) && old(w.written) <= w.written
    ensures ok == (tag < 0 || (!Refused(f) &&
        (Abandoned(f) || |InContext(tag, f.content)| - |f.content| <= w.maxsize - old(w.written))))
    ensures ok ==> w.Valid()
    ensures ok ==> w.frames == if tag >= 0 && Abandoned(f) then outer else Add(true, outer, InContext(tag, f.content))
    ensures ok ==>
      w.written == old(w.written) + if tag >= 0 && Abandoned(f) then 0 else |InContext(tag, f.content)| - |f.content|
    ensures KeptOutside(old(w.View()), w.View())
  {
    SoundFacts(w.View());
    if tag < 0 {
      return true;
    }
    TlvSteps(outer, DER_C_CONTEXT + DER_F_CONSTRUCTED + tag, f.content);
    hide Sound, KeptOutside, Add, Tlv, DerLength;
    var size1 := w.written;
    ok := CloseDer(w, outer, f);
    if ok {
      ghost var v := w.View();
      var size2 := w.written;
      if size1 != size2 {
        ok := w.PutBackward(DER_C_CONTEXT + DER_F_CONSTRUCTED + tag, 1);
        KeptTwice(old(w.View()), v, w.View());
      }
    }
  }

  /** The sub-packet a leaf or a sequence is written in, and the one around it. */
  function Around(outer: seq<Frame>, tag: int): seq<Frame> {
    if tag < 0 then outer else outer + [Frame(0, 0, [])]
  }

  lemma AroundAdd(outer: seq<Frame>, tag: int, c: seq<Byte>)
    requires outer != []
    ensures Around(outer, tag) != []
    ensures Add(true, Around(outer, tag), c) == if tag < 0 then Add(true, outer, c) else outer + [Frame(0, 0, c)]
  {
    InitSnoc(outer, Frame(0, 0, []));
    assert c + [] == c;
  }

  /** The second half of every writer: closing the element and its context. */
  method EndElement(w: Wpacket, tag: int, id: Byte, ghost outer: seq<Frame>, ghost c: seq<Byte>) returns (ok: bool)
    requires w.Valid() && w.endfirst && outer != [] && tag <= 30
    requires w.frames == Around(outer, tag) + [Frame(0, 0, c)]
    modifies w`data, w`written, w`curr, w`frames, w`subs, w`output, w.data
    ensures w.data == old(w.data) && old(w.written) <= w.written
    ensures ok == (|InContext(tag, Tlv(id, c))| - |c| <= w.maxsize - old(w.written))
    ensures ok ==> w.Valid() && w.frames == Add(true, outer, InContext(tag, Tlv(id, c)))
    ensures ok ==> w.written == old(w.written) + |InContext(tag, Tlv(id, c))| - |c|
    ensures KeptOutside(old(w.View()), w.View())
  {
    AroundAdd(outer, tag, Tlv(id, c));
    NotEmpty(id, c);
    ContextLonger(tag, Tlv(id, c));
    hide KeptOutside, Add, Tlv, InContext, Around;
    ok := EndTagged(w, id, Around(outer, tag), c);
    if ok {
      ghost var v := w.View();
      ok := EndContext(w, tag, outer, Frame(0, 0, Tlv(id, c)));
      KeptTwice(old(w.View()), v, w.View());
    }
  }

  lemma NotEmpty(id: Byte, c: seq<Byte>)
    ensures Tlv(id, c) != [] && !Refused(Frame(0, 0, Tlv(id, c))) && !Abandoned(Frame(0, 0, Tlv(id, c)))
  {
  }

  lemma ContextLonger(tag: int, c: seq<Byte>)
    requires tag <= 30
    ensures |InContext(tag, c)| >= |c|
  {
  }

  /** The first half: opening the context and the element. */
  method BeginElement(w: Wpacket, tag: int) returns (ok: bool)
    requires w.Valid() && w.endfirst && w.frames != []
    modifies w`data, w`written, w`curr, w`frames, w`subs
    ensures w.data == old(w.data) && ok == (tag <= 30)
    ensures ok ==> w.Valid() && w.written == old(w.written)
    ensures ok ==> w.frames == Around(old(w.frames), tag) + [Frame(0, 0, [])]
    ensures KeptOutside(old(w.View()), w.View()) && old(w.written) <= w.written
  {
    hide Sound, KeptOutside;
    ok := StartContext(w, tag);
    if ok {
      ghost var v := w.View();
      SoundFacts(v);
      ok := w.StartSubPacketLen(0);
      KeptTwice(old(w.View()), v, w.View());
    }
  }

  /** What writing an element comes to: it succeeds exactly when its tag is allowed and it fits, and
      then it comes before everything written so far. */
  ghost predicate Wrote(w: Writer, w': Writer, ok: bool, t: Tagged) {
    && ok == (WellTagged(t) && |EncodeDer(t)| <= w.max - w.written)
    && (ok ==> w.frames != [] && w'.frames == Add(true, w.frames, EncodeDer(t)))
    && (ok ==> w'.written == w.written + |EncodeDer(t)|)
    && w.written <= w'.written && KeptOutside(w, w')
  }

  /** `ossl_DER_w_null`. */
  method WriteNull(w: Wpacket, tag: int) returns (ok: bool)
    requires w.Valid() && w.endfirst && w.frames != []
    modifies w`data, w`written, w`curr, w`frames, w`subs, w`output, w.data
    ensures w.data == old(w.data) && (ok ==> w.Valid())
    ensures Wrote(old(w.View()), w.View(), ok, Tagged(tag, DerNull))
  {
    hide Sound, KeptOutside, Tlv, InContext, Add;
    ok := BeginElement(w, tag);
    if ok {
      ghost var v := w.View();
      ok := EndElement(w, tag, DER_P_NULL, old(w.frames), []);
      KeptTwice(old(w.View()), v, w.View());
    }
  }

  /** An element filled with `c` in one go. */
  method Fill(w: Wpacket, tag: int, c: seq<Byte>, ghost outer: seq<Frame>) returns (ok: bool)
    requires w.Valid() && w.endfirst && outer != [] && w.frames == Around(outer, tag) + [Frame(0, 0, [])]
    requires |c| <= SIZE_MAX
    modifies w`data, w`written, w`curr, w`frames, w.data
    ensures w.data == old(w.data) && ok == (|c| <= w.maxsize - old(w.written)) && old(w.written) <= w.written
    ensures ok ==> w.Valid() && w.frames == Around(outer, tag) + [Frame(0, 0, c)] && w.written == old(w.written) + |c|
    ensures KeptOutside(old(w.View()), w.View())
  {
    SoundFacts(w.View());
    FilledFrame(true, Around(outer, tag), 0, c);
    hide Sound, KeptOutside, Add, Around;
    ok := w.Memcpy(c);
  }

  lemma ElementLonger(tag: int, id: Byte, c: seq<Byte>)
    requires tag <= 30
    ensures |InContext(tag, Tlv(id, c))| >= |c|
  {
  }

  /** `ossl_DER_w_octet_string`. */
  method WriteOctetString(w: Wpacket, tag: int, data: seq<Byte>) returns (ok: bool)
    requires w.Valid() && w.endfirst && w.frames != [] && |data| <= SIZE_MAX
    modifies w`data, w`written, w`curr, w`frames, w`subs, w`output, w.data
    ensures w.data == old(w.data) && (ok ==> w.Valid())
    ensures Wrote(old(w.View()), w.View(), ok, Tagged(tag, DerOctets(data)))
  {
    hide Sound, KeptOutside, Tlv, InContext, Add;
    ok := BeginElement(w, tag);
    if ok {
      ElementLonger(tag, DER_P_OCTET_STRING, data);
      ghost var v := w.View();
      ok := Fill(w, tag, data, old(w.frames));
      KeptTwice(old(w.View()), v, w.View());
    }
    if ok {
      ghost var v := w.View();
      ok := EndElement(w, tag, DER_P_OCTET_STRING, old(w.frames), data);
      KeptTwice(old(w.View()), v, w.View());
    }
  }

  /** `ossl_DER_w_octet_string_uint32`: four bytes, most significant first. */
  method WriteOctetStringUint32(w: Wpacket, tag: int, value: nat) returns (ok: bool)
    requires w.Valid() && w.endfirst && w.frames != [] && value < 0x1_0000_0000
    modifies w`data, w`written, w`curr, w`frames, w`subs, w`output, w.data
    ensures w.data == old(w.data) && (ok ==> w.Valid())
    ensures Wrote(old(w.View()), w.View(), ok, Tagged(tag, DerOctets(Bytes(value, 4))))
  {
    var tmp: seq<Byte> := [0, 0, 0, 0];
    var pbuf, v: nat := 3, value;
    ghost var n: nat := 4;
    FourBytes(value);
    while v > 0
      invariant 0 <= n <= 4 && pbuf == n - 1 && |tmp| == 4 && v < Pow256(n)
      invariant Bytes(value, 4) == Bytes(v, n) + tmp[n..]
      invariant forall i :: 0 <= i < n ==> tmp[i] == 0
      decreases v
    {
      assert Bytes(v, n) == Bytes(v / 256, n - 1) + [v % 256];
      tmp := tmp[pbuf := v % 256];
      pbuf, v, n := pbuf - 1, v / 256, n - 1;
    }
    ZeroBytes(n);
    assert tmp == Bytes(value, 4);
    hide Wrote;
    ok := WriteOctetString(w, tag, tmp);
  }

  lemma FourBytes(v: nat)
    ensures v < 0x1_0000_0000 ==> v < Pow256(4)
  {
    assert Pow256(2) == 0x1_0000;
  }

  lemma {:induction false} ZeroBytes(n: nat)
    ensures forall i :: 0 <= i < n ==> Bytes(0, n)[i] == 0
  {
    if n > 0 {
      ZeroBytes(n - 1);
      assert Bytes(0, n) == Bytes(0 / 256, n - 1) + [0];
    }
  }

  /** `int_put_bytes_uint32`: the bytes of a number and the most significant of them. */
  method PutBytesUint32(w: Wpacket, value: nat) returns (ok: bool, topByte: Byte)
    requires w.Valid() && w.endfirst && w.frames != [] && value < 0x1_0000_0000
    modifies w`data, w`written, w`curr, w`frames, w.data
    ensures w.data == old(w.data) && old(w.written) <= w.written && w.Valid()
    ensures ok == (Size(value) <= w.maxsize - old(w.written)) && topByte == Bytes(value, Size(value))[0]
    ensures ok ==>
      w.frames == Add(true, old(w.frames), Bytes(value, Size(value))) && w.written == old(w.written) + Size(value)
    ensures KeptOutside(old(w.View()), w.View())
  {
    var n;
    n, topByte := Measure(value);
    FourBytes(value);
    SizeIsLeast(value, 4);
    hide Sound, KeptOutside, Bytes, Size, Pow256, Add;
    ok := w.PutBackward(value, n);
  }

  /** The loop of `int_put_bytes_uint32`: how many bytes there are and the most significant one. */
  method Measure(value: nat) returns (n: nat, topByte: Byte)
    ensures n == Size(value) && topByte == Bytes(value, n)[0]
  {
    var tmp := value;
    n, topByte := 0, 0;
    while tmp != 0
      invariant 0 <= tmp
      invariant tmp != 0 ==> Size(value) == n + Size(tmp) && FirstByte(value) == FirstByte(tmp)
      invariant tmp == 0 ==> Size(value) == (if n == 0 then 1 else n) && topByte == FirstByte(value)
      decreases tmp
    {
      TopStep(tmp);
      topByte := tmp % 256;
      tmp := tmp / 256;
      n := n + 1;
    }
    if n == 0 {
      n := 1;
    }
  }

  /** Dropping the last byte of a number keeps the first. */
  lemma TopStep(v: nat)
    requires v > 0
    ensures v < 256 ==> Size(v) == 1 && FirstByte(v) == v
    ensures v >= 256 ==> Size(v) == 1 + Size(v / 256) && FirstByte(v) == FirstByte(v / 256)
  {
    hide Size, Pow256;
    if v < 256 {
      OneByte(v);
      assert FirstByte(v) == v;
    } else {
      SizeOfMore(v);
      FirstOfMore(v, v / 256);
    }
  }

  function FirstByte(v: nat): Byte {
    Bytes(v, Size(v))[0]
  }

  lemma FirstOfMore(v: nat, rest: nat)
    requires v >= 256 && rest == v / 256
    ensures FirstByte(v) == FirstByte(rest)
  {
    SizeOfMore(v);
    SnocFirst(Bytes(rest, Size(rest)), v % 256);
  }

  lemma SnocFirst(a: seq<Byte>, x: Byte)
    requires a != []
    ensures (a + [x])[0] == a[0]
  {
  }

  /** The contents of an INTEGER: the bytes of the number, and a zero if the top bit is set. */
  method PutInteger(w: Wpacket, v: nat, ghost outer: seq<Frame>) returns (ok: bool)
    requires w.Valid() && w.endfirst && outer != [] && w.frames == outer + [Frame(0, 0, [])] && v < 0x1_0000_0000
    modifies w`data, w`written, w`curr, w`frames, w.data
    ensures w.data == old(w.data) && ok == (|IntegerBytes(v)| <= w.maxsize - old(w.written))
    ensures old(w.written) <= w.written
    ensures ok ==> w.Valid() && w.frames == outer + [Frame(0, 0, IntegerBytes(v))]
    ensures ok ==> w.written == old(w.written) + |IntegerBytes(v)|
    ensures KeptOutside(old(w.View()), w.View())
  {
    IntegerSteps(outer, v);
    hide Sound, KeptOutside, Add, Bytes, Size, Pow256;
    var topByte;
    ok, topByte := PutBytesUint32(w, v);
    if ok && topByte >= 0x80 {
      ghost var u := w.View();
      ok := w.PutBackward(0, 1);
      KeptTwice(old(w.View()), u, w.View());
    }
  }

  lemma IntegerSteps(outer: seq<Frame>, v: nat)
    requires outer != []
    ensures var b, fs := Bytes(v, Size(v)), outer + [Frame(0, 0, [])];
            && |b| == Size(v) >= 1 && |IntegerBytes(v)| == |b| + (if b[0] >= 0x80 then 1 else 0) && Pow256(1) == 256
            && Add(true, fs, b) != []
            && outer + [Frame(0, 0, IntegerBytes(v))]
               == if b[0] >= 0x80 then Add(true, Add(true, fs, b), Bytes(0, 1)) else Add(true, fs, b)
  {
    var b, fs := Bytes(v, Size(v)), outer + [Frame(0, 0, [])];
    OneByte(0);
    AddTwice(fs, b, [0]);
    FilledFrame(true, outer, 0, b);
    FilledFrame(true, outer, 0, [0] + b);
  }

  /** `ossl_DER_w_uint32`. */
  method WriteUint32(w: Wpacket, tag: int, v: nat) returns (ok: bool)
    requires w.Valid() && w.endfirst && w.frames != [] && v < 0x1_0000_0000
    modifies w`data, w`written, w`curr, w`frames, w`subs, w`output, w.data
    ensures w.data == old(w.data) && (ok ==> w.Valid())
    ensures Wrote(old(w.View()), w.View(), ok, Tagged(tag, DerInteger(v)))
  {
    hide Sound, KeptOutside, Tlv, InContext, Add, IntegerBytes;
    ok := BeginElement(w, tag);
    if ok {
      ElementLonger(tag, DER_P_INTEGER, IntegerBytes(v));
      ghost var u := w.View();
      AroundSome(old(w.frames), tag);
      ok := PutInteger(w, v, Around(old(w.frames), tag));
      KeptTwice(old(w.View()), u, w.View());
    }
    if ok {
      ghost var u := w.View();
      ok := EndElement(w, tag, DER_P_INTEGER, old(w.frames), IntegerBytes(v));
      KeptTwice(old(w.View()), u, w.View());
    }
  }

  lemma AroundSome(outer: seq<Frame>, tag: int)
    requires outer != []
    ensures Around(outer, tag) != []
  {
  }

  /** `ossl_DER_w_begin_sequence`. */
  method BeginSequence(w: Wpacket, tag: int) returns (ok: bool)
    requires w.Valid() && w.endfirst && w.frames != []
    modifies w`data, w`written, w`curr, w`frames, w`subs
    ensures w.data == old(w.data) && ok == (tag <= 30)
    ensures ok ==> w.Valid() && w.written == old(w.written)
    ensures ok ==> w.frames == Around(old(w.frames), tag) + [Frame(0, 0, [])]
    ensures KeptOutside(old(w.View()), w.View()) && old(w.written) <= w.written
  {
    ok := BeginElement(w, tag);
  }

  const WPACKET_FLAGS_ABANDON_ON_ZERO_LENGTH: nat := 2

  function SequenceTlv(tag: int, c: seq<Byte>): seq<Byte>
    requires tag <= 30
  {
    InContext(tag, Tlv(DER_F_CONSTRUCTED + DER_P_SEQUENCE, c))
  }

  /** What ending a sequence leaves: an abandoned one is gone with its context; without a context
      it is the sub-packet around it that is now to be abandoned if it stays empty. */
  function Ended(outer: seq<Frame>, tag: int, f: Frame): seq<Frame>
    requires outer != [] && tag <= 30
  {
    if !Abandoned(f) then Add(true, outer, SequenceTlv(tag, f.content))
    else if tag < 0 then Init(outer) + [Top(outer).(flags := WPACKET_FLAGS_ABANDON_ON_ZERO_LENGTH)]
    else outer
  }

  /** `ossl_DER_w_end_sequence`. */
  method EndSequence(w: Wpacket, tag: int, ghost outer: seq<Frame>, ghost f: Frame) returns (ok: bool)
    requires w.Valid() && w.endfirst && outer != [] && tag <= 30 && f.lenbytes == 0
    requires w.frames == Around(outer, tag) + [f]
    modifies w`data, w`written, w`curr, w`frames, w`subs, w`output, w.data
    ensures w.data == old(w.data) && old(w.written) <= w.written
    ensures ok == (!Refused(f) &&
        (Abandoned(f) || |SequenceTlv(tag, f.content)| - |f.content| <= w.maxsize - old(w.written)))
    ensures ok ==> w.Valid() && w.frames == Ended(outer, tag, f)
    ensures ok ==> w.written == old(w.written) + if Abandoned(f) then 0 else |SequenceTlv(tag, f.content)| - |f.content|
    ensures KeptOutside(old(w.View()), w.View())
  {
    AroundSome(outer, tag);
    TlvSteps(Around(outer, tag), DER_F_CONSTRUCTED + DER_P_SEQUENCE, f.content);
    ContextLonger(tag, Tlv(DER_F_CONSTRUCTED + DER_P_SEQUENCE, f.content));
    hide Sound, KeptOutside, Add, Tlv, DerLength, Around, InContext;
    var size1 := w.written;
    ok := CloseDer(w, Around(outer, tag), f);
    if !ok {
      return;
    }
    ghost var v := w.View();
    var size2 := w.written;
    if size1 == size2 {
      ok := EndAbandoned(w, tag, outer);
    } else {
      ok := w.PutBackward(DER_F_CONSTRUCTED + DER_P_SEQUENCE, 1);
      if ok {
        ok := EndWritten(w, tag, outer, Tlv(DER_F_CONSTRUCTED + DER_P_SEQUENCE, f.content));
      }
    }
    KeptTwice(old(w.View()), v, w.View());
  }

  /** The rest of `ossl_DER_w_end_sequence` after an abandoned sequence. */
  method EndAbandoned(w: Wpacket, tag: int, ghost outer: seq<Frame>) returns (ok: bool)
    requires w.Valid() && w.endfirst && outer != [] && tag <= 30 && w.frames == Around(outer, tag)
    modifies w`data, w`written, w`curr, w`frames, w`subs, w`output, w.data
    ensures ok && w.Valid() && w.data == old(w.data) && old(w.written) == w.written
    ensures w.frames ==
            if tag < 0 then Init(outer) + [Top(outer).(flags := WPACKET_FLAGS_ABANDON_ON_ZERO_LENGTH)] else outer
    ensures KeptOutside(old(w.View()), w.View())
  {
    SoundFacts(w.View());
    InitSnoc(outer, Frame(0, 0, []));
    ghost var fs := w.frames;
    hide Sound;
    ok := w.SetFlags(WPACKET_FLAGS_ABANDON_ON_ZERO_LENGTH);
    ghost var v := w.View();
    InitSnoc(Init(fs), Top(fs).(flags := WPACKET_FLAGS_ABANDON_ON_ZERO_LENGTH));
    if tag >= 0 {
      hide KeptOutside;
      ok := EndContext(w, tag, outer, Frame(0, WPACKET_FLAGS_ABANDON_ON_ZERO_LENGTH, []));
      KeptTwice(old(w.View()), v, w.View());
    } else {
      AddNothing(true, w.frames, []);
      ok := EndContext(w, tag, w.frames, Frame(0, 0, []));
    }
  }

  /** The rest after a sequence that was written, `c`. */
  method EndWritten(w: Wpacket, tag: int, ghost outer: seq<Frame>, ghost c: seq<Byte>) returns (ok: bool)
    requires w.Valid() && w.endfirst && outer != [] && tag <= 30 && c != []
    requires w.frames == Add(true, Around(outer, tag), c)
    modifies w`data, w`written, w`curr, w`frames, w`subs, w`output, w.data
    ensures w.data == old(w.data) && old(w.written) <= w.written
    ensures ok == (|InContext(tag, c)| - |c| <= w.maxsize - old(w.written))
    ensures ok ==> w.Valid() && w.frames == Add(true, outer, InContext(tag, c))
    ensures ok ==> w.written == old(w.written) + |InContext(tag, c)| - |c|
    ensures KeptOutside(old(w.View()), w.View())
  {
    AroundAdd(outer, tag, c);
    SoundFacts(w.View());
    hide Sound, KeptOutside, Add, Around;
    ok := EndContext(w, tag, outer, Frame(0, 0, c));
  }
}
