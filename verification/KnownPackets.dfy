/** Packets written out by hand (crypto/packet.c, include/internal/packet.h): which bytes end up
    where, which flags let an empty sub-packet be closed, how much fits under a length, and how a
    buffer grows. */
module KnownPackets {
  import opened BigEndian
  import opened PacketFrames
  import opened PacketRuns
  import opened Sequences
  import opened Wpacket

  /** `WPACKET_finish` of a packet in a buffer of fixed size, and the bytes it leaves there. */
  method FinishPlain(w: Wpacket, ghost f: Frame) returns (ok: bool, out: seq<Byte>)
    requires w.Valid() && w.kind == Static && w.frames == [f]
    modifies w`data, w`written, w`curr, w`frames, w`subs, w`output, w.data
    ensures ok == !(f.content == [] && NonZeroFlag(f.flags)) && w.data == old(w.data)
    ensures ok ==> out == Finished(w.endfirst, f) && w.written == |out| <= w.maxsize <= w.data.Length
    ensures ok ==> out == if w.endfirst then w.data[w.maxsize - |out|..w.maxsize] else w.data[..|out|]
    ensures KeptOutside(old(w.View()), w.View()) && (f.content != [] ==> old(w.written) <= w.written)
  {
    hide Sound, KeptOutside, Finished;
    ok := w.Finish();
    out := [];
    if ok {
      SoundFacts(w.View());
      out := if w.endfirst then w.data[w.maxsize - w.written..w.maxsize] else w.data[..w.written];
      assert out == w.output;
    }
  }

  // ---------- Flags ----------

  /** A sub-packet with one byte for its length, open and empty, in a buffer of eight bytes. */
  method OpenEmpty(flags: nat) returns (w: Wpacket)
    ensures fresh(w) && fresh(w.data) && w.Valid() && w.kind == Static && !w.endfirst
    ensures w.frames == [Frame(0, 0, []), Frame(1, flags, [])]
  {
    hide Sound, KeptOutside, Grown;
    var buf := new Byte[8];
    w := new Wpacket.InitStaticLen(buf, 0);
    SoundFacts(w.View());
    assert w.Room(1);
    var ok := w.StartSubPacketLen(1);
    SoundFacts(w.View());
    ok := w.SetFlags(flags);
  }

  /** An empty sub-packet with one byte for its length.  The flag of value 1 forbids closing it, the
      flag of value 2 drops it with its length, and otherwise its length is written, zero. */
  method EmptySubPacket(flags: nat) returns (closed: bool, out: seq<Byte>)
    ensures closed <==> flags % 2 == 0
    ensures closed ==> out == if (flags / 2) % 2 == 1 then [] else [0]
  {
    hide Sound, KeptOutside;
    var w := OpenEmpty(flags);
    ghost var v := w.View();
    closed := w.Close();
    out := [];
    if closed {
      EmptyClosed(v, w.View(), flags);
      var ok;
      ok, out := FinishPlain(w, w.frames[0]);
    }
  }

  lemma EmptyClosed(w: Writer, w': Writer, flags: nat)
    requires w.frames == [Frame(0, 0, []), Frame(1, flags, [])] && !w.e && IsClosed(w, w')
    ensures w'.frames == [Frame(0, 0, if (flags / 2) % 2 == 1 then [] else [0])]
  {
    assert Init(w.frames) == [Frame(0, 0, [])] && Init([Frame(0, 0, [])]) == [];
    assert Top(w.frames) == Frame(1, flags, []) && Top([Frame(0, 0, [])]) == Frame(0, 0, []);
    SizeSmall(0);
    if (flags / 2) % 2 == 0 {
      KeptClose(w, w');
      var f := Frame(1, flags, []);
      assert Header(false, f) + f.content == [0] by { assert Bytes(0, 1) == [0]; }
      assert [] + [0] == [0];
    }
  }

  /** The same flags on the outermost sub-packet, which `WPACKET_finish` closes. */
  method EmptyPacket(flags: nat) returns (finished: bool, out: seq<Byte>)
    ensures finished <==> flags % 2 == 0
    ensures finished ==> out == if (flags / 2) % 2 == 1 then [] else [0]
  {
    hide Sound, KeptOutside;
    var buf := new Byte[8];
    var w := new Wpacket.InitStaticLen(buf, 1);
    SoundFacts(w.View());
    var ok := w.SetFlags(flags);
    finished, out := FinishPlain(w, Frame(1, flags, []));
    assert Bytes(0, 1) == [0];
  }

  // ---------- Where bytes go ----------

  const FIRST: Item := Data([1, 2])
  const SECOND: Item := Packet(2, [Data([7, 8, 9])])
  const SECOND_DER: Item := Packet(0, [Data([7, 8, 9])])

  lemma TwoItems(e: bool, x: Item, y: Item)
    ensures EncodeAll(e, [x]) == Encode(e, x)
    ensures EncodeAll(e, [x, y]) == if e then Encode(e, y) + Encode(e, x) else Encode(e, x) + Encode(e, y)
  {
    hide Encode;
    assert [x][..0] == [] && [x, y][..1] == [x];
    assert EncodeAll(e, []) == [];
  }

  /** Lengths in front, most significant byte first; in a backward packet the later item comes
      first, and lengths are as DER has them. */
  lemma TreeBytes()
    ensures Encode(false, Packet(1, [FIRST, SECOND])) == [7, 1, 2, 0, 3, 7, 8, 9]
    ensures EncodeAll(true, [FIRST, SECOND_DER]) == [3, 7, 8, 9, 1, 2]
  {
    hide Encode, EncodeAll, Bytes;
    SecondBytes();
    SevenBytes();
    TwoItems(false, FIRST, SECOND);
    TwoItems(true, FIRST, SECOND_DER);
    assert EncodeAll(false, [FIRST, SECOND]) == [1, 2, 0, 3, 7, 8, 9];
    PacketBytes(1, [FIRST, SECOND]);
  }

  lemma PacketBytes(n: nat, items: seq<Item>)
    ensures var c := EncodeAll(false, items); Encode(false, Packet(n, items)) == Bytes(|c|, n) + c
  {
  }

  lemma SevenBytes()
    ensures Bytes(7, 1) == [7] && Encode(false, FIRST) == Encode(true, FIRST) == [1, 2]
  {
    assert Bytes(0, 0) == [];
  }

  lemma SecondBytes()
    ensures Encode(false, SECOND) == [0, 3, 7, 8, 9] && Encode(true, SECOND_DER) == [3, 7, 8, 9]
  {
    var x := Data([7, 8, 9]);
    TwoItems(false, x, x);
    TwoItems(true, x, x);
    assert Bytes(3, 2) == Bytes(0, 1) + [3] && Bytes(0, 1) == [0];
  }

  lemma AddItemTo(st: seq<Level>, l: Level, x: Item)
    ensures AddItem(st + [l], x) == st + [l.(items := l.items + [x])]
    ensures AddItem([l], x) == [l.(items := l.items + [x])]
  {
    InitSnoc(st, l);
    assert [] + [l] == [l];
    InitSnoc([], l);
  }

  /** The calls that write such a packet. */
  lemma SmallTrace(e: bool, n: nat, m: nat)
    ensures Trace(e, n, [PutValue(0x0102, 2), Open(m), Memcpy([7, 8, 9]), Call.Close]) ==
            [Level(n, 0, [FIRST, Packet(m, [Data([7, 8, 9])])])]
  {
    hide Encode, EncodeAll, AddItem, Bytes;
    var put, open, copy := PutValue(0x0102, 2), Open(m), Memcpy([7, 8, 9]);
    var outer := Level(n, 0, [FIRST]);
    PutBytesTrace(e, n);
    TraceOpen(e, n, [put], m);
    assert [put] + [open] == [put, open];
    TraceData(e, n, [put, open], copy, [7, 8, 9]);
    assert [put, open] + [copy] == [put, open, copy];
    AddItemTo([outer], Level(m, 0, []), Data([7, 8, 9]));
    assert [] + [Data([7, 8, 9])] == [Data([7, 8, 9])];
    assert [outer] + [Level(m, 0, [])] == [outer, Level(m, 0, [])];
    assert Trace(e, n, [put, open, copy]) == [outer, Level(m, 0, [Data([7, 8, 9])])];
    TraceClose(e, n, [put, open, copy]);
    assert [put, open, copy] + [Call.Close] == [put, open, copy, Call.Close];
    InitSnoc([outer], Level(m, 0, [Data([7, 8, 9])]));
    AddItemTo([], outer, Packet(m, [Data([7, 8, 9])]));
    assert [FIRST] + [Packet(m, [Data([7, 8, 9])])] == [FIRST, Packet(m, [Data([7, 8, 9])])];
    assert [outer] + [Level(m, 0, [Data([7, 8, 9])])] == [outer, Level(m, 0, [Data([7, 8, 9])])];
  }

  lemma PutBytesTrace(e: bool, n: nat)
    ensures Trace(e, n, [PutValue(0x0102, 2)]) == [Level(n, 0, [FIRST])]
  {
    assert Bytes(0x0102, 2) == [1, 2] by { assert Bytes(1, 1) == [1]; }
    hide Bytes, AddItem;
    TraceData(e, n, [], PutValue(0x0102, 2), [1, 2]);
    assert [] + [PutValue(0x0102, 2)] == [PutValue(0x0102, 2)];
    AddItemTo([], Level(n, 0, []), FIRST);
    assert [] + [FIRST] == [FIRST];
  }

  /** Two bytes, and a sub-packet of three. */
  method WriteSmall(w: Wpacket, ghost n: nat) returns (ok: bool)
    requires w.Valid() && w.kind == Static && w.frames == [Frame(n, 0, [])] && w.maxsize - w.written >= 7
    modifies w`data, w`written, w`curr, w`frames, w`subs, w`output, w.data
    ensures ok && w.Valid() && w.data == old(w.data) && KeptOutside(old(w.View()), w.View())
    ensures w.frames == [Frame(n, 0, if w.endfirst then [3, 7, 8, 9, 1, 2] else [1, 2, 0, 3, 7, 8, 9])]
    ensures old(w.written) <= w.written
  {
    hide Sound, KeptOutside, Add, DerLength;
    ghost var v := w.View();
    SoundFacts(v);
    assert w.Room(2);
    SmallBytes();
    ok := w.PutBytes(0x0102, 2);
    AddFirst(w.endfirst, n);
    ghost var v' := w.View();
    ok := w.SubMemcpy([7, 8, 9], if w.endfirst then 0 else 2);
    AddSecond(w.endfirst, n);
    KeptTwice(v, v', w.View());
  }

  lemma SmallBytes()
    ensures Bytes(0x0102, 2) == [1, 2] && Bytes(3, 2) == [0, 3] && DerLength(3) == [3]
    ensures Pow256(2) == 0x1_0000
  {
    assert Bytes(1, 1) == [1] && Bytes(0, 1) == [0];
    assert Pow256(1) == 0x100;
  }

  lemma AddFirst(e: bool, n: nat)
    ensures Add(e, [Frame(n, 0, [])], [1, 2]) == [Frame(n, 0, [1, 2])]
  {
    InitSnoc([], Frame(n, 0, []));
    assert [] + [Frame(n, 0, [])] == [Frame(n, 0, [])];
    assert [] + [1, 2] == [1, 2] + [] == [1, 2];
  }

  lemma AddSecond(e: bool, n: nat)
    ensures Add(e, [Frame(n, 0, [1, 2])], (if e then [3] else [0, 3]) + [7, 8, 9]) ==
            [Frame(n, 0, if e then [3, 7, 8, 9, 1, 2] else [1, 2, 0, 3, 7, 8, 9])]
  {
    InitSnoc([], Frame(n, 0, [1, 2]));
    assert [] + [Frame(n, 0, [1, 2])] == [Frame(n, 0, [1, 2])];
    assert ([3] + [7, 8, 9]) + [1, 2] == [3, 7, 8, 9, 1, 2];
    assert [1, 2] + ([0, 3] + [7, 8, 9]) == [1, 2, 0, 3, 7, 8, 9];
  }

  /** The whole packet, and what the buffer holds in the end. */
  method SmallPacket(w: Wpacket, ghost n: nat) returns (out: seq<Byte>)
    requires w.Valid() && w.kind == Static && w.frames == [Frame(n, 0, [])] && w.maxsize - w.written >= 7
    modifies w`data, w`written, w`curr, w`frames, w`subs, w`output, w.data
    ensures w.data == old(w.data) && |out| <= w.maxsize <= w.data.Length
    ensures out == if w.endfirst then [3, 7, 8, 9, 1, 2] else Bytes(7, n) + [1, 2, 0, 3, 7, 8, 9]
    ensures w.data[..] == if w.endfirst
                          then old(w.data[..])[..w.maxsize - |out|] + out + old(w.data[..])[w.maxsize..]
                          else out + old(w.data[..])[|out|..]
  {
    hide Sound, KeptOutside, Bytes;
    ghost var v := w.View();
    var ok := WriteSmall(w, n);
    ghost var v' := w.View();
    ok, out := FinishPlain(w, w.frames[0]);
    KeptTwice(v, v', w.View());
    Surrounded(v, w.View(), out);
  }

  lemma Surrounded(v: Writer, w: Writer, out: seq<Byte>)
    requires KeptOutside(v, w) && v.kind == Static && v.written <= w.written == |out| <= w.max <= |w.data|
    requires v.e == w.e && v.max == w.max
    requires out == if w.e then w.data[w.max - |out|..w.max] else w.data[..|out|]
    ensures |v.data| == |w.data|
    ensures w.data == if w.e then v.data[..w.max - |out|] + out + v.data[w.max..] else out + v.data[|out|..]
  {
  }

  /** The bytes of a packet under a length of one byte, in a buffer of ten bytes that were all 0xEE. */
  method SmallForward() returns (out: seq<Byte>)
    ensures out == [7, 1, 2, 0, 3, 7, 8, 9, 0xEE, 0xEE]
  {
    hide Sound;
    var buf := new Byte[10](_ => 0xEE);
    assert Pow256(1) == 0x100;
    var w := new Wpacket.InitStaticLen(buf, 1);
    out := SmallPacket(w, 1);
    SevenBytes();
    out := buf[..];
  }

  /** The same calls on a backward writer, whose packet ends where the buffer ends. */
  method SmallBackward() returns (out: seq<Byte>)
    ensures out == [0xEE, 0xEE, 0xEE, 0xEE, 3, 7, 8, 9, 1, 2]
  {
    hide Sound;
    var buf := new Byte[10](_ => 0xEE);
    var w := new Wpacket.InitDer(buf);
    out := SmallPacket(w, 0);
    out := buf[..];
  }

  // ---------- How much fits ----------

  /** Under a length of one byte go 255 bytes, and not one more, however large the buffer. */
  method OneByteLength(len: nat) returns (ok: bool)
    requires 0 < len <= SIZE_MAX
    ensures ok <==> len <= 255
  {
    hide Sound, KeptOutside;
    var buf := new Byte[1000];
    assert Pow256(1) == 0x100;
    var w := new Wpacket.InitStaticLen(buf, 1);
    SoundFacts(w.View());
    ok := w.Memset(7, len);
  }

  /** A buffer that starts empty becomes 256 bytes long when the first byte is written, and then
      twice as long as it is or as what is to be added, whichever is more. */
  method Growth() returns (first: nat, second: nat, third: nat, last: bool)
    ensures first == 256 && second == 512 && third == 2000 && !last
  {
    hide Sound, KeptOutside, Add;
    var buf := new Byte[0];
    var w := new Wpacket.InitLen(buf, 0, 3999);
    first := GrowBy(w, 1, 256);
    second := GrowBy(w, 256, 512);
    third := GrowBy(w, 1000, 2000);
    SoundFacts(w.View());
    last := w.Memcpy(Repeat(4, 744));
  }

  method GrowBy(w: Wpacket, len: nat, ghost length: nat) returns (length': nat)
    requires w.Valid() && w.kind == Growing && !w.endfirst && w.maxsize == SIZE_MAX && w.frames != []
    requires 0 < len <= SIZE_MAX - w.written && length == NewLength(w.data.Length, w.written, len) <= w.limit
    modifies w`data, w`written, w`curr, w`frames, w.data
    ensures w.Valid() && w.frames != [] && length' == length == w.data.Length && w.written == old(w.written) + len
    ensures w.data == old(w.data) || fresh(w.data)
  {
    hide Sound, KeptOutside, Grown;
    SoundFacts(w.View());
    w.RoomIs(len);
    var ok := w.Memcpy(Repeat(0, len));
    AddParts(w.endfirst, old(w.frames), Repeat(0, len));
    length' := w.data.Length;
  }
}
