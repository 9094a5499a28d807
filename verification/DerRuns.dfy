/** Any nesting of DER elements written with crypto/der_writer.c is the X.690 encoding of the tree,
    at the end of the buffer. */
module DerRuns {
  import opened BigEndian
  import opened PacketFrames
  import opened Wpacket
  import opened DerWriter

  /** Values in the ranges of their C types. */
  predicate Callable(x: Der) {
    match x
    case DerNull => true
    case DerInteger(v) => v < 0x1_0000_0000
    case DerOctets(b) => |b| <= SIZE_MAX
    case DerSequence(items) => forall k :: 0 <= k < |items| ==> Callable(items[k].x)
  }

  /** The elements from the `i`-th on have been written. */
  ghost predicate Progress(outer: seq<Frame>, items: seq<Tagged>, i: nat, now: seq<Frame>) {
    && i <= |items| && (forall k :: i <= k < |items| ==> WellTagged(items[k]))
    && now == outer + [Frame(0, 0, EncodeItems(items[i..]))]
  }

  lemma {:induction false} SuffixShorter(items: seq<Tagged>, i: nat)
    requires i <= |items| && forall k :: 0 <= k < |items| ==> WellTagged(items[k])
    ensures |EncodeItems(items[i..])| <= |EncodeItems(items)|
  {
    if i > 0 {
      SuffixShorter(items[1..], i - 1);
      assert items[1..][i - 1..] == items[i..];
    } else {
      assert items[0..] == items;
    }
  }

  lemma Suffix(items: seq<Tagged>, i: nat)
    requires i < |items| && forall k :: i <= k < |items| ==> WellTagged(items[k])
    ensures EncodeItems(items[i..]) == EncodeDer(items[i]) + EncodeItems(items[i + 1..])
  {
    assert items[i..][1..] == items[i + 1..];
  }

  /** Writing an element, the parts of a sequence from the last to the first. */
  method WriteDer(w: Wpacket, t: Tagged) returns (ok: bool)
    requires w.Valid() && w.endfirst && w.frames != [] && Callable(t.x)
    modifies w`data, w`written, w`curr, w`frames, w`subs, w`output, w.data
    ensures w.data == old(w.data) && (ok ==> w.Valid())
    ensures Wrote(old(w.View()), w.View(), ok, t)
    decreases t, 3
  {
    hide Wrote;
    match t.x
    case DerNull => ok := WriteNull(w, t.tag);
    case DerInteger(v) => ok := WriteUint32(w, t.tag, v);
    case DerOctets(b) => ok := WriteOctetString(w, t.tag, b);
    case DerSequence(items) => ok := WriteSequence(w, t);
  }

  method WriteSequence(w: Wpacket, t: Tagged) returns (ok: bool)
    requires w.Valid() && w.endfirst && w.frames != [] && Callable(t.x) && t.x.DerSequence?
    modifies w`data, w`written, w`curr, w`frames, w`subs, w`output, w.data
    ensures w.data == old(w.data) && (ok ==> w.Valid())
    ensures Wrote(old(w.View()), w.View(), ok, t)
    decreases t, 2
  {
    ghost var fs := w.frames;
    hide Sound, KeptOutside, Around, EncodeItems, Ended, InContext, Tlv;
    ok := BeginSequence(w, t.tag);
    if ok {
      ghost var v := w.View();
      ok := WriteItems(w, t, Around(fs, t.tag));
      KeptTwice(old(w.View()), v, w.View());
      SequenceEncoding(t);
    }
    if ok {
      ghost var v := w.View();
      EndedPlain(fs, t.tag, EncodeItems(t.x.items));
      ok := EndSequence(w, t.tag, fs, Frame(0, 0, EncodeItems(t.x.items)));
      KeptTwice(old(w.View()), v, w.View());
    }
  }

  lemma SequenceEncoding(t: Tagged)
    requires t.x.DerSequence? && t.tag <= 30
    ensures WellTagged(t) <==> forall k :: 0 <= k < |t.x.items| ==> WellTagged(t.x.items[k])
    ensures WellTagged(t) ==> EncodeDer(t) == SequenceTlv(t.tag, EncodeItems(t.x.items))
    ensures WellTagged(t) ==> |EncodeDer(t)| >= |EncodeItems(t.x.items)|
  {
  }

  lemma EndedPlain(outer: seq<Frame>, tag: int, c: seq<Byte>)
    requires outer != [] && tag <= 30
    ensures Ended(outer, tag, Frame(0, 0, c)) == Add(true, outer, SequenceTlv(tag, c))
    ensures !Refused(Frame(0, 0, c)) && !Abandoned(Frame(0, 0, c))
  {
  }

  lemma NoItems()
    ensures EncodeItems([]) == []
  {
  }

  method WriteItems(w: Wpacket, t: Tagged, ghost outer: seq<Frame>) returns (ok: bool)
    requires w.Valid() && w.endfirst && Callable(t.x) && t.x.DerSequence? && w.frames == outer + [Frame(0, 0, [])]
    modifies w`data, w`written, w`curr, w`frames, w`subs, w`output, w.data
    ensures w.data == old(w.data) && old(w.written) <= w.written && KeptOutside(old(w.View()), w.View())
    ensures ok == ((forall k :: 0 <= k < |t.x.items| ==> WellTagged(t.x.items[k]))
                   && |EncodeItems(t.x.items)| <= w.maxsize - old(w.written))
    ensures ok ==> w.Valid() && w.frames == outer + [Frame(0, 0, EncodeItems(t.x.items))]
    ensures ok ==> w.written == old(w.written) + |EncodeItems(t.x.items)|
    decreases t, 1
  {
    hide Sound, KeptOutside, EncodeItems, WellTagged, MaxMaxSize, Recorded, Total, Contents, Laid;
    ghost var start, items := w.written, t.x.items;
    assert items[|items|..] == [] && items[0..] == items;
    NoItems();
    SoundFacts(w.View());
    KeptSame(w.View());
    for i := |t.x.items| downto 0
      invariant w.Valid() && w.data == old(w.data) && KeptOutside(old(w.View()), w.View())
      invariant Progress(outer, items, i, w.frames)
      invariant w.written == start + |EncodeItems(items[i..])| <= w.maxsize
    {
      ghost var v := w.View();
      ok := WriteNext(w, t, i, outer, start);
      KeptTwice(old(w.View()), v, w.View());
      if !ok {
        if forall k :: 0 <= k < |items| ==> WellTagged(items[k]) {
          SuffixShorter(items, i);
        }
        return;
      }
    }
    ok := true;
  }

  method WriteNext(w: Wpacket, t: Tagged, i: nat, ghost outer: seq<Frame>, ghost start: nat) returns (ok: bool)
    requires w.Valid() && w.endfirst && Callable(t.x) && t.x.DerSequence? && i < |t.x.items|
    requires Progress(outer, t.x.items, i + 1, w.frames)
    requires w.written == start + |EncodeItems(t.x.items[i + 1..])|
    modifies w`data, w`written, w`curr, w`frames, w`subs, w`output, w.data
    ensures w.data == old(w.data) && old(w.written) <= w.written && KeptOutside(old(w.View()), w.View())
    ensures ok ==> w.Valid() && Progress(outer, t.x.items, i, w.frames)
    ensures ok ==> w.written == start + |EncodeItems(t.x.items[i..])| <= w.maxsize
    ensures !ok && (forall k :: i <= k < |t.x.items| ==> WellTagged(t.x.items[k])) ==>
      start + |EncodeItems(t.x.items[i..])| > w.maxsize
    decreases t, 0
  {
    ghost var items := t.x.items;
    ghost var c := EncodeItems(items[i + 1..]);
    InitSnoc(outer, Frame(0, 0, c));
    hide Sound, KeptOutside, EncodeItems, WellTagged, EncodeDer;
    ok := WriteDer(w, t.x.items[i]);
    if WellTagged(items[i]) {
      Suffix(items, i);
      AddToTop(outer, c, EncodeDer(items[i]));
    }
    if ok {
      SoundFacts(w.View());
    }
  }

  lemma AddToTop(outer: seq<Frame>, c: seq<Byte>, b: seq<Byte>)
    ensures Add(true, outer + [Frame(0, 0, c)], b) == outer + [Frame(0, 0, b + c)]
  {
    InitSnoc(outer, Frame(0, 0, c));
  }

  /** From an empty writer to the finished output: the encoding fills the last `n` bytes of the
      buffer and nothing else is touched. */
  method Produce(buf: array<Byte>, t: Tagged) returns (ok: bool, n: nat)
    requires Callable(t.x) && buf.Length <= SIZE_MAX
    modifies buf
    ensures ok == (WellTagged(t) && |EncodeDer(t)| <= buf.Length)
    ensures ok ==> n == |EncodeDer(t)| && buf[buf.Length - n..] == EncodeDer(t)
    ensures ok ==> buf[..buf.Length - n] == old(buf[..buf.Length - n])
  {
    hide Sound, EncodeDer, WellTagged, MaxMaxSize, Recorded, Total, Contents, Laid;
    n := 0;
    var w := new Wpacket.InitDer(buf);
    SoundFacts(w.View());
    if w.subs == [] {
      SomeEncoding(t);
      return false, 0;
    }
    ok := WriteDer(w, t);
    if !ok {
      return;
    }
    AddAlone(EncodeDer(t));
    SomeEncoding(t);
    n := w.written;
    ok := FinishAlone(w, EncodeDer(t));
  }

  lemma SomeEncoding(t: Tagged)
    ensures WellTagged(t) ==> |EncodeDer(t)| > 0
  {
  }

  method FinishAlone(w: Wpacket, ghost c: seq<Byte>) returns (ok: bool)
    requires w.Valid() && w.endfirst && w.kind == Static && w.maxsize == w.data.Length && w.frames == [Frame(0, 0, c)]
    requires c != []
    modifies w`data, w`written, w`curr, w`frames, w`subs, w`output, w.data
    ensures ok && w.data == old(w.data) && w.written == |c| <= w.data.Length
    ensures w.data[w.data.Length - |c|..] == c
    ensures KeptOutside(old(w.View()), w.View())
  {
    ok := w.Finish();
    assert w.output == c;
    assert w.data[w.data.Length - |c|..] == c;
  }

  lemma AddAlone(c: seq<Byte>)
    ensures Add(true, [Frame(0, 0, [])], c) == [Frame(0, 0, c)]
  {
    assert c + [] == c;
  }
}
