/** Whole runs of a packet writer (crypto/packet.c): whatever sequence of opening, writing and
    closing succeeds, the output is the nested encoding of the tree the calls trace out. */
module PacketRuns {
  import opened BigEndian
  import opened PacketFrames
  import opened Sequences
  import opened Wpacket

  /** What a packet holds: bytes and, nested, sub-packets with lengths of `lenbytes` bytes. */
  datatype Item = Data(b: seq<Byte>) | Packet(lenbytes: nat, items: seq<Item>)

  /** Forward writers put a length of fixed width before each sub-packet, `endfirst` writers a DER
      length; with these, items written later come first. */
  function Encode(e: bool, x: Item): seq<Byte> {
    match x
    case Data(b) => b
    case Packet(n, items) =>
      var c := EncodeAll(e, items);
      (if e then DerLength(|c|) else Bytes(|c|, n)) + c
  }

  function EncodeAll(e: bool, xs: seq<Item>): seq<Byte> {
    if xs == [] then []
    else
      var init, last := EncodeAll(e, xs[..|xs| - 1]), Encode(e, xs[|xs| - 1]);
      if e then last + init else init + last
  }

  /** A call that writes, and the tree a sequence of calls has traced out so far: the open
      sub-packets, outermost first, with their items. */
  datatype Call =
    PutValue(val: nat, size: nat) | Memcpy(src: seq<Byte>) | Open(lenbytes: nat) | SetFlags(flags: nat) | Close
  datatype Level = Level(lenbytes: nat, flags: nat, items: seq<Item>)

  /** An empty sub-packet that is to be abandoned if it is empty, or must not be empty. */
  predicate Dropped(e: bool, l: Level) {
    EncodeAll(e, l.items) == [] && AbandonFlag(l.flags)
  }

  predicate Forbidden(e: bool, l: Level) {
    EncodeAll(e, l.items) == [] && NonZeroFlag(l.flags)
  }

  function AddItem(st: seq<Level>, x: Item): seq<Level>
    requires st != []
  {
    Init(st) + [Top(st).(items := Top(st).items + [x])]
  }

  /** The innermost sub-packet closed. */
  function Shut(e: bool, st: seq<Level>): seq<Level>
    requires |st| >= 2
  {
    if Dropped(e, Top(st)) then Init(st) else AddItem(Init(st), Packet(Top(st).lenbytes, Top(st).items))
  }

  /** Closing the outermost sub-packet is not for `WPACKET_close`. */
  function Trace(e: bool, lenbytes: nat, calls: seq<Call>): (st: seq<Level>)
    ensures st != []
  {
    if calls == [] then [Level(lenbytes, 0, [])]
    else
      var before := Trace(e, lenbytes, Init(calls));
      match Top(calls)
      case PutValue(v, n) => AddItem(before, Data(Bytes(v, n)))
      case Memcpy(src) => AddItem(before, Data(src))
      case Open(n) => before + [Level(n, 0, [])]
      case SetFlags(flags) => Init(before) + [Top(before).(flags := flags)]
      case Close => if |before| < 2 then before else Shut(e, before)
  }

  /** The sub-packets as the writer has them. */
  function Framed(e: bool, st: seq<Level>): (fs: seq<Frame>)
    ensures |fs| == |st|
  {
    if st == [] then []
    else Framed(e, Init(st)) + [Frame(Top(st).lenbytes, Top(st).flags, EncodeAll(e, Top(st).items))]
  }

  lemma EncodeMore(e: bool, xs: seq<Item>, x: Item)
    ensures EncodeAll(e, xs + [x]) == if e then Encode(e, x) + EncodeAll(e, xs) else EncodeAll(e, xs) + Encode(e, x)
  {
    assert (xs + [x])[..|xs|] == xs;
  }

  lemma FramedAdd(e: bool, st: seq<Level>, x: Item)
    requires st != []
    ensures Framed(e, AddItem(st, x)) == Add(e, Framed(e, st), Encode(e, x))
  {
    FramedInit(e, st);
    InitSnoc(Init(st), Top(st).(items := Top(st).items + [x]));
    EncodeMore(e, Top(st).items, x);
    hide EncodeAll, Encode;
  }

  lemma FramedOpen(e: bool, st: seq<Level>, n: nat)
    ensures Framed(e, st + [Level(n, 0, [])]) == Framed(e, st) + [Frame(n, 0, [])]
  {
    InitSnoc(st, Level(n, 0, []));
  }

  lemma FramedFlags(e: bool, st: seq<Level>, flags: nat)
    requires st != []
    ensures var fs := Framed(e, st);
            Framed(e, Init(st) + [Top(st).(flags := flags)]) == Init(fs) + [Top(fs).(flags := flags)]
  {
    FramedInit(e, st);
    InitSnoc(Init(st), Top(st).(flags := flags));
  }

  lemma FramedInit(e: bool, st: seq<Level>)
    requires st != []
    ensures Framed(e, Init(st)) == Init(Framed(e, st))
    ensures Top(Framed(e, st)) == Frame(Top(st).lenbytes, Top(st).flags, EncodeAll(e, Top(st).items))
  {
  }

  lemma FramedClose(e: bool, st: seq<Level>, w: Writer, w': Writer)
    requires |st| >= 2 && w.frames == Framed(e, st) && w.e == e
    requires |Top(w.frames).content| <= SIZE_MAX && IsClosed(w, w')
    ensures w'.frames == Framed(e, Shut(e, st))
  {
    hide Framed, Encode, EncodeAll, Header, Add, AbandonFlag;
    FramedInit(e, st);
    if Dropped(e, Top(st)) {
    } else {
      var x := Packet(Top(st).lenbytes, Top(st).items);
      KeptClose(w, w');
      PacketEncoding(e, x, Top(w.frames));
      FramedAdd(e, Init(st), x);
    }
  }

  lemma PacketEncoding(e: bool, x: Item, f: Frame)
    requires x.Packet? && f.lenbytes == x.lenbytes && f.content == EncodeAll(e, x.items) && Size(|f.content|) < 0x80
    ensures Encode(e, x) == Header(e, f) + f.content
  {
    hide EncodeAll, DerLength, Bytes;
  }

  /** Lengths fit the bytes kept for them; DER lengths need none. */
  predicate Encodable(kind: Kind, e: bool, x: Item) {
    match x
    case Data(b) => |b| <= SIZE_MAX
    case Packet(n, items) =>
      && n <= SIZE_MAX && (e ==> n == 0)
      && (forall k :: 0 <= k < |items| ==> Encodable(kind, e, items[k]))
      && (kind != NoBuffer && n > 0 ==> |EncodeAll(e, items)| < Pow256(n))
  }

  /** All lengths written so far fit. */
  ghost predicate Fitting(kind: Kind, e: bool, st: seq<Level>) {
    forall k :: 0 <= k < |st| ==>
      st[k].lenbytes <= SIZE_MAX && (e ==> st[k].lenbytes == 0) && LevelFits(kind, e, st[k].items)
  }

  ghost predicate LevelFits(kind: Kind, e: bool, items: seq<Item>) {
    forall j :: 0 <= j < |items| ==> Encodable(kind, e, items[j])
  }

  lemma FittingAdd(kind: Kind, e: bool, st: seq<Level>, x: Item)
    requires st != [] && Fitting(kind, e, st) && Encodable(kind, e, x)
    ensures Fitting(kind, e, AddItem(st, x))
  {
    assert LevelFits(kind, e, Top(st).items + [x]);
  }

  lemma FittingOpen(kind: Kind, e: bool, st: seq<Level>, n: nat)
    requires Fitting(kind, e, st) && n <= SIZE_MAX && (e ==> n == 0)
    ensures Fitting(kind, e, st + [Level(n, 0, [])])
  {
  }

  lemma FittingFlags(kind: Kind, e: bool, st: seq<Level>, flags: nat)
    requires st != [] && Fitting(kind, e, st)
    ensures Fitting(kind, e, Init(st) + [Top(st).(flags := flags)])
  {
  }

  lemma FittingClose(kind: Kind, e: bool, st: seq<Level>)
    requires |st| >= 2 && Fitting(kind, e, st)
    requires !Dropped(e, Top(st)) && kind != NoBuffer && Top(st).lenbytes > 0 ==>
               |EncodeAll(e, Top(st).items)| < Pow256(Top(st).lenbytes)
    ensures Fitting(kind, e, Shut(e, st))
  {
    hide EncodeAll, AbandonFlag;
    if Dropped(e, Top(st)) {
      assert forall k :: 0 <= k < |Init(st)| ==> Init(st)[k] == st[k];
    } else {
      FittingAdd(kind, e, Init(st), Packet(Top(st).lenbytes, Top(st).items));
    }
  }

  /** A sub-packet that can be closed has a length that fits unless it is abandoned. */
  lemma ClosableFits(w: Writer)
    requires w.frames != [] && |Top(w.frames).content| <= SIZE_MAX && CanClose(w)
    ensures !(Top(w.frames).content == [] && NonZeroFlag(Top(w.frames).flags))
    ensures !Abandoned(Top(w.frames)) && w.kind != NoBuffer && Top(w.frames).lenbytes > 0 ==>
        |Top(w.frames).content| < Pow256(Top(w.frames).lenbytes)
  {
  }

  /** No sub-packet is set to be abandoned when it is empty. */
  predicate Steady(calls: seq<Call>) {
    forall k :: 0 <= k < |calls| ==> !Abandons(calls[k])
  }

  predicate Abandons(c: Call) {
    c.SetFlags? && AbandonFlag(c.flags)
  }

  lemma SteadyInit(calls: seq<Call>, c: Call)
    requires Steady(calls + [c])
    ensures Steady(calls) && !Abandons(c)
  {
    assert (calls + [c])[|calls|] == c;
    forall k | 0 <= k < |calls| ensures !Abandons(calls[k]) {
      assert (calls + [c])[k] == calls[k];
    }
  }

  lemma {:induction false} NoneDropped(e: bool, lenbytes: nat, calls: seq<Call>)
    requires Steady(calls)
    ensures NoAbandoning(Trace(e, lenbytes, calls))
  {
    hide AbandonFlag, EncodeAll, Dropped;
    NoFlags();
    if calls != [] {
      var before := Trace(e, lenbytes, Init(calls));
      assert calls == Init(calls) + [Top(calls)];
      SteadyInit(Init(calls), Top(calls));
      NoneDropped(e, lenbytes, Init(calls));
      match Top(calls)
      case PutValue(v, n) => SameFlags(before, Data(Bytes(v, n)));
      case Memcpy(src) => SameFlags(before, Data(src));
      case Open(n) =>
      case SetFlags(flags) =>
      case Close =>
        if |before| >= 2 {
          SameFlags(Init(before), Packet(Top(before).lenbytes, Top(before).items));
        }
    }
  }

  ghost predicate NoAbandoning(st: seq<Level>) {
    forall k :: 0 <= k < |st| ==> !AbandonFlag(st[k].flags)
  }

  lemma SameFlags(st: seq<Level>, x: Item)
    requires st != [] && NoAbandoning(st)
    ensures NoAbandoning(AddItem(st, x))
  {
    hide AbandonFlag;
    assert forall k :: 0 <= k < |st| ==> AddItem(st, x)[k].flags == st[k].flags;
  }

  lemma NoFlags()
    ensures !AbandonFlag(0) && !NonZeroFlag(0)
  {
  }

  /** No sub-packet that must not be empty is closed empty. */
  ghost predicate Obeyed(e: bool, lenbytes: nat, calls: seq<Call>) {
    forall i :: 0 <= i < |calls| && calls[i].Close? ==> !Forbidden(e, Top(Trace(e, lenbytes, calls[..i])))
  }

  lemma ObeyedMore(e: bool, lenbytes: nat, calls: seq<Call>, c: Call)
    requires Obeyed(e, lenbytes, calls)
    requires c.Close? ==> !Forbidden(e, Top(Trace(e, lenbytes, calls)))
    ensures Obeyed(e, lenbytes, calls + [c])
  {
    hide Trace, Forbidden;
    var more := calls + [c];
    forall i | 0 <= i < |more| && more[i].Close? ensures !Forbidden(e, Top(Trace(e, lenbytes, more[..i]))) {
      assert more[..i] == calls[..i];
      assert calls[..|calls|] == calls;
    }
  }

  /** One call: it changes the writer as it changes the tree, and what it writes fits. */
  method Perform(w: Wpacket, c: Call, ghost lenbytes: nat, ghost before: seq<Call>) returns (ok: bool)
    requires w.Valid() && w.frames == Framed(w.endfirst, Trace(w.endfirst, lenbytes, before))
    requires Fitting(w.kind, w.endfirst, Trace(w.endfirst, lenbytes, before))
    requires c.Memcpy? ==> |c.src| <= SIZE_MAX
    requires c.Open? ==> c.lenbytes <= SIZE_MAX
    modifies w`data, w`written, w`curr, w`frames, w`subs, w`output, w.data
    ensures w.data == old(w.data) || (w.kind == Growing && fresh(w.data))
    ensures ok ==> w.Valid() && w.frames == Framed(w.endfirst, Trace(w.endfirst, lenbytes, before + [c]))
    ensures ok ==> Fitting(w.kind, w.endfirst, Trace(w.endfirst, lenbytes, before + [c])) && ValueFits(w.kind, c)
    ensures ok && c.Close? ==> !Forbidden(w.endfirst, Top(Trace(w.endfirst, lenbytes, before)))
    ensures KeptOutside(old(w.View()), w.View())
    ensures !c.Close? || !Dropped(w.endfirst, Top(Trace(w.endfirst, lenbytes, before))) ==> old(w.written) <= w.written
  {
    hide Trace, Sound, Framed, Encode, EncodeAll, KeptOutside, Grown, Add, Fitting, Dropped, Forbidden;
    ghost var e, st := w.endfirst, Trace(w.endfirst, lenbytes, before);
    match c
    case PutValue(val, size) =>
      ok := w.PutBytes(val, size);
      TraceData(e, lenbytes, before, c, Bytes(val, size));
      FramedData(e, st, Bytes(val, size));
      FittingAdd(w.kind, e, st, Data(Bytes(val, if size <= 8 then size else 0)));
    case Memcpy(src) =>
      ok := w.Memcpy(src);
      TraceData(e, lenbytes, before, c, src);
      FramedData(e, st, src);
      FittingAdd(w.kind, e, st, Data(src));
    case Open(n) =>
      ok := w.StartSubPacketLen(n);
      TraceOpen(e, lenbytes, before, n);
      FramedOpen(e, st, n);
      if ok {
        FittingOpen(w.kind, e, st, n);
      }
    case SetFlags(flags) =>
      ok := PerformSetFlags(w, flags, lenbytes, before);
    case Close =>
      ok := PerformClose(w, lenbytes, before);
  }

  predicate ValueFits(kind: Kind, c: Call) {
    kind != NoBuffer && c.PutValue? ==> c.val < Pow256(c.size)
  }

  lemma TraceData(e: bool, lenbytes: nat, before: seq<Call>, c: Call, b: seq<Byte>)
    requires (c.PutValue? && b == Bytes(c.val, c.size)) || (c.Memcpy? && b == c.src)
    ensures Trace(e, lenbytes, before + [c]) == AddItem(Trace(e, lenbytes, before), Data(b))
  {
    InitSnoc(before, c);
  }

  lemma TraceOpen(e: bool, lenbytes: nat, before: seq<Call>, n: nat)
    ensures Trace(e, lenbytes, before + [Open(n)]) == Trace(e, lenbytes, before) + [Level(n, 0, [])]
  {
    InitSnoc(before, Open(n));
  }

  lemma TraceFlags(e: bool, lenbytes: nat, before: seq<Call>, flags: nat)
    ensures var st := Trace(e, lenbytes, before);
            Trace(e, lenbytes, before + [SetFlags(flags)]) == Init(st) + [Top(st).(flags := flags)]
  {
    InitSnoc(before, SetFlags(flags));
  }

  lemma TraceClose(e: bool, lenbytes: nat, before: seq<Call>)
    ensures var st := Trace(e, lenbytes, before); |st| >= 2 ==> Trace(e, lenbytes, before + [Close]) == Shut(e, st)
  {
    InitSnoc(before, Close);
  }

  method PerformSetFlags(w: Wpacket, flags: nat, ghost lenbytes: nat, ghost before: seq<Call>) returns (ok: bool)
    requires w.Valid() && w.frames == Framed(w.endfirst, Trace(w.endfirst, lenbytes, before))
    requires Fitting(w.kind, w.endfirst, Trace(w.endfirst, lenbytes, before))
    modifies w`frames, w`subs
    ensures ok ==> w.Valid() && w.frames == Framed(w.endfirst, Trace(w.endfirst, lenbytes, before + [SetFlags(flags)]))
    ensures ok ==> Fitting(w.kind, w.endfirst, Trace(w.endfirst, lenbytes, before + [SetFlags(flags)]))
    ensures KeptOutside(old(w.View()), w.View())
  {
    hide Trace, Sound, Framed, Fitting, KeptOutside;
    ghost var e, st := w.endfirst, Trace(w.endfirst, lenbytes, before);
    ghost var v := w.View();
    TraceFlags(e, lenbytes, before, flags);
    FramedFlags(e, st, flags);
    FittingFlags(w.kind, e, st, flags);
    ok := w.SetFlags(flags);
    KeptData(v, w.View());
  }

  lemma KeptData(w: Writer, w': Writer)
    requires w'.data == w.data
    ensures KeptOutside(w, w')
  {
  }

  method PerformClose(w: Wpacket, ghost lenbytes: nat, ghost before: seq<Call>) returns (ok: bool)
    requires w.Valid() && w.frames == Framed(w.endfirst, Trace(w.endfirst, lenbytes, before))
    requires Fitting(w.kind, w.endfirst, Trace(w.endfirst, lenbytes, before))
    modifies w`data, w`written, w`curr, w`frames, w`subs, w`output, w.data
    ensures w.data == old(w.data)
    ensures ok ==> w.Valid() && w.frames == Framed(w.endfirst, Trace(w.endfirst, lenbytes, before + [Close]))
    ensures ok ==> Fitting(w.kind, w.endfirst, Trace(w.endfirst, lenbytes, before + [Close]))
    ensures ok ==> !Forbidden(w.endfirst, Top(Trace(w.endfirst, lenbytes, before)))
    ensures KeptOutside(old(w.View()), w.View())
    ensures !Dropped(w.endfirst, Top(Trace(w.endfirst, lenbytes, before))) ==> old(w.written) <= w.written
  {
    hide Trace, Sound, Framed, EncodeAll, IsClosed, CanClose, KeptOutside, Fitting, AbandonFlag, NonZeroFlag;
    ghost var e, st := w.endfirst, Trace(w.endfirst, lenbytes, before);
    ghost var v := w.View();
    FramedInit(e, st);
    TraceClose(e, lenbytes, before);
    ok := w.Close();
    if ok {
      ClosableFits(v);
      FittingClose(w.kind, e, st);
      FramedClose(e, st, v, w.View());
    }
  }

  lemma FramedData(e: bool, st: seq<Level>, b: seq<Byte>)
    requires st != []
    ensures Framed(e, AddItem(st, Data(b))) == Add(e, Framed(e, st), b)
  {
    FramedAdd(e, st, Data(b));
    assert Encode(e, Data(b)) == b;
  }

  /** What `WPACKET_finish` leaves of the outermost sub-packet. */
  function Final(e: bool, l: Level): seq<Byte> {
    if Dropped(e, l) then [] else if e then EncodeAll(true, l.items) else Encode(false, Packet(l.lenbytes, l.items))
  }

  /** Any sequence of calls on a writer just set up, and `WPACKET_finish`: if all succeed, what was
      written is the encoding of the tree traced out, every value and length fits its bytes, and no
      sub-packet that must not be empty has been closed empty. */
  method Write(w: Wpacket, calls: seq<Call>, ghost lenbytes: nat) returns (ok: bool, ghost whole: Level)
    requires w.Valid() && w.frames == [Frame(lenbytes, 0, [])]
    requires forall c :: c in calls && c.Memcpy? ==> |c.src| <= SIZE_MAX
    requires forall c :: c in calls && c.Open? ==> c.lenbytes <= SIZE_MAX
    modifies w, w.data
    ensures ok ==> Trace(w.endfirst, lenbytes, calls) == [whole] && whole.lenbytes == lenbytes
    ensures ok ==> Encodable(w.kind, w.endfirst, Packet(lenbytes, whole.items))
    ensures ok ==> forall c :: c in calls ==> ValueFits(w.kind, c)
    ensures ok ==> Obeyed(w.endfirst, lenbytes, calls) && !Forbidden(w.endfirst, whole)
    ensures ok ==> w.Valid() && w.frames == [] && w.output == Final(w.endfirst, whole)
    ensures ok ==> w.written == |w.output|
    ensures ok && w.kind != NoBuffer ==> Holds(w.endfirst, w.maxsize, w.data[..], 0, w.output)
    ensures (w.data == old(w.data) || fresh(w.data)) && KeptPast(old(w.View()), w.View())
    ensures Steady(calls) ==> KeptOutside(old(w.View()), w.View())
  {
    hide Framed, Trace, Sound, Fitting, KeptOutside, KeptPast, ValueFits, Encodable, Obeyed, Steady, Final, Forbidden;
    whole := Level(lenbytes, 0, []);
    ok := WriteCalls(w, calls, lenbytes);
    if ok {
      ghost var v := w.View();
      Bottom(w.endfirst, lenbytes, calls);
      ok, whole := FinishTrace(w, lenbytes, calls);
      KeptPastTwice(old(w.View()), v, w.View());
      if Steady(calls) {
        KeptTwice(old(w.View()), v, w.View());
      }
    }
  }

  /** The calls made so far have traced out what is written, and what is written fits. */
  ghost predicate Going(w: Writer, lenbytes: nat, calls: seq<Call>) {
    && w.frames == Framed(w.e, Trace(w.e, lenbytes, calls)) && Fitting(w.kind, w.e, Trace(w.e, lenbytes, calls))
    && (forall c :: c in calls ==> ValueFits(w.kind, c))
    && Obeyed(w.e, lenbytes, calls)
  }

  /** What has become of the buffer. */
  ghost predicate Kept(w0: Writer, w: Writer, calls: seq<Call>) {
    && w.kind == w0.kind && w.e == w0.e && w.max == w0.max && KeptPast(w0, w)
    && (Steady(calls) ==> KeptOutside(w0, w) && w0.written <= w.written)
  }

  method PerformNext(w: Wpacket, c: Call, ghost w0: Writer, ghost lenbytes: nat, ghost before: seq<Call>)
    returns (ok: bool)
    requires w.Valid() && Going(w.View(), lenbytes, before) && Kept(w0, w.View(), before)
    requires (c.Memcpy? ==> |c.src| <= SIZE_MAX) && (c.Open? ==> c.lenbytes <= SIZE_MAX)
    modifies w`data, w`written, w`curr, w`frames, w`subs, w`output, w.data
    ensures w.data == old(w.data) || (w.kind == Growing && fresh(w.data))
    ensures ok ==> w.Valid() && Going(w.View(), lenbytes, before + [c])
    ensures Kept(w0, w.View(), before + [c])
  {
    hide Framed, Trace, Sound, Fitting, KeptOutside, KeptPast, ValueFits, Obeyed, Forbidden, Steady, Dropped, Abandons;
    ghost var v := w.View();
    ok := Perform(w, c, lenbytes, before);
    if ok {
      ObeyedMore(w.endfirst, lenbytes, before, c);
    }
    KeptPastTwice(w0, v, w.View());
    if Steady(before + [c]) {
      SteadyInit(before, c);
      TopKept(w.endfirst, lenbytes, before);
      KeptTwice(w0, v, w.View());
    }
  }

  lemma TopKept(e: bool, lenbytes: nat, calls: seq<Call>)
    requires Steady(calls)
    ensures !Dropped(e, Top(Trace(e, lenbytes, calls)))
  {
    hide Trace, Steady, AbandonFlag, EncodeAll;
    NoneDropped(e, lenbytes, calls);
  }

  /** The calls of a run that is already under way are those that came before, and more. */
  lemma SteadyPrefix(calls: seq<Call>, i: nat)
    requires Steady(calls) && i <= |calls|
    ensures Steady(calls[..i])
  {
    hide Abandons;
  }

  method WriteCalls(w: Wpacket, calls: seq<Call>, ghost lenbytes: nat) returns (ok: bool)
    requires w.Valid() && w.frames == [Frame(lenbytes, 0, [])]
    requires forall c :: c in calls && c.Memcpy? ==> |c.src| <= SIZE_MAX
    requires forall c :: c in calls && c.Open? ==> c.lenbytes <= SIZE_MAX
    modifies w`data, w`written, w`curr, w`frames, w`subs, w`output, w.data
    ensures ok ==> w.Valid() && Going(w.View(), lenbytes, calls)
    ensures w.data == old(w.data) || (w.kind == Growing && fresh(w.data))
    ensures Kept(old(w.View()), w.View(), calls)
  {
    hide Going, Sound, KeptOutside, KeptPast, Steady;
    ok := true;
    ghost var w0 := w.View();
    StartTrace(w0, lenbytes);
    assert calls[..0] == [];
    for i := 0 to |calls|
      invariant w.Valid() && Going(w.View(), lenbytes, calls[..i])
      invariant Kept(w0, w.View(), calls[..i])
      invariant w.data == old(w.data) || (w.kind == Growing && fresh(w.data))
    {
      assert calls[..i + 1] == calls[..i] + [calls[i]];
      ok := PerformNext(w, calls[i], w0, lenbytes, calls[..i]);
      if !ok {
        if Steady(calls) {
          SteadyPrefix(calls, i + 1);
        }
        return;
      }
    }
    ok := true;
    assert calls[..|calls|] == calls;
  }

  lemma StartTrace(w: Writer, lenbytes: nat)
    requires Sound(w) && w.frames == [Frame(lenbytes, 0, [])]
    ensures Going(w, lenbytes, []) && Kept(w, w, [])
  {
    assert EncodeAll(w.e, []) == [];
    assert Init([Level(lenbytes, 0, [])]) == [] && Trace(w.e, lenbytes, []) == [Level(lenbytes, 0, [])];
    OutermostLength(w);
    SoundFacts(w);
    KeptSame(w);
    KeptIsPast(w, w);
  }

  method FinishTrace(w: Wpacket, ghost lenbytes: nat, ghost calls: seq<Call>) returns (ok: bool, ghost whole: Level)
    requires w.Valid() && Going(w.View(), lenbytes, calls)
    modifies w`data, w`written, w`curr, w`frames, w`subs, w`output, w.data
    ensures ok ==> Trace(w.endfirst, lenbytes, calls) == [whole]
    ensures ok ==> Encodable(w.kind, w.endfirst, Packet(whole.lenbytes, whole.items)) && !Forbidden(w.endfirst, whole)
    ensures ok ==> w.Valid() && w.frames == [] && w.output == Final(w.endfirst, whole)
    ensures ok ==> w.written == |w.output|
    ensures ok && w.kind != NoBuffer ==> Holds(w.endfirst, w.maxsize, w.data[..], 0, w.output)
    ensures w.data == old(w.data) && KeptOutside(old(w.View()), w.View())
    ensures Steady(calls) ==> old(w.written) <= w.written
  {
    hide Trace, Sound, KeptOutside, Holds, Steady, AbandonFlag, NonZeroFlag;
    ghost var st := Trace(w.endfirst, lenbytes, calls);
    whole := st[0];
    if |st| == 1 {
      OutermostLength(w.View());
      assert Init(st) == [];
      assert w.frames == [Frame(whole.lenbytes, whole.flags, EncodeAll(w.endfirst, whole.items))];
      if Steady(calls) {
        TopKept(w.endfirst, lenbytes, calls);
      }
    }
    ok := w.Finish();
  }

  /** The outermost sub-packet stays. */
  lemma {:induction false} Bottom(e: bool, lenbytes: nat, calls: seq<Call>)
    ensures Trace(e, lenbytes, calls)[0].lenbytes == lenbytes
  {
    if calls != [] {
      Bottom(e, lenbytes, Init(calls));
    }
  }

  // ---------- When a tree can be written ----------

  predicate Callable(x: Item) {
    match x
    case Data(b) => |b| <= SIZE_MAX
    case Packet(n, items) => n <= SIZE_MAX && forall k :: 0 <= k < |items| ==> Callable(items[k])
  }

  lemma {:induction false} PrefixShorter(e: bool, xs: seq<Item>, i: nat)
    requires i <= |xs|
    ensures |EncodeAll(e, xs[..i])| <= |EncodeAll(e, xs)|
    decreases |xs|
  {
    if i < |xs| {
      PrefixShorter(e, Init(xs), i);
      assert Init(xs)[..i] == xs[..i];
    } else {
      assert xs[..i] == xs;
    }
  }

  lemma NextItem(e: bool, xs: seq<Item>, i: nat)
    requires i < |xs|
    ensures var a, b := EncodeAll(e, xs[..i]), Encode(e, xs[i]);
            EncodeAll(e, xs[..i + 1]) == (if e then b + a else a + b) && |a| + |b| <= |EncodeAll(e, xs)|
  {
    assert xs[..i + 1] == xs[..i] + [xs[i]];
    EncodeMore(e, xs[..i], xs[i]);
    PrefixShorter(e, xs, i + 1);
  }

  /** The length a growing buffer has when an item has been written after the first `written` bytes. */
  function Buffered(length: nat, written: nat, x: Item): nat
    decreases x
  {
    match x
    case Data(b) => NewLength(length, written, |b|)
    case Packet(n, items) => BufferedAll(NewLength(length, written, n), written + n, items)
  }

  function BufferedAll(length: nat, written: nat, xs: seq<Item>): nat
    decreases xs
  {
    if xs == [] then length
    else
      var before := xs[..|xs| - 1];
      Buffered(BufferedAll(length, written, before), written + |EncodeAll(false, before)|, xs[|xs| - 1])
  }

  /** A buffer only ever grows. */
  lemma {:induction false} BufferedGrows(length: nat, written: nat, x: Item)
    requires length <= SIZE_MAX && written + |Encode(false, x)| <= SIZE_MAX
    ensures length <= Buffered(length, written, x) <= SIZE_MAX
    decreases x, 1
  {
    match x
    case Data(b) => LengthGrows(length, written, |b|);
    case Packet(n, items) =>
      hide Grown;
      LengthGrows(length, written, n);
      assert items[..|items|] == items;
      BufferedAllGrows(NewLength(length, written, n), written + n, x, |items|);
  }

  lemma {:induction false} BufferedAllGrows(length: nat, written: nat, x: Item, i: nat)
    requires x.Packet? && i <= |x.items|
    requires length <= SIZE_MAX && written + |EncodeAll(false, x.items[..i])| <= SIZE_MAX
    ensures length <= BufferedAll(length, written, x.items[..i]) <= SIZE_MAX
    decreases x, 0, i
  {
    if i > 0 {
      NextItem(false, x.items, i - 1);
      assert x.items[..i][..i - 1] == x.items[..i - 1];
      BufferedAllGrows(length, written, x, i - 1);
      BufferedGrows(BufferedAll(length, written, x.items[..i - 1]),
                    written + |EncodeAll(false, x.items[..i - 1])|, x.items[i - 1]);
    }
  }

  lemma BufferedNext(length: nat, written: nat, x: Item, i: nat)
    requires x.Packet? && i < |x.items|
    ensures BufferedAll(length, written, x.items[..i + 1]) ==
            Buffered(BufferedAll(length, written, x.items[..i]), written + |EncodeAll(false, x.items[..i])|, x.items[i])
  {
    assert x.items[..i + 1][..i] == x.items[..i];
  }

  lemma {:induction false} BufferedMore(length: nat, written: nat, x: Item, i: nat, j: nat)
    requires x.Packet? && i <= j <= |x.items|
    requires length <= SIZE_MAX && written + |EncodeAll(false, x.items[..j])| <= SIZE_MAX
    ensures BufferedAll(length, written, x.items[..i]) <= BufferedAll(length, written, x.items[..j])
    decreases j - i
  {
    if i < j {
      hide Buffered, BufferedAll, Encode, EncodeAll;
      PrefixesShorter(x.items, i, j);
      NextItem(false, x.items, i);
      BufferedNext(length, written, x, i);
      BufferedAllGrows(length, written, x, i);
      BufferedGrows(BufferedAll(length, written, x.items[..i]),
                    written + |EncodeAll(false, x.items[..i])|, x.items[i]);
      BufferedMore(length, written, x, i + 1, j);
    }
  }

  lemma PrefixesShorter(xs: seq<Item>, i: nat, j: nat)
    requires i < j <= |xs|
    ensures |EncodeAll(false, xs[..i])| <= |EncodeAll(false, xs[..i + 1])| <= |EncodeAll(false, xs[..j])|
    ensures |EncodeAll(false, xs[..i])| + |Encode(false, xs[i])| == |EncodeAll(false, xs[..i + 1])|
  {
    NextItem(false, xs, i);
    assert xs[..j][..i + 1] == xs[..i + 1];
    PrefixShorter(false, xs[..j], i + 1);
  }

  /** Twice the packet, or 256 bytes, is all the memory a buffer ever takes. */
  function Cap(total: nat): nat {
    if total < 128 then 256 else 2 * total
  }

  lemma NewLengthCapped(length: nat, written: nat, len: nat, total: nat)
    requires written + len <= total
    ensures NewLength(length, written, len) <= length || NewLength(length, written, len) <= Cap(total)
  {
  }

  lemma {:induction false} BufferedCapped(length: nat, written: nat, x: Item, total: nat)
    requires written + |Encode(false, x)| <= total
    ensures Buffered(length, written, x) <= length || Buffered(length, written, x) <= Cap(total)
    decreases x, 1
  {
    hide Grown;
    match x
    case Data(b) => NewLengthCapped(length, written, |b|, total);
    case Packet(n, items) =>
      NewLengthCapped(length, written, n, total);
      assert items[..|items|] == items;
      BufferedAllCapped(NewLength(length, written, n), written + n, x, |items|, total);
  }

  lemma {:induction false} BufferedAllCapped(length: nat, written: nat, x: Item, i: nat, total: nat)
    requires x.Packet? && i <= |x.items| && written + |EncodeAll(false, x.items[..i])| <= total
    ensures var l := BufferedAll(length, written, x.items[..i]); l <= length || l <= Cap(total)
    decreases x, 0, i
  {
    hide Buffered, Encode, Grown, Cap;
    if i > 0 {
      NextItem(false, x.items, i - 1);
      BufferedNext(length, written, x, i - 1);
      BufferedAllCapped(length, written, x, i - 1, total);
      BufferedCapped(BufferedAll(length, written, x.items[..i - 1]),
                     written + |EncodeAll(false, x.items[..i - 1])|, x.items[i - 1], total);
    }
  }

  /** Memory suffices for the buffer, which was of length `length`, to become one of length `length'`. */
  predicate Affords(kind: Kind, limit: nat, length: nat, length': nat) {
    kind == Growing ==> Within(limit, length, length')
  }

  /** Memory for twice the packet always suffices. */
  lemma EnoughMemory(kind: Kind, limit: nat, length: nat, written: nat, x: Item)
    requires length <= SIZE_MAX && written + |Encode(false, x)| <= SIZE_MAX
    requires Cap(written + |Encode(false, x)|) <= limit
    ensures Affords(kind, limit, length, Buffered(length, written, x))
  {
    BufferedGrows(length, written, x);
    BufferedCapped(length, written, x, written + |Encode(false, x)|);
  }

  lemma AffordsTwice(kind: Kind, limit: nat, a: nat, b: nat, c: nat)
    requires a <= b <= c
    ensures Affords(kind, limit, a, c) <==> Affords(kind, limit, a, b) && Affords(kind, limit, b, c)
  {
  }

  /** Writing a tree succeeds exactly when its lengths fit, its whole encoding fits the packet, and
      memory suffices for the buffer, if it is one that grows. */
  method WriteItem(w: Wpacket, x: Item) returns (ok: bool)
    requires w.Valid() && w.frames != [] && Callable(x)
    modifies w`data, w`written, w`curr, w`frames, w`subs, w`output, w.data
    ensures w.data == old(w.data) || (w.kind == Growing && fresh(w.data))
    ensures ok == (Encodable(w.kind, w.endfirst, x) && |Encode(w.endfirst, x)| <= w.maxsize - old(w.written)
                   && Affords(w.kind, w.limit, old(w.data.Length), Buffered(old(w.data.Length), old(w.written), x)))
    ensures ok ==> w.Valid() && w.frames == Add(w.endfirst, old(w.frames), Encode(w.endfirst, x))
    ensures ok ==> w.written == old(w.written) + |Encode(w.endfirst, x)|
    ensures ok && w.kind == Growing ==> w.data.Length == Buffered(old(w.data.Length), old(w.written), x)
    decreases x, 3
  {
    hide Sound, IsClosed, CanClose, KeptOutside, Grown, Add, Within, BufferedAll, EncodeAll, DerLength, Bytes;
    SoundFacts(w.View());
    match x
    case Data(b) =>
      DataRoom(w, b);
      ok := w.Memcpy(b);
    case Packet(n, items) =>
      OpenRoom(w, x);
      ok := w.StartSubPacketLen(n);
      if ok {
        ok := WriteInside(w, x, old(w.frames));
      }
  }

  lemma DataRoom(w: Wpacket, b: seq<Byte>)
    requires w.Valid() && w.frames != [] && |b| <= SIZE_MAX
    ensures w.subs != [] && w.written <= w.maxsize <= SIZE_MAX
    ensures b == [] || w.Room(|b|) <==>
              |b| <= w.maxsize - w.written
              && Affords(w.kind, w.limit, w.data.Length, Buffered(w.data.Length, w.written, Data(b)))
  {
    SoundFacts(w.View());
    w.RoomIs(|b|);
    hide Sound, Grown;
  }

  /** What opening the sub-packet leaves to be checked. */
  lemma OpenRoom(w: Wpacket, x: Item)
    requires w.Valid() && w.frames != [] && x.Packet? && Callable(x)
    ensures w.subs != [] && w.written <= w.maxsize <= SIZE_MAX
    ensures var length := NewLength(w.data.Length, w.written, x.lenbytes);
            Encodable(w.kind, w.endfirst, x) && |Encode(w.endfirst, x)| <= w.maxsize - w.written
            && Affords(w.kind, w.limit, w.data.Length, Buffered(w.data.Length, w.written, x))
            <==>
            !(x.lenbytes > 0 && w.endfirst) && (x.lenbytes == 0 || w.Room(x.lenbytes))
            && Encodable(w.kind, w.endfirst, x)
            && |Encode(w.endfirst, x)| - x.lenbytes <= w.maxsize - (w.written + x.lenbytes)
            && Affords(w.kind, w.limit, length, BufferedAll(length, w.written + x.lenbytes, x.items))
  {
    hide Sound, Grown, BufferedAll, Encode, EncodeAll, Within, Encodable;
    SoundFacts(w.View());
    w.RoomIs(x.lenbytes);
    if |Encode(w.endfirst, x)| <= w.maxsize - w.written && (x.lenbytes > 0 ==> !w.endfirst) {
      OpenGrows(w.data.Length, w.written, x, w.kind, w.endfirst, w.limit);
    }
    OpenSize(w.kind, w.endfirst, x);
    Unchanged(w.limit, w.data.Length);
  }

  lemma Unchanged(limit: nat, length: nat)
    ensures Within(limit, length, length)
  {
  }

  lemma OpenSize(kind: Kind, e: bool, x: Item)
    requires x.Packet?
    ensures !e ==> |Encode(e, x)| >= x.lenbytes
    ensures Encodable(kind, e, x) ==> !(x.lenbytes > 0 && e)
  {
  }

  lemma OpenGrows(length: nat, written: nat, x: Item, kind: Kind, e: bool, limit: nat)
    requires x.Packet? && length <= SIZE_MAX && written + |Encode(e, x)| <= SIZE_MAX && (kind == Growing ==> !e)
    ensures var grown := NewLength(length, written, x.lenbytes);
            Affords(kind, limit, length, Buffered(length, written, x)) <==>
            Affords(kind, limit, length, grown)
            && Affords(kind, limit, grown, BufferedAll(grown, written + x.lenbytes, x.items))
  {
    if kind == Growing {
      hide Grown;
      var grown := NewLength(length, written, x.lenbytes);
      LengthGrows(length, written, x.lenbytes);
      assert x.items[..|x.items|] == x.items;
      BufferedAllGrows(grown, written + x.lenbytes, x, |x.items|);
      AffordsTwice(kind, limit, length, grown, BufferedAll(grown, written + x.lenbytes, x.items));
    }
  }

  method WriteInside(w: Wpacket, x: Item, ghost outer: seq<Frame>) returns (ok: bool)
    requires x.Packet? && Callable(x) && w.Valid()
    requires outer != [] && w.frames == outer + [Frame(x.lenbytes, 0, [])] && (w.endfirst ==> x.lenbytes == 0)
    modifies w`data, w`written, w`curr, w`frames, w`subs, w`output, w.data
    ensures w.data == old(w.data) || (w.kind == Growing && fresh(w.data))
    ensures ok == (Encodable(w.kind, w.endfirst, x)
                   && |Encode(w.endfirst, x)| - x.lenbytes <= w.maxsize - old(w.written)
                   && Affords(w.kind, w.limit, old(w.data.Length),
                              BufferedAll(old(w.data.Length), old(w.written), x.items)))
    ensures ok ==> w.Valid() && w.frames == Add(w.endfirst, outer, Encode(w.endfirst, x))
    ensures ok ==> w.written == old(w.written) + |Encode(w.endfirst, x)| - x.lenbytes
    ensures ok && w.kind == Growing ==> w.data.Length == BufferedAll(old(w.data.Length), old(w.written), x.items)
    decreases x, 2
  {
    hide Sound, IsClosed, KeptOutside, Add, Encode, EncodeAll, DerLength, CanClose, Encodable, Size, Pow256,
         Affords, BufferedAll;
    ghost var c := EncodeAll(w.endfirst, x.items);
    InsideFits(w.kind, w.endfirst, x);
    SoundFacts(w.View());
    ok := WriteAll(w, x);
    if !ok {
      return;
    }
    FilledFrame(w.endfirst, outer, x.lenbytes, c);
    SoundFacts(w.View());
    ok := w.CloseFilled(x.lenbytes, outer, c);
  }

  lemma InsideFits(kind: Kind, e: bool, x: Item)
    requires x.Packet? && Callable(x) && (e ==> x.lenbytes == 0)
    ensures var c := EncodeAll(e, x.items);
            && |Encode(e, x)| == |c| + (if e then |DerLength(|c|)| else x.lenbytes)
            && Encode(e, x) == (if e then DerLength(|c|) else Bytes(|c|, x.lenbytes)) + c
    ensures Encodable(kind, e, x) <==>
      && (forall k :: 0 <= k < |x.items| ==> Encodable(kind, e, x.items[k]))
      && (kind != NoBuffer && x.lenbytes > 0 ==> |EncodeAll(e, x.items)| < Pow256(x.lenbytes))
  {
  }

  /** Items one after the other. */
  method WriteAll(w: Wpacket, x: Item) returns (ok: bool)
    requires x.Packet? && w.Valid() && w.frames != [] && Callable(x)
    modifies w`data, w`written, w`curr, w`frames, w`subs, w`output, w.data
    ensures w.data == old(w.data) || (w.kind == Growing && fresh(w.data))
    ensures ok == ((forall k :: 0 <= k < |x.items| ==> Encodable(w.kind, w.endfirst, x.items[k]))
                   && |EncodeAll(w.endfirst, x.items)| <= w.maxsize - old(w.written)
                   && Affords(w.kind, w.limit, old(w.data.Length),
                              BufferedAll(old(w.data.Length), old(w.written), x.items)))
    ensures ok ==> w.Valid() && w.frames == Add(w.endfirst, old(w.frames), EncodeAll(w.endfirst, x.items))
    ensures ok ==> w.written == old(w.written) + |EncodeAll(w.endfirst, x.items)|
    ensures ok && w.kind == Growing ==> w.data.Length == BufferedAll(old(w.data.Length), old(w.written), x.items)
    decreases x, 1
  {
    hide Sound, Encode, EncodeAll, Add, Encodable, Progress, Affords, BufferedAll;
    ghost var e, fs, start, length := w.endfirst, w.frames, w.written, w.data.Length;
    NoItems(e, fs, x.items);
    NothingBuffered(w.kind, w.limit, length, start, x.items);
    SoundFacts(w.View());
    ok := true;
    for i := 0 to |x.items|
      invariant w.Valid() && (w.data == old(w.data) || (w.kind == Growing && fresh(w.data)))
      invariant Progress(e, fs, x.items, i, w.frames)
      invariant w.written == start + |EncodeAll(e, x.items[..i])| <= w.maxsize
      invariant w.kind == Growing ==> w.data.Length == BufferedAll(length, start, x.items[..i])
      invariant Affords(w.kind, w.limit, length, BufferedAll(length, start, x.items[..i]))
      invariant forall k :: 0 <= k < i ==> Encodable(w.kind, e, x.items[k])
    {
      ItemsGrow(w, length, start, x, i);
      ok := WriteNext(w, x, i, fs, start, length);
      if !ok {
        return;
      }
    }
    ok := true;
    AllItems(e, fs, x.items, w.frames);
  }

  lemma NothingBuffered(kind: Kind, limit: nat, length: nat, written: nat, xs: seq<Item>)
    ensures BufferedAll(length, written, xs[..0]) == length && Affords(kind, limit, length, length)
  {
  }

  /** How memory for one more item relates to memory for those before it, and for all. */
  lemma ItemsGrow(w: Wpacket, length: nat, start: nat, x: Item, i: nat)
    requires x.Packet? && i < |x.items| && length <= SIZE_MAX && w.maxsize <= SIZE_MAX
    requires w.kind == Growing ==> !w.endfirst
    requires Affords(w.kind, w.limit, length, BufferedAll(length, start, x.items[..i]))
    ensures var a, b := BufferedAll(length, start, x.items[..i]), BufferedAll(length, start, x.items[..i + 1]);
            var all := BufferedAll(length, start, x.items);
            && (start + |EncodeAll(w.endfirst, x.items[..i + 1])| <= w.maxsize ==>
                  (Affords(w.kind, w.limit, a, b) <==> Affords(w.kind, w.limit, length, b)))
            && (start + |EncodeAll(w.endfirst, x.items)| <= w.maxsize && Affords(w.kind, w.limit, length, all) ==>
                  Affords(w.kind, w.limit, length, b))
  {
    hide BufferedAll, EncodeAll;
    if w.kind == Growing {
      assert x.items[..|x.items|] == x.items;
      PrefixesShorter(x.items, i, |x.items|);
      if start + |EncodeAll(false, x.items[..i + 1])| <= SIZE_MAX {
        BufferedMore(length, start, x, i, i + 1);
        BufferedAllGrows(length, start, x, i);
        AffordsTwice(w.kind, w.limit, length, BufferedAll(length, start, x.items[..i]),
                     BufferedAll(length, start, x.items[..i + 1]));
      }
      if start + |EncodeAll(false, x.items)| <= SIZE_MAX {
        BufferedMore(length, start, x, i + 1, |x.items|);
        AffordsTwice(w.kind, w.limit, length, BufferedAll(length, start, x.items[..i + 1]),
                     BufferedAll(length, start, x.items));
      }
    }
  }

  /** The first `i` items have been written. */
  ghost predicate Progress(e: bool, fs: seq<Frame>, items: seq<Item>, i: nat, now: seq<Frame>) {
    fs != [] && i <= |items| && now == Add(e, fs, EncodeAll(e, items[..i]))
  }

  lemma NoItems(e: bool, fs: seq<Frame>, items: seq<Item>)
    requires fs != []
    ensures Progress(e, fs, items, 0, fs) && EncodeAll(e, items[..0]) == []
  {
    AddNothing(e, fs, []);
  }

  lemma AllItems(e: bool, fs: seq<Frame>, items: seq<Item>, now: seq<Frame>)
    requires Progress(e, fs, items, |items|, now)
    ensures fs != [] && now == Add(e, fs, EncodeAll(e, items)) && items[..|items|] == items
  {
    assert items[..|items|] == items;
  }

  lemma ProgressNext(e: bool, fs: seq<Frame>, items: seq<Item>, i: nat, now: seq<Frame>)
    requires i < |items| && Progress(e, fs, items, i, now)
    ensures now != [] && Progress(e, fs, items, i + 1, Add(e, now, Encode(e, items[i])))
    ensures |EncodeAll(e, items[..i])| + |Encode(e, items[i])| ==
        |EncodeAll(e, items[..i + 1])| <= |EncodeAll(e, items)|
  {
    NextItem(e, items, i);
    AddAfter(e, fs, EncodeAll(e, items[..i]), Encode(e, items[i]));
    AddParts(e, fs, EncodeAll(e, items[..i]));
  }

  method WriteNext(w: Wpacket, x: Item, i: nat, ghost fs: seq<Frame>, ghost start: nat, ghost length: nat)
    returns (ok: bool)
    requires x.Packet? && i < |x.items| && w.Valid() && Callable(x)
    requires Progress(w.endfirst, fs, x.items, i, w.frames)
    requires w.written == start + |EncodeAll(w.endfirst, x.items[..i])|
    requires w.kind == Growing ==> w.data.Length == BufferedAll(length, start, x.items[..i])
    modifies w`data, w`written, w`curr, w`frames, w`subs, w`output, w.data
    ensures w.data == old(w.data) || (w.kind == Growing && fresh(w.data))
    ensures |EncodeAll(w.endfirst, x.items[..i + 1])| <= |EncodeAll(w.endfirst, x.items)|
    ensures ok == (Encodable(w.kind, w.endfirst, x.items[i])
                   && start + |EncodeAll(w.endfirst, x.items[..i + 1])| <= w.maxsize
                   && Affords(w.kind, w.limit, BufferedAll(length, start, x.items[..i]),
                              BufferedAll(length, start, x.items[..i + 1])))
    ensures ok ==> w.Valid() && Progress(w.endfirst, fs, x.items, i + 1, w.frames)
    ensures ok ==> w.written == start + |EncodeAll(w.endfirst, x.items[..i + 1])|
    ensures ok && w.kind == Growing ==> w.data.Length == BufferedAll(length, start, x.items[..i + 1])
    decreases x, 0
  {
    hide Sound, Encode, EncodeAll, Add, Encodable, Progress, Buffered, BufferedAll, Within;
    ProgressNext(w.endfirst, fs, x.items, i, w.frames);
    if w.kind == Growing {
      SoundFacts(w.View());
      BufferedNext(length, start, x, i);
    }
    ok := WriteItem(w, x.items[i]);
  }

  lemma AddAfter(e: bool, fs: seq<Frame>, a: seq<Byte>, b: seq<Byte>)
    requires fs != []
    ensures Add(e, Add(e, fs, a), b) == Add(e, fs, if e then b + a else a + b)
    ensures Add(e, Add(e, fs, a), b) != []
  {
    AddTwice(fs, a, b);
  }

  // ---------- Reading back, and dry runs ----------

  /** The length in front of a sub-packet tells where it ends, whatever follows. */
  lemma LengthReadBack(n: nat, items: seq<Item>, rest: seq<Byte>)
    requires |EncodeAll(false, items)| < Pow256(n)
    ensures var c, all := EncodeAll(false, items), Encode(false, Packet(n, items)) + rest;
            n <= |all| && Value(all[..n]) == |c| && n + |c| <= |all| && all[n..n + |c|] == c && all[n + |c|..] == rest
  {
    var c, all := EncodeAll(false, items), Encode(false, Packet(n, items)) + rest;
    assert all[..n] == Bytes(|c|, n);
    ValueOfBytes(|c|, n);
  }

  /** Every length fits the bytes kept for it. */
  predicate LengthsFit(e: bool, x: Item) {
    match x
    case Data(_) => true
    case Packet(n, items) =>
      (n > 0 ==> |EncodeAll(e, items)| < Pow256(n)) && forall k :: 0 <= k < |items| ==> LengthsFit(e, items[k])
  }

  /** A run into a fixed buffer with `room` bytes succeeds exactly when a dry run with the same room
      does and every length fits its bytes: only the latter goes unnoticed in a dry run. */
  lemma {:induction false} DryRunAgrees(e: bool, x: Item, room: nat)
    ensures Encodable(Static, e, x) && |Encode(e, x)| <= room <==>
            Encodable(NoBuffer, e, x) && |Encode(e, x)| <= room && LengthsFit(e, x)
  {
    EncodableDry(e, x);
  }

  lemma {:induction false} EncodableDry(e: bool, x: Item)
    ensures Encodable(Static, e, x) <==> Encodable(NoBuffer, e, x) && LengthsFit(e, x)
  {
    match x
    case Data(b) =>
    case Packet(n, items) =>
      forall k | 0 <= k < |items|
        ensures Encodable(Static, e, items[k]) <==> Encodable(NoBuffer, e, items[k]) && LengthsFit(e, items[k])
      {
        EncodableDry(e, items[k]);
      }
  }

  /** An instance: 256 bytes under a length of one byte. */
  lemma DryRunMisses()
    ensures var x := Packet(1, [Data(Repeat(0, 256))]); Encodable(NoBuffer, false, x) && !Encodable(Static, false, x)
  {
    var b: seq<Byte> := Repeat(0, 256);
    assert [Data(b)][..0] == [];
    assert EncodeAll(false, [Data(b)]) == [] + b;
    OneByte(0);
  }

  /** An instance for `WPACKET_put_bytes__`: 256 in one byte is accepted without a buffer only. */
  method PutTooMuch() returns (dry: bool, actual: bool)
    ensures dry && !actual
  {
    OneByte(0);
    var w := new Wpacket.InitNull(0);
    SoundFacts(w.View());
    dry := w.PutBytes(256, 1);
    var buf := new Byte[8];
    var v := new Wpacket.InitStaticLen(buf, 0);
    actual := v.PutBytes(256, 1);
  }
}
