/** The open sub-packets of a WPACKET and where their contents lie in the buffer
    (crypto/packet.c).  Forward writers fill the buffer from its start; `endfirst` writers from its
    end, so that what is written later comes before what was written earlier. */
module PacketFrames {
  import opened BigEndian

  /** An open sub-packet: bytes kept free for its length, its flags, and what it holds so far. */
  datatype Frame = Frame(lenbytes: nat, flags: nat, content: seq<Byte>)

  predicate NonZeroFlag(flags: nat) {
    flags % 2 == 1
  }

  predicate AbandonFlag(flags: nat) {
    (flags / 2) % 2 == 1
  }

  function Init<T>(s: seq<T>): seq<T>
    requires s != []
  {
    s[..|s| - 1]
  }

  function Top<T>(s: seq<T>): T
    requires s != []
  {
    s[|s| - 1]
  }

  /** `b` written to the innermost open sub-packet. */
  function Add(e: bool, fs: seq<Frame>, b: seq<Byte>): seq<Frame>
    requires fs != []
  {
    Init(fs) + [Top(fs).(content := if e then b + Top(fs).content else Top(fs).content + b)]
  }

  /** The length a closed sub-packet is preceded by. */
  function Header(e: bool, f: Frame): seq<Byte>
    requires Size(|f.content|) < 0x80
  {
    if e then DerLength(|f.content|) else Bytes(|f.content|, f.lenbytes)
  }

  predicate Abandoned(f: Frame) {
    f.content == [] && AbandonFlag(f.flags)
  }

  /** Closing the innermost sub-packet: length and content go to the sub-packet around it, unless
      it is abandoned. */
  function Closed(e: bool, fs: seq<Frame>): seq<Frame>
    requires |fs| >= 2 && Size(|Top(fs).content|) < 0x80
  {
    if Abandoned(Top(fs)) then Init(fs) else Add(e, Init(fs), Header(e, Top(fs)) + Top(fs).content)
  }

  /** What a packet consists of when its outermost sub-packet is closed: there is a length only if
      room was kept for it. */
  function Finished(e: bool, f: Frame): seq<Byte> {
    if Abandoned(f) then [] else (if e then [] else Bytes(|f.content|, f.lenbytes)) + f.content
  }

  /** The last bytes written, overwritten. */
  function Replace(e: bool, fs: seq<Frame>, b: seq<Byte>): seq<Frame>
    requires fs != [] && |b| <= |Top(fs).content|
  {
    var c := Top(fs).content;
    Init(fs) + [Top(fs).(content := if e then b + c[|b|..] else c[..|c| - |b|] + b)]
  }

  function Total(fs: seq<Frame>): nat {
    if fs == [] then 0 else Total(Init(fs)) + Top(fs).lenbytes + |Top(fs).content|
  }

  // ---------- Contents in the buffer ----------

  /** The index of the first of `len` bytes written after the first `from`. */
  function Lo(e: bool, max: nat, from: nat, len: nat): int {
    if e then max - from - len else from
  }

  predicate Holds(e: bool, max: nat, data: seq<Byte>, from: nat, c: seq<Byte>) {
    var lo := Lo(e, max, from, |c|);
    0 <= lo && lo + |c| <= |data| && forall i :: 0 <= i < |c| ==> c[i] == data[lo + i]
  }

  predicate Laid(e: bool, max: nat, data: seq<Byte>, fs: seq<Frame>) {
    fs == [] || (
      && Laid(e, max, data, Init(fs))
      && Holds(e, max, data, Total(Init(fs)) + Top(fs).lenbytes, Top(fs).content))
  }

  /** Two buffers have the same first `n` bytes written. */
  predicate SameWritten(e: bool, max: nat, d: seq<Byte>, d': seq<Byte>, n: nat) {
    if e then n <= max <= |d| && max <= |d'| && forall p :: max - n <= p < max ==> d'[p] == d[p]
    else n <= |d| && n <= |d'| && forall p :: 0 <= p < n ==> d'[p] == d[p]
  }

  lemma SameWrittenLess(e: bool, max: nat, d: seq<Byte>, d': seq<Byte>, n: nat, m: nat)
    requires SameWritten(e, max, d, d', n) && m <= n
    ensures SameWritten(e, max, d, d', m)
  {
  }

  lemma KeepHolds(e: bool, max: nat, d: seq<Byte>, d': seq<Byte>, n: nat, from: nat, c: seq<Byte>)
    requires SameWritten(e, max, d, d', n) && Holds(e, max, d, from, c) && from + |c| <= n
    ensures Holds(e, max, d', from, c)
  {
  }

  lemma {:induction false} KeepLaid(e: bool, max: nat, d: seq<Byte>, d': seq<Byte>, fs: seq<Frame>)
    requires Laid(e, max, d, fs) && SameWritten(e, max, d, d', Total(fs))
    ensures Laid(e, max, d', fs)
  {
    if fs != [] {
      SameWrittenLess(e, max, d, d', Total(fs), Total(Init(fs)));
      KeepLaid(e, max, d, d', Init(fs));
      KeepHolds(e, max, d, d', Total(fs), Total(Init(fs)) + Top(fs).lenbytes, Top(fs).content);
    }
  }

  lemma HoldsBoth(e: bool, max: nat, d: seq<Byte>, from: nat, a: seq<Byte>, b: seq<Byte>)
    requires Holds(e, max, d, from, a) && Holds(e, max, d, from + |a|, b)
    ensures Holds(e, max, d, from, if e then b + a else a + b)
  {
  }

  lemma AddParts(e: bool, fs: seq<Frame>, b: seq<Byte>)
    requires fs != []
    ensures Add(e, fs, b) != [] && Init(Add(e, fs, b)) == Init(fs) && |Add(e, fs, b)| == |fs|
    ensures Top(Add(e, fs, b)) == Top(fs).(content := if e then b + Top(fs).content else Top(fs).content + b)
    ensures Total(Add(e, fs, b)) == Total(fs) + |b|
  {
  }

  /** Writing to the innermost sub-packet. */
  lemma LaidAdd(e: bool, max: nat, d: seq<Byte>, d': seq<Byte>, fs: seq<Frame>, b: seq<Byte>)
    requires fs != [] && Laid(e, max, d, fs) && SameWritten(e, max, d, d', Total(fs))
    requires Holds(e, max, d', Total(fs), b)
    ensures Laid(e, max, d', Add(e, fs, b))
  {
    hide Holds, SameWritten, Add;
    KeepLaid(e, max, d, d', fs);
    AddParts(e, fs, b);
    HoldsBoth(e, max, d', Total(Init(fs)) + Top(fs).lenbytes, Top(fs).content, b);
  }

  lemma HoldsPart(e: bool, max: nat, d: seq<Byte>, from: nat, c: seq<Byte>, n: nat)
    requires Holds(e, max, d, from, c) && n <= |c|
    ensures Holds(e, max, d, from, if e then c[n..] else c[..|c| - n])
  {
  }

  lemma ReplaceParts(e: bool, fs: seq<Frame>, b: seq<Byte>)
    requires fs != [] && |b| <= |Top(fs).content|
    ensures var fs' := Replace(e, fs, b); fs' != [] && Init(fs') == Init(fs) && |fs'| == |fs| && Total(fs') == Total(fs)
  {
    assert Init(Replace(e, fs, b)) == Init(fs);
  }

  /** Overwriting the last bytes written. */
  lemma LaidReplace(e: bool, max: nat, d: seq<Byte>, d': seq<Byte>, fs: seq<Frame>, b: seq<Byte>)
    requires fs != [] && Laid(e, max, d, fs) && |b| <= |Top(fs).content|
    requires SameWritten(e, max, d, d', Total(fs) - |b|) && Holds(e, max, d', Total(fs) - |b|, b)
    ensures Laid(e, max, d', Replace(e, fs, b))
  {
    hide Holds, SameWritten, Laid, Replace;
    var from := Total(Init(fs)) + Top(fs).lenbytes;
    LaidInit(e, max, d, fs);
    SameWrittenLess(e, max, d, d', Total(fs) - |b|, Total(Init(fs)));
    var c' := EndReplaced(e, max, d, d', from, Top(fs).content, b);
    ReplaceIs(e, fs, b, c');
    KeepLaid(e, max, d, d', Init(fs));
    LaidSnoc(e, max, d', Init(fs), Top(fs).(content := c'));
  }

  lemma ReplaceIs(e: bool, fs: seq<Frame>, b: seq<Byte>, c': seq<Byte>)
    requires fs != [] && |b| <= |Top(fs).content|
    requires c' == if e then b + Top(fs).content[|b|..] else Top(fs).content[..|Top(fs).content| - |b|] + b
    ensures Replace(e, fs, b) == Init(fs) + [Top(fs).(content := c')]
  {
  }

  lemma EndReplaced(e: bool, max: nat, d: seq<Byte>, d': seq<Byte>, from: nat, c: seq<Byte>, b: seq<Byte>)
    returns (c': seq<Byte>)
    requires Holds(e, max, d, from, c) && |b| <= |c| && SameWritten(e, max, d, d', from + |c| - |b|)
    requires Holds(e, max, d', from + |c| - |b|, b)
    ensures c' == if e then b + c[|b|..] else c[..|c| - |b|] + b
    ensures Holds(e, max, d', from, c')
  {
    var rest := if e then c[|b|..] else c[..|c| - |b|];
    HoldsPart(e, max, d, from, c, |b|);
    hide Holds, SameWritten;
    KeepHolds(e, max, d, d', from + |c| - |b|, from, rest);
    HoldsBoth(e, max, d', from, rest, b);
    c' := if e then b + rest else rest + b;
  }

  lemma LaidSnoc(e: bool, max: nat, d: seq<Byte>, fs: seq<Frame>, f: Frame)
    requires Laid(e, max, d, fs) && Holds(e, max, d, Total(fs) + f.lenbytes, f.content)
    ensures Laid(e, max, d, fs + [f])
  {
    assert Init(fs + [f]) == fs;
  }

  /** Overwriting all of what was just added. */
  lemma ReplaceAdded(e: bool, fs: seq<Frame>, a: seq<Byte>, b: seq<Byte>)
    requires fs != [] && |a| == |b|
    ensures Replace(e, Add(e, fs, a), b) == Add(e, fs, b)
  {
    AddParts(e, fs, a);
    var c := Top(fs).content;
    assert (a + c)[|b|..] == c && (c + a)[..|c + a| - |b|] == c;
  }

  lemma RecordedReplace(e: bool, subs: seq<Sub>, fs: seq<Frame>, b: seq<Byte>)
    requires fs != [] && |b| <= |Top(fs).content| && Recorded(subs, fs)
    ensures Recorded(subs, Replace(e, fs, b))
  {
    ReplaceParts(e, fs, b);
  }

  /** Filling in the length a forward writer kept room for. */
  lemma LaidHeader(max: nat, d: seq<Byte>, d': seq<Byte>, fs: seq<Frame>, h: seq<Byte>)
    requires fs != [] && Laid(false, max, d, fs) && |h| == Top(fs).lenbytes
    requires SameWritten(false, max, d, d', Total(Init(fs)))
    requires Holds(false, max, d', Total(Init(fs)), h)
    requires Holds(false, max, d', Total(Init(fs)) + |h|, Top(fs).content)
    ensures Laid(false, max, d', Init(fs) + [Top(fs).(lenbytes := 0, content := h + Top(fs).content)])
  {
    KeepLaid(false, max, d, d', Init(fs));
    var fs' := Init(fs) + [Top(fs).(lenbytes := 0, content := h + Top(fs).content)];
    assert Init(fs') == Init(fs);
    HoldsBoth(false, max, d', Total(Init(fs)), h, Top(fs).content);
  }

  /** Joining a sub-packet without room for a length to the one around it. */
  lemma LaidPop(e: bool, max: nat, d: seq<Byte>, fs: seq<Frame>)
    requires |fs| >= 2 && Laid(e, max, d, fs) && Top(fs).lenbytes == 0
    ensures Laid(e, max, d, Add(e, Init(fs), Top(fs).content))
    ensures Total(Add(e, Init(fs), Top(fs).content)) == Total(fs)
  {
    var p := Init(fs);
    LaidInit(e, max, d, fs);
    LaidInit(e, max, d, p);
    AddParts(e, p, Top(fs).content);
    hide Holds, Add;
    HoldsBoth(e, max, d, Total(Init(p)) + Top(p).lenbytes, Top(p).content, Top(fs).content);
  }

  lemma LaidInit(e: bool, max: nat, d: seq<Byte>, fs: seq<Frame>)
    requires fs != [] && Laid(e, max, d, fs)
    ensures Laid(e, max, d, Init(fs)) && Holds(e, max, d, Total(Init(fs)) + Top(fs).lenbytes, Top(fs).content)
  {
  }

  lemma LaidPush(e: bool, max: nat, d: seq<Byte>, d': seq<Byte>, fs: seq<Frame>, f: Frame)
    requires Laid(e, max, d, fs) && SameWritten(e, max, d, d', Total(fs)) && f.content == []
    requires if e then Total(fs) + f.lenbytes <= max <= |d'| else Total(fs) + f.lenbytes <= |d'|
    ensures Laid(e, max, d', fs + [f]) && Total(fs + [f]) == Total(fs) + f.lenbytes
  {
    assert Init(fs + [f]) == fs;
    KeepLaid(e, max, d, d', fs);
  }

  // ---------- The records kept per sub-packet ----------

  /** WPACKET_SUB. */
  datatype Sub = Sub(packetLen: nat, lenbytes: nat, pwritten: nat, flags: nat)

  predicate Recorded(subs: seq<Sub>, fs: seq<Frame>) {
    |subs| == |fs| && (
      fs == [] || (
        && Recorded(Init(subs), Init(fs))
        && var f, s := Top(fs), Top(subs);
           && s.lenbytes == f.lenbytes && s.flags == f.flags
           && s.pwritten == Total(Init(fs)) + f.lenbytes
           && s.packetLen == if f.lenbytes > 0 then Total(Init(fs)) else 0))
  }

  lemma RecordedInit(subs: seq<Sub>, fs: seq<Frame>)
    requires fs != [] && Recorded(subs, fs)
    ensures |subs| == |fs| && Recorded(Init(subs), Init(fs))
  {
  }

  lemma RecordedAdd(e: bool, subs: seq<Sub>, fs: seq<Frame>, b: seq<Byte>)
    requires fs != [] && Recorded(subs, fs)
    ensures Recorded(subs, Add(e, fs, b))
  {
    AddParts(e, fs, b);
  }

  lemma RecordedPush(subs: seq<Sub>, fs: seq<Frame>, s: Sub, f: Frame)
    requires Recorded(subs, fs) && s.lenbytes == f.lenbytes && s.flags == f.flags
    requires s.pwritten == Total(fs) + f.lenbytes && s.packetLen == if f.lenbytes > 0 then Total(fs) else 0
    ensures Recorded(subs + [s], fs + [f])
  {
    assert Init(fs + [f]) == fs && Init(subs + [s]) == subs;
  }

  // ---------- Writers ----------

  const SIZE_MAX: nat := 0xFFFF_FFFF_FFFF_FFFF

  /** Where the output goes: a buffer of fixed size, one that grows, or nowhere. */
  datatype Kind = Static | Growing | NoBuffer

  /** The most bytes a packet can have whose length must fit `lenbytes` bytes. */
  function MaxMaxSize(lenbytes: nat): (r: nat)
    ensures 0 < lenbytes < 8 ==> r == Pow256(lenbytes) - 1 + lenbytes
    ensures lenbytes == 0 || lenbytes >= 8 ==> r == SIZE_MAX
    ensures r <= SIZE_MAX
  {
    if lenbytes >= 8 || lenbytes == 0 then SIZE_MAX
    else PowMonotone(lenbytes, 7); PowSeven(); Pow256(lenbytes) - 1 + lenbytes
  }

  lemma PowSeven()
    ensures Pow256(7) == 0x100_0000_0000_0000
  {
    assert Pow256(3) == 0x100_0000;
    assert Pow256(5) == 0x100_0000_0000;
  }

  /** A writer: how it works, its buffer and how much of it is written, the records it keeps, the
      open sub-packets, and the whole output once none is open. */
  datatype Writer = Writer(kind: Kind, e: bool, max: nat, data: seq<Byte>, written: nat,
                           subs: seq<Sub>, frames: seq<Frame>, output: seq<Byte>)

  predicate Contents(w: Writer, d: seq<Byte>) {
    w.kind == NoBuffer ||
    if w.frames == [] then Holds(w.e, w.max, d, 0, w.output) else Laid(w.e, w.max, d, w.frames)
  }

  predicate Sound(w: Writer) {
    && w.written <= w.max <= SIZE_MAX
    && (w.kind == Static ==> w.max <= |w.data|)
    && (w.kind == Growing ==> !w.e && w.written <= |w.data|)
    && Recorded(w.subs, w.frames)
    && (w.e ==> forall k :: 0 <= k < |w.frames| ==> w.frames[k].lenbytes == 0)
    && (w.frames != [] ==> w.max <= MaxMaxSize(w.frames[0].lenbytes))
    && w.written == (if w.frames == [] then |w.output| else Total(w.frames))
    && Contents(w, w.data)
  }

  lemma SoundFacts(w: Writer)
    requires Sound(w)
    ensures w.written <= w.max <= SIZE_MAX && |w.subs| == |w.frames|
    ensures w.kind == Static ==> w.max <= |w.data|
    ensures w.kind == Growing ==> !w.e && w.written <= |w.data|
    ensures w.frames != [] ==>
        Top(w.subs).lenbytes == Top(w.frames).lenbytes && Top(w.subs).flags == Top(w.frames).flags
    ensures w.frames != [] ==> Top(w.subs).pwritten + |Top(w.frames).content| == w.written
    ensures w.frames != [] ==> Top(w.subs).pwritten >= Top(w.frames).lenbytes
    ensures w.frames != [] ==>
      Top(w.subs).packetLen == if Top(w.frames).lenbytes > 0 then Top(w.subs).pwritten - Top(w.frames).lenbytes else 0
    ensures w.e && w.frames != [] ==> Top(w.frames).lenbytes == 0
  {
  }

  /** Nothing past `maxsize` is ever written, nor, unless bytes are taken back, any byte of a fixed
      buffer that is not part of what has been written. */
  predicate KeptOutside(w: Writer, w': Writer) {
    w.kind == Static ==>
      && |w'.data| == |w.data|
      && forall p :: 0 <= p < |w.data| && (p >= w.max || (
                       w.written <= w'.written && if w.e then p < w.max - w'.written else p >= w'.written))
           ==> w'.data[p] == w.data[p]
  }

  lemma KeptSame(w: Writer)
    ensures KeptOutside(w, w)
  {
  }

  lemma KeptTwice(w: Writer, w': Writer, w'': Writer)
    requires KeptOutside(w, w') && KeptOutside(w', w'') && w.written <= w'.written <= w''.written
    requires w'.kind == w.kind && w'.e == w.e && w'.max == w.max
    ensures KeptOutside(w, w'')
  {
  }

  /** Nothing past `maxsize` is ever written. */
  predicate KeptPast(w: Writer, w': Writer) {
    w.kind == Static ==> |w'.data| == |w.data| && forall p :: w.max <= p < |w.data| ==> w'.data[p] == w.data[p]
  }

  lemma KeptIsPast(w: Writer, w': Writer)
    requires KeptOutside(w, w')
    ensures KeptPast(w, w')
  {
  }

  lemma KeptPastTwice(w: Writer, w': Writer, w'': Writer)
    requires KeptPast(w, w') && KeptOutside(w', w'') && w'.kind == w.kind && w'.max == w.max
    ensures KeptPast(w, w'')
  {
  }

  /** Opening the outermost sub-packet. */
  lemma SoundOpen(w: Writer, lenbytes: nat)
    requires Sound(w) && w.frames == [] && w.output == [] && lenbytes <= w.max <= MaxMaxSize(lenbytes)
    requires w.kind == Growing ==> lenbytes <= |w.data|
    requires w.e ==> lenbytes == 0
    ensures Sound(w.(subs := [Sub(0, lenbytes, lenbytes, 0)], frames := [Frame(lenbytes, 0, [])], written := lenbytes))
  {
    var fs := [Frame(lenbytes, 0, [])];
    assert Init(fs) == [] && Top(fs) == Frame(lenbytes, 0, []);
    assert Init([Sub(0, lenbytes, lenbytes, 0)]) == [];
  }

  /** Moving to another buffer that starts with the same bytes. */
  lemma SoundMove(w: Writer, d: seq<Byte>)
    requires Sound(w) && SameWritten(w.e, w.max, w.data, d, w.written) && |d| >= |w.data|
    ensures Sound(w.(data := d))
  {
    if w.kind != NoBuffer {
      if w.frames == [] {
        KeepHolds(w.e, w.max, w.data, d, w.written, 0, w.output);
      } else {
        KeepLaid(w.e, w.max, w.data, d, w.frames);
      }
    }
  }

  /** Writing `b` next. */
  lemma SoundAdd(w: Writer, b: seq<Byte>)
    requires Sound(w) && w.frames != [] && w.written + |b| <= w.max
    requires w.kind == Growing ==> w.written + |b| <= |w.data|
    requires w.kind != NoBuffer ==> Holds(w.e, w.max, w.data, w.written, b)
    ensures Sound(w.(frames := Add(w.e, w.frames, b), written := w.written + |b|))
  {
    var w' := w.(frames := Add(w.e, w.frames, b), written := w.written + |b|);
    RecordedAdd(w.e, w.subs, w.frames, b);
    AddParts(w.e, w.frames, b);
    AddOthers(w.e, w.frames, b);
    hide Recorded, Add;
    if w.kind != NoBuffer {
      ItselfWritten(w);
      LaidAdd(w.e, w.max, w.data, w.data, w.frames, b);
    }
  }

  /** Counting the next `len` bytes as written, whatever they are. */
  lemma SoundTake(w: Writer, len: nat) returns (b: seq<Byte>)
    requires Sound(w) && w.frames != [] && w.written + len <= w.max
    requires w.kind == Growing ==> w.written + len <= |w.data|
    ensures |b| == len && Sound(w.(frames := Add(w.e, w.frames, b), written := w.written + len))
  {
    hide Sound, Add, MaxMaxSize, Recorded, Total, Contents, Laid, Bytes;
    var lo := Lo(w.e, w.max, w.written, len);
    SoundFacts(w);
    b := if w.kind == NoBuffer then Bytes(0, len) else w.data[lo..lo + len];
    SoundAdd(w, b);
  }

  lemma AddNothing(e: bool, fs: seq<Frame>, b: seq<Byte>)
    requires fs != [] && b == []
    ensures Add(e, fs, b) == fs
  {
    var c := Top(fs).content;
    assert b + c == c && c + b == c;
    assert fs == Init(fs) + [Top(fs)];
  }

  lemma AddTwice(fs: seq<Frame>, a: seq<Byte>, b: seq<Byte>)
    requires fs != []
    ensures Add(true, Add(true, fs, a), b) == Add(true, fs, b + a)
    ensures Add(false, Add(false, fs, a), b) == Add(false, fs, a + b)
  {
    AddParts(true, fs, a);
    AddParts(false, fs, a);
    Joined(b, a, Top(fs).content);
    Joined(Top(fs).content, a, b);
  }

  /** A length in two steps, backwards. */
  lemma DerLengthSteps(fs: seq<Frame>, n: nat)
    requires fs != [] && n <= SIZE_MAX
    ensures 1 <= Size(n) <= 8 && n < Pow256(Size(n))
    ensures n > 0x7f ==> |DerLength(n)| == Size(n) + 1 && 0x80 + Size(n) < Pow256(1)
    ensures n > 0x7f ==>
      Add(true, Add(true, fs, Bytes(n, Size(n))), Bytes(0x80 + Size(n), 1)) == Add(true, fs, DerLength(n))
    ensures n <= 0x7f ==>
      |DerLength(n)| == Size(n) == 1 && Add(true, fs, Bytes(n, Size(n))) == Add(true, fs, DerLength(n))
  {
    SizeSmall(n);
    hide Add;
    if n > 0x7f {
      OneByte(0x80 + Size(n));
      AddTwice(fs, Bytes(n, Size(n)), [0x80 + Size(n)]);
    } else {
      OneByte(n);
    }
  }

  lemma Joined(a: seq<Byte>, b: seq<Byte>, c: seq<Byte>)
    ensures a + (b + c) == a + b + c
  {
  }

  lemma OneByte(v: nat)
    requires v < 256
    ensures Bytes(v, 1) == [v] && Pow256(1) == 256
  {
    assert Bytes(v / 256, 0) == [];
  }

  lemma SoundFlags(w: Writer, flags: nat)
    requires Sound(w) && w.frames != []
    ensures Sound(w.(subs := Init(w.subs) + [Top(w.subs).(flags := flags)],
                     frames := Init(w.frames) + [Top(w.frames).(flags := flags)]))
  {
    var f := Top(w.frames).(flags := flags);
    hide Recorded, Laid, Total, MaxMaxSize;
    RecordedFlags(w.subs, w.frames, flags);
    SameSize(w.frames, f);
    if w.kind != NoBuffer {
      LaidFlags(w.e, w.max, w.data, w.frames, flags);
    }
  }

  lemma RecordedFlags(subs: seq<Sub>, fs: seq<Frame>, flags: nat)
    requires fs != [] && Recorded(subs, fs)
    ensures |subs| == |fs|
    ensures Recorded(Init(subs) + [Top(subs).(flags := flags)], Init(fs) + [Top(fs).(flags := flags)])
  {
    RecordedPush(Init(subs), Init(fs), Top(subs).(flags := flags), Top(fs).(flags := flags));
  }

  lemma LaidFlags(e: bool, max: nat, d: seq<Byte>, fs: seq<Frame>, flags: nat)
    requires fs != [] && Laid(e, max, d, fs)
    ensures Laid(e, max, d, Init(fs) + [Top(fs).(flags := flags)])
  {
    LaidSnoc(e, max, d, Init(fs), Top(fs).(flags := flags));
  }

  lemma SameSize(fs: seq<Frame>, f: Frame)
    requires fs != [] && f.lenbytes == Top(fs).lenbytes && |f.content| == |Top(fs).content|
    ensures Total(Init(fs) + [f]) == Total(fs)
    ensures forall k :: 0 <= k < |fs| ==> (Init(fs) + [f])[k].lenbytes == fs[k].lenbytes
  {
    assert Init(Init(fs) + [f]) == Init(fs);
  }

  lemma ItselfWritten(w: Writer)
    requires Sound(w) && w.kind != NoBuffer
    ensures SameWritten(w.e, w.max, w.data, w.data, w.written)
  {
  }

  lemma AddOthers(e: bool, fs: seq<Frame>, b: seq<Byte>)
    requires fs != []
    ensures forall k :: 0 <= k < |fs| ==> Add(e, fs, b)[k].lenbytes == fs[k].lenbytes
  {
  }

  /** Overwriting the last bytes. */
  lemma SoundReplace(w: Writer, d: seq<Byte>, b: seq<Byte>)
    requires Sound(w) && w.frames != [] && |b| <= |Top(w.frames).content| && |d| == |w.data|
    requires w.kind != NoBuffer ==> SameWritten(w.e, w.max, w.data, d, Total(w.frames) - |b|)
    requires w.kind != NoBuffer ==> Holds(w.e, w.max, d, Total(w.frames) - |b|, b)
    ensures Sound(w.(data := d, frames := Replace(w.e, w.frames, b)))
  {
    RecordedReplace(w.e, w.subs, w.frames, b);
    ReplaceParts(w.e, w.frames, b);
    assert forall k :: 0 <= k < |w.frames| ==> Replace(w.e, w.frames, b)[k].lenbytes == w.frames[k].lenbytes;
    hide Recorded, Replace;
    if w.kind != NoBuffer {
      LaidReplace(w.e, w.max, w.data, d, w.frames, b);
    }
  }

  /** Writing into the place of the last `|b|` bytes. */
  lemma Overwritten(w: Writer, d: seq<Byte>, b: seq<Byte>)
    requires Sound(w) && w.kind != NoBuffer && w.frames != [] && |b| <= w.written && |d| == |w.data|
    requires var lo := Lo(w.e, w.max, w.written - |b|, |b|);
             forall i :: 0 <= i < |d| ==> d[i] == if lo <= i < lo + |b| then b[i - lo] else w.data[i]
    ensures SameWritten(w.e, w.max, w.data, d, Total(w.frames) - |b|) && Holds(w.e, w.max, d, Total(w.frames) - |b|, b)
  {
    SoundFacts(w);
    assert w.written == Total(w.frames);
    hide Sound, Total;
  }

  /** Opening a sub-packet with room for its length. */
  lemma SoundPush(w: Writer, s: Sub, f: Frame)
    requires Sound(w) && w.frames != [] && f.content == [] && w.written + f.lenbytes <= w.max
    requires w.kind == Growing ==> w.written + f.lenbytes <= |w.data|
    requires w.e ==> f.lenbytes == 0
    requires s == Sub(if f.lenbytes > 0 then w.written else 0, f.lenbytes, w.written + f.lenbytes, f.flags)
    ensures Sound(w.(subs := w.subs + [s], frames := w.frames + [f], written := w.written + f.lenbytes))
  {
    RecordedPush(w.subs, w.frames, s, f);
    if w.kind != NoBuffer {
      ItselfWritten(w);
      LaidPush(w.e, w.max, w.data, w.data, w.frames, f);
    } else {
      assert Init(w.frames + [f]) == w.frames;
    }
  }

  /** Closing a sub-packet without writing a length: an abandoned one, or one that has none. */
  lemma SoundAbandon(w: Writer)
    requires Sound(w) && w.frames != [] && Top(w.frames).content == []
    ensures var n := w.written - Top(w.frames).lenbytes;
            n >= 0 && Sound(w.(subs := Init(w.subs), frames := Init(w.frames), written := n, output := []))
  {
    RecordedInit(w.subs, w.frames);
    hide Recorded;
    if w.kind != NoBuffer {
      LaidInit(w.e, w.max, w.data, w.frames);
    }
  }

  lemma SoundPop(w: Writer)
    requires Sound(w) && w.frames != [] && Top(w.frames).lenbytes == 0
    ensures |w.frames| == 1 ==>
      Sound(w.(subs := Init(w.subs), frames := [], output := Top(w.frames).content))
    ensures |w.frames| >= 2 ==>
      Sound(w.(subs := Init(w.subs), frames := Add(w.e, Init(w.frames), Top(w.frames).content)))
  {
    hide Sound;
    if |w.frames| >= 2 {
      SoundPopInner(w);
    } else {
      SoundPopLast(w);
    }
  }

  lemma SoundPopLast(w: Writer)
    requires Sound(w) && |w.frames| == 1 && Top(w.frames).lenbytes == 0
    ensures Sound(w.(subs := Init(w.subs), frames := [], output := Top(w.frames).content))
  {
    RecordedInit(w.subs, w.frames);
    assert Init(w.frames) == [] && Total(w.frames) == |Top(w.frames).content|;
    if w.kind != NoBuffer {
      LaidInit(w.e, w.max, w.data, w.frames);
    }
  }

  lemma SoundPopInner(w: Writer)
    requires Sound(w) && |w.frames| >= 2 && Top(w.frames).lenbytes == 0
    ensures Sound(w.(subs := Init(w.subs), frames := Add(w.e, Init(w.frames), Top(w.frames).content)))
  {
    hide Recorded, Laid, Total, MaxMaxSize, Add;
    RecordedInit(w.subs, w.frames);
    PopSize(w.e, w.frames);
    RecordedAdd(w.e, Init(w.subs), Init(w.frames), Top(w.frames).content);
    AddOthers(w.e, Init(w.frames), Top(w.frames).content);
    if w.kind != NoBuffer {
      LaidPop(w.e, w.max, w.data, w.frames);
    }
  }

  /** Filling in the length of the innermost sub-packet. */
  lemma SoundFill(w: Writer, d: seq<Byte>, h: seq<Byte>) returns (w': Writer)
    requires Sound(w) && !w.e && w.frames != [] && |d| == |w.data| && w.subs != [] && |h| == Top(w.frames).lenbytes
    requires Top(w.subs).pwritten >= |h|
    requires w.kind != NoBuffer ==>
      var at := Top(w.subs).pwritten - |h|;
      forall p :: 0 <= p < |d| ==> d[p] == if at <= p < at + |h| then h[p - at] else w.data[p]
    ensures Sound(w') && w' == w.(data := d, subs := w'.subs, frames := w'.frames)
    ensures w'.subs == Init(w.subs) + [Sub(0, 0, Top(w.subs).pwritten - |h|, Top(w.frames).flags)]
    ensures w'.frames == Init(w.frames) + [Top(w.frames).(lenbytes := 0, content := h + Top(w.frames).content)]
  {
    hide Sound, Total, Laid, Recorded, Holds;
    HeaderHolds(w, d, h);
    SoundHeader(w, d, h);
    var f := Top(w.frames).(lenbytes := 0, content := h + Top(w.frames).content);
    var s := Sub(0, 0, Top(w.subs).pwritten - |h|, f.flags);
    w' := w.(data := d, subs := Init(w.subs) + [s], frames := Init(w.frames) + [f]);
  }

  lemma InitSnoc<T>(a: seq<T>, x: T)
    ensures Init(a + [x]) == a && Top(a + [x]) == x
  {
  }

  lemma HeaderHolds(w: Writer, d: seq<Byte>, h: seq<Byte>)
    requires Sound(w) && !w.e && w.frames != [] && |d| == |w.data| && w.subs != [] && |h| == Top(w.frames).lenbytes
    requires Top(w.subs).pwritten >= |h|
    requires w.kind != NoBuffer ==>
      var at := Top(w.subs).pwritten - |h|;
      forall p :: 0 <= p < |d| ==> d[p] == if at <= p < at + |h| then h[p - at] else w.data[p]
    ensures Top(w.subs).pwritten - |h| == Total(Init(w.frames))
    ensures w.kind != NoBuffer ==> Holds(false, w.max, d, Total(Init(w.frames)), h)
  {
    HeaderPlace(w);
    hide Sound, Total;
  }

  /** `w'` is `w` with its innermost sub-packet closed, `f` being that sub-packet without the length. */
  predicate Popped(w: Writer, f: Frame, w': Writer) {
    && w.frames != [] && w.subs != [] && |f.content| <= SIZE_MAX && (SizeSmall(|f.content|); true)
    && w' == w.(subs := Init(w.subs),
                frames := if |w.frames| >= 2 then Closed(w.e, Init(w.frames) + [f]) else [],
                output := if |w.frames| >= 2 then w.output else Finished(w.e, f))
  }

  /** Closing after the length has been written in front. */
  lemma SoundPopLength(w: Writer, f: Frame) returns (w': Writer)
    requires Sound(w) && w.frames != [] && Top(w.frames).lenbytes == 0 && !Abandoned(f)
    requires |f.content| <= SIZE_MAX && Size(|f.content|) < 0x80
    requires Top(w.frames).content
      == (if |w.frames| >= 2 || !w.e then Header(w.e, f) else []) + f.content
    ensures Sound(w') && Popped(w, f, w')
    ensures w' == w.(subs := w'.subs, frames := w'.frames, output := w'.output) && w.subs != []
    ensures w'.subs == Init(w.subs)
  {
    hide Sound, Recorded, Total, Laid, Contents, MaxMaxSize;
    SoundPop(w);
    SoundFacts(w);
    assert Init(Init(w.frames) + [f]) == Init(w.frames);
    w' := w.(subs := Init(w.subs),
             frames := if |w.frames| >= 2 then Closed(w.e, Init(w.frames) + [f]) else [],
             output := if |w.frames| >= 2 then w.output else Finished(w.e, f));
  }

  /** When the innermost sub-packet can be closed: it need not be non-empty or it is not empty, and
      its length fits. */
  predicate CanClose(w: Writer)
    requires w.frames != [] && |Top(w.frames).content| <= SIZE_MAX
  {
    var f := Top(w.frames);
    SizeSmall(|f.content|);
    && !(f.content == [] && NonZeroFlag(f.flags))
    && (Abandoned(f)
        || if f.lenbytes > 0 then w.kind == NoBuffer || |f.content| < Pow256(f.lenbytes)
           else w.e && |w.frames| >= 2 ==> |DerLength(|f.content|)| <= w.max - w.written)
  }

  /** The state after closing the innermost sub-packet. */
  predicate IsClosed(w: Writer, w': Writer)
    requires w.frames != [] && |Top(w.frames).content| <= SIZE_MAX
  {
    SizeSmall(|Top(w.frames).content|);
    && w'.subs == (if w.subs == [] then [] else Init(w.subs))
    && if |w.frames| >= 2 then w'.frames == Closed(w.e, w.frames) && w'.output == w.output
       else w'.frames == [] && w'.output == Finished(w.e, Top(w.frames))
  }

  lemma PoppedIsClosed(w: Writer, v: Writer, w': Writer)
    requires w.frames != [] && w.subs != [] && v.frames != [] && v.subs != []
    requires Popped(v, Top(w.frames), w') && v.e == w.e && v.output == w.output
    requires Init(v.frames) == Init(w.frames) && Init(v.subs) == Init(w.subs)
    ensures |Top(w.frames).content| <= SIZE_MAX && IsClosed(w, w')
  {
    assert w.frames == Init(w.frames) + [Top(w.frames)];
  }

  lemma KeptClose(w: Writer, w': Writer)
    requires |w.frames| >= 2 && |Top(w.frames).content| <= SIZE_MAX && IsClosed(w, w') && !Abandoned(Top(w.frames))
    ensures Size(|Top(w.frames).content|) < 0x80
    ensures w'.frames == Add(w.e, Init(w.frames), Header(w.e, Top(w.frames)) + Top(w.frames).content)
  {
    hide Add, Header, Size, Pow256, Sound, Bytes, DerLength;
    SizeSmall(|Top(w.frames).content|);
  }

  lemma InsideCanClose(v: Writer, outer: seq<Frame>, lenbytes: nat, c: seq<Byte>)
    requires outer != [] && v.frames == outer + [Frame(lenbytes, 0, c)] && |c| <= SIZE_MAX && (v.e ==> lenbytes == 0)
    ensures Top(v.frames).content == c
    ensures CanClose(v) <==> if v.e then |DerLength(|c|)| <= v.max - v.written
                             else v.kind != NoBuffer && lenbytes > 0 ==> |c| < Pow256(lenbytes)
  {
    InitSnoc(outer, Frame(lenbytes, 0, c));
    SizeSmall(|c|);
  }

  lemma InsideClosed(v: Writer, outer: seq<Frame>, n: nat, c: seq<Byte>, v': Writer)
    requires Sound(v) && Sound(v') && outer != [] && v.frames == outer + [Frame(n, 0, c)]
    requires |Top(v.frames).content| <= SIZE_MAX && IsClosed(v, v') && v'.e == v.e
    ensures v'.frames == Add(v.e, outer, (if v.e then DerLength(|c|) else Bytes(|c|, n)) + c)
    ensures v'.written == v.written + if v.e then |DerLength(|c|)| else 0
  {
    InitSnoc(outer, Frame(n, 0, c));
    KeptClose(v, v');
    var h := if v.e then DerLength(|c|) else Bytes(|c|, n);
    SoundFacts(v);
    AddParts(v.e, outer, h + c);
    assert Total(v.frames) == Total(outer) + n + |c| && v.written == Total(v.frames);
    assert v'.written == Total(v'.frames);
    hide Sound, IsClosed, Add, DerLength, Bytes;
  }

  lemma FilledFrame(e: bool, outer: seq<Frame>, lenbytes: nat, c: seq<Byte>)
    ensures Add(e, outer + [Frame(lenbytes, 0, [])], c) == outer + [Frame(lenbytes, 0, c)]
    ensures Top(outer + [Frame(lenbytes, 0, c)]) == Frame(lenbytes, 0, c)
  {
    InitSnoc(outer, Frame(lenbytes, 0, []));
    assert c + [] == c && [] + c == c;
  }

  /** The length of the outermost sub-packet always fits. */
  lemma OutermostLength(w: Writer)
    requires Sound(w) && |w.frames| == 1
    ensures Top(w.frames).lenbytes + |Top(w.frames).content| <= SIZE_MAX
    ensures Top(w.frames).lenbytes > 0 ==> |Top(w.frames).content| < Pow256(Top(w.frames).lenbytes)
  {
    var f := w.frames[0];
    assert Init(w.frames) == [];
    assert f.lenbytes + |f.content| <= w.max;
    if f.lenbytes >= 8 {
      PowMonotone(8, f.lenbytes);
      PowEight();
    }
  }

  lemma OutermostFits(w: Writer)
    requires Sound(w) && |w.frames| == 1
    ensures |Top(w.frames).content| <= SIZE_MAX
    ensures CanClose(w) <==> !(Top(w.frames).content == [] && NonZeroFlag(Top(w.frames).flags))
  {
    OutermostLength(w);
  }

  lemma PopSize(e: bool, fs: seq<Frame>)
    requires |fs| >= 2 && Top(fs).lenbytes == 0
    ensures Total(Add(e, Init(fs), Top(fs).content)) == Total(fs)
  {
    AddParts(e, Init(fs), Top(fs).content);
  }

  lemma HeaderPlace(w: Writer)
    requires Sound(w) && !w.e && w.frames != []
    ensures Top(w.subs).pwritten == Total(Init(w.frames)) + Top(w.frames).lenbytes
    ensures Top(w.frames).lenbytes > 0 ==> Top(w.subs).packetLen == Total(Init(w.frames))
    ensures w.kind != NoBuffer ==> Top(w.subs).pwritten <= |w.data|
  {
    assert Total(w.frames) == Total(Init(w.frames)) + Top(w.frames).lenbytes + |Top(w.frames).content|;
  }

  /** Filling in a length. */
  lemma SoundHeader(w: Writer, d: seq<Byte>, h: seq<Byte>)
    requires Sound(w) && !w.e && w.frames != [] && |h| == Top(w.frames).lenbytes && |d| == |w.data|
    requires w.kind != NoBuffer ==> Holds(false, w.max, d, Total(Init(w.frames)), h)
    requires w.kind != NoBuffer ==>
      forall p :: 0 <= p < |d| && !(Total(Init(w.frames)) <= p < Total(Init(w.frames)) + |h|) ==> d[p] == w.data[p]
    ensures var f := Top(w.frames).(lenbytes := 0, content := h + Top(w.frames).content);
            var s := Sub(0, 0, Top(w.subs).pwritten - |h|, f.flags);
            Sound(w.(data := d, subs := Init(w.subs) + [s], frames := Init(w.frames) + [f]))
  {
    var f := Top(w.frames).(lenbytes := 0, content := h + Top(w.frames).content);
    var s := Sub(0, 0, Top(w.subs).pwritten - |h|, f.flags);
    RecordedInit(w.subs, w.frames);
    RecordedPush(Init(w.subs), Init(w.frames), s, f);
    assert Init(Init(w.frames) + [f]) == Init(w.frames);
    if w.kind != NoBuffer {
      LaidInit(w.e, w.max, w.data, w.frames);
      hide Laid, Recorded, Add;
      LaidHeader(w.max, w.data, d, w.frames, h);
    }
  }

  // ---------- How a length fits ----------

  /** Packets are far shorter than 256^127 bytes. */
  lemma SizeSmall(n: nat)
    requires n < 0x1_0000_0000_0000_0000
    ensures 1 <= Size(n) <= 8
  {
    SizeIsLeast(n, 8);
    PowEight();
  }

  lemma PowEight()
    ensures Pow256(8) == 0x1_0000_0000_0000_0000
  {
    PowSeven();
  }
}
