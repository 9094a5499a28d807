/** Packet writers, crypto/packet.c.  The stack of WPACKET_SUB records is a sequence, innermost
    last; its memory is taken to be available. */
module Wpacket {
  import opened BigEndian
  import opened PacketFrames

  const DEFAULT_BUF_SIZE: nat := 256

  /** The new length of a buffer of `length` bytes that must take `len` more. */
  function Grown(length: nat, len: nat): nat {
    var reflen := if len > length then len else length;
    if reflen > SIZE_MAX / 2 then SIZE_MAX
    else if reflen * 2 < DEFAULT_BUF_SIZE then DEFAULT_BUF_SIZE
    else reflen * 2
  }

  /** The length of a growing buffer once there is room for `len` more bytes after the first
      `written`; no room is made for none. */
  function NewLength(length: nat, written: nat, len: nat): nat {
    if len > 0 && length - written < len then Grown(length, len) else length
  }

  lemma LengthGrows(length: nat, written: nat, len: nat)
    requires length <= SIZE_MAX && written + len <= SIZE_MAX
    ensures length <= NewLength(length, written, len) <= SIZE_MAX
    ensures NewLength(length, written, len) == length <==> len == 0 || length - written >= len
  {
  }

  /** Memory suffices for a buffer of length `length` to become one of length `length'`. */
  predicate Within(limit: nat, length: nat, length': nat) {
    length' <= limit || length' == length
  }

  /** A pointer into the buffer, or NULL. */
  datatype Pointer = Null | At(index: nat)

  /** `put_value`: the low bytes of a value, most significant first; whether that was all of it. */
  method PutValue(data: array<Byte>, p: Pointer, value: nat, size: nat) returns (ok: bool)
    requires p.At? ==> p.index + size <= data.Length
    modifies data
    ensures ok == (p.Null? || value < Pow256(size))
    ensures forall i :: 0 <= i < data.Length ==>
      data[i] == if p.At? && p.index <= i < p.index + size then Bytes(value, size)[i - p.index] else old(data[i])
  {
    if p.Null? {
      return true;
    }
    var len: nat, v: nat := size, value;
    ghost var all := Bytes(value, size);
    assert all[..size] == all;
    while len > 0
      invariant 0 <= len <= size && all[..len] == Bytes(v, len)
      invariant value < Pow256(size) <==> v < Pow256(len)
      invariant forall i :: 0 <= i < data.Length ==>
        data[i] == if p.index + len <= i < p.index + size then all[i - p.index] else old(data[i])
    {
      assert all[..len - 1] == all[..len][..len - 1] == Bytes(v / 256, len - 1);
      assert all[len - 1] == all[..len][len - 1] == v % 256;
      data[p.index + len - 1] := v % 256;
      v := v / 256;
      len := len - 1;
    }
    return v == 0;
  }

  /** The loop of `wpacket_intern_close` that counts the bytes of a length. */
  method CountBytes(packlen: nat) returns (numlenbytes: nat)
    ensures numlenbytes == Size(packlen)
  {
    var tmplen := packlen / 256;
    numlenbytes := 1;
    while tmplen > 0
      invariant Size(packlen) == if tmplen > 0 then numlenbytes + Size(tmplen) else numlenbytes
    {
      tmplen := tmplen / 256;
      numlenbytes := numlenbytes + 1;
    }
  }

  class Wpacket {
    const kind: Kind
    const endfirst: bool
    const maxsize: nat
    /** How far a growing buffer can grow before memory runs out. */
    const limit: nat
    var data: array<Byte>
    var written: nat
    var curr: nat
    var subs: seq<Sub>

    /** The open sub-packets, outermost first, and the whole output once none is open. */
    ghost var frames: seq<Frame>
    ghost var output: seq<Byte>

    ghost function View(): Writer
      reads this, data
    {
      Writer(kind, endfirst, maxsize, data[..], written, subs, frames, output)
    }

    ghost predicate Valid()
      reads this, data
    {
      curr == written && data.Length <= SIZE_MAX && Sound(View())
    }

    /** Whether `len` more bytes can be written. */
    ghost predicate Room(len: nat)
      reads this, data
    {
      && 0 < len <= maxsize - written
      && (kind == Growing && data.Length - written < len ==> Grown(data.Length, len) <= limit)
    }

    /** There is room if the packet may take it and memory suffices. */
    lemma RoomIs(len: nat)
      requires Valid()
      ensures Room(len) <==>
        && 0 < len <= maxsize - written
        && (kind == Growing ==> Within(limit, data.Length, NewLength(data.Length, written, len)))
    {
      SoundFacts(View());
      hide Sound;
      if 0 < len <= maxsize - written {
        LengthGrows(data.Length, written, len);
      }
    }

    /** `WPACKET_init_static_len`. */
    constructor InitStaticLen(buf: array<Byte>, lenbytes: nat)
      requires buf.Length <= SIZE_MAX && lenbytes <= SIZE_MAX
      ensures Valid() && kind == Static && !endfirst && data == buf && output == []
      ensures maxsize == if MaxMaxSize(lenbytes) < buf.Length then MaxMaxSize(lenbytes) else buf.Length
      ensures frames == if buf.Length > 0 && lenbytes <= maxsize then [Frame(lenbytes, 0, [])] else []
      ensures written == if frames == [] then 0 else lenbytes
    {
      kind, endfirst, data, limit := Static, false, buf, 0;
      maxsize := if MaxMaxSize(lenbytes) < buf.Length then MaxMaxSize(lenbytes) else buf.Length;
      written, curr, subs, frames, output := 0, 0, [], [], [];
      new;
      if data.Length > 0 {
        InternInitLen(lenbytes);
      }
    }

    /** `WPACKET_init_der`. */
    constructor InitDer(buf: array<Byte>)
      requires buf.Length <= SIZE_MAX
      ensures Valid() && kind == Static && endfirst && data == buf && maxsize == buf.Length && output == []
      ensures frames == (if buf.Length > 0 then [Frame(0, 0, [])] else []) && written == 0
    {
      kind, endfirst, maxsize, data, limit := Static, true, buf.Length, buf, 0;
      written, curr, subs, frames, output := 0, 0, [], [], [];
      new;
      if data.Length > 0 {
        InternInitLen(0);
      }
    }

    /** `WPACKET_init_len`, and with no length bytes `WPACKET_init`. */
    constructor InitLen(buf: array<Byte>, lenbytes: nat, available: nat)
      requires buf.Length <= SIZE_MAX && lenbytes <= SIZE_MAX
      ensures Valid() && kind == Growing && !endfirst && maxsize == MaxMaxSize(lenbytes) && limit == available
      ensures (data == buf || fresh(data)) && output == []
      ensures frames ==
              if lenbytes == 0
                 || (lenbytes <= maxsize && (buf.Length < lenbytes ==> Grown(buf.Length, lenbytes) <= available))
                        then [Frame(lenbytes, 0, [])] else []
      ensures written == if frames == [] then 0 else lenbytes
      ensures frames != [] ==> data.Length == NewLength(buf.Length, 0, lenbytes)
    {
      kind, endfirst, maxsize, data, limit := Growing, false, MaxMaxSize(lenbytes), buf, available;
      written, curr, subs, frames, output := 0, 0, [], [], [];
      new;
      InternInitLen(lenbytes);
    }

    /** `WPACKET_init_null`. */
    constructor InitNull(lenbytes: nat)
      ensures Valid() && kind == NoBuffer && !endfirst && maxsize == MaxMaxSize(lenbytes) && fresh(data)
      ensures frames == [Frame(0, 0, [])] && output == [] && written == 0
    {
      kind, endfirst, maxsize, data, limit := NoBuffer, false, MaxMaxSize(lenbytes), new Byte[0], 0;
      written, curr, subs, frames, output := 0, 0, [], [], [];
      new;
      InternInitLen(0);
    }

    /** `WPACKET_init_null_der`. */
    constructor InitNullDer()
      ensures Valid() && kind == NoBuffer && endfirst && maxsize == SIZE_MAX && fresh(data)
      ensures frames == [Frame(0, 0, [])] && output == [] && written == 0
    {
      kind, endfirst, maxsize, data, limit := NoBuffer, true, SIZE_MAX, new Byte[0], 0;
      written, curr, subs, frames, output := 0, 0, [], [], [];
      new;
      InternInitLen(0);
    }

    /** `wpacket_intern_init_len`: room for the length of the outermost sub-packet. */
    method InternInitLen(lenbytes: nat)
      requires Valid() && frames == [] && written == 0 && output == [] && (endfirst ==> lenbytes == 0)
      requires lenbytes <= SIZE_MAX && maxsize <= MaxMaxSize(lenbytes)
      modifies this`data, this`written, this`curr, this`subs, this`frames
      ensures Valid() && (data == old(data) || (kind == Growing && fresh(data)))
      ensures lenbytes == 0 || old(Room(lenbytes)) ==> frames == [Frame(lenbytes, 0, [])]
      ensures written == if frames == [] then 0 else lenbytes
      ensures frames != [] && kind == Growing ==> data.Length == NewLength(old(data.Length), 0, lenbytes)
      ensures !(lenbytes == 0 || old(Room(lenbytes))) ==> frames == []
    {
      SoundOpen(View(), 0);
      hide Sound;
      subs := [Sub(0, 0, 0, 0)];
      frames := [Frame(0, 0, [])];
      if lenbytes == 0 {
        return;
      }
      var ok, p := ReserveBytes(lenbytes);
      ghost var w := View().(subs := [], frames := []);
      SoundClose(View());
      if !ok {
        subs, frames := [], [];
        assert View() == w;
        return;
      }
      SoundOpen(w, lenbytes);
      subs := [Sub(0, lenbytes, lenbytes, 0)];
      frames := [Frame(lenbytes, 0, [])];
      written := written + lenbytes;
      curr := curr + lenbytes;
      assert View() == w.(subs := subs, frames := frames, written := lenbytes);
    }

    lemma SoundClose(w: Writer)
      requires Sound(w) && w.frames == [Frame(0, 0, [])] && w.output == []
      ensures Sound(w.(subs := [], frames := []))
    {
      assert Init(w.frames) == [];
    }

    /** `BUF_MEM_grow`. */
    method Grow(newlen: nat) returns (ok: bool)
      requires Valid() && kind == Growing && data.Length <= newlen <= SIZE_MAX
      modifies this`data
      ensures Valid() && ok == (newlen <= limit)
      ensures if ok then fresh(data) && data.Length == newlen else data == old(data)
    {
      if newlen > limit {
        return false;
      }
      ghost var w := View();
      var grown := new Byte[newlen](_ => 0);
      forall i | 0 <= i < data.Length {
        grown[i] := data[i];
      }
      SoundMove(w, grown[..]);
      data := grown;
      assert View() == w.(data := grown[..]);
      return true;
    }

    /** `WPACKET_reserve_bytes`. */
    method ReserveBytes(len: nat) returns (ok: bool, p: Pointer)
      requires Valid() && len <= SIZE_MAX
      modifies this`data
      ensures Valid() && ok == (subs != [] && old(Room(len)))
      ensures data == old(data) || (kind == Growing && fresh(data))
      ensures ok && kind == Growing ==> data.Length == NewLength(old(data.Length), written, len)
      ensures ok ==> 0 < len <= maxsize - written && (kind == Growing ==> written + len <= data.Length)
      ensures ok ==> p == if kind == NoBuffer then Null else At(Lo(endfirst, maxsize, written, len))
      ensures ok && kind == Static ==> p.index + len <= data.Length
    {
      ok, p := false, Null;
      SoundFacts(View());
      hide Sound;
      if subs == [] || len == 0 {
        return;
      }
      if maxsize - written < len {
        return;
      }
      if kind == Growing && data.Length - written < len {
        var grown := Grow(Grown(data.Length, len));
        if !grown {
          return;
        }
      }
      ok := true;
      if kind != NoBuffer {
        p := At(if endfirst then maxsize - curr - len else curr);
      }
    }

    /** `WPACKET_allocate_bytes`: the bytes count as written, whatever they are. */
    method AllocateBytes(len: nat) returns (ok: bool, p: Pointer, ghost b: seq<Byte>)
      requires Valid() && len <= SIZE_MAX
      modifies this`data, this`written, this`curr, this`frames
      ensures Valid() && ok == (subs != [] && old(Room(len))) && (ok ==> old(frames) != [])
      ensures data == old(data) || (kind == Growing && fresh(data))
      ensures ok && kind == Growing ==> data.Length == NewLength(old(data.Length), old(written), len)
      ensures ok ==> |b| == len && frames == Add(endfirst, old(frames), b) && written == old(written) + len
      ensures ok ==> p == if kind == NoBuffer then Null else At(Lo(endfirst, maxsize, old(written), len))
      ensures ok && kind != NoBuffer ==> p.index + len <= data.Length
      ensures !ok ==> frames == old(frames) && written == old(written)
      ensures KeptOutside(old(View()), View())
    {
      hide Sound, Add, Grown;
      b := [];
      ok, p := ReserveBytes(len);
      SoundFacts(View());
      if ok {
        b := Take(len);
      }
    }

    method Take(len: nat) returns (ghost b: seq<Byte>)
      requires Valid() && frames != [] && len <= maxsize - written
      requires kind == Growing ==> written + len <= data.Length
      modifies this`written, this`curr, this`frames
      ensures Valid() && |b| == len && frames == Add(endfirst, old(frames), b) && written == old(written) + len
    {
      ghost var w := View();
      b := SoundTake(w, len);
      hide Sound, Add;
      frames := Add(endfirst, frames, b);
      written := written + len;
      curr := curr + len;
      assert View() == w.(frames := frames, written := written);
    }

    /** The last `|b|` bytes written become `b`. */
    ghost method Overwrite(w: Writer, b: seq<Byte>)
      requires curr == written && data.Length <= SIZE_MAX
      requires View() == w.(data := data[..]) && Sound(w) && frames != []
      requires |b| <= |Top(frames).content| && |data[..]| == |w.data|
      requires kind != NoBuffer ==>
        var lo := Lo(endfirst, maxsize, written - |b|, |b|);
        forall i :: 0 <= i < data.Length ==> data[i] == if lo <= i < lo + |b| then b[i - lo] else w.data[i]
      modifies this`frames
      ensures Valid() && frames == Replace(endfirst, old(frames), b)
    {
      if kind != NoBuffer {
        Overwritten(w, data[..], b);
      }
      SoundReplace(w, data[..], b);
      hide Sound, Replace;
      frames := Replace(endfirst, frames, b);
      assert View() == w.(data := data[..], frames := frames);
    }

    /** `memcpy` to the last bytes written, or nothing for NULL. */
    method WriteAt(p: Pointer, b: seq<Byte>)
      requires Valid() && frames != [] && |b| <= |Top(frames).content|
      requires p == if kind == NoBuffer then Null else At(Lo(endfirst, maxsize, written - |b|, |b|))
      modifies data, this`frames
      ensures Valid() && frames == Replace(endfirst, old(frames), b) && KeptOutside(old(View()), View())
    {
      ghost var w := View();
      SoundFacts(w);
      hide Sound, Replace;
      if p.At? {
        forall i | 0 <= i < |b| {
          data[p.index + i] := b[i];
        }
      }
      Overwrite(w, b);
    }

    /** `put_value` to the last bytes written, or nothing for NULL. */
    method StoreValue(p: Pointer, val: nat, size: nat) returns (ok: bool)
      requires Valid() && frames != [] && size <= |Top(frames).content|
      requires p == if kind == NoBuffer then Null else At(Lo(endfirst, maxsize, written - size, size))
      modifies data, this`frames
      ensures Valid() && frames == Replace(endfirst, old(frames), Bytes(val, size)) && KeptOutside(old(View()), View())
      ensures ok == (p.Null? || val < Pow256(size))
    {
      ghost var w := View();
      SoundFacts(w);
      hide Sound, Replace;
      ok := PutValue(data, p, val, size);
      Overwrite(w, Bytes(val, size));
    }

    /** `WPACKET_put_bytes__`. */
    method PutBytes(val: nat, size: nat) returns (ok: bool)
      requires Valid()
      modifies this`data, this`written, this`curr, this`frames, data
      ensures Valid() && (data == old(data) || (kind == Growing && fresh(data)))
      ensures ok == (size <= 8 && subs != [] && old(Room(size)) && (kind == NoBuffer || val < Pow256(size)))
      ensures ok ==> old(frames) != [] && frames == Add(endfirst, old(frames), Bytes(val, size))
      ensures ok ==> written == old(written) + size
      ensures KeptOutside(old(View()), View()) && |frames| == |old(frames)| && written >= old(written)
    {
      hide Sound, Replace, Add, Grown, Bytes, KeptOutside, Lo, Room, Total;
      KeptSame(View());
      if size > 8 {
        return false;
      }
      var given, p, b := AllocateBytes(size);
      if !given {
        return false;
      }
      ghost var w := View();
      AddParts(endfirst, old(frames), b);
      ok := StoreValue(p, val, size);
      KeptTwice(old(View()), w, View());
      ReplaceAdded(endfirst, old(frames), b, Bytes(val, size));
      AddParts(endfirst, old(frames), Bytes(val, size));
    }

    /** `WPACKET_memcpy`. */
    method Memcpy(src: seq<Byte>) returns (ok: bool)
      requires Valid() && |src| <= SIZE_MAX
      modifies this`data, this`written, this`curr, this`frames, data
      ensures Valid() && (data == old(data) || (kind == Growing && fresh(data)))
      ensures ok == (src == [] || (subs != [] && old(Room(|src|))))
      ensures ok && kind == Growing ==> data.Length == NewLength(old(data.Length), old(written), |src|)
      ensures ok && old(frames) != [] ==> frames == Add(endfirst, old(frames), src)
      ensures ok ==> written == old(written) + |src|
      ensures KeptOutside(old(View()), View()) && old(written) <= written
    {
      hide Sound, Replace, Grown;
      if |src| == 0 {
        if frames != [] {
          AddNothing(endfirst, frames, src);
        }
        return true;
      }
      hide Add, KeptOutside;
      var given, p, b := AllocateBytes(|src|);
      if !given {
        return false;
      }
      ghost var w := View();
      AddParts(endfirst, old(frames), b);
      WriteAt(p, src);
      KeptTwice(old(View()), w, View());
      ReplaceAdded(endfirst, old(frames), b, src);
      return true;
    }

    /** `WPACKET_memset`. */
    method Memset(ch: Byte, len: nat) returns (ok: bool)
      requires Valid() && len <= SIZE_MAX
      modifies this`data, this`written, this`curr, this`frames, data
      ensures Valid() && (data == old(data) || (kind == Growing && fresh(data)))
      ensures ok == (len == 0 || (subs != [] && old(Room(len))))
      ensures ok && old(frames) != [] ==> frames == Add(endfirst, old(frames), seq(len, _ => ch))
      ensures ok ==> written == old(written) + len
      ensures KeptOutside(old(View()), View())
    {
      ok := Memcpy(seq(len, _ => ch));
    }

    /** `WPACKET_start_sub_packet_len__`; `recorded` says whether the record can be allocated.  After a
        failure the writer can only be cleaned up. */
    method StartSubPacketLen(lenbytes: nat, recorded: bool := true) returns (ok: bool)
      requires Valid() && lenbytes <= SIZE_MAX
      modifies this`data, this`written, this`curr, this`frames, this`subs
      ensures data == old(data) || (kind == Growing && fresh(data))
      ensures ok == (old(subs) != [] && !(lenbytes > 0 && endfirst) && recorded
                     && (lenbytes == 0 || old(Room(lenbytes))))
      ensures ok && kind == Growing ==> data.Length == NewLength(old(data.Length), old(written), lenbytes)
      ensures ok ==> Valid() && frames == old(frames) + [Frame(lenbytes, 0, [])] && written == old(written) + lenbytes
      ensures KeptOutside(old(View()), View()) && old(written) <= written
    {
      hide Sound, Grown;
      if subs == [] {
        return false;
      }
      if lenbytes > 0 && endfirst {
        return false;
      }
      if !recorded {
        return false;
      }
      SoundFacts(View());
      ok := true;
      if lenbytes > 0 {
        var p;
        ok, p := ReserveBytes(lenbytes);
        SoundFacts(View());
      }
      var sub := Sub(if lenbytes == 0 then 0 else written, lenbytes, written + lenbytes, 0);
      if !ok {
        subs := subs + [sub];
        return;
      }
      Push(sub);
    }

    method Push(sub: Sub)
      requires Valid() && frames != [] && written + sub.lenbytes <= maxsize && (endfirst ==> sub.lenbytes == 0)
      requires kind == Growing ==> written + sub.lenbytes <= data.Length
      requires sub == Sub(if sub.lenbytes > 0 then written else 0, sub.lenbytes, written + sub.lenbytes, 0)
      modifies this`written, this`curr, this`frames, this`subs
      ensures Valid() && frames == old(frames) + [Frame(sub.lenbytes, 0, [])] && subs != []
      ensures written == old(written) + sub.lenbytes
    {
      ghost var w := View();
      SoundPush(w, sub, Frame(sub.lenbytes, 0, []));
      hide Sound;
      frames := frames + [Frame(sub.lenbytes, 0, [])];
      subs := subs + [sub];
      written := written + sub.lenbytes;
      curr := curr + sub.lenbytes;
      assert View() == w.(frames := frames, subs := subs, written := written);
    }

    /** `WPACKET_set_flags`. */
    method SetFlags(flags: nat) returns (ok: bool)
      requires Valid()
      modifies this`subs, this`frames
      ensures Valid() && ok == (old(subs) != [])
      ensures frames ==
              if ok && old(frames) != [] then Init(old(frames)) + [Top(old(frames)).(flags := flags)] else old(frames)
    {
      SoundFacts(View());
      hide Sound;
      if subs == [] {
        return false;
      }
      ghost var w := View();
      SoundFlags(w, flags);
      subs := Init(subs) + [Top(subs).(flags := flags)];
      frames := Init(frames) + [Top(frames).(flags := flags)];
      assert View() == w.(subs := subs, frames := frames);
      return true;
    }

    /** `WPACKET_get_length`. */
    method GetLength() returns (ok: bool, len: nat)
      requires Valid()
      ensures ok == (subs != []) && (ok ==> frames != [] && len == |Top(frames).content|)
    {
      SoundFacts(View());
      hide Sound;
      if subs == [] {
        return false, 0;
      }
      return true, written - Top(subs).pwritten;
    }

    /** The DER length octets of the innermost sub-packet, in front of its contents. */
    method PutDerLength(packlen: nat) returns (ok: bool)
      requires Valid() && endfirst && frames != [] && packlen <= SIZE_MAX
      modifies this`data, this`written, this`curr, this`frames, data
      ensures Valid() && data == old(data) && Size(packlen) <= 8
      ensures ok == (|DerLength(packlen)| <= maxsize - old(written))
      ensures ok ==> frames == Add(true, old(frames), DerLength(packlen))
      ensures ok ==> written == old(written) + |DerLength(packlen)|
      ensures KeptOutside(old(View()), View()) && old(written) <= written
    {
      hide Sound, Add, Bytes, Grown, Pow256, Size, DerLength, KeptOutside, MaxMaxSize, Recorded, Total, Contents, Laid;
      DerLengthSteps(frames, packlen);
      SoundFacts(View());
      var numlenbytes := CountBytes(packlen);
      ok := PutBackward(packlen, numlenbytes);
      if ok && packlen > 0x7f {
        ghost var w := View();
        ok := PutBackward(0x80 + numlenbytes, 1);
        KeptTwice(old(View()), w, View());
      }
    }

    /** `WPACKET_put_bytes__` into a buffer of fixed size, or none. */
    method PutBackward(val: nat, size: nat) returns (ok: bool)
      requires Valid() && endfirst && frames != [] && 1 <= size <= 8 && val < Pow256(size)
      modifies this`data, this`written, this`curr, this`frames, data
      ensures Valid() && data == old(data) && frames != []
      ensures ok == (size <= maxsize - old(written))
      ensures ok ==> frames == Add(true, old(frames), Bytes(val, size)) && written == old(written) + size
      ensures KeptOutside(old(View()), View()) && old(written) <= written <= maxsize
    {
      SoundFacts(View());
      hide Sound, Bytes, Grown, Pow256, KeptOutside;
      ok := PutBytes(val, size);
      SoundFacts(View());
    }

    method Pop(ghost f: Frame)
      requires Valid() && frames != [] && Top(frames).lenbytes == 0 && !Abandoned(f)
      requires |f.content| <= SIZE_MAX && Size(|f.content|) < 0x80
      requires Top(frames).content == (if |frames| >= 2 || !endfirst then Header(endfirst, f) else []) + f.content
      modifies this`subs, this`frames, this`output
      ensures Valid() && Popped(old(View()), f, View())
    {
      hide Sound, Header, Closed, Finished, Popped;
      ghost var w := View();
      ghost var w' := SoundPopLength(w, f);
      subs := Init(subs);
      frames, output := w'.frames, w'.output;
      assert View() == w';
    }

    /** Taking back the bytes kept for the length. */
    method CloseAbandoned()
      requires Valid() && frames != [] && Abandoned(Top(frames))
      modifies this`written, this`curr, this`subs, this`frames, this`output
      ensures Valid() && written <= old(written) && IsClosed(old(View()), View())
    {
      ghost var w := View();
      SoundFacts(w);
      SoundAbandon(w);
      hide Sound;
      var sub := Top(subs);
      if curr - sub.lenbytes == sub.packetLen {
        written := written - sub.lenbytes;
        curr := curr - sub.lenbytes;
      }
      subs := Init(subs);
      frames := Init(frames);
      if frames == [] {
        output := [];
      }
      assert View() == w.(subs := subs, frames := frames, written := written, output := output);
    }

    /** Filling in the bytes kept for the length. */
    method CloseForward() returns (ok: bool)
      requires Valid() && frames != [] && Top(frames).lenbytes > 0 && !Abandoned(Top(frames))
      modifies this`subs, this`frames, this`output, data
      ensures |Top(old(frames)).content| <= SIZE_MAX
      ensures ok == (kind == NoBuffer || |Top(old(frames)).content| < Pow256(Top(old(frames)).lenbytes))
      ensures ok ==> Valid() && IsClosed(old(View()), View())
      ensures KeptOutside(old(View()), View())
    {
      ghost var w := View();
      SoundFacts(w);
      ghost var f := Top(frames);
      SizeSmall(|f.content|);
      hide Sound, Bytes, Closed, Finished, Popped, Init, IsClosed;
      ok := FillLength();
      if !ok {
        return;
      }
      ghost var v := View();
      Pop(f);
      PoppedIsClosed(w, v, View());
    }

    method FillLength() returns (ok: bool)
      requires Valid() && frames != [] && Top(frames).lenbytes > 0
      modifies this`subs, this`frames, data
      ensures |Top(old(frames)).content| <= SIZE_MAX && (SizeSmall(|Top(old(frames)).content|); true)
      ensures ok == (kind == NoBuffer || |Top(old(frames)).content| < Pow256(Top(old(frames)).lenbytes))
      ensures ok ==> Valid() && frames != [] && subs != [] && old(subs) != [] && |frames| == |old(frames)|
      ensures ok ==> Init(frames) == Init(old(frames)) && Init(subs) == Init(old(subs)) && Top(frames).lenbytes == 0
      ensures ok ==> Top(frames).content == Header(false, Top(old(frames))) + Top(old(frames)).content
      ensures !endfirst && KeptOutside(old(View()), View())
    {
      hide Sound, MaxMaxSize, Recorded, Total, Contents, Laid;
      ghost var w := View();
      SoundFacts(w);
      var sub := Top(subs);
      var packlen := written - sub.pwritten;
      SizeSmall(packlen);
      assert Header(false, Top(frames)) == Bytes(packlen, sub.lenbytes);
      assert |Bytes(packlen, sub.lenbytes)| == sub.lenbytes;
      hide Sound, Bytes, Total, Header, Size, Pow256;
      ok := PutValue(data, if kind == NoBuffer then Null else At(sub.packetLen), packlen, sub.lenbytes);
      if !ok {
        return;
      }
      ghost var w' := SoundFill(w, data[..], Bytes(packlen, sub.lenbytes));
      InitSnoc(Init(frames), Top(w'.frames));
      InitSnoc(Init(subs), Top(w'.subs));
      subs := Init(subs) + [Sub(0, 0, sub.pwritten - sub.lenbytes, sub.flags)];
      frames := w'.frames;
      assert View() == w';
    }

    /** Writing the length in front. */
    method CloseBackward() returns (ok: bool)
      requires Valid() && endfirst && |frames| >= 2 && !Abandoned(Top(frames))
      modifies this`data, this`written, this`curr, this`subs, this`frames, this`output, data
      ensures |Top(old(frames)).content| <= SIZE_MAX && Size(|Top(old(frames)).content|) <= 8
      ensures ok == (|DerLength(|Top(old(frames)).content|)| <= maxsize - old(written))
      ensures ok ==> Valid() && IsClosed(old(View()), View())
      ensures old(written) <= written
      ensures data == old(data) && KeptOutside(old(View()), View())
    {
      ghost var w := View();
      ghost var f := Top(frames);
      SoundFacts(View());
      hide Sound, DerLength, Closed, Finished, Popped, Init, IsClosed;
      ok := PutDerLength(written - Top(subs).pwritten);
      if !ok {
        return;
      }
      SoundFacts(View());
      AddParts(true, old(frames), DerLength(|f.content|));
      ghost var v := View();
      Pop(f);
      PoppedIsClosed(w, v, View());
    }

    /** There is no length to write. */
    method ClosePlain()
      requires Valid() && frames != [] && Top(frames).lenbytes == 0 && (endfirst ==> |frames| == 1)
      requires !Abandoned(Top(frames))
      modifies this`subs, this`frames, this`output
      ensures |Top(old(frames)).content| <= SIZE_MAX
      ensures Valid() && IsClosed(old(View()), View())
    {
      ghost var w := View();
      SoundFacts(w);
      SizeSmall(|Top(frames).content|);
      hide Sound, IsClosed, Popped;
      Pop(Top(frames));
      PoppedIsClosed(w, w, View());
    }

    /** `wpacket_intern_close`, closing. */
    method InternClose() returns (ok: bool)
      requires Valid() && frames != []
      modifies this`data, this`written, this`curr, this`frames, this`subs, this`output, data
      ensures |Top(old(frames)).content| <= SIZE_MAX
      ensures ok == CanClose(old(View()))
      ensures ok ==> Valid() && IsClosed(old(View()), View())
      ensures data == old(data) && KeptOutside(old(View()), View())
      ensures (!ok || !Abandoned(Top(old(frames))) ==> old(written) <= written)
    {
      SoundFacts(View());
      SizeSmall(|Top(frames).content|);
      hide Sound, IsClosed, DerLength, Size, Pow256;
      var sub := Top(subs);
      var packlen := written - sub.pwritten;
      if packlen == 0 && NonZeroFlag(sub.flags) {
        return false;
      }
      if packlen == 0 && AbandonFlag(sub.flags) {
        CloseAbandoned();
        return true;
      }
      if sub.lenbytes > 0 {
        ok := CloseForward();
      } else if endfirst && |subs| >= 2 {
        ok := CloseBackward();
      } else {
        ok := true;
        ClosePlain();
      }
    }

    /** `WPACKET_close`. */
    method Close() returns (ok: bool)
      requires Valid()
      modifies this`data, this`written, this`curr, this`frames, this`subs, this`output, data
      ensures |old(frames)| >= 2 ==> |Top(old(frames)).content| <= SIZE_MAX
      ensures ok == (|old(frames)| >= 2 && CanClose(old(View())))
      ensures ok ==> Valid() && IsClosed(old(View()), View())
      ensures data == old(data) && KeptOutside(old(View()), View())
      ensures !ok || !Abandoned(Top(old(frames))) ==> old(written) <= written
    {
      SoundFacts(View());
      hide Sound, CanClose, IsClosed;
      if |subs| < 2 {
        return false;
      }
      ok := InternClose();
    }

    /** `WPACKET_finish`: the length of the outermost sub-packet always fits. */
    method Finish() returns (ok: bool)
      requires Valid()
      modifies this`data, this`written, this`curr, this`frames, this`subs, this`output, data
      ensures ok == (|old(frames)| == 1 && !(Top(old(frames)).content == [] && NonZeroFlag(Top(old(frames)).flags)))
      ensures ok ==> Valid() && frames == [] && output == Finished(endfirst, Top(old(frames)))
      ensures ok ==> written == |output| && (kind != NoBuffer ==> Holds(endfirst, maxsize, data[..], 0, output))
      ensures data == old(data) && KeptOutside(old(View()), View())
      ensures !ok || !Abandoned(Top(old(frames))) ==> old(written) <= written
    {
      SoundFacts(View());
      if |subs| != 1 {
        return false;
      }
      OutermostFits(View());
      ok := FinishOutermost();
    }

    method FinishOutermost() returns (ok: bool)
      requires Valid() && |frames| == 1 && |Top(frames).content| <= SIZE_MAX
      modifies this`data, this`written, this`curr, this`frames, this`subs, this`output, data
      ensures ok == CanClose(old(View()))
      ensures ok ==> Valid() && frames == [] && output == Finished(endfirst, Top(old(frames)))
      ensures ok ==> written == |output| && (kind != NoBuffer ==> Holds(endfirst, maxsize, data[..], 0, output))
      ensures data == old(data) && KeptOutside(old(View()), View())
      ensures !ok || !Abandoned(Top(old(frames))) ==> old(written) <= written
    {
      hide CanClose, Finished;
      ok := InternClose();
    }

    /** `WPACKET_close` of a sub-packet without flags that holds `c`. */
    method CloseFilled(n: nat, ghost outer: seq<Frame>, ghost c: seq<Byte>) returns (ok: bool)
      requires Valid() && outer != [] && frames == outer + [Frame(n, 0, c)] && (endfirst ==> n == 0)
      modifies this`data, this`written, this`curr, this`frames, this`subs, this`output, data
      ensures data == old(data)
      ensures ok == if endfirst then |DerLength(|c|)| <= maxsize - old(written)
                    else kind != NoBuffer && n > 0 ==> |c| < Pow256(n)
      ensures ok ==> Valid()
      ensures ok ==> frames == Add(endfirst, outer, (if endfirst then DerLength(|c|) else Bytes(|c|, n)) + c)
      ensures ok ==> written == old(written) + if endfirst then |DerLength(|c|)| else 0
      ensures KeptOutside(old(View()), View()) && old(written) <= written
    {
      ghost var v := View();
      SoundFacts(v);
      InitSnoc(outer, Frame(n, 0, c));
      InsideCanClose(v, outer, n, c);
      hide Sound, IsClosed, KeptOutside, Add, DerLength, CanClose, Size, Pow256;
      ok := Close();
      if ok {
        InsideClosed(v, outer, n, c, View());
      }
    }

    /** The room a sub-packet takes. */
    ghost function SubSize(n: nat, lenbytes: nat): nat {
      n + if endfirst then |DerLength(n)| else lenbytes
    }

    /** The length of a growing buffer after a sub-packet of `n` bytes. */
    static function SubLength(length: nat, written: nat, n: nat, lenbytes: nat): nat {
      NewLength(NewLength(length, written, lenbytes), written + lenbytes, n)
    }

    lemma SubGrows(n: nat, lenbytes: nat)
      requires Valid()
      ensures lenbytes == 0 ==> NewLength(data.Length, written, lenbytes) == data.Length
      ensures written + lenbytes + n <= SIZE_MAX ==>
                var a, b := NewLength(data.Length, written, lenbytes), SubLength(data.Length, written, n, lenbytes);
                Within(limit, data.Length, b) <==> Within(limit, data.Length, a) && Within(limit, a, b)
    {
      hide Sound, Grown;
      if written + lenbytes + n <= SIZE_MAX {
        LengthGrows(data.Length, written, lenbytes);
        LengthGrows(NewLength(data.Length, written, lenbytes), written + lenbytes, n);
      }
    }

    /** `WPACKET_sub_memcpy__`. */
    method SubMemcpy(src: seq<Byte>, lenbytes: nat) returns (ok: bool)
      requires Valid() && |src| <= SIZE_MAX && lenbytes <= SIZE_MAX
      modifies this`data, this`written, this`curr, this`frames, this`subs, this`output, data
      ensures ok ==> Valid() && old(frames) != [] && (endfirst ==> lenbytes == 0)
      ensures data == old(data) || (kind == Growing && fresh(data))
      ensures ok && kind != NoBuffer && lenbytes > 0 ==> |src| < Pow256(lenbytes)
      ensures ok ==>
        frames == Add(endfirst, old(frames), (if endfirst then DerLength(|src|) else Bytes(|src|, lenbytes)) + src)
      ensures ok ==> written == old(written) + SubSize(|src|, lenbytes)
      ensures ok == (old(frames) != [] && (endfirst ==> lenbytes == 0)
                     && (kind != NoBuffer && lenbytes > 0 ==> |src| < Pow256(lenbytes))
                     && SubSize(|src|, lenbytes) <= maxsize - old(written)
                     && (kind == Growing ==>
                           Within(limit, old(data.Length), SubLength(old(data.Length), old(written), |src|, lenbytes))))
      ensures KeptOutside(old(View()), View()) && old(written) <= written
    {
      hide Sound, Grown, Add, KeptOutside, DerLength, Bytes, Pow256, NewLength, Within;
      SoundFacts(View());
      RoomIs(lenbytes);
      SubGrows(|src|, lenbytes);
      ok := StartSubPacketLen(lenbytes);
      if ok {
        ghost var w := View();
        ok := FillAndClose(src, lenbytes, old(frames));
        KeptTwice(old(View()), w, View());
      }
    }

    method FillAndClose(src: seq<Byte>, lenbytes: nat, ghost outer: seq<Frame>) returns (ok: bool)
      requires Valid() && |src| <= SIZE_MAX && outer != [] && frames == outer + [Frame(lenbytes, 0, [])]
      requires endfirst ==> lenbytes == 0
      modifies this`data, this`written, this`curr, this`frames, this`subs, this`output, data
      ensures ok ==> Valid()
      ensures data == old(data) || (kind == Growing && fresh(data))
      ensures ok && kind != NoBuffer && lenbytes > 0 ==> |src| < Pow256(lenbytes)
      ensures ok ==>
        frames == Add(endfirst, outer, (if endfirst then DerLength(|src|) else Bytes(|src|, lenbytes)) + src)
      ensures ok ==> written == old(written) + SubSize(|src|, lenbytes) - if endfirst then 0 else lenbytes
      ensures ok == ((kind != NoBuffer && lenbytes > 0 ==> |src| < Pow256(lenbytes))
                     && SubSize(|src|, lenbytes) - (if endfirst then 0 else lenbytes) <= maxsize - old(written)
                     && (kind == Growing ==>
                           Within(limit, old(data.Length), NewLength(old(data.Length), old(written), |src|))))
      ensures KeptOutside(old(View()), View()) && old(written) <= written
    {
      hide Sound, Grown, Add, KeptOutside, DerLength, Bytes, Pow256;
      SoundFacts(View());
      RoomIs(|src|);
      FilledFrame(endfirst, outer, lenbytes, src);
      ok := Memcpy(src);
      if ok {
        ghost var w := View();
        ok := CloseFilled(lenbytes, outer, src);
        KeptTwice(old(View()), w, View());
      }
    }

    /** `WPACKET_is_null_buf`. */
    method IsNullBuf() returns (r: bool)
      ensures r == (kind == NoBuffer)
    {
      r := kind == NoBuffer;
    }
  }
}
