/** Whole runs of the secure heap (crypto/mem_sec.c): any sequence of allocations, frees of live
    pointers and writes by the owners.  Seen from outside, the heap is a collection of independent
    buffers that start out all zero. */
module HeapRuns {
  import opened Blocks
  import opened Tiling
  import opened FreeLists
  import opened Sequences
  import opened HeapState
  import opened HeapSteps
  import opened SecureHeap
  import opened Accounting
  import opened Arithmetic

  /** A request; buffers are numbered from the oldest live one. */
  datatype Request = Malloc(size: nat) | Free(k: nat) | Write(k: nat, at: nat, cells: seq<Cell>)
  datatype Answer = NoMemory | Given(b: Block) | Done
  datatype Buffer = Buffer(b: Block, bytes: seq<Cell>)

  function BlocksOf(view: seq<Buffer>): set<Block> {
    set k | 0 <= k < |view| :: view[k].b
  }

  /** The effect of a request on the live buffers. */
  function Apply(g: Geometry, view: seq<Buffer>, r: Request, a: Answer): seq<Buffer> {
    match r
    case Malloc(_) => if a.Given? then view + [Buffer(a.b, Repeat(Byte(0), g.BlockSize(a.b.level)))] else view
    case Free(k) => if k < |view| then view[..k] + view[k + 1..] else view
    case Write(k, at, cells) =>
      if k < |view| && at + |cells| <= |view[k].bytes|
      then view[k := Buffer(view[k].b, Patch(view[k].bytes, at, cells))]
      else view
  }

  /** Which answers are right: memory is refused exactly when no block that could hold the request
      lies outside the live buffers.  Otherwise such a block is given, of the smallest size there
      is or less than twice the size of the request. */
  ghost predicate Right(g: Geometry, view: seq<Buffer>, r: Request, a: Answer)
    requires g.minsize > 0
  {
    match r
    case Malloc(n) =>
      (match a
       case Given(b) =>
         && IsBlock(g, b) && (forall k :: 0 <= k < |view| ==> !Overlap(g, view[k].b, b))
         && n <= g.BlockSize(b.level) && (g.BlockSize(b.level) == g.minsize || g.BlockSize(b.level) < 2 * n)
       case NoMemory =>
         forall d: Block :: IsBlock(g, d) && n <= g.BlockSize(d.level) ==>
           exists k :: 0 <= k < |view| && Overlap(g, view[k].b, d)
       case Done => false)
    case _ => a == Done
  }

  function Replay(g: Geometry, rs: seq<Request>, ans: seq<Answer>): seq<Buffer>
    requires |rs| == |ans|
  {
    if rs == [] then []
    else Apply(g, Replay(g, rs[..|rs| - 1], ans[..|rs| - 1]), rs[|rs| - 1], ans[|rs| - 1])
  }

  ghost predicate AllRight(g: Geometry, rs: seq<Request>, ans: seq<Answer>)
    requires g.minsize > 0 && |rs| == |ans|
  {
    rs == [] || (
      && AllRight(g, rs[..|rs| - 1], ans[..|rs| - 1])
      && Right(g, Replay(g, rs[..|rs| - 1], ans[..|rs| - 1]), rs[|rs| - 1], ans[|rs| - 1]))
  }

  /** The buffers are the blocks handed out, each once, with the contents the arena has there. */
  ghost predicate Represents(g: Geometry, mem: seq<Cell>, used: set<Block>, view: seq<Buffer>) {
    && BlocksOf(view) == used
    && (forall i, j :: 0 <= i < j < |view| ==> view[i].b != view[j].b)
    && forall k :: 0 <= k < |view| ==> Shows(g, mem, view[k])
  }

  ghost predicate Shows(g: Geometry, mem: seq<Cell>, x: Buffer) {
    End(g, x.b) <= |mem| && mem[x.b.off..End(g, x.b)] == x.bytes
  }

  lemma SameBlockShows(g: Geometry, mem: seq<Cell>, mem': seq<Cell>, x: Buffer)
    requires Shows(g, mem, x) && SameBlock(g, mem, mem', x.b)
    ensures Shows(g, mem', x)
  {
  }

  lemma RepresentsMalloc(g: Geometry, mem: seq<Cell>, mem': seq<Cell>, used: set<Block>, view: seq<Buffer>, b: Block)
    requires Represents(g, mem, used, view) && SameBlocks(g, mem, mem', used)
    requires b !in used && BlockZero(g, mem', b)
    ensures Represents(g, mem', used + {b}, view + [Buffer(b, Repeat(Byte(0), g.BlockSize(b.level)))])
  {
    var x := Buffer(b, Repeat(Byte(0), g.BlockSize(b.level)));
    var view' := view + [x];
    forall k | 0 <= k < |view| ensures Shows(g, mem', view[k]) {
      SameBlockShows(g, mem, mem', view[k]);
    }
    assert Shows(g, mem', x);
    assert forall k :: 0 <= k < |view| ==> view'[k] == view[k];
    forall c | c in used + {b} ensures c in BlocksOf(view') {
      if c == b {
        assert view'[|view|].b == b;
      } else {
        var k :| 0 <= k < |view| && view[k].b == c;
        assert view'[k].b == c;
      }
    }
  }

  lemma RepresentsFree(g: Geometry, mem: seq<Cell>, mem': seq<Cell>, used: set<Block>, view: seq<Buffer>, k: nat)
    requires Represents(g, mem, used, view) && k < |view| && SameBlocks(g, mem, mem', used - {view[k].b})
    ensures view[k].b in used
    ensures Represents(g, mem', used - {view[k].b}, view[..k] + view[k + 1..])
  {
    var view' := view[..k] + view[k + 1..];
    forall j | 0 <= j < |view'| ensures Shows(g, mem', view'[j]) && view'[j].b in used - {view[k].b} {
      var i := if j < k then j else j + 1;
      assert view'[j] == view[i];
      assert view[i].b in used - {view[k].b};
      SameBlockShows(g, mem, mem', view[i]);
    }
    forall c | c in used - {view[k].b} ensures c in BlocksOf(view') {
      var i :| 0 <= i < |view| && view[i].b == c;
      assert view'[if i < k then i else i - 1].b == c;
    }
  }

  lemma RepresentsWrite(g: Geometry, mem: seq<Cell>, used: set<Block>, view: seq<Buffer>, k: nat, at: nat,
                        cells: seq<Cell>)
    requires Represents(g, mem, used, view) && k < |view| && at + |cells| <= |view[k].bytes|
    requires view[k].b.off + at + |cells| <= |mem|
    requires SameBlocks(g, mem, Patch(mem, view[k].b.off + at, cells), used - {view[k].b})
    ensures Represents(g, Patch(mem, view[k].b.off + at, cells), used,
                       view[k := Buffer(view[k].b, Patch(view[k].bytes, at, cells))])
  {
    hide Shows, Patch;
    var b := view[k].b;
    ShowsWrite(g, mem, view[k], at, cells);
    var mem' := Patch(mem, b.off + at, cells);
    var view' := view[k := Buffer(b, Patch(view[k].bytes, at, cells))];
    assert forall j :: 0 <= j < |view| ==> view'[j].b == view[j].b;
    SameNames(view, view');
    forall j | 0 <= j < |view'| ensures Shows(g, mem', view'[j]) {
      assert view[j].b in used;
      if j != k {
        SameBlockShows(g, mem, mem', view[j]);
      }
    }
  }

  lemma SameNames(view: seq<Buffer>, view': seq<Buffer>)
    requires |view| == |view'| && forall j :: 0 <= j < |view| ==> view'[j].b == view[j].b
    ensures BlocksOf(view') == BlocksOf(view)
  {
    assert forall c :: c in BlocksOf(view) ==> exists i :: 0 <= i < |view| && view[i].b == c && view'[i].b == c;
  }

  lemma ShowsWrite(g: Geometry, mem: seq<Cell>, x: Buffer, at: nat, cells: seq<Cell>)
    requires Shows(g, mem, x) && at + |cells| <= |x.bytes|
    ensures x.b.off + at + |cells| <= |mem|
    ensures Shows(g, Patch(mem, x.b.off + at, cells), Buffer(x.b, Patch(x.bytes, at, cells)))
  {
    var b := x.b;
    assert Patch(mem, b.off + at, cells)[b.off..End(g, b)] == Patch(mem[b.off..End(g, b)], at, cells);
  }

  /** One more request at the end of a run. */
  lemma ReplayStep(g: Geometry, rs: seq<Request>, ans: seq<Answer>, i: nat, a: Answer)
    requires g.minsize > 0 && i < |rs| && |ans| == i && AllRight(g, rs[..i], ans)
    requires Right(g, Replay(g, rs[..i], ans), rs[i], a)
    ensures AllRight(g, rs[..i + 1], ans + [a])
    ensures Replay(g, rs[..i + 1], ans + [a]) == Apply(g, Replay(g, rs[..i], ans), rs[i], a)
  {
    assert rs[..i + 1][..i] == rs[..i];
    assert (ans + [a])[..i] == ans;
  }

  ghost predicate Tracks(ptrs: seq<nat>, view: seq<Buffer>) {
    |ptrs| == |view| && forall k :: 0 <= k < |ptrs| ==> ptrs[k] == view[k].b.off
  }

  lemma ViewBlocks(g: Geometry, mem: seq<Cell>, used: set<Block>, view: seq<Buffer>)
    requires Represents(g, mem, used, view)
    ensures BlocksOf(view) == used
  {
  }

  /** The answers of `CRYPTO_secure_malloc`, seen as answers about the live buffers. */
  lemma RightMalloc(g: Geometry, view: seq<Buffer>, n: nat, a: Answer)
    requires g.minsize > 0
    requires a.NoMemory? || a.Given?
    requires a.NoMemory? ==> NoRoom(g, BlocksOf(view), n)
    requires a.Given? ==> Available(g, BlocksOf(view), a.b) && n <= g.BlockSize(a.b.level)
    requires a.Given? ==> g.BlockSize(a.b.level) == g.minsize || g.BlockSize(a.b.level) < 2 * n
    ensures Right(g, view, Malloc(n), a)
  {
    if a.NoMemory? {
      forall d: Block | IsBlock(g, d) && n <= g.BlockSize(d.level)
        ensures exists k :: 0 <= k < |view| && Overlap(g, view[k].b, d)
      {
        var u :| u in BlocksOf(view) && Overlap(g, u, d);
        var k :| 0 <= k < |view| && view[k].b == u;
        assert Overlap(g, view[k].b, d);
      }
    } else {
      forall k | 0 <= k < |view| ensures !Overlap(g, view[k].b, a.b) {
        assert view[k].b in BlocksOf(view);
      }
    }
  }

  method ServeMalloc(h: Heap, n: nat, ptrs: seq<nat>, ghost view: seq<Buffer>)
    returns (ptrs': seq<nat>, ghost a: Answer)
    requires h.Valid() && Represents(h.g, h.arena[..], h.s.used, view) && Tracks(ptrs, view)
    modifies h`s, h`secureMemUsed, h.freelist, h.bittable, h.bitmalloc, h.arena
    ensures h.Valid() && Right(h.g, view, Malloc(n), a)
    ensures Represents(h.g, h.arena[..], h.s.used, Apply(h.g, view, Malloc(n), a))
    ensures Tracks(ptrs', Apply(h.g, view, Malloc(n), a))
  {
    hide BitsMatch, Threads, ListsMatch, BodiesZero, AllBlocks, Disjoint, Covering, NoBuddies, Represents, SameBlocks,
         Right, NoRoom, Available;
    ghost var mem, used := h.arena[..], h.s.used;
    ViewBlocks(h.g, mem, used, view);
    var p, b := h.SecureMalloc(n);
    if p == Null {
      ptrs', a := ptrs, NoMemory;
      RepresentsSame(h.g, mem, h.arena[..], used, view);
    } else {
      ptrs', a := ptrs + [p.off], Given(b);
      RepresentsMalloc(h.g, mem, h.arena[..], used, view, b);
    }
    RightMalloc(h.g, view, n, a);
  }

  lemma RepresentsSame(g: Geometry, mem: seq<Cell>, mem': seq<Cell>, used: set<Block>, view: seq<Buffer>)
    requires Represents(g, mem, used, view) && SameBlocks(g, mem, mem', used)
    ensures Represents(g, mem', used, view)
  {
    forall k | 0 <= k < |view| ensures Shows(g, mem', view[k]) {
      assert view[k].b in used;
      SameBlockShows(g, mem, mem', view[k]);
    }
  }

  method ServeFree(h: Heap, k: nat, ptrs: seq<nat>, ghost view: seq<Buffer>) returns (ptrs': seq<nat>)
    requires h.Valid() && Represents(h.g, h.arena[..], h.s.used, view) && Tracks(ptrs, view)
    modifies h`s, h`secureMemUsed, h.freelist, h.bittable, h.bitmalloc, h.arena
    ensures h.Valid()
    ensures Represents(h.g, h.arena[..], h.s.used, Apply(h.g, view, Free(k), Done))
    ensures Tracks(ptrs', Apply(h.g, view, Free(k), Done))
  {
    hide BitsMatch, Threads, ListsMatch, BodiesZero, AllBlocks, Disjoint, Covering, NoBuddies, Represents, SameBlocks;
    ptrs' := ptrs;
    if k < |ptrs| {
      ghost var mem, used := h.arena[..], h.s.used;
      LiveBuffer(h.g, mem, used, view, k);
      h.SecureFree(Chunk(ptrs[k]), view[k].b);
      ptrs' := ptrs[..k] + ptrs[k + 1..];
      RepresentsFree(h.g, mem, h.arena[..], used, view, k);
    }
  }

  method ServeWrite(h: Heap, k: nat, at: nat, cells: seq<Cell>, ptrs: seq<nat>, ghost view: seq<Buffer>)
    requires h.Valid() && Represents(h.g, h.arena[..], h.s.used, view) && Tracks(ptrs, view)
    modifies h.arena
    ensures h.Valid()
    ensures Represents(h.g, h.arena[..], h.s.used, Apply(h.g, view, Write(k, at, cells), Done))
    ensures Tracks(ptrs, Apply(h.g, view, Write(k, at, cells), Done))
  {
    hide BitsMatch, Threads, ListsMatch, BodiesZero, AllBlocks, Disjoint, Covering, NoBuddies, Represents, SameBlocks;
    if k < |ptrs| {
      ghost var mem, b := h.arena[..], view[k].b;
      LiveBuffer(h.g, mem, h.s.used, view, k);
      var size := h.ShActualSize(ptrs[k], b);
      if at + |cells| <= size {
        h.ClientWrite(ptrs[k] + at, cells, b);
        RepresentsWrite(h.g, mem, h.s.used, view, k, at, cells);
        TracksWrite(h.g, ptrs, view, k, at, cells);
      }
    }
  }

  lemma TracksWrite(g: Geometry, ptrs: seq<nat>, view: seq<Buffer>, k: nat, at: nat, cells: seq<Cell>)
    requires Tracks(ptrs, view)
    ensures Tracks(ptrs, Apply(g, view, Write(k, at, cells), Done))
  {
  }

  lemma LiveBuffer(g: Geometry, mem: seq<Cell>, used: set<Block>, view: seq<Buffer>, k: nat)
    requires Represents(g, mem, used, view) && k < |view|
    ensures view[k].b in used && |view[k].bytes| == g.BlockSize(view[k].b.level)
    ensures view[k].b.off + |view[k].bytes| <= |mem|
  {
    assert view[k].b in BlocksOf(view);
    assert Shows(g, mem, view[k]);
  }

  method Serve(h: Heap, r: Request, ptrs: seq<nat>, ghost view: seq<Buffer>)
    returns (ptrs': seq<nat>, ghost a: Answer)
    requires h.Valid() && Represents(h.g, h.arena[..], h.s.used, view) && Tracks(ptrs, view)
    modifies h`s, h`secureMemUsed, h.freelist, h.bittable, h.bitmalloc, h.arena
    ensures h.Valid() && Right(h.g, view, r, a)
    ensures Represents(h.g, h.arena[..], h.s.used, Apply(h.g, view, r, a))
    ensures Tracks(ptrs', Apply(h.g, view, r, a))
  {
    hide BitsMatch, Threads, ListsMatch, BodiesZero, AllBlocks, Disjoint, Covering, NoBuddies, Represents, Tracks;
    ptrs', a := ptrs, Done;
    match r
    case Malloc(n) => ptrs', a := ServeMalloc(h, n, ptrs, view);
    case Free(k) => ptrs' := ServeFree(h, k, ptrs, view);
    case Write(k, at, cells) => ServeWrite(h, k, at, cells, ptrs, view);
  }

  lemma NothingYet(g: Geometry, mem: seq<Cell>, used: set<Block>, ptrs: seq<nat>, view: seq<Buffer>)
    requires used == {} && ptrs == [] && view == []
    ensures Represents(g, mem, used, view) && Tracks(ptrs, view)
  {
  }

  /** Every run from `sh_init`: the answers are right and the live buffers hold what was written
      to them and zero elsewhere. */
  method Run(h: Heap, rs: seq<Request>) returns (ghost ans: seq<Answer>)
    requires h.Valid() && h.s.used == {}
    modifies h`s, h`secureMemUsed, h.freelist, h.bittable, h.bitmalloc, h.arena
    ensures h.Valid() && |ans| == |rs| && AllRight(h.g, rs, ans)
    ensures Represents(h.g, h.arena[..], h.s.used, Replay(h.g, rs, ans))
  {
    hide BitsMatch, Threads, ListsMatch, BodiesZero, AllBlocks, Disjoint, Covering, NoBuddies, Represents, Tracks;
    ans := [];
    var ptrs: seq<nat> := [];
    ghost var view: seq<Buffer> := [];
    assert rs[..0] == [];
    NothingYet(h.g, h.arena[..], h.s.used, ptrs, view);
    for i := 0 to |rs|
      invariant h.Valid() && |ans| == i && AllRight(h.g, rs[..i], ans)
      invariant view == Replay(h.g, rs[..i], ans)
      invariant Represents(h.g, h.arena[..], h.s.used, view)
      invariant Tracks(ptrs, view)
    {
      ghost var a;
      ghost var g := h.g;
      ptrs, a := Serve(h, rs[i], ptrs, view);
      ReplayStep(g, rs, ans, i, a);
      view := Apply(g, view, rs[i], a);
      ans := ans + [a];
    }
    assert rs[..|rs|] == rs;
  }

  // ---------- Filling the arena ----------

  /** Pointers to blocks of `size` bytes each, all in use, none touching another. */
  ghost predicate Scattered(h: Heap, p: seq<nat>, bs: seq<Block>, size: nat)
    reads h
  {
    && |p| == |bs|
    && (forall j :: 0 <= j < |bs| ==> bs[j] in h.s.used && p[j] == bs[j].off && p[j] + size <= h.arenaSize)
    && (forall j :: 0 <= j < |bs| ==> h.g.BlockSize(bs[j].level) == size)
    && (forall j, k :: 0 <= j < k < |p| ==> p[j] + size <= p[k] || p[k] + size <= p[j])
  }

  /** One more block, outside those in use. */
  lemma ScatteredMore(h: Heap, used: set<Block>, p: seq<nat>, bs: seq<Block>, b: Block)
    requires h.g.minsize > 0 && h.arenaSize == h.g.ArenaSize() && h.s.used == used + {b}
    requires |p| == |bs| && (forall j :: 0 <= j < |bs| ==> bs[j] in used && p[j] == bs[j].off)
    requires forall j :: 0 <= j < |bs| ==> h.g.BlockSize(bs[j].level) == h.g.minsize
    requires forall j :: 0 <= j < |p| ==> p[j] + h.g.minsize <= h.arenaSize
    requires forall j, k :: 0 <= j < k < |p| ==> p[j] + h.g.minsize <= p[k] || p[k] + h.g.minsize <= p[j]
    requires Available(h.g, used, b) && h.g.BlockSize(b.level) == h.g.minsize
    ensures Scattered(h, p + [b.off], bs + [b], h.g.minsize)
  {
    hide Geometry.BlockSize;
    forall j | 0 <= j < |p| ensures p[j] + h.g.minsize <= b.off || b.off + h.g.minsize <= p[j] {
      assert !Overlap(h.g, bs[j], b);
    }
  }

  lemma UsedWithinArena(h: Heap)
    requires h.Valid()
    ensures h.secureMemUsed <= h.arenaSize
    ensures h.s.used == {} ==> h.secureMemUsed == 0 && Scattered(h, [], [], h.minsize)
  {
    FullExactly(h.g, h.s.blocks, h.s.used);
    TotalSizeZero(h.g, h.s.used);
  }

  /** One request of at most `minsize` bytes. */
  method TakeOne(h: Heap, n: nat, p: seq<nat>, ghost bs: seq<Block>)
    returns (more: bool, p': seq<nat>, ghost bs': seq<Block>)
    requires h.Valid() && n <= h.minsize && Scattered(h, p, bs, h.minsize)
    modifies h`s, h`secureMemUsed, h.freelist, h.bittable, h.bitmalloc, h.arena
    ensures h.Valid() && Scattered(h, p', bs', h.minsize)
    ensures more <==> old(h.secureMemUsed) < h.arenaSize
    ensures h.secureMemUsed == old(h.secureMemUsed) + if more then h.minsize else 0
    ensures |p'| == |p| + if more then 1 else 0
  {
    hide BitsMatch, Threads, ListsMatch, BodiesZero, AllBlocks, Disjoint, Covering, NoBuddies, SameBlocks, NoRoom,
         Available, BlockZero, TotalSize;
    UsedWithinArena(h);
    p', bs' := p, bs;
    ghost var used := h.s.used;
    var q, b := h.SecureMalloc(n);
    more := q != Null;
    if more {
      p', bs' := p + [q.off], bs + [b];
      ScatteredMore(h, used, p, bs, b);
    }
  }

  /** Asked again and again for at most `minsize` bytes, an empty heap gives out its arena in
      pieces of `minsize` bytes that do not overlap, and refuses only when none is left. */
  method FillUp(h: Heap, n: nat) returns (p: seq<nat>, ghost bs: seq<Block>)
    requires h.Valid() && h.s.used == {} && n <= h.minsize
    modifies h`s, h`secureMemUsed, h.freelist, h.bittable, h.bitmalloc, h.arena
    ensures h.Valid() && Scattered(h, p, bs, h.minsize)
    ensures |p| * h.minsize == h.secureMemUsed == h.arenaSize
  {
    hide Linked, Tiles, NoBuddies, Scattered, TotalSize, Geometry.BlockSize, Geometry.ArenaSize;
    p, bs := [], [];
    UsedWithinArena(h);
    var more := true;
    while more
      invariant h.Valid() && Scattered(h, p, bs, h.minsize)
      invariant |p| * h.minsize == h.secureMemUsed <= h.arenaSize
      invariant !more ==> h.secureMemUsed == h.arenaSize
      decreases more, h.arenaSize - h.secureMemUsed
    {
      more, p, bs := TakeOne(h, n, p, bs);
      UsedWithinArena(h);
    }
  }

  method SmallHeap() returns (h: Heap)
    ensures fresh(h) && fresh(h.freelist) && fresh(h.bittable) && fresh(h.bitmalloc) && fresh(h.arena)
    ensures h.Valid() && h.s.used == {} && h.arenaSize == 64 && h.minsize == 16
  {
    hide Linked, Tiles, NoBuddies, TotalSize, Geometry.ArenaSize, Geometry.BlockSize;
    assert Pow2(6) == 64 && Pow2(4) == 16;
    h := new Heap();
    var ready := h.ShInit(64, 16, true, true, 6, 4);
  }

  /** A heap with nothing left serves a request of `minsize` bytes once a block is freed. */
  method RefusedThenServed(h: Heap, ptr: nat, ghost b: Block) returns (refused: Pointer, served: Pointer)
    requires h.Valid() && h.secureMemUsed == h.arenaSize && b in h.s.used && ptr == b.off
    modifies h`s, h`secureMemUsed, h.freelist, h.bittable, h.bitmalloc, h.arena
    ensures refused == Null && served != Null
  {
    hide Linked, Tiles, NoBuddies, TotalSize, NoRoom, Available, BlockZero, SameBlocks, Geometry.ArenaSize;
    ghost var c;
    refused, c := h.SecureMalloc(h.minsize);
    h.SecureFree(Chunk(ptr), b);
    served, c := h.SecureMalloc(h.minsize);
  }

  /** An arena of 64 bytes divided into 16s serves four requests of 16 bytes, in four places that
      do not overlap, and refuses the fifth; once one of the four is freed the next is served. */
  method FourRequests(first: nat) returns (p: seq<nat>, fifth: Pointer, again: Pointer)
    requires first < 4
    ensures |p| == 4 && fifth == Null && again != Null
    ensures forall i :: 0 <= i < 4 ==> p[i] + 16 <= 64
    ensures forall i, j :: 0 <= i < j < 4 ==> p[i] + 16 <= p[j] || p[j] + 16 <= p[i]
  {
    hide Heap.Valid;
    var h := SmallHeap();
    ghost var bs;
    p, bs := FillUp(h, 16);
    fifth, again := RefusedThenServed(h, p[first], bs[first]);
  }

  /** What an owner sees: a buffer starts all zero, keeps what is written to it, and goes away
      alone when it is freed. */
  lemma TwoBuffers(b0: Block, b1: Block)
    requires b0.level == b1.level == 2
    ensures var rs := [Malloc(2), Malloc(16), Write(1, 1, [Byte(7), Byte(8)]), Free(0)];
            Replay(Geometry(16, 2), rs, [Given(b0), Given(b1), Done, Done]) ==
            [Buffer(b1, [Byte(0), Byte(7), Byte(8)] + Repeat(Byte(0), 13))]
  {
    hide Replay;
    var g, zeros, write := Geometry(16, 2), Repeat(Byte(0), 16), Write(1, 1, [Byte(7), Byte(8)]);
    var rs, ans := [Malloc(2), Malloc(16), write, Free(0)], [Given(b0), Given(b1), Done, Done];
    var last := [Byte(0), Byte(7), Byte(8)] + Repeat(Byte(0), 13);
    assert Patch(zeros, 1, [Byte(7), Byte(8)]) == last;
    ReplayMore(g, rs, ans, 0);
    ReplayMore(g, rs, ans, 1);
    assert Replay(g, rs[..2], ans[..2]) == [Buffer(b0, zeros), Buffer(b1, zeros)];
    ReplayMore(g, rs, ans, 2);
    assert Replay(g, rs[..3], ans[..3]) == [Buffer(b0, zeros), Buffer(b1, last)];
    ReplayMore(g, rs, ans, 3);
    assert rs[..4] == rs && ans[..4] == ans;
  }

  lemma ReplayMore(g: Geometry, rs: seq<Request>, ans: seq<Answer>, i: nat)
    requires |rs| == |ans| && i < |rs|
    ensures Replay(g, rs[..0], ans[..0]) == []
    ensures Replay(g, rs[..i + 1], ans[..i + 1]) == Apply(g, Replay(g, rs[..i], ans[..i]), rs[i], ans[i])
  {
    assert rs[..i + 1][..i] == rs[..i] && ans[..i + 1][..i] == ans[..i];
  }
}
