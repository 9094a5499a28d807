/** The elementary steps of the secure heap (crypto/mem_sec.c): taking a free block out of the
    tables and lists, putting one in, handing one out and getting one back.  Each step keeps the
    representation sound; `sh_malloc` and `sh_free` are sequences of them. */
module HeapSteps {
  import opened Arithmetic
  import opened Blocks
  import opened Tiling
  import opened FreeLists
  import opened Sequences
  import opened HeapState

  /** What the allocator's arrays hold. */
  datatype Contents = Contents(table: seq<bool>, malloc: seq<bool>, heads: seq<Pointer>, mem: seq<Cell>)

  /** What they stand for: the blocks the arena is divided into, those handed out, and the free
      lists as sequences of offsets. */
  datatype Shadow = Shadow(blocks: set<Block>, used: set<Block>, lists: seq<seq<nat>>) {
    function Free(): set<Block> {
      blocks - used
    }
  }

  /** Every byte of a free block is zero, except its list header. */
  ghost predicate BodyZero(g: Geometry, mem: seq<Cell>, b: Block) {
    End(g, b) <= |mem| && forall x :: b.off + HEADER_SIZE <= x < End(g, b) ==> mem[x] == Byte(0)
  }

  ghost predicate BlockZero(g: Geometry, mem: seq<Cell>, b: Block) {
    End(g, b) <= |mem| && forall x :: b.off <= x < End(g, b) ==> mem[x] == Byte(0)
  }

  ghost predicate BodiesZero(g: Geometry, mem: seq<Cell>, s: set<Block>) {
    forall b :: b in s ==> BodyZero(g, mem, b)
  }

  /** The arrays represent the shadow state. */
  ghost predicate Linked(g: Geometry, c: Contents, s: Shadow) {
    && g.Valid() && |c.mem| == g.ArenaSize()
    && |c.table| == |c.malloc| == Pow2(g.depth + 1) && |c.heads| == |s.lists| == g.depth + 1
    && s.used <= s.blocks && AllBlocks(g, s.blocks) && Disjoint(g, s.blocks)
    && BitsMatch(g, c.table, s.blocks) && BitsMatch(g, c.malloc, s.used)
    && Threads(c.heads, c.mem, s.lists) && ListsMatch(g, s.lists, s.Free())
    && BodiesZero(g, c.mem, s.Free())
  }

  /** The contents of a block are the same in both memories. */
  ghost predicate SameBlock(g: Geometry, mem: seq<Cell>, mem': seq<Cell>, b: Block) {
    |mem| == |mem'| && End(g, b) <= |mem| && forall x :: b.off <= x < End(g, b) ==> mem[x] == mem'[x]
  }

  ghost predicate SameBlocks(g: Geometry, mem: seq<Cell>, mem': seq<Cell>, s: set<Block>) {
    forall b :: b in s ==> SameBlock(g, mem, mem', b)
  }

  /** Changes confined to headers of `hs` leave bodies of `hs` and blocks disjoint from it alone. */
  lemma HeadersOnlyKeepBody(g: Geometry, mem: seq<Cell>, mem': seq<Cell>, hs: set<Block>, b: Block)
    requires g.Valid() && |mem| == g.ArenaSize() && AllBlocks(g, hs) && IsBlock(g, b)
    requires OnlyHeaders(mem, mem', hs)
    requires forall h :: h in hs && h != b ==> !Overlap(g, h, b)
    ensures BodyZero(g, mem, b) ==> BodyZero(g, mem', b)
    ensures b !in hs ==> SameBlock(g, mem, mem', b)
  {
    forall x | b.off <= x < End(g, b) && (b in hs ==> x >= b.off + HEADER_SIZE) ensures mem[x] == mem'[x] {
      if InHeader(x, hs) {
        var h :| h in hs && h.off <= x < h.off + HEADER_SIZE;
        BlockOffsetAligned16(g, h);
        assert Overlap(g, h, b);
      }
    }
  }

  lemma HeadersOnlyKeepRest(g: Geometry, mem: seq<Cell>, mem': seq<Cell>, hs: set<Block>, s: set<Block>)
    requires g.Valid() && |mem| == g.ArenaSize() && AllBlocks(g, hs) && AllBlocks(g, s)
    requires OnlyHeaders(mem, mem', hs)
    requires forall h, b :: h in hs && b in s && h != b ==> !Overlap(g, h, b)
    ensures BodiesZero(g, mem, s) ==> BodiesZero(g, mem', s)
    ensures s !! hs ==> SameBlocks(g, mem, mem', s)
  {
    forall b | b in s
      ensures BodyZero(g, mem, b) ==> BodyZero(g, mem', b)
      ensures b !in hs ==> SameBlock(g, mem, mem', b)
    {
      HeadersOnlyKeepBody(g, mem, mem', hs, b);
    }
  }

  // ---------- Removing a free block ----------

  function Unlinked(c: Contents, list: seq<nat>, l: nat, k: nat): Contents
    requires l < |c.heads| && k < |list|
    requires NextOf(list, k).Chunk? ==> NextOf(list, k).off + HEADER_SIZE <= |c.mem|
    requires PrevOf(l, list, k).NextField? ==> PrevOf(l, list, k).off + HEADER_SIZE <= |c.mem|
  {
    c.(heads := RemovedHead(c.heads, l, NextOf(list, k), PrevOf(l, list, k)),
       mem := RemoveMemory(c.mem, NextOf(list, k), PrevOf(l, list, k)))
  }

  /** Facts about the block at position `k` of a list that every removal needs. */
  lemma ListElement(g: Geometry, c: Contents, s: Shadow, b: Block, k: nat)
    requires Linked(g, c, s) && b.level < |s.lists| && k < |s.lists[b.level]| && s.lists[b.level][k] == b.off
    ensures b in s.Free() && IsBlock(g, b) && BitIndex(g, b) < |c.table| && |c.table| == |c.malloc|
    ensures c.table[BitIndex(g, b)] && !c.malloc[BitIndex(g, b)]
    ensures b.level < |c.heads|
    ensures HeaderIs(c.mem, b.off, NextOf(s.lists[b.level], k), PrevOf(b.level, s.lists[b.level], k))
    ensures NextOf(s.lists[b.level], k).Chunk? ==> NextOf(s.lists[b.level], k).off + HEADER_SIZE <= |c.mem|
    ensures PrevOf(b.level, s.lists[b.level], k).NextField? ==>
              PrevOf(b.level, s.lists[b.level], k).off + HEADER_SIZE <= |c.mem|
  {
    assert Block(s.lists[b.level][k], b.level) in s.Free();
    assert Threaded(c.heads[b.level], c.mem, b.level, s.lists[b.level]);
    NeighboursInArena(c.heads[b.level], c.mem, b.level, s.lists[b.level], k);
  }

  lemma UnlinkMemory(g: Geometry, c: Contents, s: Shadow, b: Block, k: nat)
    requires Linked(g, c, s) && b.level < |s.lists| && k < |s.lists[b.level]| && s.lists[b.level][k] == b.off
    ensures b.level < |c.heads|
    ensures NextOf(s.lists[b.level], k).Chunk? ==> NextOf(s.lists[b.level], k).off + HEADER_SIZE <= |c.mem|
    ensures PrevOf(b.level, s.lists[b.level], k).NextField? ==>
              PrevOf(b.level, s.lists[b.level], k).off + HEADER_SIZE <= |c.mem|
    ensures var c' := Unlinked(c, s.lists[b.level], b.level, k);
            && Threads(c'.heads, c'.mem, s.lists[b.level := Without(s.lists[b.level], k)])
            && |c'.mem| == |c.mem|
            && BodiesZero(g, c'.mem, s.Free())
            && SameBlocks(g, c.mem, c'.mem, s.used)
            && OnlyHeaders(c.mem, c'.mem, s.Free())
  {
    ListElement(g, c, s, b, k);
    RemoveKeepsThreads(g, c.heads, c.mem, s.lists, s.Free(), b.level, k);
    var c' := Unlinked(c, s.lists[b.level], b.level, k);
    HeadersOnlyKeepRest(g, c.mem, c'.mem, s.Free(), s.Free());
    HeadersOnlyKeepRest(g, c.mem, c'.mem, s.Free(), s.used);
  }

  /** Clearing the `bittable` bit of a free block and unlinking it takes it out of the arena. */
  lemma TakeFree(g: Geometry, c: Contents, s: Shadow, b: Block, k: nat)
    requires Linked(g, c, s) && b.level < |s.lists| && k < |s.lists[b.level]| && s.lists[b.level][k] == b.off
    ensures b in s.Free() && IsBlock(g, b) && b.level < |c.heads| && BitIndex(g, b) < |c.table|
    ensures NextOf(s.lists[b.level], k).Chunk? ==> NextOf(s.lists[b.level], k).off + HEADER_SIZE <= |c.mem|
    ensures PrevOf(b.level, s.lists[b.level], k).NextField? ==>
              PrevOf(b.level, s.lists[b.level], k).off + HEADER_SIZE <= |c.mem|
    ensures var c' := Unlinked(c, s.lists[b.level], b.level, k).(table := c.table[BitIndex(g, b) := false]);
            && Linked(g, c', Shadow(s.blocks - {b}, s.used, s.lists[b.level := Without(s.lists[b.level], k)]))
            && BodyZero(g, c'.mem, b)
            && SameBlocks(g, c.mem, c'.mem, s.used)
            && OnlyHeaders(c.mem, c'.mem, s.Free())
  {
    ListElement(g, c, s, b, k);
    UnlinkMemory(g, c, s, b, k);
    SetBitMatches(g, c.table, s.blocks, b);
    RemoveListsMatch(g, s.lists, s.Free(), b, k);
    assert (s.blocks - {b}) - s.used == s.Free() - {b};
  }

  /** Setting the `bitmalloc` bit of a free block and unlinking it hands it out. */
  lemma HandOut(g: Geometry, c: Contents, s: Shadow, b: Block, k: nat)
    requires Linked(g, c, s) && b.level < |s.lists| && k < |s.lists[b.level]| && s.lists[b.level][k] == b.off
    ensures b in s.Free() && IsBlock(g, b) && b.level < |c.heads| && BitIndex(g, b) < |c.malloc|
    ensures NextOf(s.lists[b.level], k).Chunk? ==> NextOf(s.lists[b.level], k).off + HEADER_SIZE <= |c.mem|
    ensures PrevOf(b.level, s.lists[b.level], k).NextField? ==>
              PrevOf(b.level, s.lists[b.level], k).off + HEADER_SIZE <= |c.mem|
    ensures var c' := Unlinked(c, s.lists[b.level], b.level, k).(malloc := c.malloc[BitIndex(g, b) := true]);
            && Linked(g, c', Shadow(s.blocks, s.used + {b}, s.lists[b.level := Without(s.lists[b.level], k)]))
            && BodyZero(g, c'.mem, b)
            && SameBlocks(g, c.mem, c'.mem, s.used)
  {
    ListElement(g, c, s, b, k);
    UnlinkMemory(g, c, s, b, k);
    SetBitMatches(g, c.malloc, s.used, b);
    RemoveListsMatch(g, s.lists, s.Free(), b, k);
    assert s.blocks - (s.used + {b}) == s.Free() - {b};
  }

  // ---------- Adding a free block ----------

  function Pushed(c: Contents, b: Block): Contents
    requires b.level < |c.heads| && b.off + HEADER_SIZE <= |c.mem|
    requires c.heads[b.level].Chunk? ==> c.heads[b.level].off + HEADER_SIZE <= |c.mem|
  {
    c.(heads := c.heads[b.level := Chunk(b.off)], mem := AddMemory(c.mem, c.heads[b.level], b.level, b.off))
  }

  lemma HeadInArena(g: Geometry, c: Contents, s: Shadow, l: nat)
    requires Linked(g, c, s) && l <= g.depth
    ensures l < |c.heads| && c.heads[l] == FirstOf(s.lists[l])
    ensures c.heads[l].Chunk? ==> Block(c.heads[l].off, l) in s.Free() && c.heads[l].off + HEADER_SIZE <= |c.mem|
                                  && HeaderIs(c.mem, c.heads[l].off, NextOf(s.lists[l], 0), HeadSlot(l))
  {
    assert Threaded(c.heads[l], c.mem, l, s.lists[l]);
    if s.lists[l] != [] {
      ListElement(g, c, s, Block(s.lists[l][0], l), 0);
    }
  }

  lemma PushThreads(g: Geometry, c: Contents, s: Shadow, b: Block)
    requires Linked(g, c, s) && IsBlock(g, b) && b !in s.Free()
    requires forall d :: d in s.Free() ==> !Overlap(g, d, b)
    ensures b.level < |c.heads| && b.off + HEADER_SIZE <= |c.mem|
    ensures c.heads[b.level].Chunk? ==> c.heads[b.level].off + HEADER_SIZE <= |c.mem|
    ensures var c' := Pushed(c, b);
            && Threads(c'.heads, c'.mem, s.lists[b.level := [b.off] + s.lists[b.level]])
            && OnlyHeaders(c.mem, c'.mem, s.Free() + {b})
  {
    HeadInArena(g, c, s, b.level);
    AddKeepsThreads(g, c.heads, c.mem, s.lists, s.Free(), b);
  }

  lemma PushMemory(g: Geometry, c: Contents, s: Shadow, b: Block)
    requires Linked(g, c, s) && IsBlock(g, b) && b !in s.Free() && BodyZero(g, c.mem, b)
    requires forall d :: d in s.blocks && d != b ==> !Overlap(g, d, b)
    ensures b.level < |c.heads| && b.off + HEADER_SIZE <= |c.mem|
    ensures c.heads[b.level].Chunk? ==> c.heads[b.level].off + HEADER_SIZE <= |c.mem|
    ensures var c' := Pushed(c, b);
            && |c'.mem| == |c.mem|
            && Threads(c'.heads, c'.mem, s.lists[b.level := [b.off] + s.lists[b.level]])
            && BodiesZero(g, c'.mem, s.Free() + {b})
            && SameBlocks(g, c.mem, c'.mem, s.used - {b})
  {
    PushThreads(g, c, s, b);
    PushKeepsRest(g, c.mem, Pushed(c, b).mem, s, b);
  }

  lemma PushKeepsRest(g: Geometry, mem: seq<Cell>, mem': seq<Cell>, s: Shadow, b: Block)
    requires g.Valid() && |mem| == g.ArenaSize() && IsBlock(g, b)
    requires s.used <= s.blocks && AllBlocks(g, s.blocks) && Disjoint(g, s.blocks)
    requires OnlyHeaders(mem, mem', s.Free() + {b})
    requires BodiesZero(g, mem, s.Free()) && BodyZero(g, mem, b)
    requires forall d :: d in s.blocks && d != b ==> !Overlap(g, d, b)
    ensures BodiesZero(g, mem', s.Free() + {b})
    ensures SameBlocks(g, mem, mem', s.used - {b})
  {
    var hs := s.Free() + {b};
    forall h, d | h in hs && d in s.blocks + {b} && h != d ensures !Overlap(g, h, d) {
      if h == b {
        assert !Overlap(g, d, b);
      } else if d == b {
        assert !Overlap(g, h, b);
      }
    }
    HeadersOnlyKeepRest(g, mem, mem', hs, hs);
    HeadersOnlyKeepRest(g, mem, mem', hs, s.used - {b});
  }

  /** Setting the `bittable` bit of a new block and pushing it on its list adds a free block. */
  lemma PutFree(g: Geometry, c: Contents, s: Shadow, b: Block)
    requires Linked(g, c, s) && IsBlock(g, b) && b !in s.blocks && BodyZero(g, c.mem, b)
    requires forall d :: d in s.blocks ==> !Overlap(g, d, b)
    ensures b.level < |c.heads| && b.off + HEADER_SIZE <= |c.mem| && BitIndex(g, b) < |c.table|
    ensures BitIndex(g, b) < |c.malloc| && !c.table[BitIndex(g, b)] && !c.malloc[BitIndex(g, b)]
    ensures c.heads[b.level].Chunk? ==> c.heads[b.level].off + HEADER_SIZE <= |c.mem|
    ensures var c' := Pushed(c, b).(table := c.table[BitIndex(g, b) := true]);
            && Linked(g, c', Shadow(s.blocks + {b}, s.used, s.lists[b.level := [b.off] + s.lists[b.level]]))
            && SameBlocks(g, c.mem, c'.mem, s.used)
  {
    hide BitsMatch, Threads, ListsMatch, BodiesZero, SameBlocks, AddMemory, BodyZero;
    PushMemory(g, c, s, b);
    PutFreeShadow(g, c, s, b);
    assert s.used - {b} == s.used;
  }

  lemma PutFreeShadow(g: Geometry, c: Contents, s: Shadow, b: Block)
    requires Linked(g, c, s) && IsBlock(g, b) && b !in s.blocks
    requires forall d :: d in s.blocks ==> !Overlap(g, d, b)
    ensures BitIndex(g, b) < |c.table| == |c.malloc| && !c.table[BitIndex(g, b)] && !c.malloc[BitIndex(g, b)]
    ensures BitsMatch(g, c.table[BitIndex(g, b) := true], s.blocks + {b})
    ensures (s.blocks + {b}) - s.used == s.Free() + {b}
    ensures ListsMatch(g, s.lists[b.level := [b.off] + s.lists[b.level]], s.Free() + {b})
    ensures AllBlocks(g, s.blocks + {b}) && Disjoint(g, s.blocks + {b})
  {
    SetBitMatches(g, c.table, s.blocks, b);
    AddListsMatch(g, s.lists, s.Free(), b);
    AddDisjoint(g, s.blocks, b);
  }

  lemma AddDisjoint(g: Geometry, s: set<Block>, b: Block)
    requires Disjoint(g, s) && forall d :: d in s ==> !Overlap(g, d, b)
    ensures Disjoint(g, s + {b})
  {
    forall x, y | x in s + {b} && y in s + {b} && x != y ensures !Overlap(g, x, y) {
      if x == b {
        assert !Overlap(g, y, b);
      }
    }
  }

  /** Clearing the `bitmalloc` bit of a handed-out block and pushing it on its list gets it back. */
  lemma GetBack(g: Geometry, c: Contents, s: Shadow, b: Block)
    requires Linked(g, c, s) && b in s.used && BodyZero(g, c.mem, b)
    ensures IsBlock(g, b) && b.level < |c.heads| && b.off + HEADER_SIZE <= |c.mem| && BitIndex(g, b) < |c.malloc|
    ensures c.malloc[BitIndex(g, b)]
    ensures c.heads[b.level].Chunk? ==> c.heads[b.level].off + HEADER_SIZE <= |c.mem|
    ensures var c' := Pushed(c, b).(malloc := c.malloc[BitIndex(g, b) := false]);
            && Linked(g, c', Shadow(s.blocks, s.used - {b}, s.lists[b.level := [b.off] + s.lists[b.level]]))
            && SameBlocks(g, c.mem, c'.mem, s.used - {b})
  {
    hide BitsMatch, Threads, ListsMatch, BodiesZero, SameBlocks, AddMemory, BodyZero;
    GetBackBits(g, c, s, b);
    PushMemory(g, c, s, b);
    AddListsMatch(g, s.lists, s.Free(), b);
    assert s.blocks - (s.used - {b}) == s.Free() + {b};
  }

  lemma GetBackBits(g: Geometry, c: Contents, s: Shadow, b: Block)
    requires Linked(g, c, s) && b in s.used
    ensures IsBlock(g, b) && BitIndex(g, b) < |c.malloc| && c.malloc[BitIndex(g, b)]
    ensures BitsMatch(g, c.malloc[BitIndex(g, b) := false], s.used - {b})
  {
    SetBitMatches(g, c.malloc, s.used, b);
  }

  lemma HeadApart(g: Geometry, c: Contents, s: Shadow, b: Block)
    requires Linked(g, c, s) && IsBlock(g, b) && forall d :: d in s.Free() && d != b ==> !Overlap(g, d, b)
    requires b !in s.Free()
    ensures b.level < |c.heads|
    ensures c.heads[b.level].Chunk? ==> Apart(c.heads[b.level].off, b.off)
  {
    HeadInArena(g, c, s, b.level);
    if c.heads[b.level].Chunk? {
      BlocksApart(g, Block(c.heads[b.level].off, b.level), b);
    }
  }

  /** What `AttachFree` needs before its first step and has after its last. */
  lemma AttachFacts(g: Geometry, c: Contents, s: Shadow, b: Block) returns (headNext: Pointer)
    requires Linked(g, c, s) && IsBlock(g, b) && b !in s.blocks && BodyZero(g, c.mem, b)
    requires forall d :: d in s.blocks ==> !Overlap(g, d, b)
    ensures b.level < |c.heads| && b.off + HEADER_SIZE <= |c.mem| && BitIndex(g, b) < |c.table| == |c.malloc|
    ensures !c.table[BitIndex(g, b)] && !c.malloc[BitIndex(g, b)]
    ensures c.heads[b.level].Null? || c.heads[b.level].Chunk?
    ensures c.heads[b.level].Chunk? ==>
              && HeaderIs(c.mem, c.heads[b.level].off, headNext, HeadSlot(b.level))
              && Apart(c.heads[b.level].off, b.off)
    ensures var c' := Pushed(c, b).(table := c.table[BitIndex(g, b) := true]);
            && Linked(g, c', Shadow(s.blocks + {b}, s.used, s.lists[b.level := [b.off] + s.lists[b.level]]))
            && SameBlocks(g, c.mem, c'.mem, s.used)
            && OnlyHeaders(c.mem, c'.mem, s.blocks + {b} - s.used)
  {
    PutFree(g, c, s, b);
    HeadInArena(g, c, s, b.level);
    HeadApart(g, c, s, b);
    PushThreads(g, c, s, b);
    assert s.blocks + {b} - s.used == s.Free() + {b};
    headNext := if s.lists[b.level] == [] then Null else NextOf(s.lists[b.level], 0);
  }

  /** What `GiveBack` needs before its first step and has after its last. */
  lemma GiveBackFacts(g: Geometry, c: Contents, s: Shadow, b: Block) returns (headNext: Pointer)
    requires Linked(g, c, s) && b in s.used && BodyZero(g, c.mem, b)
    ensures IsBlock(g, b) && b.level < |c.heads| && b.off + HEADER_SIZE <= |c.mem|
    ensures BitIndex(g, b) < |c.malloc| == |c.table| && c.malloc[BitIndex(g, b)] && c.table[BitIndex(g, b)]
    ensures c.heads[b.level].Null? || c.heads[b.level].Chunk?
    ensures c.heads[b.level].Chunk? ==>
              && HeaderIs(c.mem, c.heads[b.level].off, headNext, HeadSlot(b.level))
              && Apart(c.heads[b.level].off, b.off)
    ensures b.level < |s.lists|
    ensures var c' := Pushed(c, b).(malloc := c.malloc[BitIndex(g, b) := false]);
            && Linked(g, c', Shadow(s.blocks, s.used - {b}, s.lists[b.level := [b.off] + s.lists[b.level]]))
            && SameBlocks(g, c.mem, c'.mem, s.used - {b})
  {
    GetBack(g, c, s, b);
    HeadInArena(g, c, s, b.level);
    HeadApart(g, c, s, b);
    headNext := if s.lists[b.level] == [] then Null else NextOf(s.lists[b.level], 0);
  }

  lemma SameWithOneMore(g: Geometry, m: seq<Cell>, m': seq<Cell>, used: set<Block>, low: Block)
    requires SameBlocks(g, m, m', used + {low})
    ensures SameBlocks(g, m, m', used)
    ensures BodyZero(g, m, low) ==> BodyZero(g, m', low)
  {
    assert low in used + {low};
    assert forall b :: b in used ==> b in used + {low};
  }

  // ---------- What the methods read off the representation ----------

  /** Everything the unlinking code relies on, for the block at position `k` of a list. */
  lemma ElementFacts(g: Geometry, c: Contents, s: Shadow, b: Block, k: nat)
    requires Linked(g, c, s) && b.level < |s.lists| && k < |s.lists[b.level]| && s.lists[b.level][k] == b.off
    ensures b in s.Free() && IsBlock(g, b) && BitIndex(g, b) < |c.table|
    ensures c.table[BitIndex(g, b)] && !c.malloc[BitIndex(g, b)]
    ensures k == 0 ==> c.heads[b.level] == Chunk(b.off)
    ensures var next := NextOf(s.lists[b.level], k); var prev := PrevOf(b.level, s.lists[b.level], k);
            && HeaderIs(c.mem, b.off, next, prev)
            && (next == Null || (next.Chunk? && next.off + HEADER_SIZE <= |c.mem| && Apart(b.off, next.off)))
            && (prev == HeadSlot(b.level) || (prev.NextField? && prev.off + HEADER_SIZE <= |c.mem|))
  {
    ListElement(g, c, s, b, k);
    ListApart(g, s.lists, s.Free(), b.level);
    HeadInArena(g, c, s, b.level);
  }

  /** A block of the arena has its bit set; a block handed out has both. */
  lemma BlockFacts(g: Geometry, c: Contents, s: Shadow, b: Block)
    requires Linked(g, c, s) && b in s.blocks
    ensures IsBlock(g, b) && BitIndex(g, b) < |c.table| && c.table[BitIndex(g, b)]
    ensures c.malloc[BitIndex(g, b)] <==> b in s.used
    ensures b.off % 16 == 0 && b.off + HEADER_SIZE <= End(g, b) <= |c.mem|
  {
    BlockOffsetAligned16(g, b);
  }

  /** No smaller block starts where a block of the arena starts. */
  lemma NoDeeperBit(g: Geometry, c: Contents, s: Shadow, b: Block, list: nat)
    requires Linked(g, c, s) && b in s.blocks && list >= b.level && IsBlock(g, Block(b.off, list))
    ensures BitIndex(g, Block(b.off, list)) < |c.table|
    ensures c.table[BitIndex(g, Block(b.off, list))] <==> list == b.level
  {
    var d := Block(b.off, list);
    assert Overlap(g, b, d);
  }

  /** The two tests of `sh_find_my_buddy` ask whether the buddy is free. */
  lemma BuddyTest(g: Geometry, c: Contents, s: Shadow, b: Block)
    requires Linked(g, c, s) && IsBlock(g, b)
    ensures FlipLowBit(BitIndex(g, b)) < |c.table|
    ensures c.table[FlipLowBit(BitIndex(g, b))] && !c.malloc[FlipLowBit(BitIndex(g, b))]
            <==> b.level > 0 && Buddy(g, b) in s.Free()
  {
    BuddyBit(g, b);
  }

  /** The right half keeps its zero body while the left half is linked in. */
  lemma RightBodyStays(g: Geometry, c: Contents, s: Shadow, mem: seq<Cell>, b: Block, blocks: set<Block>)
    requires Linked(g, c, s) && HalvesFit(g, blocks, b) && s.blocks == blocks + {LeftChild(b)}
    requires |mem| == |c.mem| && OnlyHeaders(mem, c.mem, s.Free()) && BodyZero(g, mem, RightChild(g, b))
    ensures BodyZero(g, c.mem, RightChild(g, b)) && RightChild(g, b) !in s.blocks
    ensures forall d :: d in s.blocks ==> !Overlap(g, d, RightChild(g, b))
  {
    HeadersOnlyKeepBody(g, mem, c.mem, s.Free(), RightChild(g, b));
  }

  // ---------- Writes outside the lists ----------

  /** A write that touches no free block keeps the representation. */
  lemma WriteElsewhere(g: Geometry, c: Contents, s: Shadow, at: nat, cells: seq<Cell>)
    requires Linked(g, c, s) && at + |cells| <= |c.mem|
    requires forall d :: d in s.Free() ==> at + |cells| <= d.off || End(g, d) <= at
    ensures Linked(g, c.(mem := Patch(c.mem, at, cells)), s)
  {
    var mem' := Patch(c.mem, at, cells);
    forall l | 0 <= l < |s.lists| ensures Threaded(c.heads[l], mem', l, s.lists[l]) {
      WriteElsewhereList(g, c, s, at, cells, l);
    }
    forall d | d in s.Free() ensures BodyZero(g, mem', d) {
      assert BodyZero(g, c.mem, d);
    }
  }

  lemma WriteElsewhereList(g: Geometry, c: Contents, s: Shadow, at: nat, cells: seq<Cell>, l: nat)
    requires Linked(g, c, s) && at + |cells| <= |c.mem| && l < |s.lists|
    requires forall d :: d in s.Free() ==> at + |cells| <= d.off || End(g, d) <= at
    ensures Threaded(c.heads[l], Patch(c.mem, at, cells), l, s.lists[l])
  {
    hide BitsMatch, BodiesZero, Disjoint, Patch;
    var mem' := Patch(c.mem, at, cells);
    assert Threaded(c.heads[l], c.mem, l, s.lists[l]);
    forall k | 0 <= k < |s.lists[l]| ensures SameHeader(c.mem, mem', s.lists[l][k]) {
      var d := Block(s.lists[l][k], l);
      assert d in s.Free();
      BlockOffsetAligned16(g, d);
      PatchKeepsHeader(c.mem, at, cells, d.off);
    }
    ThreadedFrame(c.heads[l], c.mem, mem', l, s.lists[l]);
  }

  // ---------- Splitting ----------

  /** No two free blocks are buddies, except perhaps `e` and its buddy. */
  ghost predicate NoBuddiesBut(g: Geometry, free: set<Block>, e: Block)
    requires g.minsize > 0
  {
    forall b :: b in free && b.level > 0 && Buddy(g, b) in free ==> b == e || Buddy(g, b) == e
  }

  /** The halves of `b` are new blocks that meet no block of `s`, nor each other. */
  ghost predicate HalvesFit(g: Geometry, s: set<Block>, b: Block)
    requires g.minsize > 0
  {
    && IsBlock(g, b) && IsBlock(g, LeftChild(b)) && IsBlock(g, RightChild(g, b)) && Halves(g, b) !! s
    && LeftChild(b) != RightChild(g, b) && !Overlap(g, LeftChild(b), RightChild(g, b))
    && forall d :: d in s ==> !Overlap(g, d, LeftChild(b)) && !Overlap(g, d, RightChild(g, b))
  }

  lemma SplitFacts(g: Geometry, s: Shadow, b: Block)
    requires g.minsize > 0 && Tiles(g, s.blocks) && b in s.Free() && b.level < g.depth && s.used <= s.blocks
    ensures Tiles(g, s.blocks - {b} + Halves(g, b)) && Halves(g, b) !! s.blocks
    ensures HalvesFit(g, s.blocks - {b}, b)
  {
    SplitTiles(g, s.blocks, b);
    ChildrenAreBlocks(g, b);
    forall d | d in s.blocks - {b} ensures !Overlap(g, d, LeftChild(b)) && !Overlap(g, d, RightChild(g, b)) {
      assert !Overlap(g, d, b);
    }
  }

  lemma SameBlocksTransitive(g: Geometry, m0: seq<Cell>, m1: seq<Cell>, m2: seq<Cell>, s: set<Block>)
    requires SameBlocks(g, m0, m1, s) && SameBlocks(g, m1, m2, s)
    ensures SameBlocks(g, m0, m2, s)
  {
    forall b | b in s ensures SameBlock(g, m0, m2, b) {
      assert SameBlock(g, m0, m1, b) && SameBlock(g, m1, m2, b);
    }
  }

  lemma HalvesZero(g: Geometry, mem: seq<Cell>, b: Block)
    requires g.Valid() && IsBlock(g, b) && b.level < g.depth && BodyZero(g, mem, b)
    ensures BodyZero(g, mem, LeftChild(b)) && BodyZero(g, mem, RightChild(g, b))
  {
    ChildrenAreBlocks(g, b);
  }

  /** After a block has left the arena, no list starts with it. */
  lemma StillNotFirst(g: Geometry, c: Contents, s: Shadow, b: Block)
    requires Linked(g, c, s) && b !in s.blocks && b.level <= g.depth
    ensures b.level < |c.heads| && c.heads[b.level] != Chunk(b.off)
  {
    HeadInArena(g, c, s, b.level);
  }

  lemma SplitLeavesOnePair(g: Geometry, s: Shadow, b: Block)
    requires g.minsize > 0 && AllBlocks(g, s.blocks) && b in s.Free() && b.level < g.depth
    requires NoBuddiesBut(g, s.Free(), b)
    requires Halves(g, b) !! s.blocks && s.used <= s.blocks
    ensures (s.blocks - {b} + Halves(g, b)) - s.used == s.Free() - {b} + Halves(g, b)
    ensures NoBuddiesBut(g, s.Free() - {b} + Halves(g, b), RightChild(g, b))
  {
    ChildrenAreBlocks(g, b);
    var free' := s.Free() - {b} + Halves(g, b);
    forall c | c in free' && c.level > 0 && Buddy(g, c) in free'
      ensures c == RightChild(g, b) || Buddy(g, c) == RightChild(g, b)
    {
      if c in s.Free() {
        BuddyFacts(g, c);
      }
    }
  }

  lemma BeforeSplitting(g: Geometry, c: Contents, s: Shadow, mem: seq<Cell>, b: Block)
    requires Linked(g, c, s) && c.mem == mem && NoBuddies(g, s.Free())
    ensures NoBuddiesBut(g, s.Free(), b) && SameBlocks(g, mem, mem, s.used)
  {
  }

  // ---------- Sizes of requests ----------

  /** `level` holds the smallest blocks that can take `size` bytes. */
  ghost predicate Fits(g: Geometry, size: nat, level: nat) {
    && level <= g.depth
    && size <= g.BlockSize(level)
    && (level < g.depth ==> g.BlockSize(level + 1) < size)
  }

  lemma {:induction false} BlockSizeBounded(g: Geometry, level: nat)
    requires level <= g.depth
    ensures g.BlockSize(level) <= g.ArenaSize()
  {
    if level > 0 {
      BlockSizeBounded(g, level - 1);
    }
  }

  lemma FitsUnique(g: Geometry, size: nat, a: nat, b: nat)
    requires g.minsize > 0 && Fits(g, size, a) && Fits(g, size, b)
    ensures a == b
  {
    if a < b {
      LargerAbove(g, a + 1, b);
    } else if b < a {
      LargerAbove(g, b + 1, a);
    }
  }

  lemma {:induction false} LargerAbove(g: Geometry, hi: nat, lo: nat)
    requires hi <= lo <= g.depth
    ensures g.BlockSize(lo) <= g.BlockSize(hi)
    decreases lo - hi
  {
    if hi < lo {
      LargerAbove(g, hi + 1, lo);
    }
  }

  /** A level fits exactly when its blocks are the smallest of those that can take the request:
      blocks of `minsize` bytes, or blocks less than twice as large as the request. */
  lemma FitsSmallest(g: Geometry, size: nat, level: nat)
    requires g.minsize > 0
    ensures Fits(g, size, level) <==>
              && level <= g.depth && size <= g.BlockSize(level)
              && forall k: nat :: k <= g.depth && size <= g.BlockSize(k) ==> g.BlockSize(level) <= g.BlockSize(k)
    ensures Fits(g, size, level) <==>
              && level <= g.depth && size <= g.BlockSize(level)
              && (g.BlockSize(level) == g.minsize || g.BlockSize(level) < 2 * size)
  {
    if level <= g.depth {
      forall k: nat | k <= g.depth && Fits(g, size, level) && size <= g.BlockSize(k)
        ensures g.BlockSize(level) <= g.BlockSize(k)
      {
        if level < k {
          LargerAbove(g, level + 1, k);
        } else {
          LargerAbove(g, k, level);
        }
      }
      if level < g.depth {
        assert g.BlockSize(level) == 2 * g.BlockSize(level + 1) >= 2 * g.minsize;
      }
    }
  }

  /** Some level fits exactly the requests that the arena could hold. */
  lemma {:induction false} FitsExists(g: Geometry, size: nat, from: nat) returns (level: nat)
    requires from <= g.depth && size <= g.BlockSize(from)
    ensures from <= level && Fits(g, size, level)
    decreases g.depth - from
  {
    level := from;
    if from < g.depth && size <= g.BlockSize(from + 1) {
      level := FitsExists(g, size, from + 1);
    }
  }

  lemma FitsExactly(g: Geometry, size: nat)
    ensures (exists level :: Fits(g, size, level)) <==> size <= g.ArenaSize()
  {
    if size <= g.ArenaSize() {
      var level := FitsExists(g, size, 0);
    } else {
      NothingFits(g, size);
      forall level: nat ensures !Fits(g, size, level) {
        assert !Fits(g, size, Block(0, level).level);
      }
    }
  }

  /** No block of the arena that could hold `size` bytes lies outside the blocks of `used`. */
  ghost predicate NoRoom(g: Geometry, used: set<Block>, size: nat)
    requires g.minsize > 0
  {
    forall d: Block :: IsBlock(g, d) && size <= g.BlockSize(d.level) ==> exists u :: u in used && Overlap(g, u, d)
  }

  /** A larger region is no better than one of the rounded size: it holds one. */
  lemma NoRoomExactly(g: Geometry, used: set<Block>, size: nat)
    requires g.minsize > 0
    ensures NoRoom(g, used, size) <==> forall d: Block :: Fits(g, size, d.level) ==> !Available(g, used, d)
  {
    if forall d: Block :: Fits(g, size, d.level) ==> !Available(g, used, d) {
      forall d: Block | IsBlock(g, d) && size <= g.BlockSize(d.level)
        ensures exists u :: u in used && Overlap(g, u, d)
      {
        var level := FitsExists(g, size, d.level);
        var m := BlockSizeMultiple(g, d.level, level);
        MultipleModulo(d.off, m, g.BlockSize(level));
        MulMonotone(1, m, g.BlockSize(level));
        assert !Available(g, used, Block(d.off, level));
      }
    }
  }

  /** With all lists from 0 to `list` empty, every free block is smaller. */
  lemma EmptyLists(g: Geometry, c: Contents, s: Shadow, list: nat)
    requires Linked(g, c, s) && list <= g.depth
    requires forall l :: 0 <= l <= list ==> c.heads[l] == Null
    ensures forall f :: f in s.Free() ==> f.level > list
  {
    forall l | 0 <= l <= list ensures s.lists[l] == [] {
      HeadInArena(g, c, s, l);
    }
  }

  /** With all lists from 0 to the rounded level empty, no region of that level is available. */
  lemma NothingLargeEnough(g: Geometry, c: Contents, s: Shadow, size: nat, list: nat)
    requires Linked(g, c, s) && Tiles(g, s.blocks) && NoBuddies(g, s.Free()) && Fits(g, size, list)
    requires forall l :: 0 <= l <= list ==> c.heads[l] == Null
    ensures forall d: Block :: Fits(g, size, d.level) ==> !Available(g, s.used, d)
  {
    EmptyLists(g, c, s, list);
    forall d: Block | Fits(g, size, d.level) ensures !Available(g, s.used, d) {
      FitsUnique(g, size, list, d.level);
      if Available(g, s.used, d) {
        AvailableHasLargeFreeBlock(g, s.blocks, s.used, d);
      }
    }
  }

  lemma NothingFits(g: Geometry, size: nat)
    requires size > g.ArenaSize()
    ensures forall d: Block :: !Fits(g, size, d.level)
  {
    forall d: Block ensures !Fits(g, size, d.level) {
      if d.level <= g.depth {
        BlockSizeBounded(g, d.level);
      }
    }
  }

  lemma SameBlocksReflexive(g: Geometry, c: Contents, s: Shadow, mem: seq<Cell>)
    requires Linked(g, c, s) && mem == c.mem
    ensures SameBlocks(g, mem, mem, s.used)
  {
  }

  lemma PeeledFacts(g: Geometry, c: Contents, s: Shadow, used: set<Block>, b: Block)
    requires Linked(g, c, s) && s.used == used + {b} && b !in used
    ensures IsBlock(g, b) && b.off < |c.mem| && b !in s.Free()
    ensures AllBlocks(g, used) && ApartFrom(g, s.Free() + used, b)
  {
    BlockFacts(g, c, s, b);
  }

  /** No block of `ds` meets `b`. */
  ghost predicate ApartFrom(g: Geometry, ds: set<Block>, b: Block) {
    forall d :: d in ds ==> !Overlap(g, d, b)
  }

  lemma NotNullNotEmpty(g: Geometry, c: Contents, s: Shadow, l: nat)
    requires Linked(g, c, s) && l <= g.depth
    ensures l < |c.heads| && (c.heads[l] != Null <==> s.lists[l] != [])
  {
    HeadInArena(g, c, s, l);
  }

  /** Handing out the block that may still have a free buddy leaves no free buddies. */
  lemma HandedOutFacts(g: Geometry, s: Shadow, s': Shadow, b: Block)
    requires g.minsize > 0 && Tiles(g, s.blocks) && s.used <= s.blocks && b in s.Free()
    requires NoBuddiesBut(g, s.Free(), b)
    requires s'.blocks == s.blocks && s'.used == s.used + {b}
    ensures NoBuddies(g, s'.Free()) && Available(g, s.used, b) && b !in s.used
  {
    assert s'.Free() == s.Free() - {b};
  }

  /** A write inside a block that is handed out. */
  lemma ClientFacts(g: Geometry, c: Contents, s: Shadow, b: Block, off: nat, cells: seq<Cell>)
    requires Linked(g, c, s) && b in s.used && b.off <= off && off + |cells| <= End(g, b)
    ensures off + |cells| <= |c.mem|
    ensures var c' := c.(mem := Patch(c.mem, off, cells));
            Linked(g, c', s) && SameBlocks(g, c.mem, c'.mem, s.used - {b})
  {
    forall d | d in s.Free() ensures off + |cells| <= d.off || End(g, d) <= off {
      assert !Overlap(g, d, b);
    }
    WriteElsewhere(g, c, s, off, cells);
    forall o | o in s.used - {b} ensures SameBlock(g, c.mem, Patch(c.mem, off, cells), o) {
      assert !Overlap(g, o, b);
    }
  }

  /** Clearing a whole block that is handed out. */
  lemma ClearFacts(g: Geometry, c: Contents, s: Shadow, b: Block)
    requires Linked(g, c, s) && b in s.used
    ensures End(g, b) <= |c.mem|
    ensures var c' := c.(mem := Patch(c.mem, b.off, Repeat(Byte(0), g.BlockSize(b.level))));
            Linked(g, c', s) && SameBlocks(g, c.mem, c'.mem, s.used - {b}) && BlockZero(g, c'.mem, b)
  {
    var size := g.BlockSize(b.level);
    ClientFacts(g, c, s, b, b.off, Repeat(Byte(0), size));
    var mem' := Patch(c.mem, b.off, Repeat(Byte(0), size));
    forall x | b.off <= x < End(g, b) ensures mem'[x] == Byte(0) {
      assert mem'[x] == mem'[b.off..b.off + size][x - b.off];
    }
  }

  /** Zeroing the header of a block that is on no list. */
  lemma HeaderWrite(g: Geometry, c: Contents, s: Shadow, b: Block, others: set<Block>)
    requires Linked(g, c, s) && IsBlock(g, b) && BodyZero(g, c.mem, b) && AllBlocks(g, others)
    requires ApartFrom(g, s.Free() + others, b)
    ensures b.off + HEADER_SIZE <= |c.mem|
    ensures var c' := c.(mem := Patch(c.mem, b.off, Repeat(Byte(0), HEADER_SIZE)));
            && Linked(g, c', s) && BlockZero(g, c'.mem, b) && SameBlocks(g, c.mem, c'.mem, others)
  {
    hide BitsMatch, Threads, ListsMatch, BodiesZero, Disjoint;
    BlockOffsetAligned16(g, b);
    var mem' := Patch(c.mem, b.off, Repeat(Byte(0), HEADER_SIZE));
    forall d | d in s.Free() ensures b.off + HEADER_SIZE <= d.off || End(g, d) <= b.off {
      assert d in s.Free() + others;
    }
    WriteElsewhere(g, c, s, b.off, Repeat(Byte(0), HEADER_SIZE));
    forall o | o in others ensures SameBlock(g, c.mem, mem', o) {
      assert o in s.Free() + others;
    }
    forall x | b.off <= x < End(g, b) ensures mem'[x] == Byte(0) {
      if x < b.off + HEADER_SIZE {
        assert mem'[x] == mem'[b.off..b.off + HEADER_SIZE][x - b.off];
      }
    }
  }

  // ---------- Coalescing ----------

  /** A block got back may have a free buddy; no other pair is new. */
  lemma GotBackFacts(g: Geometry, s: Shadow, s': Shadow, b: Block)
    requires g.minsize > 0 && AllBlocks(g, s.blocks) && s.used <= s.blocks && b in s.used && NoBuddies(g, s.Free())
    requires s'.blocks == s.blocks && s'.used == s.used - {b}
    ensures s'.Free() == s.Free() + {b} && NoBuddiesBut(g, s'.Free(), b)
  {
    assert s'.Free() == s.Free() + {b};
  }

  /** What joining a free block with its free buddy needs, and leaves. */
  lemma MergeFacts(g: Geometry, s: Shadow, b: Block)
    requires g.minsize > 0 && Tiles(g, s.blocks) && s.used <= s.blocks && b.level > 0
    requires b in s.Free() && Buddy(g, b) in s.Free() && NoBuddiesBut(g, s.Free(), b)
    ensures var p := Parent(g, b);
            && IsBlock(g, p) && p !in s.blocks
            && Tiles(g, s.blocks - {b} - {Buddy(g, b)} + {p})
            && (s.blocks - {b} - {Buddy(g, b)} + {p}) - s.used == s.Free() - {b} - {Buddy(g, b)} + {p}
            && NoBuddiesBut(g, s.Free() - {b} - {Buddy(g, b)} + {p}, p)
            && forall d :: d in s.blocks - {b} - {Buddy(g, b)} ==> !Overlap(g, d, p)
  {
    var p, d := Parent(g, b), Buddy(g, b);
    MergeTiles(g, s.blocks, b);
    assert s.blocks - {b} - {d} == s.blocks - {b, d};
    var free' := s.Free() - {b} - {d} + {p};
    assert forall c :: c in free' && c != p ==> c in s.Free() && c != b && c != d;
  }

  /** The lower and the higher of two buddies. */
  lemma LowerAndHigher(g: Geometry, b: Block)
    requires g.Valid() && IsBlock(g, b) && b.level > 0
    ensures var p := Parent(g, b); var d := Buddy(g, b);
            && IsBlock(g, p) && IsBlock(g, d) && d != b && d.level == b.level && Buddy(g, d) == b
            && (if b.off > d.off then d == LeftChild(p) && b == RightChild(g, p)
                else b == LeftChild(p) && d == RightChild(g, p))
            && !Overlap(g, b, d) && !Overlap(g, d, b)
  {
    BuddyFacts(g, b);
    ParentIsBlock(g, b);
    ChildrenAreBlocks(g, Parent(g, b));
  }

  /** Nothing else meets the higher of two free buddies. */
  lemma PairApart(g: Geometry, s: Shadow, b: Block, d: Block, high: Block, low: Block)
    requires g.minsize > 0 && AllBlocks(g, s.blocks) && Disjoint(g, s.blocks) && s.used <= s.blocks
    requires b in s.Free() && d in s.Free() && b != d
    requires (high == b && low == d) || (high == d && low == b)
    ensures high !in s.blocks - {b} - {d}
    ensures ApartFrom(g, (s.blocks - {b} - {d} - s.used) + (s.used + {low}), high)
    ensures AllBlocks(g, s.used + {low})
  {
  }

  lemma PairStays(g: Geometry, s: Shadow, b: Block, d: Block)
    requires g.minsize > 0 && AllBlocks(g, s.blocks) && Disjoint(g, s.blocks)
    requires b in s.Free() && d in s.Free() && b != d
    ensures d in (s.blocks - {b}) - s.used
    ensures forall h :: h in s.blocks - {b} ==> !Overlap(g, h, b)
  {
  }

  lemma PositionInList(g: Geometry, c: Contents, s: Shadow, d: Block) returns (k: nat)
    requires Linked(g, c, s) && d in s.Free()
    ensures d.level < |s.lists| && k < |s.lists[d.level]| && s.lists[d.level][k] == d.off
  {
    k :| 0 <= k < |s.lists[d.level]| && s.lists[d.level][k] == d.off;
  }

  /** A block that has left the arena keeps its zero body while the lists change. */
  lemma BodySurvives(g: Geometry, mem: seq<Cell>, mem': seq<Cell>, s: Shadow, b: Block)
    requires g.Valid() && |mem| == g.ArenaSize() && AllBlocks(g, s.blocks) && IsBlock(g, b)
    requires OnlyHeaders(mem, mem', s.Free()) && BodyZero(g, mem, b)
    requires forall h :: h in s.blocks ==> !Overlap(g, h, b)
    ensures BodyZero(g, mem', b)
  {
    HeadersOnlyKeepBody(g, mem, mem', s.Free(), b);
  }

  lemma LastPairGone(g: Geometry, s: Shadow, c: Block)
    requires g.minsize > 0 && AllBlocks(g, s.blocks) && c in s.Free() && NoBuddiesBut(g, s.Free(), c)
    requires !(c.level > 0 && Buddy(g, c) in s.Free())
    ensures NoBuddies(g, s.Free())
  {
    forall b | b in s.Free() && b.level > 0 ensures Buddy(g, b) !in s.Free() {
      BuddyFacts(g, b);
    }
  }

  lemma JoinedBodyZero(g: Geometry, mem: seq<Cell>, p: Block)
    requires g.Valid() && IsBlock(g, p) && p.level < g.depth
    requires BodyZero(g, mem, LeftChild(p)) && BlockZero(g, mem, RightChild(g, p))
    ensures BodyZero(g, mem, p)
  {
    ChildrenAreBlocks(g, p);
  }

  // ---------- The empty arena ----------

  lemma EmptyIsLinked(g: Geometry, c: Contents, s: Shadow)
    requires g.Valid() && s.blocks == {} && s.used == {} && s.lists == seq(g.depth + 1, _ => [])
    requires |c.table| == |c.malloc| == Pow2(g.depth + 1) && |c.heads| == g.depth + 1 && |c.mem| == g.ArenaSize()
    requires (forall i :: 0 <= i < |c.table| ==> !c.table[i]) && (forall i :: 0 <= i < |c.malloc| ==> !c.malloc[i])
    requires (forall l :: 0 <= l < |c.heads| ==> c.heads[l] == Null)
    requires (forall x :: 0 <= x < |c.mem| ==> c.mem[x] == Byte(0))
    ensures Linked(g, c, s)
    ensures BodyZero(g, c.mem, Block(0, 0))
  {
    forall b | IsBlock(g, b) ensures BitIndex(g, b) < |c.table| {
      BitIndexWithinTable(g, b);
    }
  }

  lemma FirstBlockFacts(g: Geometry)
    requires g.minsize > 0
    ensures IsBlock(g, Block(0, 0)) && Tiles(g, {Block(0, 0)}) && NoBuddies(g, {Block(0, 0)})
  {
    WholeArenaTiles(g);
  }

  /** When everything has been freed, in whatever order, the heap is as `sh_init` left it: one
      block of level 0, one list entry, one bit, and not a byte of data. */
  lemma AllFreedIsInitial(g: Geometry, c: Contents, s: Shadow)
    requires Linked(g, c, s) && Tiles(g, s.blocks) && NoBuddies(g, s.Free()) && s.used == {}
    ensures s.blocks == {Block(0, 0)}
    ensures c.heads[0] == Chunk(0) && forall l :: 1 <= l < |c.heads| ==> c.heads[l] == Null
    ensures forall b :: IsBlock(g, b) ==> BitIndex(g, b) < |c.table| == |c.malloc|
    ensures forall b :: IsBlock(g, b) ==> !c.malloc[BitIndex(g, b)] && (c.table[BitIndex(g, b)] <==> b == Block(0, 0))
    ensures HeaderIs(c.mem, 0, Null, HeadSlot(0))
    ensures forall x :: HEADER_SIZE <= x < |c.mem| ==> c.mem[x] == Byte(0)
  {
    assert s.Free() == s.blocks;
    NothingUsedIsWhole(g, s.blocks);
    var whole := Block(0, 0);
    assert whole in s.Free();
    HeadInArena(g, c, s, 0);
    assert 0 in s.lists[0];
    assert NoDuplicates(s.lists[0]);
    assert |s.lists[0]| == 1;
    forall l | 1 <= l < |c.heads| ensures c.heads[l] == Null {
      HeadInArena(g, c, s, l);
    }
    assert BodyZero(g, c.mem, whole);
  }
}
