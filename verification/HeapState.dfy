/** How the tables, the list heads and the bytes of the secure arena (crypto/mem_sec.c) represent
    a set of blocks, and how each elementary change of the representation changes that set. */
module HeapState {
  import opened Arithmetic
  import opened Blocks
  import opened Tiling
  import opened FreeLists

  // ---------- Bit tables ----------

  /** The bits of a table are exactly the blocks of `s`. */
  ghost predicate BitsMatch(g: Geometry, bits: seq<bool>, s: set<Block>)
    requires g.minsize > 0
  {
    && |bits| == Pow2(g.depth + 1)
    && !bits[0]
    && forall b :: IsBlock(g, b) ==> BitIndex(g, b) < |bits| && (bits[BitIndex(g, b)] <==> b in s)
  }

  lemma SetBitMatches(g: Geometry, bits: seq<bool>, s: set<Block>, b: Block)
    requires g.minsize > 0 && BitsMatch(g, bits, s) && IsBlock(g, b)
    ensures BitIndex(g, b) < |bits|
    ensures BitsMatch(g, bits[BitIndex(g, b) := true], s + {b})
    ensures BitsMatch(g, bits[BitIndex(g, b) := false], s - {b})
  {
    BitIndexWithinTable(g, b);
    forall c | IsBlock(g, c) && BitIndex(g, c) == BitIndex(g, b) ensures c == b {
      BitIndexInjective(g, b, c);
    }
  }

  // ---------- Lists ----------

  ghost predicate NoDuplicates(list: seq<nat>) {
    forall i, j :: 0 <= i < j < |list| ==> list[i] != list[j]
  }

  /** List `l` names every level-`l` block of `free` once, and nothing else. */
  ghost predicate ListsMatch(g: Geometry, lists: seq<seq<nat>>, free: set<Block>) {
    && |lists| == g.depth + 1
    && (forall l, k :: 0 <= l < |lists| && 0 <= k < |lists[l]| ==> Block(lists[l][k], l) in free)
    && (forall b :: b in free ==> b.level <= g.depth && b.off in lists[b.level])
    && (forall l :: 0 <= l < |lists| ==> NoDuplicates(lists[l]))
  }

  ghost predicate Threads(heads: seq<Pointer>, mem: seq<Cell>, lists: seq<seq<nat>>) {
    && |heads| == |lists|
    && forall l :: 0 <= l < |lists| ==> Threaded(heads[l], mem, l, lists[l])
  }

  ghost predicate InHeader(x: nat, s: set<Block>) {
    exists b :: b in s && b.off <= x < b.off + HEADER_SIZE
  }

  /** The two memories differ at most in list headers of blocks of `s`. */
  ghost predicate OnlyHeaders(mem: seq<Cell>, mem': seq<Cell>, s: set<Block>) {
    && |mem| == |mem'|
    && forall x: nat :: x < |mem| && !InHeader(x, s) ==> mem[x] == mem'[x]
  }

  lemma BlocksApart(g: Geometry, a: Block, b: Block)
    requires g.Valid() && IsBlock(g, a) && IsBlock(g, b) && !Overlap(g, a, b)
    ensures Apart(a.off, b.off)
  {
    BlockOffsetAligned16(g, a);
    BlockOffsetAligned16(g, b);
  }

  lemma ListApart(g: Geometry, lists: seq<seq<nat>>, free: set<Block>, l: nat)
    requires g.Valid() && AllBlocks(g, free) && Disjoint(g, free) && ListsMatch(g, lists, free) && l <= g.depth
    ensures AllApart(lists[l])
  {
    forall i, j | 0 <= i < j < |lists[l]| ensures Apart(lists[l][i], lists[l][j]) {
      BlocksApart(g, Block(lists[l][i], l), Block(lists[l][j], l));
    }
  }

  lemma OtherListApart(g: Geometry, lists: seq<seq<nat>>, free: set<Block>, b: Block, l: nat, k: nat)
    requires g.Valid() && AllBlocks(g, free) && ListsMatch(g, lists, free)
    requires IsBlock(g, b) && l <= g.depth && k < |lists[l]|
    requires Block(lists[l][k], l) != b ==> !Overlap(g, Block(lists[l][k], l), b)
    ensures Block(lists[l][k], l) != b ==> Apart(lists[l][k], b.off)
  {
    if Block(lists[l][k], l) != b {
      BlocksApart(g, Block(lists[l][k], l), b);
    }
  }

  lemma AddListsMatch(g: Geometry, lists: seq<seq<nat>>, free: set<Block>, b: Block)
    requires ListsMatch(g, lists, free) && b !in free && b.level <= g.depth
    ensures ListsMatch(g, lists[b.level := [b.off] + lists[b.level]], free + {b})
  {
    var l := b.level;
    var list' := [b.off] + lists[l];
    assert b.off !in lists[l];
    forall c | c in free + {b} && c.level == l ensures c.off in list' {
      if c != b {
        assert c.off in lists[l];
      }
    }
  }

  lemma RemoveListsMatch(g: Geometry, lists: seq<seq<nat>>, free: set<Block>, b: Block, k: nat)
    requires ListsMatch(g, lists, free) && b.level <= g.depth
    requires k < |lists[b.level]| && lists[b.level][k] == b.off
    ensures b in free
    ensures ListsMatch(g, lists[b.level := Without(lists[b.level], k)], free - {b})
  {
    var l := b.level;
    var list, list' := lists[l], Without(lists[l], k);
    assert Block(lists[l][k], l) in free;
    forall j | 0 <= j < |list'| ensures Block(list'[j], l) in free - {b} {
      var i := if j < k then j else j + 1;
      assert list'[j] == list[i];
      assert Block(lists[l][i], l) in free;
    }
    forall c | c in free - {b} && c.level == l ensures c.off in list' {
      var i :| 0 <= i < |list| && list[i] == c.off;
      assert i != k;
      assert list'[if i < k then i else i - 1] == c.off;
    }
    assert NoDuplicates(list') by {
      assert NoDuplicates(lists[l]);
    }
  }

  /** Adding a block in front of its list keeps every list threaded. */
  lemma AddKeepsThreads(g: Geometry, heads: seq<Pointer>, mem: seq<Cell>, lists: seq<seq<nat>>, free: set<Block>,
                        b: Block)
    requires g.Valid() && |mem| == g.ArenaSize() && AllBlocks(g, free) && Disjoint(g, free)
    requires Threads(heads, mem, lists) && ListsMatch(g, lists, free) && IsBlock(g, b)
    requires b !in free && forall c :: c in free ==> !Overlap(g, c, b)
    ensures b.off + HEADER_SIZE <= |mem|
    ensures heads[b.level].Chunk? ==> heads[b.level].off + HEADER_SIZE <= |mem|
    ensures Threads(heads[b.level := Chunk(b.off)], AddMemory(mem, heads[b.level], b.level, b.off),
                    lists[b.level := [b.off] + lists[b.level]])
    ensures OnlyHeaders(mem, AddMemory(mem, heads[b.level], b.level, b.off), free + {b})
  {
    var l, head := b.level, heads[b.level];
    AddKeepsOwn(g, heads, mem, lists, free, b);
    var mem' := AddMemory(mem, head, l, b.off);
    var heads', lists' := heads[l := Chunk(b.off)], lists[l := [b.off] + lists[l]];
    forall l' | 0 <= l' < |lists'| ensures Threaded(heads'[l'], mem', l', lists'[l']) {
      if l' != l {
        AddKeepsOther(g, heads, mem, lists, free, b, l');
      }
    }
    AddOnlyHeaders(g, heads, mem, lists, free, b);
  }

  lemma AddKeepsOwn(g: Geometry, heads: seq<Pointer>, mem: seq<Cell>, lists: seq<seq<nat>>, free: set<Block>, b: Block)
    requires g.Valid() && |mem| == g.ArenaSize() && AllBlocks(g, free) && Disjoint(g, free)
    requires Threads(heads, mem, lists) && ListsMatch(g, lists, free) && IsBlock(g, b)
    requires b !in free && forall c :: c in free ==> !Overlap(g, c, b)
    ensures b.off + HEADER_SIZE <= |mem|
    ensures heads[b.level].Chunk? ==> heads[b.level].off + HEADER_SIZE <= |mem|
    ensures Threaded(Chunk(b.off), AddMemory(mem, heads[b.level], b.level, b.off), b.level, [b.off] + lists[b.level])
  {
    var l := b.level;
    BlockOffsetAligned16(g, b);
    ListApart(g, lists, free, l);
    assert Threaded(heads[l], mem, l, lists[l]);
    forall k | 0 <= k < |lists[l]| ensures Apart(lists[l][k], b.off) {
      assert Block(lists[l][k], l) in free;
      OtherListApart(g, lists, free, b, l, k);
    }
    AddThreads(heads[l], mem, l, lists[l], b.off);
  }

  lemma AddOnlyHeaders(g: Geometry, heads: seq<Pointer>, mem: seq<Cell>, lists: seq<seq<nat>>, free: set<Block>,
                       b: Block)
    requires ListsMatch(g, lists, free) && b.level <= g.depth && |heads| == |lists|
    requires heads[b.level] == FirstOf(lists[b.level])
    requires b.off + HEADER_SIZE <= |mem|
    requires heads[b.level].Chunk? ==> heads[b.level].off + HEADER_SIZE <= |mem|
    ensures OnlyHeaders(mem, AddMemory(mem, heads[b.level], b.level, b.off), free + {b})
  {
    var l, head := b.level, heads[b.level];
    var mem' := AddMemory(mem, head, l, b.off);
    assert b in free + {b};
    assert head.Chunk? ==> Block(lists[l][0], l) in free + {b};
    forall x: nat | x < |mem| && !InHeader(x, free + {b}) ensures mem[x] == mem'[x] {
      AddMemoryFrame(mem, head, l, b.off, x);
    }
  }

  lemma AddKeepsOther(g: Geometry, heads: seq<Pointer>, mem: seq<Cell>, lists: seq<seq<nat>>, free: set<Block>,
                      b: Block, l': nat)
    requires g.Valid() && |mem| == g.ArenaSize() && AllBlocks(g, free) && Disjoint(g, free)
    requires Threads(heads, mem, lists) && ListsMatch(g, lists, free) && IsBlock(g, b)
    requires b !in free && forall c :: c in free ==> !Overlap(g, c, b)
    requires l' < |lists| && l' != b.level && b.off + HEADER_SIZE <= |mem|
    requires heads[b.level].Chunk? ==> heads[b.level].off + HEADER_SIZE <= |mem|
    ensures Threaded(heads[l'], AddMemory(mem, heads[b.level], b.level, b.off), l', lists[l'])
  {
    var l, head := b.level, heads[b.level];
    var mem' := AddMemory(mem, head, l, b.off);
    assert Threaded(head, mem, l, lists[l]);
    assert Threaded(heads[l'], mem, l', lists[l']);
    forall k | 0 <= k < |lists[l']| ensures SameHeader(mem, mem', lists[l'][k]) {
      assert Block(lists[l'][k], l') in free;
      OtherListApart(g, lists, free, b, l', k);
      if lists[l] != [] {
        assert Block(lists[l][0], l) in free;
        OtherListApart(g, lists, free, Block(lists[l][0], l), l', k);
      }
      assert HeaderIs(mem, lists[l'][k], NextOf(lists[l'], k), PrevOf(l', lists[l'], k));
      AddMemoryKeepsHeader(mem, head, l, b.off, lists[l'][k]);
    }
    ThreadedFrame(heads[l'], mem, mem', l', lists[l']);
  }

  /** The neighbours of a list element lie in the arena. */
  lemma NeighboursInArena(head: Pointer, mem: seq<Cell>, level: nat, list: seq<nat>, k: nat)
    requires Threaded(head, mem, level, list) && k < |list|
    ensures HeaderIs(mem, list[k], NextOf(list, k), PrevOf(level, list, k))
    ensures NextOf(list, k).Chunk? ==> NextOf(list, k).off + HEADER_SIZE <= |mem|
    ensures PrevOf(level, list, k).NextField? ==> PrevOf(level, list, k).off + HEADER_SIZE <= |mem|
  {
    if k + 1 < |list| {
      assert HeaderIs(mem, list[k + 1], NextOf(list, k + 1), PrevOf(level, list, k + 1));
    }
    if k > 0 {
      assert HeaderIs(mem, list[k - 1], NextOf(list, k - 1), PrevOf(level, list, k - 1));
    }
  }

  function RemovedHead(heads: seq<Pointer>, level: nat, next: Pointer, prev: Pointer): seq<Pointer>
    requires level < |heads|
  {
    if prev == HeadSlot(level) then heads[level := next] else heads
  }

  /** Unlinking a block keeps every list threaded. */
  lemma RemoveKeepsThreads(g: Geometry, heads: seq<Pointer>, mem: seq<Cell>, lists: seq<seq<nat>>, free: set<Block>,
                           l: nat, k: nat)
    requires g.Valid() && |mem| == g.ArenaSize() && AllBlocks(g, free) && Disjoint(g, free)
    requires Threads(heads, mem, lists) && ListsMatch(g, lists, free)
    requires l <= g.depth && k < |lists[l]|
    ensures NextOf(lists[l], k).Chunk? ==> NextOf(lists[l], k).off + HEADER_SIZE <= |mem|
    ensures PrevOf(l, lists[l], k).NextField? ==> PrevOf(l, lists[l], k).off + HEADER_SIZE <= |mem|
    ensures Threads(RemovedHead(heads, l, NextOf(lists[l], k), PrevOf(l, lists[l], k)),
                    RemoveMemory(mem, NextOf(lists[l], k), PrevOf(l, lists[l], k)),
                    lists[l := Without(lists[l], k)])
    ensures OnlyHeaders(mem, RemoveMemory(mem, NextOf(lists[l], k), PrevOf(l, lists[l], k)), free)
  {
    var list := lists[l];
    var next, prev := NextOf(list, k), PrevOf(l, list, k);
    assert Threaded(heads[l], mem, l, list);
    NeighboursInArena(heads[l], mem, l, list, k);
    ListApart(g, lists, free, l);
    RemoveThreads(heads[l], mem, l, list, k);
    var mem' := RemoveMemory(mem, next, prev);
    var heads', lists' := RemovedHead(heads, l, next, prev), lists[l := Without(list, k)];
    assert heads'[l] == if k == 0 then next else heads[l];
    forall l' | 0 <= l' < |lists'| ensures Threaded(heads'[l'], mem', l', lists'[l']) {
      if l' != l {
        RemoveKeepsOther(g, heads, mem, lists, free, l, k, l');
      }
    }
    RemoveOnlyHeaders(g, mem, lists, free, l, k);
  }

  lemma RemoveOnlyHeaders(g: Geometry, mem: seq<Cell>, lists: seq<seq<nat>>, free: set<Block>, l: nat, k: nat)
    requires ListsMatch(g, lists, free) && l <= g.depth && k < |lists[l]|
    requires NextOf(lists[l], k).Chunk? ==> NextOf(lists[l], k).off + HEADER_SIZE <= |mem|
    requires PrevOf(l, lists[l], k).NextField? ==> PrevOf(l, lists[l], k).off + HEADER_SIZE <= |mem|
    ensures OnlyHeaders(mem, RemoveMemory(mem, NextOf(lists[l], k), PrevOf(l, lists[l], k)), free)
  {
    var next, prev := NextOf(lists[l], k), PrevOf(l, lists[l], k);
    var mem' := RemoveMemory(mem, next, prev);
    assert k + 1 < |lists[l]| ==> Block(lists[l][k + 1], l) in free;
    assert k > 0 ==> Block(lists[l][k - 1], l) in free;
    forall x: nat | x < |mem| && !InHeader(x, free) ensures mem[x] == mem'[x] {
      RemoveMemoryFrame(mem, next, prev, x);
    }
  }

  lemma RemoveKeepsOther(g: Geometry, heads: seq<Pointer>, mem: seq<Cell>, lists: seq<seq<nat>>, free: set<Block>,
                         l: nat, k: nat, l': nat)
    requires g.Valid() && |mem| == g.ArenaSize() && AllBlocks(g, free) && Disjoint(g, free)
    requires Threads(heads, mem, lists) && ListsMatch(g, lists, free)
    requires l <= g.depth && k < |lists[l]| && l' < |lists| && l' != l
    requires NextOf(lists[l], k).Chunk? ==> NextOf(lists[l], k).off + HEADER_SIZE <= |mem|
    requires PrevOf(l, lists[l], k).NextField? ==> PrevOf(l, lists[l], k).off + HEADER_SIZE <= |mem|
    ensures Threaded(heads[l'], RemoveMemory(mem, NextOf(lists[l], k), PrevOf(l, lists[l], k)), l', lists[l'])
  {
    var list := lists[l];
    var next, prev := NextOf(list, k), PrevOf(l, list, k);
    var mem' := RemoveMemory(mem, next, prev);
    assert Threaded(heads[l'], mem, l', lists[l']);
    forall j | 0 <= j < |lists[l']| ensures SameHeader(mem, mem', lists[l'][j]) {
      assert Block(lists[l'][j], l') in free;
      if k + 1 < |list| {
        assert Block(lists[l][k + 1], l) in free;
        OtherListApart(g, lists, free, Block(lists[l][k + 1], l), l', j);
      }
      if k > 0 {
        assert Block(lists[l][k - 1], l) in free;
        OtherListApart(g, lists, free, Block(lists[l][k - 1], l), l', j);
      }
      assert HeaderIs(mem, lists[l'][j], NextOf(lists[l'], j), PrevOf(l', lists[l'], j));
      RemoveMemoryKeepsHeader(mem, next, prev, lists[l'][j]);
    }
    ThreadedFrame(heads[l'], mem, mem', l', lists[l']);
  }
}
