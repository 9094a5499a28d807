/** The secure heap of crypto/mem_sec.c: a buddy allocator whose bookkeeping lives in two bit
    tables, an array of list heads, and list headers inside the free blocks themselves.  Pointers
    into the arena are offsets from its start; `OPENSSL_assert` is `assert`. */
module SecureHeap {
  import opened Arithmetic
  import opened Blocks
  import opened Tiling
  import opened FreeLists
  import opened Sequences
  import opened HeapState
  import opened HeapSteps
  import opened Accounting

  class Heap {
    var arenaSize: nat
    var minsize: nat
    var freelistSize: int
    var bittableSize: nat
    var freelist: array<Pointer>
    var bittable: array<bool>
    var bitmalloc: array<bool>
    var arena: array<Cell>
    var secureMemUsed: nat
    ghost var g: Geometry
    ghost var s: Shadow

    ghost function Now(): Contents
      reads this, freelist, bittable, bitmalloc, arena
    {
      Contents(bittable[..], bitmalloc[..], freelist[..], arena[..])
    }

    ghost predicate Fields()
      reads this
    {
      && g.Valid() && arenaSize == g.ArenaSize() && minsize == g.minsize
      && freelistSize == g.depth + 1 && bittableSize == Pow2(g.depth + 1)
      && freelist.Length == freelistSize && bittable.Length == bitmalloc.Length == bittableSize
      && arena.Length == arenaSize && bittable != bitmalloc
    }

    /** The representation is sound and the blocks tile the arena; free buddies may exist. */
    ghost predicate Sound()
      reads this, freelist, bittable, bitmalloc, arena
    {
      Fields() && Linked(g, Now(), s) && Tiles(g, s.blocks)
    }

    /** What holds between calls. */
    ghost predicate Valid()
      reads this, freelist, bittable, bitmalloc, arena
    {
      Sound() && NoBuddies(g, s.Free()) && secureMemUsed == TotalSize(g, s.used)
    }

    // ---------- Memory ----------

    method LoadPointer(off: nat, ghost p: Pointer) returns (r: Pointer)
      requires off + 8 <= arena.Length && arena[off..off + 8] == Encode(p)
      ensures r == p
    {
      assert arena[off] == Encode(p)[0] by {
        assert arena[off..off + 8][0] == arena[off];
      }
      match arena[off]
      case Byte(_) => r := Null;
      case Fragment(q, _) => r := q;
    }

    method StoreCells(off: nat, cells: seq<Cell>)
      requires off + |cells| <= arena.Length
      modifies arena
      ensures arena[..] == Patch(old(arena[..]), off, cells)
    {
      forall k | 0 <= k < |cells| {
        arena[off + k] := cells[k];
      }
      assert arena[off..off + |cells|] == cells;
    }

    // ---------- Bits ----------

    method TestBit(ptr: nat, list: int, table: array<bool>, ghost b: Block) returns (r: bool)
      requires Fields() && IsBlock(g, b) && ptr == b.off && list == b.level
      requires table.Length == bittableSize
      ensures BitIndex(g, b) < table.Length && r == table[BitIndex(g, b)]
    {
      BitFacts(b);
      assert 0 <= list < freelistSize;
      assert ptr % (arenaSize / Pow2(list)) == 0;
      var bit := Pow2(list) + ptr / (arenaSize / Pow2(list));
      assert 0 < bit < bittableSize;
      r := table[bit];
    }

    method ClearBit(ptr: nat, list: int, table: array<bool>, ghost b: Block)
      requires Fields() && IsBlock(g, b) && ptr == b.off && list == b.level
      requires table.Length == bittableSize && BitIndex(g, b) < table.Length && table[BitIndex(g, b)]
      modifies table
      ensures table[..] == old(table[..])[BitIndex(g, b) := false]
    {
      BitFacts(b);
      assert 0 <= list < freelistSize;
      assert ptr % (arenaSize / Pow2(list)) == 0;
      var bit := Pow2(list) + ptr / (arenaSize / Pow2(list));
      assert 0 < bit < bittableSize;
      assert table[bit];
      table[bit] := false;
    }

    method SetBit(ptr: nat, list: int, table: array<bool>, ghost b: Block)
      requires Fields() && IsBlock(g, b) && ptr == b.off && list == b.level
      requires table.Length == bittableSize && BitIndex(g, b) < table.Length && !table[BitIndex(g, b)]
      modifies table
      ensures table[..] == old(table[..])[BitIndex(g, b) := true]
    {
      BitFacts(b);
      assert 0 <= list < freelistSize;
      assert ptr % (arenaSize / Pow2(list)) == 0;
      var bit := Pow2(list) + ptr / (arenaSize / Pow2(list));
      assert 0 < bit < bittableSize;
      assert !table[bit];
      table[bit] := true;
    }

    lemma BitFacts(b: Block)
      requires Fields() && IsBlock(g, b)
      ensures arenaSize / Pow2(b.level) == g.BlockSize(b.level)
      ensures 0 < BitIndex(g, b) < bittableSize
    {
      ShiftedArenaIsBlockSize(g, b.level);
      BitIndexWithinTable(g, b);
    }

    // ---------- Lists ----------

    method AddToList(list: nat, ptr: nat, ghost headNext: Pointer)
      requires Fields() && list < freelistSize && ptr + HEADER_SIZE <= arenaSize
      requires freelist[list].Null? || freelist[list].Chunk?
      requires freelist[list].Chunk? ==> freelist[list].off + HEADER_SIZE <= arenaSize && Apart(freelist[list].off, ptr)
      requires freelist[list].Chunk? ==> HeaderIs(arena[..], freelist[list].off, headNext, HeadSlot(list))
      modifies freelist, arena
      ensures freelist[..] == old(freelist[..])[list := Chunk(ptr)]
      ensures arena[..] == AddMemory(old(arena[..]), old(freelist[list]), list, ptr)
    {
      hide Patch, HeaderIs, Encode;
      assert list < freelist.Length;                       // WITHIN_FREELIST(list)
      assert ptr < arena.Length;                           // WITHIN_ARENA(ptr)
      var next := freelist[list];
      ghost var mem := arena[..];
      StoreCells(ptr, Encode(next));
      assert next == Null || next.off < arena.Length;      // temp->next == NULL || WITHIN_ARENA(temp->next)
      StoreCells(ptr + 8, Encode(HeadSlot(list)));
      if next != Null {
        BackPointerKept(mem, next, list, ptr, headNext);
        assert arena[next.off + 8..next.off + 16] == arena[..][next.off + 8..next.off + 16];
        var back := LoadPointer(next.off + 8, HeadSlot(list));
        assert back == HeadSlot(list);                     // temp->next->p_next == list
        StoreCells(next.off + 8, Encode(NextField(ptr)));
      }
      freelist[list] := Chunk(ptr);
    }

    method RemoveFromList(ptr: nat, ghost level: nat, ghost next: Pointer, ghost prev: Pointer)
      requires Fields() && level < freelistSize && HeaderIs(arena[..], ptr, next, prev)
      requires next == Null || (next.Chunk? && next.off + HEADER_SIZE <= arenaSize && Apart(ptr, next.off))
      requires prev == HeadSlot(level) || (prev.NextField? && prev.off + HEADER_SIZE <= arenaSize)
      modifies freelist, arena
      ensures freelist[..] == RemovedHead(old(freelist[..]), level, next, prev)
      ensures arena[..] == RemoveMemory(old(arena[..]), next, prev)
    {
      hide Patch, Encode;
      assert arena[ptr..ptr + 8] == arena[..][ptr..ptr + 8];
      assert arena[ptr + 8..ptr + 16] == arena[..][ptr + 8..ptr + 16];
      var n := LoadPointer(ptr, next);
      var p := LoadPointer(ptr + 8, prev);
      if n != Null {
        StoreCells(n.off + 8, Encode(p));
      }
      if p.HeadSlot? {
        freelist[p.level] := n;
      } else {
        StoreCells(p.off, Encode(n));
      }
      if n == Null {
        return;
      }
      assert (p.HeadSlot? && p.level < freelist.Length) || (p.NextField? && p.off < arena.Length);
    }

    /** Clears a free block's `bittable` bit and unlinks it. */
    method DetachFree(ptr: nat, list: int, ghost b: Block, ghost k: nat)
      requires Fields() && Linked(g, Now(), s)
      requires list == b.level && ptr == b.off && b.level < |s.lists|
      requires k < |s.lists[b.level]| && s.lists[b.level][k] == b.off
      modifies `s, freelist, bittable, arena
      ensures Fields() && Linked(g, Now(), s)
      ensures b in old(s.Free()) && IsBlock(g, b)
      ensures s == Shadow(old(s.blocks) - {b}, old(s.used), old(s.lists)[b.level := Without(old(s.lists)[b.level], k)])
      ensures BodyZero(g, arena[..], b) && SameBlocks(g, old(arena[..]), arena[..], s.used)
      ensures OnlyHeaders(old(arena[..]), arena[..], old(s.Free()))
    {
      hide BitsMatch, Threads, ListsMatch, BodiesZero, AllBlocks, Disjoint, Covering, SameBlocks, NoBuddies,
           NoBuddiesBut,
           RemoveMemory, HeaderIs, BodyZero, OnlyHeaders;
      ghost var c := Now();
      TakeFree(g, c, s, b, k);
      ghost var c' := Unlinked(c, s.lists[b.level], b.level, k).(table := c.table[BitIndex(g, b) := false]);
      ghost var next, prev := NextOf(s.lists[b.level], k), PrevOf(b.level, s.lists[b.level], k);
      ElementFacts(g, c, s, b, k);
      var taken := TestBit(ptr, list, bitmalloc, b);
      assert !taken;
      ClearBit(ptr, list, bittable, b);
      RemoveFromList(ptr, b.level, next, prev);
      assert Now() == c';
      s := Shadow(s.blocks - {b}, s.used, s.lists[b.level := Without(s.lists[b.level], k)]);
    }

    /** Sets a new free block's `bittable` bit and pushes it on its list. */
    method AttachFree(ptr: nat, list: int, ghost b: Block)
      requires Fields() && Linked(g, Now(), s)
      requires list == b.level && ptr == b.off && IsBlock(g, b) && b !in s.blocks && BodyZero(g, arena[..], b)
      requires forall d :: d in s.blocks ==> !Overlap(g, d, b)
      modifies `s, freelist, bittable, arena
      ensures Fields() && Linked(g, Now(), s)
      ensures s == Shadow(old(s.blocks) + {b}, old(s.used), old(s.lists)[b.level := [b.off] + old(s.lists)[b.level]])
      ensures SameBlocks(g, old(arena[..]), arena[..], s.used)
      ensures OnlyHeaders(old(arena[..]), arena[..], s.Free())
    {
      hide BitsMatch, Threads, ListsMatch, BodiesZero, AllBlocks, Disjoint, Covering, SameBlocks, NoBuddies,
           NoBuddiesBut,
           AddMemory, HeaderIs, BodyZero, OnlyHeaders;
      ghost var c := Now();
      ghost var headNext := AttachFacts(g, c, s, b);
      ghost var c' := Pushed(c, b).(table := c.table[BitIndex(g, b) := true]);
      ghost var s' := Shadow(s.blocks + {b}, s.used, s.lists[b.level := [b.off] + s.lists[b.level]]);
      var taken := TestBit(ptr, list, bitmalloc, b);
      assert !taken;
      SetBit(ptr, list, bittable, b);
      AddToList(list, ptr, headNext);
      assert freelist[list] == Chunk(ptr) by { assert freelist[list] == freelist[..][list]; }
      assert Now() == c';
      s := s';
    }

    // ---------- Finding blocks ----------

    /** The level of the block that starts at `ptr`, recovered from the pointer alone. */
    method GetList(ptr: nat, ghost b: Block) returns (list: int)
      requires Fields() && Linked(g, Now(), s) && b in s.blocks && ptr == b.off
      ensures list == b.level
    {
      hide BitsMatch, Threads, ListsMatch, BodiesZero, AllBlocks, Disjoint, Covering, SameBlocks, NoBuddies,
           NoBuddiesBut;
      list := freelistSize - 1;
      var bit := (arenaSize + ptr) / minsize;
      BlockFacts(g, Now(), s, b);
      DeepestBit(g, b);
      while bit != 0
        invariant b.level <= list <= g.depth && IsBlock(g, Block(ptr, list))
        invariant bit == BitIndex(g, Block(ptr, list))
        decreases list
      {
        NoDeeperBit(g, Now(), s, b, list);
        if bittable[bit] {
          return;
        }
        HalveBit(g, b, list);
        assert bit % 2 == 0;
        bit := bit / 2;
        list := list - 1;
      }
      BitIndexWithinTable(g, Block(ptr, list));
    }

    /** The other half of the parent of a block, if it is free. */
    method FindMyBuddy(ptr: nat, list: int, ghost b: Block) returns (chunk: Pointer)
      requires Fields() && Linked(g, Now(), s) && IsBlock(g, b) && ptr == b.off && list == b.level
      ensures chunk == if HasFreeBuddy(b) then Chunk(Buddy(g, b).off) else Null
    {
      hide BitsMatch, Threads, ListsMatch, BodiesZero, AllBlocks, Disjoint, Covering, SameBlocks, NoBuddies,
           NoBuddiesBut;
      chunk := Null;
      BitFacts(b);
      BuddyBit(g, b);
      BuddyTest(g, Now(), s, b);
      var bit := FlipLowBit(Pow2(list) + ptr / (arenaSize / Pow2(list)));
      if bittable[bit] && !bitmalloc[bit] {
        chunk := Chunk((bit % Pow2(list)) * (arenaSize / Pow2(list)));
      }
    }

    // ---------- sh_malloc ----------

    /** Puts the two halves of a block that has just left the arena on their list. */
    method AttachHalves(ptr: nat, list: int, ghost b: Block)
      requires Fields() && Linked(g, Now(), s) && 0 <= b.level < g.depth && ptr == b.off && list == b.level + 1
      requires HalvesFit(g, s.blocks, b) && BodyZero(g, arena[..], b)
      modifies `s, freelist, bittable, arena
      ensures Fields() && Linked(g, Now(), s)
      ensures s.blocks == old(s.blocks) + {LeftChild(b)} + {RightChild(g, b)} && s.used == old(s.used)
      ensures |s.lists| == g.depth + 1 && s.lists[list] != [] && s.lists[list][0] == RightChild(g, b).off
      ensures SameBlocks(g, old(arena[..]), arena[..], s.used)
    {
      hide BitsMatch, Threads, ListsMatch, BodiesZero, AllBlocks, Disjoint, Covering, SameBlocks, NoBuddies,
           NoBuddiesBut;
      ghost var left, right, mem, blocks := LeftChild(b), RightChild(g, b), arena[..], s.blocks;
      HalvesZero(g, mem, b);
      var temp := ptr;
      AttachFree(temp, list, left);
      RightBodyStays(g, Now(), s, mem, b, blocks);
      ghost var mem1 := arena[..];
      // split in 2
      BitFacts(left);
      temp := temp + arenaSize / Pow2(list);
      AttachFree(temp, list, right);
      SameBlocksTransitive(g, mem, mem1, arena[..], s.used);
      ChildrenAreBlocks(g, b);
      var buddy := FindMyBuddy(temp, list, right);
      assert Chunk(temp - arenaSize / Pow2(list)) == buddy;
    }

    /** One round of the splitting loop: the first block of `slist` gives way to its halves. */
    method SplitHead(slist: int, ghost b: Block)
      requires Sound() && 0 <= slist < g.depth && s.lists[slist] != [] && b == Block(s.lists[slist][0], slist)
      requires NoBuddiesBut(g, s.Free(), b)
      modifies `s, freelist, bittable, arena
      ensures Sound() && s.used == old(s.used) && SameBlocks(g, old(arena[..]), arena[..], s.used)
      ensures s.lists[slist + 1] != [] && s.lists[slist + 1][0] == RightChild(g, b).off
      ensures s.blocks == old(s.blocks) - {b} + Halves(g, b)
      ensures NoBuddiesBut(g, s.Free(), RightChild(g, b))
    {
      hide BitsMatch, Threads, ListsMatch, BodiesZero, AllBlocks, Disjoint, Covering, SameBlocks, NoBuddies,
           NoBuddiesBut;
      ghost var before, mem := s, arena[..];
      ElementFacts(g, Now(), s, b, 0);
      SplitFacts(g, s, b);
      SplitLeavesOnePair(g, s, b);
      assert freelist[slist] == freelist[..][slist];
      var temp := freelist[slist].off;
      // remove from bigger list
      DetachFree(temp, slist, b, 0);
      ghost var mem1 := arena[..];
      StillNotFirst(g, Now(), s, b);
      assert freelist[slist] == freelist[..][slist];
      assert Chunk(temp) != freelist[slist];
      // done with bigger list; add both halves to the smaller one
      AttachHalves(temp, slist + 1, b);
      SameBlocksTransitive(g, mem, mem1, arena[..], s.used);
      assert s.blocks == before.blocks - {b} + Halves(g, b);
      assert s.Free() == before.Free() - {b} + Halves(g, b);
    }

    /** Marks the first block of a list as handed out and unlinks it. */
    method TakeFirst(list: int, ghost b: Block) returns (chunk: nat)
      requires Fields() && Linked(g, Now(), s) && 0 <= list <= g.depth
      requires s.lists[list] != [] && b == Block(s.lists[list][0], list)
      modifies `s, freelist, bitmalloc, arena
      ensures Fields() && Linked(g, Now(), s)
      ensures s.blocks == old(s.blocks) && s.used == old(s.used) + {b}
      ensures b in old(s.Free()) && IsBlock(g, b) && chunk == b.off
      ensures BodyZero(g, arena[..], b) && SameBlocks(g, old(arena[..]), arena[..], old(s.used))
    {
      hide BitsMatch, Threads, ListsMatch, BodiesZero, AllBlocks, Disjoint, Covering, SameBlocks, NoBuddies,
           NoBuddiesBut,
           RemoveMemory, HeaderIs, BodyZero;
      ghost var c := Now();
      HandOut(g, c, s, b, 0);
      ElementFacts(g, c, s, b, 0);
      ghost var c' := Unlinked(c, s.lists[list], list, 0).(malloc := c.malloc[BitIndex(g, b) := true]);
      ghost var s' := Shadow(s.blocks, s.used + {b}, s.lists[list := Without(s.lists[list], 0)]);
      assert freelist[list] == freelist[..][list];
      chunk := freelist[list].off;
      var present := TestBit(chunk, list, bittable, b);
      assert present;
      SetBit(chunk, list, bitmalloc, b);
      RemoveFromList(chunk, list, NextOf(s.lists[list], 0), HeadSlot(list));
      assert Now() == c';
      s := s';
    }

    /** `memset(ptr, 0, sizeof(SH_LIST))` on a block that is on no list. */
    method ZeroHeader(ptr: nat, ghost b: Block, ghost others: set<Block>)
      requires Fields() && Linked(g, Now(), s) && IsBlock(g, b) && ptr == b.off && BodyZero(g, arena[..], b)
      requires AllBlocks(g, others) && ApartFrom(g, s.Free() + others, b)
      modifies arena
      ensures Linked(g, Now(), s) && BlockZero(g, arena[..], b)
      ensures SameBlocks(g, old(arena[..]), arena[..], others)
    {
      hide BitsMatch, Threads, ListsMatch, BodiesZero, AllBlocks, Disjoint, Covering, SameBlocks, NoBuddies,
           NoBuddiesBut;
      ghost var c := Now();
      HeaderWrite(g, c, s, b, others);
      StoreCells(ptr, Repeat(Byte(0), HEADER_SIZE));
      assert Now() == c.(mem := Patch(c.mem, ptr, Repeat(Byte(0), HEADER_SIZE)));
    }

    /** Hands out the first block of a list, its header zeroed. */
    method PeelOff(list: int, ghost b: Block) returns (chunk: nat)
      requires Sound() && 0 <= list <= g.depth && s.lists[list] != [] && b == Block(s.lists[list][0], list)
      modifies `s, freelist, bitmalloc, arena
      ensures Sound() && s.blocks == old(s.blocks) && s.used == old(s.used) + {b}
      ensures b in old(s.Free()) && IsBlock(g, b) && chunk == b.off
      ensures BlockZero(g, arena[..], b) && SameBlocks(g, old(arena[..]), arena[..], old(s.used))
    {
      hide BitsMatch, Threads, ListsMatch, BodiesZero, AllBlocks, Disjoint, Covering, SameBlocks, NoBuddies,
           NoBuddiesBut;
      ghost var used, mem := s.used, arena[..];
      chunk := TakeFirst(list, b);
      PeeledFacts(g, Now(), s, used, b);
      assert chunk < arena.Length;                         // WITHIN_ARENA(chunk)
      ghost var mem1 := arena[..];
      ZeroHeader(chunk, b, used);
      SameBlocksTransitive(g, mem, mem1, arena[..], used);
    }

    /** The search loop: the nearest list from `list` upwards that is not empty, or -1. */
    method FindLarger(list: int) returns (slist: int)
      requires Fields() && 0 <= list <= g.depth
      ensures -1 <= slist <= list
      ensures slist >= 0 ==> freelist[slist] != Null
      ensures forall l :: slist < l <= list ==> freelist[l] == Null
    {
      slist := list;
      while slist >= 0 && freelist[slist] == Null
        invariant -1 <= slist <= list
        invariant forall l :: slist < l <= list ==> freelist[l] == Null
      {
        slist := slist - 1;
      }
    }

    /** The splitting loop: a free block on list `slist` yields one on list `list`. */
    method SplitDown(from: int, list: int)
      requires Sound() && NoBuddies(g, s.Free()) && 0 <= from <= list <= g.depth && s.lists[from] != []
      modifies `s, freelist, bittable, arena
      ensures Sound() && s.used == old(s.used) && SameBlocks(g, old(arena[..]), arena[..], s.used)
      ensures s.lists[list] != [] && NoBuddiesBut(g, s.Free(), Block(s.lists[list][0], list))
    {
      hide BitsMatch, Threads, ListsMatch, BodiesZero, AllBlocks, Disjoint, Covering, SameBlocks, NoBuddies,
           NoBuddiesBut;
      BeforeSplitting(g, Now(), s, arena[..], Block(s.lists[from][0], from));
      var slist := from;
      while slist != list
        invariant Sound() && 0 <= slist <= list && s.used == old(s.used)
        invariant SameBlocks(g, old(arena[..]), arena[..], s.used)
        invariant s.lists[slist] != [] && NoBuddiesBut(g, s.Free(), Block(s.lists[slist][0], slist))
        decreases list - slist
      {
        ghost var m := arena[..];
        SplitHead(slist, Block(s.lists[slist][0], slist));
        SameBlocksTransitive(g, old(arena[..]), m, arena[..], s.used);
        slist := slist + 1;
      }
    }

    /** Splits from list `slist` down to list `list` and hands out one block of the latter. */
    method SplitAndPeel(slist: int, list: int) returns (chunk: nat, ghost b: Block)
      requires Sound() && NoBuddies(g, s.Free()) && 0 <= slist <= list <= g.depth && s.lists[slist] != []
      modifies `s, freelist, bittable, bitmalloc, arena
      ensures Sound() && NoBuddies(g, s.Free())
      ensures SameBlocks(g, old(arena[..]), arena[..], old(s.used))
      ensures b.level == list && chunk == b.off && Available(g, old(s.used), b)
      ensures s.used == old(s.used) + {b} && b !in old(s.used) && BlockZero(g, arena[..], b)
    {
      hide BitsMatch, Threads, ListsMatch, BodiesZero, AllBlocks, Disjoint, Covering, SameBlocks, NoBuddies,
           NoBuddiesBut;
      ghost var mem := arena[..];
      // split larger entry
      SplitDown(slist, list);
      // peel off memory to hand back
      b := Block(s.lists[list][0], list);
      ghost var m, before := arena[..], s;
      chunk := PeelOff(list, b);
      SameBlocksTransitive(g, mem, m, arena[..], before.used);
      HandedOutFacts(g, before, s, b);
    }

    /** `sh_malloc`: NULL exactly when no block that could hold the request lies outside the blocks
        handed out; otherwise such a block, all zero, and no larger than `minsize` or less than
        twice the request. */
    method ShMalloc(size: nat) returns (r: Pointer, ghost b: Block)
      requires Sound() && NoBuddies(g, s.Free())
      modifies `s, freelist, bittable, bitmalloc, arena
      ensures Sound() && NoBuddies(g, s.Free())
      ensures SameBlocks(g, old(arena[..]), arena[..], old(s.used))
      ensures r == Null || r == Chunk(b.off)
      ensures r == Null ==> s == old(s) && Now() == old(Now())
      ensures r == Null <==> NoRoom(g, old(s.used), size)
      ensures r != Null ==> Available(g, old(s.used), b) && size <= g.BlockSize(b.level)
      ensures r != Null ==> g.BlockSize(b.level) == minsize || g.BlockSize(b.level) < 2 * size
      ensures r != Null ==> s.used == old(s.used) + {b} && b !in old(s.used) && BlockZero(g, arena[..], b)
    {
      hide BitsMatch, Threads, ListsMatch, BodiesZero, AllBlocks, Disjoint, Covering, SameBlocks, NoBuddies,
           NoBuddiesBut;
      b := Block(0, 0);
      SameBlocksReflexive(g, Now(), s, arena[..]);
      NoRoomExactly(g, s.used, size);
      if size > arenaSize {
        NothingFits(g, size);
        return Null, b;
      }
      var list := FindLevel(size);
      assert list >= 0;       // the source's NULL return for a negative list cannot happen
      // try to find a larger entry to split
      var slist := FindLarger(list);
      if slist < 0 {
        NothingLargeEnough(g, Now(), s, size, list);
        return Null, b;
      }
      NotNullNotEmpty(g, Now(), s, slist);
      assert freelist[slist] == freelist[..][slist];
      var chunk;
      chunk, b := SplitAndPeel(slist, list);
      FitsSmallest(g, size, list);
      return Chunk(chunk), b;
    }

    /** The rounding loop: the list whose blocks are the smallest that hold `size` bytes. */
    method FindLevel(size: nat) returns (list: int)
      requires Fields() && size <= arenaSize
      ensures 0 <= list <= g.depth && Fits(g, size, list)
    {
      list := freelistSize - 1;
      var i := minsize;
      while i < size
        invariant 0 <= list <= g.depth && i == g.BlockSize(list)
        invariant list < g.depth ==> g.BlockSize(list + 1) < size
        decreases list
      {
        list := list - 1;
        i := i * 2;
      }
    }

    // ---------- sh_free ----------

    /** Clears a block's `bitmalloc` bit and pushes it on its list. */
    method GiveBack(ptr: nat, list: int, ghost b: Block)
      requires Fields() && Linked(g, Now(), s) && b in s.used && ptr == b.off && list == b.level
      requires BodyZero(g, arena[..], b)
      modifies `s, freelist, bitmalloc, arena
      ensures Fields() && Linked(g, Now(), s)
      ensures s.blocks == old(s.blocks) && s.used == old(s.used) - {b}
      ensures |s.lists| == g.depth + 1 && s.lists[b.level] != [] && s.lists[b.level][0] == b.off
      ensures SameBlocks(g, old(arena[..]), arena[..], s.used)
    {
      hide BitsMatch, Threads, ListsMatch, BodiesZero, AllBlocks, Disjoint, Covering, SameBlocks, NoBuddies,
           NoBuddiesBut,
           AddMemory, HeaderIs, BodyZero;
      ghost var c := Now();
      ghost var headNext := GiveBackFacts(g, c, s, b);
      ghost var c' := Pushed(c, b).(malloc := c.malloc[BitIndex(g, b) := false]);
      ghost var s' := Shadow(s.blocks, s.used - {b}, s.lists[b.level := [b.off] + s.lists[b.level]]);
      var present := TestBit(ptr, list, bittable, b);
      assert present;
      ClearBit(ptr, list, bitmalloc, b);
      AddToList(list, ptr, headNext);
      assert Now() == c';
      s := s';
    }

    /** Takes a free block and its free buddy out of the tables and lists. */
    method DetachBoth(ptr: nat, buddy: nat, list: int, ghost b: Block, ghost d: Block)
      requires Fields() && Linked(g, Now(), s) && b in s.Free() && d in s.Free() && b != d
      requires !Overlap(g, b, d) && !Overlap(g, d, b)
      requires ptr == b.off && buddy == d.off && list == b.level == d.level
      requires list < |s.lists| && s.lists[list] != [] && s.lists[list][0] == b.off
      modifies `s, freelist, bittable, arena
      ensures Fields() && Linked(g, Now(), s)
      ensures s.blocks == old(s.blocks) - {b} - {d} && s.used == old(s.used)
      ensures BodyZero(g, arena[..], b) && BodyZero(g, arena[..], d)
      ensures SameBlocks(g, old(arena[..]), arena[..], s.used)
    {
      hide BitsMatch, Threads, ListsMatch, BodiesZero, AllBlocks, Disjoint, Covering, SameBlocks, NoBuddies,
           NoBuddiesBut;
      ghost var mem0, s0 := arena[..], s;
      PairStays(g, s, b, d);
      DetachFree(ptr, list, b, 0);
      ghost var mem1, s1 := arena[..], s;
      ghost var k := PositionInList(g, Now(), s, d);
      DetachFree(buddy, list, d, k);
      BodySurvives(g, mem1, arena[..], s1, b);
      SameBlocksTransitive(g, mem0, mem1, arena[..], s.used);
    }

    /** Takes a free block and its free buddy out of the arena, and zeroes the header of the
        higher one. */
    method DetachPair(ptr: nat, buddy: nat, list: int, ghost b: Block)
      requires Sound() && b in s.Free() && b.level > 0 && Buddy(g, b) in s.Free()
      requires ptr == b.off && buddy == Buddy(g, b).off && list == b.level
      requires |s.lists| == g.depth + 1 && s.lists[b.level] != [] && s.lists[b.level][0] == b.off
      modifies `s, freelist, bittable, arena
      ensures Fields() && Linked(g, Now(), s)
      ensures s.blocks == old(s.blocks) - {b} - {Buddy(g, b)} && s.used == old(s.used)
      ensures IsBlock(g, Parent(g, b)) && BodyZero(g, arena[..], Parent(g, b))
      ensures SameBlocks(g, old(arena[..]), arena[..], s.used)
    {
      hide BitsMatch, Threads, ListsMatch, BodiesZero, AllBlocks, Disjoint, Covering, SameBlocks, NoBuddies,
           NoBuddiesBut;
      ghost var d, used, mem0 := Buddy(g, b), s.used, arena[..];
      BlockFacts(g, Now(), s, b);
      LowerAndHigher(g, b);
      var mine := FindMyBuddy(buddy, list, d);
      assert Chunk(ptr) == mine;                           // ptr == sh_find_my_buddy(buddy, list)
      ghost var high, low := if b.off > d.off then b else d, if b.off > d.off then d else b;
      PairApart(g, s, b, d, high, low);
      DetachBoth(ptr, buddy, list, b, d);
      ghost var mem1 := arena[..];
      // zero the higher addressed block's free list pointers
      ZeroHeader(if ptr > buddy then ptr else buddy, high, used + {low});
      SameWithOneMore(g, mem1, arena[..], used, low);
      SameBlocksTransitive(g, mem0, mem1, arena[..], used);
      JoinedBodyZero(g, arena[..], Parent(g, b));
    }

    /** `b`, the first block of list `list`, is free, and only it may have a free buddy. */
    ghost predicate Candidate(ptr: nat, list: int, b: Block)
      reads this, freelist, bittable, bitmalloc, arena
    {
      && Sound() && b in s.Free() && ptr == b.off && list == b.level && NoBuddiesBut(g, s.Free(), b)
      && b.level < |s.lists| && s.lists[b.level] != [] && s.lists[b.level][0] == b.off
    }

    ghost predicate HasFreeBuddy(b: Block)
      requires g.minsize > 0
      reads this
    {
      b.level > 0 && Buddy(g, b) in s.Free()
    }

    /** One round of the coalescing loop: a free block and its free buddy become their parent. */
    method MergeWithBuddy(ptr: nat, buddy: nat, list: int, ghost b: Block) returns (joined: nat)
      requires Candidate(ptr, list, b) && HasFreeBuddy(b) && buddy == Buddy(g, b).off
      modifies `s, freelist, bittable, arena
      ensures Candidate(joined, list - 1, Parent(g, b)) && s.used == old(s.used)
      ensures SameBlocks(g, old(arena[..]), arena[..], s.used)
    {
      hide BitsMatch, Threads, ListsMatch, BodiesZero, AllBlocks, Disjoint, Covering, SameBlocks, NoBuddies,
           NoBuddiesBut;
      ghost var p, mem0, before := Parent(g, b), arena[..], s;
      BlockFacts(g, Now(), s, b);
      MergeFacts(g, s, b);
      LowerAndHigher(g, b);
      DetachPair(ptr, buddy, list, b);
      ghost var mem1 := arena[..];
      joined := if ptr > buddy then buddy else ptr;
      AttachFree(joined, list - 1, p);
      SameBlocksTransitive(g, mem0, mem1, arena[..], s.used);
    }

    /** The coalescing loop: joins a free block with its buddy as long as that is free. */
    method Coalesce(ptr: nat, level: int, ghost b: Block)
      requires Candidate(ptr, level, b)
      modifies `s, freelist, bittable, arena
      ensures Sound() && NoBuddies(g, s.Free()) && s.used == old(s.used)
      ensures SameBlocks(g, old(arena[..]), arena[..], s.used)
    {
      hide BitsMatch, Threads, ListsMatch, BodiesZero, AllBlocks, Disjoint, Covering, SameBlocks, NoBuddies,
           NoBuddiesBut;
      var p, list := ptr, level;
      ghost var c, used, mem0 := b, s.used, arena[..];
      SameBlocksReflexive(g, Now(), s, arena[..]);
      BlockFacts(g, Now(), s, c);
      var buddy := FindMyBuddy(p, list, c);
      while buddy != Null
        invariant Candidate(p, list, c) && s.used == used && SameBlocks(g, mem0, arena[..], used)
        invariant buddy == if HasFreeBuddy(c) then Chunk(Buddy(g, c).off) else Null
        decreases list, buddy != Null
      {
        ghost var mem1 := arena[..];
        p := MergeWithBuddy(p, buddy.off, list, c);
        SameBlocksTransitive(g, mem0, mem1, arena[..], used);
        c := Parent(g, c);
        list := list - 1;
        BlockFacts(g, Now(), s, c);
        buddy := FindMyBuddy(p, list, c);
      }
      LastPairGone(g, s, c);
    }

    /** `sh_free` of a block handed out earlier and cleared since. */
    method ShFree(ptr: nat, ghost b: Block)
      requires Sound() && NoBuddies(g, s.Free()) && b in s.used && ptr == b.off && BlockZero(g, arena[..], b)
      modifies `s, freelist, bittable, bitmalloc, arena
      ensures Sound() && NoBuddies(g, s.Free())
      ensures s.used == old(s.used) - {b}
      ensures SameBlocks(g, old(arena[..]), arena[..], s.used)
    {
      hide BitsMatch, Threads, ListsMatch, BodiesZero, AllBlocks, Disjoint, Covering, SameBlocks, NoBuddies,
           NoBuddiesBut;
      BlockFacts(g, Now(), s, b);
      assert ptr < arena.Length;                           // WITHIN_ARENA(ptr)
      ghost var mem0, before := arena[..], s;
      var list := GetList(ptr, b);
      GiveBack(ptr, list, b);
      ghost var mem1 := arena[..];
      GotBackFacts(g, before, s, b);
      Coalesce(ptr, list, b);
      SameBlocksTransitive(g, mem0, mem1, arena[..], s.used);
    }

    /** `sh_actual_size` */
    method ShActualSize(ptr: nat, ghost b: Block) returns (size: nat)
      requires Fields() && Linked(g, Now(), s) && b in s.blocks && ptr == b.off
      ensures size == g.BlockSize(b.level)
    {
      hide BitsMatch, Threads, ListsMatch, BodiesZero, AllBlocks, Disjoint, Covering, SameBlocks, NoBuddies,
           NoBuddiesBut;
      BlockFacts(g, Now(), s, b);
      assert ptr < arena.Length;                           // WITHIN_ARENA(ptr)
      var list := GetList(ptr, b);
      var present := TestBit(ptr, list, bittable, b);
      assert present;
      BitFacts(b);
      size := arenaSize / Pow2(list);
    }

    // ---------- The public interface ----------

    /** `CRYPTO_secure_malloc`.  A request of at most `minsize` bytes is refused only when every
        byte of the arena is handed out. */
    method SecureMalloc(num: nat) returns (ret: Pointer, ghost b: Block)
      requires Valid()
      modifies `s, `secureMemUsed, freelist, bittable, bitmalloc, arena
      ensures Valid()
      ensures SameBlocks(g, old(arena[..]), arena[..], old(s.used))
      ensures ret == Null || ret == Chunk(b.off)
      ensures ret == Null <==> NoRoom(g, old(s.used), num)
      ensures num <= minsize ==> (ret == Null <==> old(secureMemUsed) == arenaSize)
      ensures ret == Null ==> s == old(s) && secureMemUsed == old(secureMemUsed)
      ensures ret != Null ==> Available(g, old(s.used), b) && num <= g.BlockSize(b.level)
      ensures ret != Null ==> g.BlockSize(b.level) == minsize || g.BlockSize(b.level) < 2 * num
      ensures ret != Null ==> secureMemUsed == old(secureMemUsed) + g.BlockSize(b.level)
      ensures ret != Null ==> s.used == old(s.used) + {b} && b !in old(s.used) && BlockZero(g, arena[..], b)
    {
      hide BitsMatch, Threads, ListsMatch, BodiesZero, AllBlocks, Disjoint, Covering, SameBlocks, NoBuddies,
           NoBuddiesBut;
      if num <= minsize {
        FullExactlyFor(g, s, num);
      }
      ret, b := ShMalloc(num);
      var actualSize := 0;
      if ret != Null {
        actualSize := ShActualSize(ret.off, b);
        TotalSizeWith(g, old(s.used), b);
      }
      secureMemUsed := secureMemUsed + actualSize;
    }

    /** `CRYPTO_secure_free` and `CRYPTO_secure_clear_free` of a block of the arena */
    method SecureFree(ptr: Pointer, ghost b: Block)
      requires Valid() && (ptr == Null || (ptr == Chunk(b.off) && b in s.used))
      modifies `s, `secureMemUsed, freelist, bittable, bitmalloc, arena
      ensures Valid()
      ensures s.used == if ptr == Null then old(s.used) else old(s.used) - {b}
      ensures secureMemUsed == old(secureMemUsed) - if ptr == Null then 0 else g.BlockSize(b.level)
      ensures SameBlocks(g, old(arena[..]), arena[..], s.used)
    {
      hide BitsMatch, Threads, ListsMatch, BodiesZero, AllBlocks, Disjoint, Covering, SameBlocks, NoBuddies,
           NoBuddiesBut;
      if ptr == Null {
        SameBlocksReflexive(g, Now(), s, arena[..]);
        return;
      }
      var actualSize := ShActualSize(ptr.off, b);
      ghost var mem0 := arena[..];
      ClearBlock(ptr.off, actualSize, b);
      ghost var mem1 := arena[..];
      TotalSizeWithout(g, s.used, b);
      secureMemUsed := secureMemUsed - actualSize;
      ShFree(ptr.off, b);
      SameBlocksTransitive(g, mem0, mem1, arena[..], s.used);
    }

    /** `CLEAR(ptr, actual_size)` */
    method ClearBlock(ptr: nat, size: nat, ghost b: Block)
      requires Sound() && b in s.used && ptr == b.off && size == g.BlockSize(b.level)
      modifies arena
      ensures Sound() && BlockZero(g, arena[..], b)
      ensures SameBlocks(g, old(arena[..]), arena[..], s.used - {b})
    {
      hide BitsMatch, Threads, ListsMatch, BodiesZero, AllBlocks, Disjoint, Covering, SameBlocks, NoBuddies,
           NoBuddiesBut;
      ClearFacts(g, Now(), s, b);
      StoreCells(ptr, Repeat(Byte(0), size));
      assert Now() == old(Now()).(mem := Patch(old(arena[..]), ptr, Repeat(Byte(0), size)));
    }

    /** The owner of a block writes into it. */
    method ClientWrite(off: nat, cells: seq<Cell>, ghost b: Block)
      requires Valid() && b in s.used && b.off <= off && off + |cells| <= End(g, b)
      modifies arena
      ensures Valid() && arena[..] == Patch(old(arena[..]), off, cells)
      ensures SameBlocks(g, old(arena[..]), arena[..], s.used - {b})
    {
      hide BitsMatch, Threads, ListsMatch, BodiesZero, AllBlocks, Disjoint, Covering, SameBlocks, NoBuddies,
           NoBuddiesBut;
      ClientFacts(g, Now(), s, b, off, cells);
      StoreCells(off, cells);
      assert Now() == old(Now()).(mem := Patch(old(arena[..]), off, cells));
    }

    /** `CRYPTO_secure_malloc_done` succeeds exactly when nothing is handed out. */
    method SecureMallocDone() returns (done: bool)
      requires Valid()
      ensures done <==> s.used == {}
    {
      TotalSizeZero(g, s.used);
      done := secureMemUsed == 0;
    }

    // ---------- sh_init ----------

    constructor ()
    {
      arenaSize, minsize, freelistSize, bittableSize, secureMemUsed := 0, 0, 0, 0, 0;
      freelist, bittable, bitmalloc := new Pointer[0], new bool[0], new bool[0];
      arena := new Cell[0];
    }

    /** `sh_init`: `size`, and `minimum` unless it is at most `sizeof(SH_LIST)`, must be powers of
        two; `mapped` says whether the system provides the memory, and `guarded` whether it also
        sets up the guard pages and the locking.  On success the whole arena is one free block. */
    method ShInit(size: nat, minimum: nat, mapped: bool, guarded: bool, ghost a: nat, ghost m: nat) returns (ret: nat)
      requires size == Pow2(a) && (minimum > HEADER_SIZE ==> minimum == Pow2(m))
      modifies this
      ensures ret <= 2
      ensures (ret != 0 <==> mapped && 4 * (if minimum <= HEADER_SIZE then HEADER_SIZE else minimum) <= size)
      ensures ret == 2 ==> !guarded
      ensures ret == 1 ==> guarded
      ensures ret != 0 ==> Valid() && fresh(freelist) && fresh(bittable) && fresh(bitmalloc) && fresh(arena)
      ensures ret != 0 ==> arenaSize == size && minsize == (if minimum <= HEADER_SIZE then HEADER_SIZE else minimum)
      ensures ret != 0 ==> s.used == {} && s.blocks == {Block(0, 0)}
    {
      hide Linked, Tiles, NoBuddies, Geometry.BlockSize;
      var least := minimum;
      if minimum <= HEADER_SIZE {
        least := RoundUpHeader();
      }
      ghost var e := if minimum <= HEADER_SIZE then 4 else m;
      assert Pow2(4) == 16;
      arenaSize, minsize := size, least;
      hide Pow2;
      bittableSize := TableBits(size, least, a, e);
      // prevent allocations of size 0 later on
      if bittableSize / 8 == 0 {
        return 0;
      }
      freelistSize := CountBits(bittableSize, a - e + 1);
      if !mapped {
        return 0;
      }
      g := Geometry(least, a - e);
      FirstBlock();
      return if guarded then 1 else 2;
    }

    /** Allocates the tables and makes the arena one free block. */
    method FirstBlock()
      requires g.Valid() && arenaSize == g.ArenaSize() && minsize == g.minsize
      requires freelistSize == g.depth + 1 && bittableSize == Pow2(g.depth + 1)
      modifies `freelist, `bittable, `bitmalloc, `arena, `s, `secureMemUsed
      ensures Valid() && s.used == {} && s.blocks == {Block(0, 0)}
      ensures fresh(freelist) && fresh(bittable) && fresh(bitmalloc) && fresh(arena)
    {
      hide BitsMatch, Threads, ListsMatch, BodiesZero, AllBlocks, Disjoint, Covering, SameBlocks, NoBuddies,
           NoBuddiesBut;
      EmptyArena();
      FirstBlockFacts(g);
      AttachFree(0, 0, Block(0, 0));
      secureMemUsed := 0;
      assert s.blocks == {Block(0, 0)};
    }

    /** `OPENSSL_zalloc` of the tables and the mapping of the arena. */
    method ZeroedArrays()
      requires 0 <= freelistSize
      modifies `freelist, `bittable, `bitmalloc, `arena
      ensures fresh(freelist) && fresh(bittable) && fresh(bitmalloc) && fresh(arena) && bittable != bitmalloc
      ensures freelist.Length == freelistSize && bittable.Length == bitmalloc.Length == bittableSize
      ensures arena.Length == arenaSize
      ensures (forall l :: 0 <= l < freelist.Length ==> freelist[l] == Null)
      ensures (forall i :: 0 <= i < bittableSize ==> !bittable[i])
      ensures (forall i :: 0 <= i < bittableSize ==> !bitmalloc[i])
      ensures (forall x :: 0 <= x < arenaSize ==> arena[x] == Byte(0))
    {
      freelist := new Pointer[freelistSize](_ => Null);
      bittable := new bool[bittableSize](_ => false);
      bitmalloc := new bool[bittableSize](_ => false);
      arena := new Cell[arenaSize](_ => Byte(0));
    }

    /** The zeroed tables, list heads and memory, before the first block is put in. */
    method EmptyArena()
      requires g.Valid() && arenaSize == g.ArenaSize() && minsize == g.minsize
      requires freelistSize == g.depth + 1 && bittableSize == Pow2(g.depth + 1)
      modifies `freelist, `bittable, `bitmalloc, `arena, `s
      ensures Fields() && Linked(g, Now(), s) && s.blocks == {} && s.used == {}
      ensures fresh(freelist) && fresh(bittable) && fresh(bitmalloc) && fresh(arena)
      ensures BodyZero(g, arena[..], Block(0, 0))
    {
      hide Linked, BodyZero, Pow2, Geometry.BlockSize;
      ZeroedArrays();
      s := Shadow({}, {}, seq(g.depth + 1, _ => []));
      EmptyIsLinked(g, Now(), s);
    }
  }

  /** There is room for a smallest block until the blocks handed out add up to the arena. */
  lemma FullExactlyFor(g: Geometry, s: Shadow, size: nat)
    requires g.minsize > 0 && Tiles(g, s.blocks) && s.used <= s.blocks && size <= g.minsize
    ensures NoRoom(g, s.used, size) <==> TotalSize(g, s.used) == g.ArenaSize()
  {
    hide TotalSize, Geometry.ArenaSize;
    FullExactly(g, s.blocks, s.used);
    if s.used == s.blocks {
      forall d: Block | IsBlock(g, d) ensures exists u :: u in s.used && Overlap(g, u, d) {
        assert Covered(g, s.blocks, d.off);
        var u :| u in s.blocks && Contains(g, u, d.off);
        assert Overlap(g, u, d);
      }
    } else {
      var b :| b in s.blocks && b !in s.used;
      assert IsBlock(g, b) && size <= g.BlockSize(b.level);
      assert forall u :: u in s.used ==> !Overlap(g, u, b);
    }
  }

  /** The smallest power of two that holds an SH_LIST, by smearing the top bit of its size less 1. */
  method RoundUpHeader() returns (r: nat)
    ensures r == HEADER_SIZE
  {
    var m: bv16 := 15;
    m := m | (m >> 1);
    m := m | (m >> 2);
    m := m + 1;
    r := m as nat;
  }

  /** The number of bits in each table. */
  method TableBits(size: nat, least: nat, ghost a: nat, ghost e: nat) returns (bits: nat)
    requires size == Pow2(a) && least == Pow2(e) && least >= 16
    ensures bits / 8 == 0 <==> size < 4 * least
    ensures size >= 4 * least ==> a >= e + 2 && bits == Pow2(a - e + 1)
    ensures size >= 4 * least ==> Geometry(least, a - e).Valid() && Geometry(least, a - e).ArenaSize() == size
  {
    hide Pow2, Geometry.BlockSize;
    TableSize(size, least, a, e);
    bits := (size / least) * 2;
  }

  /** The number of list heads: one less than the number of bits of the table size. */
  method CountBits(n: nat, ghost k: nat) returns (r: int)
    requires n == Pow2(k)
    ensures r == k
  {
    r := -1;
    var i := n;
    while i != 0
      invariant -1 <= r <= k
      invariant i == if r == k then 0 else Pow2(k - r - 1)
      decreases i
    {
      r := r + 1;
      i := i / 2;
    }
  }

  lemma {:induction false} Pow2Add(a: nat, b: nat)
    ensures Pow2(a + b) == Pow2(a) * Pow2(b)
  {
    if a > 0 {
      Pow2Add(a - 1, b);
      assert (2 * Pow2(a - 1)) * Pow2(b) == 2 * (Pow2(a - 1) * Pow2(b));
    }
  }

  lemma Quotient(size: nat, least: nat, a: nat, e: nat)
    requires size == Pow2(a) && least == Pow2(e) && a >= e
    ensures size / least == Pow2(a - e) && size == Pow2(a - e) * least
  {
    Pow2Add(a - e, e);
    assert (a - e) + e == a;
    DivExact(size, Pow2(a - e), least);
  }

  lemma AtLeast16(least: nat, e: nat)
    requires least == Pow2(e) && least >= 16
    ensures least % 16 == 0
  {
    if e >= 4 {
      Pow2Add(4, e - 4);
      assert Pow2(4) == 16;
    } else {
      assert Pow2(3) == 8;
      Pow2Grows(e, 3);
    }
  }

  /** The arithmetic of `sh_init` on powers of two. */
  lemma TableSize(size: nat, least: nat, a: nat, e: nat)
    requires size == Pow2(a) && least == Pow2(e) && least >= 16
    ensures ((size / least) * 2) / 8 == 0 <==> size < 4 * least
    ensures size >= 4 * least ==> a >= e + 2 && (size / least) * 2 == Pow2(a - e + 1)
    ensures size >= 4 * least ==> Geometry(least, a - e).Valid() && Geometry(least, a - e).ArenaSize() == size
  {
    hide Pow2, Geometry.BlockSize;
    if a >= e + 2 {
      LargeTable(size, least, a, e);
    } else {
      SmallTable(size, least, a, e);
    }
  }

  lemma LargeTable(size: nat, least: nat, a: nat, e: nat)
    requires size == Pow2(a) && least == Pow2(e) && least >= 16 && a >= e + 2
    ensures size >= 4 * least && (size / least) * 2 == Pow2(a - e + 1) >= 8
    ensures Geometry(least, a - e).Valid() && Geometry(least, a - e).ArenaSize() == size
  {
    Quotient(size, least, a, e);
    FourBlocks(least, a - e);
    AtLeast16(least, e);
  }

  lemma SmallTable(size: nat, least: nat, a: nat, e: nat)
    requires size == Pow2(a) && least == Pow2(e) && a < e + 2
    ensures size < 4 * least && size / least <= 2
  {
    if a >= e {
      Quotient(size, least, a, e);
      assert Pow2(a - e) == 1 || Pow2(a - e) == 2;
      hide Pow2;
      MulMonotone(Pow2(a - e), 2, least);
    } else {
      Pow2Grows(a, e);
      hide Pow2;
      SmallQuotient(size, least);
    }
  }

  lemma SmallQuotient(a: nat, d: nat)
    requires a < d
    ensures a / d == 0
  {
  }

  lemma FourBlocks(least: nat, depth: nat)
    requires depth >= 2 && least > 0
    ensures Pow2(depth) >= 4 && Pow2(depth) * least >= 4 * least
    ensures Geometry(least, depth).ArenaSize() == Pow2(depth) * least
  {
    Pow2Grows(2, depth);
    assert Pow2(2) == 4;
    ArenaIsPow2Blocks(Geometry(least, depth), depth);
    hide Pow2;
    MulMonotone(4, Pow2(depth), least);
  }
}
