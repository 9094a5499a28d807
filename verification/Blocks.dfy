/** The geometry of the secure arena (crypto/mem_sec.c): a complete binary tree of aligned
    blocks.  Level 0 is the whole arena and level `depth` consists of blocks of `minsize` bytes.
    Offsets and sizes are in bytes, relative to the start of the arena. */
module Blocks {
  import opened Arithmetic

  datatype Geometry = Geometry(minsize: nat, depth: nat) {
    ghost predicate Valid() {
      minsize >= 16 && minsize % 16 == 0
    }

    /** The size of a block at `level`; the source writes it `sh.arena_size >> list`. */
    function BlockSize(level: nat): (r: nat)
      ensures r >= minsize
      decreases depth - level
    {
      if level >= depth then minsize else 2 * BlockSize(level + 1)
    }

    function ArenaSize(): nat {
      BlockSize(0)
    }
  }

  /** A node of the tree, named by the offset of its first byte. */
  datatype Block = Block(off: nat, level: nat)

  ghost predicate IsBlock(g: Geometry, b: Block)
    requires g.minsize > 0
  {
    && b.level <= g.depth
    && b.off % g.BlockSize(b.level) == 0
    && b.off + g.BlockSize(b.level) <= g.ArenaSize()
  }

  function End(g: Geometry, b: Block): nat {
    b.off + g.BlockSize(b.level)
  }

  /** The bit that stands for a block in the tables `bittable` and `bitmalloc`. */
  function BitIndex(g: Geometry, b: Block): nat
    requires g.minsize > 0
  {
    Pow2(b.level) + b.off / g.BlockSize(b.level)
  }

  /** The bits of an arena of four blocks: 1 for the whole, 2 and 3 for its halves, 4 to 7 for the
      quarters. */
  lemma SevenBits(b: Block)
    requires IsBlock(Geometry(16, 2), b)
    ensures b.level <= 2 && BitIndex(Geometry(16, 2), b) ==
            if b.level == 0 then 1 else if b.level == 1 then 2 + b.off / 32 else 4 + b.off / 16
  {
    assert Geometry(16, 2).BlockSize(2) == 16 && Geometry(16, 2).BlockSize(1) == 32;
  }

  function Parent(g: Geometry, b: Block): Block
    requires g.minsize > 0 && b.level > 0
  {
    if b.off % g.BlockSize(b.level - 1) == 0 then Block(b.off, b.level - 1)
    else if b.off >= g.BlockSize(b.level) then Block(b.off - g.BlockSize(b.level), b.level - 1)
    else Block(0, b.level - 1)
  }

  function LeftChild(b: Block): Block {
    Block(b.off, b.level + 1)
  }

  function RightChild(g: Geometry, b: Block): Block {
    Block(b.off + g.BlockSize(b.level + 1), b.level + 1)
  }

  /** The other half of the parent block. */
  function Buddy(g: Geometry, b: Block): Block
    requires g.minsize > 0 && b.level > 0
  {
    if b.off % g.BlockSize(b.level - 1) == 0 then Block(b.off + g.BlockSize(b.level), b.level)
    else if b.off >= g.BlockSize(b.level) then Block(b.off - g.BlockSize(b.level), b.level)
    else b
  }

  // ---------- Sizes ----------

  lemma {:induction false} ArenaIsPow2Blocks(g: Geometry, level: nat)
    requires level <= g.depth
    ensures g.ArenaSize() == Pow2(level) * g.BlockSize(level)
  {
    if level > 0 {
      ArenaIsPow2Blocks(g, level - 1);
      var p, s := Pow2(level - 1), g.BlockSize(level);
      assert g.BlockSize(level - 1) == 2 * s;
      assert p * (2 * s) == (2 * p) * s;
    }
  }

  /** `sh.arena_size >> list` and `sh.arena_size / (ONE << list)` are both the block size. */
  lemma ShiftedArenaIsBlockSize(g: Geometry, level: nat)
    requires g.minsize > 0 && level <= g.depth
    ensures g.ArenaSize() / Pow2(level) == g.BlockSize(level)
  {
    ArenaIsPow2Blocks(g, level);
    DivExact(g.ArenaSize(), g.BlockSize(level), Pow2(level));
  }

  lemma {:induction false} BlockSizeMultiple(g: Geometry, hi: nat, lo: nat) returns (m: nat)
    requires g.minsize > 0 && hi <= lo <= g.depth
    ensures m >= 1 && g.BlockSize(hi) == m * g.BlockSize(lo)
    ensures hi < lo ==> m >= 2
    decreases lo - hi
  {
    if hi == lo {
      m := 1;
    } else {
      var m' := BlockSizeMultiple(g, hi + 1, lo);
      m := 2 * m';
      assert 2 * (m' * g.BlockSize(lo)) == m * g.BlockSize(lo);
    }
  }

  lemma BlockOffsetAligned16(g: Geometry, b: Block)
    requires g.Valid() && IsBlock(g, b)
    ensures b.off % 16 == 0 && b.off + 16 <= End(g, b) <= g.ArenaSize()
  {
    var m := BlockSizeMultiple(g, b.level, g.depth);
    MultipleModulo(b.off, m, g.minsize);
    var q := AlignedIsMultiple(g.minsize, 16);
    assert g.minsize == q * 16;
    MultipleModulo(b.off, q, 16);
  }

  // ---------- Bits ----------

  lemma BitIndexRange(g: Geometry, b: Block)
    requires g.minsize > 0 && IsBlock(g, b)
    ensures Pow2(b.level) <= BitIndex(g, b) < 2 * Pow2(b.level)
  {
    var s := g.BlockSize(b.level);
    var q := AlignedIsMultiple(b.off, s);
    ArenaIsPow2Blocks(g, b.level);
    MulStrictlyMonotone(q, Pow2(b.level), s);
  }

  lemma {:induction false} Pow2Grows(m: nat, n: nat)
    requires m <= n
    ensures Pow2(m) <= Pow2(n)
    ensures m < n ==> 2 * Pow2(m) <= Pow2(n)
    decreases n
  {
    if m < n {
      Pow2Grows(m, n - 1);
    }
  }

  lemma BitIndexWithinTable(g: Geometry, b: Block)
    requires g.minsize > 0 && IsBlock(g, b)
    ensures 1 <= BitIndex(g, b) < Pow2(g.depth + 1)
  {
    BitIndexRange(g, b);
    Pow2Grows(b.level, g.depth);
  }

  /** Different blocks have different bits. */
  lemma BitIndexInjective(g: Geometry, a: Block, b: Block)
    requires g.minsize > 0 && IsBlock(g, a) && IsBlock(g, b)
    requires BitIndex(g, a) == BitIndex(g, b)
    ensures a == b
  {
    BitIndexRange(g, a);
    BitIndexRange(g, b);
    if a.level < b.level {
      Pow2Grows(a.level, b.level);
    } else if b.level < a.level {
      Pow2Grows(b.level, a.level);
    } else {
      var s := g.BlockSize(a.level);
      var p := AlignedIsMultiple(a.off, s);
      var q := AlignedIsMultiple(b.off, s);
    }
  }

  // ---------- Parents, children and buddies ----------

  lemma ChildrenAreBlocks(g: Geometry, b: Block)
    requires g.minsize > 0 && IsBlock(g, b) && b.level < g.depth
    ensures IsBlock(g, LeftChild(b)) && IsBlock(g, RightChild(g, b))
    ensures Buddy(g, LeftChild(b)) == RightChild(g, b) && Buddy(g, RightChild(g, b)) == LeftChild(b)
    ensures Parent(g, LeftChild(b)) == b && Parent(g, RightChild(g, b)) == b
    ensures End(g, LeftChild(b)) == RightChild(g, b).off && End(g, RightChild(g, b)) == End(g, b)
  {
    var s := g.BlockSize(b.level + 1);
    MultipleModulo(b.off, 2, s);
    EvenOrOdd(b.off, s);
  }

  lemma ArenaAligned(g: Geometry, level: nat)
    requires g.minsize > 0 && level <= g.depth
    ensures g.ArenaSize() % g.BlockSize(level) == 0
  {
    ArenaIsPow2Blocks(g, level);
    DivExact(g.ArenaSize(), Pow2(level), g.BlockSize(level));
  }

  lemma ParentIsBlock(g: Geometry, b: Block)
    requires g.minsize > 0 && IsBlock(g, b) && b.level > 0
    ensures IsBlock(g, Parent(g, b))
    ensures b == LeftChild(Parent(g, b)) || b == RightChild(g, Parent(g, b))
  {
    var s := g.BlockSize(b.level);
    assert g.BlockSize(b.level - 1) == 2 * s;
    EvenOrOdd(b.off, s);
    ArenaAligned(g, b.level - 1);
    AlignedRoom(Parent(g, b).off, g.ArenaSize(), 2 * s);
  }

  lemma BuddyFacts(g: Geometry, b: Block)
    requires g.minsize > 0 && IsBlock(g, b) && b.level > 0
    ensures IsBlock(g, Buddy(g, b)) && Buddy(g, b) != b && Buddy(g, Buddy(g, b)) == b
    ensures Parent(g, Buddy(g, b)) == Parent(g, b)
    ensures {b, Buddy(g, b)} == {LeftChild(Parent(g, b)), RightChild(g, Parent(g, b))}
  {
    ParentIsBlock(g, b);
    ChildrenAreBlocks(g, Parent(g, b));
  }

  /** `bit ^ 1`, the source's way to a buddy: even bits go up by one, odd ones down by one. */
  function FlipLowBit(bit: nat): nat {
    if bit % 2 == 0 then bit + 1 else bit - 1
  }

  /** Flipping the low bit of a block's table index gives its buddy's index; at level 0 it gives
      bit 0, which stands for no block. */
  lemma FlipIsBuddy(g: Geometry, b: Block)
    requires g.minsize > 0 && IsBlock(g, b)
    ensures b.level > 0 ==> IsBlock(g, Buddy(g, b)) && FlipLowBit(BitIndex(g, b)) == BitIndex(g, Buddy(g, b))
    ensures b.level == 0 ==> FlipLowBit(BitIndex(g, b)) == 0
  {
    if b.level == 0 {
      BitIndexRange(g, b);
    } else {
      BuddyFacts(g, b);
      var s := g.BlockSize(b.level);
      EvenOrOdd(b.off, s);
      if b.off % (2 * s) != 0 {
        EvenOrOdd(b.off - s, s) by { MultipleModulo(b.off - s, 2, s); }
      }
    }
  }

  /** The offset the source rebuilds from a bit: the low `level` bits times the block size. */
  lemma OffsetFromBit(g: Geometry, b: Block)
    requires g.minsize > 0 && IsBlock(g, b)
    ensures (BitIndex(g, b) - Pow2(b.level)) * g.BlockSize(b.level) == b.off
  {
    var q := AlignedIsMultiple(b.off, g.BlockSize(b.level));
  }

  /** Everything `sh_find_my_buddy` computes from the flipped bit. */
  lemma BuddyBit(g: Geometry, b: Block)
    requires g.minsize > 0 && IsBlock(g, b)
    ensures FlipLowBit(BitIndex(g, b)) < Pow2(g.depth + 1)
    ensures b.level == 0 ==> FlipLowBit(BitIndex(g, b)) == 0
    ensures b.level > 0 ==>
              && IsBlock(g, Buddy(g, b))
              && FlipLowBit(BitIndex(g, b)) == BitIndex(g, Buddy(g, b))
              && (FlipLowBit(BitIndex(g, b)) % Pow2(b.level)) * g.BlockSize(b.level) == Buddy(g, b).off
  {
    FlipIsBuddy(g, b);
    if b.level > 0 {
      var d := Buddy(g, b);
      BitIndexWithinTable(g, d);
      BitIndexRange(g, d);
      OffsetFromBit(g, d);
      LowBits(BitIndex(g, d), Pow2(b.level));
    }
  }

  /** The bit `sh_getlist` starts from: the smallest block at the same offset. */
  lemma DeepestBit(g: Geometry, b: Block)
    requires g.minsize > 0 && IsBlock(g, b)
    ensures IsBlock(g, Block(b.off, g.depth))
    ensures (g.ArenaSize() + b.off) / g.minsize == BitIndex(g, Block(b.off, g.depth))
  {
    var m := BlockSizeMultiple(g, b.level, g.depth);
    MultipleModulo(b.off, m, g.minsize);
    MulMonotone(1, m, g.minsize);
    ArenaIsPow2Blocks(g, g.depth);
    var q := AlignedIsMultiple(b.off, g.minsize);
    Distribute(Pow2(g.depth), q, g.minsize);
    DivExact(g.ArenaSize() + b.off, Pow2(g.depth) + q, g.minsize);
  }

  /** Below the level of a block, the bits of the blocks at its offset are even, and halving one
      gives the bit one level up. */
  lemma HalveBit(g: Geometry, b: Block, list: nat)
    requires g.minsize > 0 && IsBlock(g, b) && b.level < list <= g.depth && IsBlock(g, Block(b.off, list))
    ensures IsBlock(g, Block(b.off, list - 1))
    ensures BitIndex(g, Block(b.off, list)) % 2 == 0
    ensures BitIndex(g, Block(b.off, list)) / 2 == BitIndex(g, Block(b.off, list - 1))
  {
    var s := g.BlockSize(list);
    var m := BlockSizeMultiple(g, b.level, list - 1);
    assert g.BlockSize(list - 1) == 2 * s;
    hide Geometry.BlockSize;
    MultipleModulo(b.off, m, 2 * s);
    MulMonotone(1, m, 2 * s);
    EvenOrOdd(b.off, s);
    HalfQuotient(b.off, s);
  }

  // ---------- Nesting ----------

  ghost predicate Overlap(g: Geometry, a: Block, b: Block) {
    a.off < End(g, b) && b.off < End(g, a)
  }

  /** Two blocks that overlap are nested: the one at the deeper level lies inside the other. */
  lemma OverlapIsNested(g: Geometry, a: Block, b: Block)
    requires g.minsize > 0 && IsBlock(g, a) && IsBlock(g, b)
    requires a.level <= b.level && Overlap(g, a, b)
    ensures a.off <= b.off && End(g, b) <= End(g, a)
    ensures a.level == b.level ==> a == b
  {
    var s := g.BlockSize(b.level);
    var m := BlockSizeMultiple(g, a.level, b.level);
    MultipleModulo(a.off, m, s);
    SumAligned(a.off, g.BlockSize(a.level), s) by { DivExact(g.BlockSize(a.level), m, s); }
    AlignedRoom(b.off, End(g, a), s);
    if b.off < a.off {
      AlignedRoom(b.off, a.off, s);
    }
  }

  /** A block inside a larger one has its parent inside it too. */
  lemma ParentStaysInside(g: Geometry, a: Block, b: Block)
    requires g.minsize > 0 && IsBlock(g, a) && IsBlock(g, b)
    requires a.level < b.level && a.off <= b.off && End(g, b) <= End(g, a)
    ensures a.off <= Parent(g, b).off && End(g, Parent(g, b)) <= End(g, a)
  {
    ParentIsBlock(g, b);
    OverlapIsNested(g, a, Parent(g, b));
  }
}
