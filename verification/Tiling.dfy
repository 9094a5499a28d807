/** Sets of blocks that tile the arena, and what the absence of free buddies implies. */
module Tiling {
  import opened Arithmetic
  import opened Blocks

  ghost predicate AllBlocks(g: Geometry, s: set<Block>)
    requires g.minsize > 0
  {
    forall b :: b in s ==> IsBlock(g, b)
  }

  ghost predicate Disjoint(g: Geometry, s: set<Block>) {
    forall a, b :: a in s && b in s && a != b ==> !Overlap(g, a, b)
  }

  ghost predicate Contains(g: Geometry, b: Block, x: nat) {
    b.off <= x < End(g, b)
  }

  ghost predicate Covered(g: Geometry, s: set<Block>, x: nat) {
    exists b :: b in s && Contains(g, b, x)
  }

  ghost predicate Covering(g: Geometry, s: set<Block>) {
    forall x: nat :: x < g.ArenaSize() ==> Covered(g, s, x)
  }

  /** Every byte of the arena lies in exactly one block of `s`. */
  ghost predicate Tiles(g: Geometry, s: set<Block>)
    requires g.minsize > 0
  {
    AllBlocks(g, s) && Disjoint(g, s) && Covering(g, s)
  }

  ghost predicate NoBuddies(g: Geometry, free: set<Block>)
    requires g.minsize > 0
  {
    forall b :: b in free && b.level > 0 ==> Buddy(g, b) !in free
  }

  function Halves(g: Geometry, b: Block): set<Block> {
    {LeftChild(b), RightChild(g, b)}
  }

  lemma WholeArenaTiles(g: Geometry)
    requires g.minsize > 0
    ensures IsBlock(g, Block(0, 0)) && Tiles(g, {Block(0, 0)})
  {
    var whole := Block(0, 0);
    forall x: nat | x < g.ArenaSize() ensures Covered(g, {whole}, x) {
      assert Contains(g, whole, x);
    }
  }

  /** Replacing some blocks by others that occupy the same bytes keeps a tiling. */
  lemma ReplaceCovering(g: Geometry, s: set<Block>, out: set<Block>, into: set<Block>)
    requires Covering(g, s)
    requires forall x: nat :: Covered(g, out, x) ==> Covered(g, into, x)
    ensures Covering(g, s - out + into)
  {
    forall x: nat | x < g.ArenaSize() ensures Covered(g, s - out + into, x) {
      assert Covered(g, s, x);
      var c :| c in s && Contains(g, c, x);
      if c in out {
        assert Covered(g, out, x);
        var d :| d in into && Contains(g, d, x);
        assert d in s - out + into;
      } else {
        assert c in s - out + into;
      }
    }
  }

  lemma ReplaceDisjoint(g: Geometry, s: set<Block>, out: set<Block>, into: set<Block>)
    requires Disjoint(g, s) && Disjoint(g, into)
    requires forall c, d :: c in s - out && d in into ==> !Overlap(g, c, d)
    ensures Disjoint(g, s - out + into)
  {
    forall a, b | a in s - out + into && b in s - out + into && a != b ensures !Overlap(g, a, b) {
      if a in into && b !in into {
        assert !Overlap(g, b, a);
      }
    }
  }

  /** Splitting a block of a tiling into its halves gives a tiling. */
  lemma SplitTiles(g: Geometry, s: set<Block>, b: Block)
    requires g.minsize > 0 && Tiles(g, s) && b in s && b.level < g.depth
    ensures Tiles(g, s - {b} + Halves(g, b))
    ensures Halves(g, b) !! s
  {
    ChildrenAreBlocks(g, b);
    var into := Halves(g, b);
    forall x: nat | Covered(g, {b}, x) ensures Covered(g, into, x) {
      var h := if x < RightChild(g, b).off then LeftChild(b) else RightChild(g, b);
      assert h in into && Contains(g, h, x);
    }
    ReplaceCovering(g, s, {b}, into);
    forall c, d | c in s - {b} && d in into ensures !Overlap(g, c, d) {
      assert !Overlap(g, c, b);
    }
    ReplaceDisjoint(g, s, {b}, into);
    forall h | h in into ensures h !in s {
      assert Overlap(g, h, b) && h.level == b.level + 1;
    }
  }

  /** Joining two buddies of a tiling into their parent gives a tiling. */
  lemma MergeTiles(g: Geometry, s: set<Block>, b: Block)
    requires g.minsize > 0 && Tiles(g, s) && b.level > 0
    requires b in s && Buddy(g, b) in s
    ensures Parent(g, b) !in s && IsBlock(g, Parent(g, b))
    ensures Tiles(g, s - {b, Buddy(g, b)} + {Parent(g, b)})
  {
    BuddyFacts(g, b);
    var p := Parent(g, b);
    ParentIsBlock(g, b);
    ChildrenAreBlocks(g, p);
    var out := {b, Buddy(g, b)};
    assert out == Halves(g, p);
    forall x: nat | Covered(g, out, x) ensures Covered(g, {p}, x) {
      assert Contains(g, p, x);
    }
    ReplaceCovering(g, s, out, {p});
    forall c, d | c in s - out && d in {p} ensures !Overlap(g, c, d) {
      assert LeftChild(p) in out && RightChild(g, p) in out;
      assert !Overlap(g, c, LeftChild(p)) && !Overlap(g, c, RightChild(g, p));
    }
    ReplaceDisjoint(g, s, out, {p});
    assert Overlap(g, p, b) && p.level < b.level;
  }

  /** A region that no used block touches. */
  ghost predicate Available(g: Geometry, used: set<Block>, r: Block)
    requires g.minsize > 0
  {
    IsBlock(g, r) && forall u :: u in used ==> !Overlap(g, u, r)
  }

  /** A larger block that meets the buddy of `b` meets `b` too. */
  lemma HoldsBothHalves(g: Geometry, c: Block, b: Block)
    requires g.minsize > 0 && IsBlock(g, c) && IsBlock(g, b) && b.level > 0 && c.level < b.level
    requires Overlap(g, c, Buddy(g, b))
    ensures Overlap(g, c, b)
  {
    var d := Buddy(g, b);
    BuddyFacts(g, b);
    OverlapIsNested(g, c, d);
    ParentStaysInside(g, c, d);
    ParentIsBlock(g, d);
    ChildrenAreBlocks(g, Parent(g, b));
  }

  /** In a tiling without free buddies, an available region cannot consist of smaller free blocks
      only: below any of them there would be a still smaller one. */
  lemma {:induction false} OnlySmallerIsImpossible(g: Geometry, blocks: set<Block>, used: set<Block>, r: Block,
                                                   b: Block)
    requires g.minsize > 0 && Tiles(g, blocks) && NoBuddies(g, blocks - used) && Available(g, used, r)
    requires forall c :: c in blocks - used ==> c.level > r.level
    requires b in blocks - used && r.off <= b.off && End(g, b) <= End(g, r)
    ensures false
    decreases g.depth - b.level
  {
    var d := Buddy(g, b);
    BuddyFacts(g, b);
    ParentStaysInside(g, r, b);
    ParentStaysInside(g, r, d);
    ParentIsBlock(g, d);
    ChildrenAreBlocks(g, Parent(g, b));
    assert r.off <= d.off && End(g, d) <= End(g, r);
    assert d.off < g.ArenaSize();
    assert Covered(g, blocks, d.off);
    var c :| c in blocks && Contains(g, c, d.off);
    assert Overlap(g, c, r) && Overlap(g, c, d);
    assert c !in used;
    if c.level <= b.level {
      OverlapIsNested(g, c, d);
      if c.level < d.level {
        HoldsBothHalves(g, c, b);
      }
      assert false;
    } else {
      OverlapIsNested(g, r, c);
      OnlySmallerIsImpossible(g, blocks, used, r, c);
    }
  }

  /** If a region of some level is available, some free block is at least that large. */
  lemma AvailableHasLargeFreeBlock(g: Geometry, blocks: set<Block>, used: set<Block>, r: Block)
    requires g.minsize > 0 && Tiles(g, blocks) && NoBuddies(g, blocks - used) && Available(g, used, r)
    ensures exists b :: b in blocks - used && b.level <= r.level
  {
    if forall c :: c in blocks - used ==> c.level > r.level {
      assert r.off < g.ArenaSize();
      assert Covered(g, blocks, r.off);
      var c :| c in blocks && Contains(g, c, r.off);
      assert Overlap(g, c, r);
      OverlapIsNested(g, r, c);
      OnlySmallerIsImpossible(g, blocks, used, r, c);
    }
  }

  /** Conversely a free block at least that large holds an available region of that level. */
  lemma {:induction false} LargeFreeBlockIsAvailable(g: Geometry, blocks: set<Block>, used: set<Block>, b: Block,
                                                     level: nat)
    requires g.minsize > 0 && Tiles(g, blocks) && used <= blocks
    requires b in blocks - used && b.level <= level <= g.depth
    ensures Available(g, used, Block(b.off, level)) && End(g, Block(b.off, level)) <= End(g, b)
  {
    var m := BlockSizeMultiple(g, b.level, level);
    MultipleModulo(b.off, m, g.BlockSize(level));
    MulMonotone(1, m, g.BlockSize(level));
  }

  /** With nothing in use, a tiling without free buddies is the single block of level 0. */
  lemma NothingUsedIsWhole(g: Geometry, blocks: set<Block>)
    requires g.minsize > 0 && Tiles(g, blocks) && NoBuddies(g, blocks)
    ensures blocks == {Block(0, 0)}
  {
    var whole := Block(0, 0);
    WholeArenaTiles(g);
    assert Available(g, {}, whole);
    assert blocks - {} == blocks;
    AvailableHasLargeFreeBlock(g, blocks, {}, whole);
    var b :| b in blocks && b.level == 0;
    OverlapIsNested(g, whole, b);
    forall c | c in blocks ensures c == whole {
      assert Overlap(g, c, whole);
    }
  }
}
