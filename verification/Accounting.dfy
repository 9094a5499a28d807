/** The number of bytes handed out, as the secure heap counts it (crypto/mem_sec.c). */
module Accounting {
  import opened Blocks
  import opened Tiling

  ghost function TotalSize(g: Geometry, s: set<Block>): nat {
    if s == {} then 0
    else
      var b :| b in s;
      g.BlockSize(b.level) + TotalSize(g, s - {b})
  }

  /** The total does not depend on the order in which the blocks are counted. */
  lemma {:induction false} TotalSizeWithout(g: Geometry, s: set<Block>, b: Block)
    requires b in s
    ensures TotalSize(g, s) == g.BlockSize(b.level) + TotalSize(g, s - {b})
  {
    var c :| c in s && TotalSize(g, s) == g.BlockSize(c.level) + TotalSize(g, s - {c});
    if c != b {
      TotalSizeWithout(g, s - {c}, b);
      TotalSizeWithout(g, s - {b}, c);
      assert s - {c} - {b} == s - {b} - {c};
    }
  }

  lemma TotalSizeWith(g: Geometry, s: set<Block>, b: Block)
    requires b !in s
    ensures TotalSize(g, s + {b}) == TotalSize(g, s) + g.BlockSize(b.level)
  {
    TotalSizeWithout(g, s + {b}, b);
    assert s + {b} - {b} == s;
  }

  lemma TotalSizeZero(g: Geometry, s: set<Block>)
    requires g.minsize > 0
    ensures TotalSize(g, s) == 0 <==> s == {}
  {
    if b :| b in s {
      TotalSizeWithout(g, s, b);
    }
  }

  // ---------- Bytes in use and bytes free ----------

  ghost function Interval(lo: nat, hi: nat): (r: set<nat>)
    ensures forall x: nat :: x in r <==> lo <= x < hi
    ensures |r| == if lo < hi then hi - lo else 0
  {
    if lo < hi then Interval(lo, hi - 1) + {hi - 1} else {}
  }

  /** The bytes of the blocks of `s`. */
  ghost function Footprint(g: Geometry, s: set<Block>): set<nat> {
    set x: nat | x < g.ArenaSize() && Covered(g, s, x)
  }

  /** Blocks that do not overlap take as many bytes as their sizes add up to. */
  lemma {:induction false} FootprintSize(g: Geometry, s: set<Block>)
    requires g.minsize > 0 && AllBlocks(g, s) && Disjoint(g, s)
    ensures |Footprint(g, s)| == TotalSize(g, s)
  {
    if s == {} {
      assert Footprint(g, s) == {};
    } else {
      var b :| b in s && TotalSize(g, s) == g.BlockSize(b.level) + TotalSize(g, s - {b});
      var here, rest := Interval(b.off, End(g, b)), Footprint(g, s - {b});
      FootprintSize(g, s - {b});
      FootprintWithout(g, s, b);
      assert |here + rest| == |here| + |rest|;
    }
  }

  lemma CoveredWithout(g: Geometry, s: set<Block>, b: Block, x: nat)
    requires Disjoint(g, s) && b in s
    ensures Covered(g, s, x) <==> Contains(g, b, x) || Covered(g, s - {b}, x)
    ensures !(Contains(g, b, x) && Covered(g, s - {b}, x))
  {
    if c :| c in s && Contains(g, c, x) && c != b {
      assert c in s - {b};
      assert !Overlap(g, b, c);
    }
  }

  lemma FootprintWithout(g: Geometry, s: set<Block>, b: Block)
    requires g.minsize > 0 && AllBlocks(g, s) && Disjoint(g, s) && b in s
    ensures Footprint(g, s) == Interval(b.off, End(g, b)) + Footprint(g, s - {b})
    ensures Interval(b.off, End(g, b)) !! Footprint(g, s - {b})
  {
    hide Disjoint, Covered, Geometry.BlockSize;
    assert IsBlock(g, b);
    forall x: nat
      ensures Covered(g, s, x) <==> Contains(g, b, x) || Covered(g, s - {b}, x)
      ensures !(Contains(g, b, x) && Covered(g, s - {b}, x))
    {
      CoveredWithout(g, s, b, x);
    }
    assert forall x: nat :: Contains(g, b, x) <==> x in Interval(b.off, End(g, b));
  }

  /** The blocks of a tiling add up to the arena. */
  lemma TilingTotal(g: Geometry, blocks: set<Block>)
    requires g.minsize > 0 && Tiles(g, blocks)
    ensures TotalSize(g, blocks) == g.ArenaSize()
  {
    FootprintSize(g, blocks);
    assert Footprint(g, blocks) == Interval(0, g.ArenaSize());
  }

  lemma {:induction false} TotalSizeSplits(g: Geometry, blocks: set<Block>, used: set<Block>)
    requires used <= blocks
    ensures TotalSize(g, blocks) == TotalSize(g, used) + TotalSize(g, blocks - used)
  {
    if b :| b in used {
      TotalSizeWithout(g, used, b);
      TotalSizeWithout(g, blocks, b);
      TotalSizeSplits(g, blocks - {b}, used - {b});
      assert blocks - {b} - (used - {b}) == blocks - used;
    } else {
      assert used == {} && blocks - used == blocks;
    }
  }

  /** The blocks handed out fill the arena exactly when none is free. */
  lemma FullExactly(g: Geometry, blocks: set<Block>, used: set<Block>)
    requires g.minsize > 0 && Tiles(g, blocks) && used <= blocks
    ensures TotalSize(g, used) + TotalSize(g, blocks - used) == g.ArenaSize()
    ensures TotalSize(g, used) == g.ArenaSize() <==> used == blocks
  {
    hide TotalSize, Tiles, Geometry.BlockSize, Geometry.ArenaSize;
    TilingTotal(g, blocks);
    TotalSizeSplits(g, blocks, used);
    TotalSizeZero(g, blocks - used);
    assert used + (blocks - used) == blocks;
  }
}
