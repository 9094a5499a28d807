/** The bytes of the secure arena and the doubly linked free lists threaded through them
    (crypto/mem_sec.c).  A stored pointer occupies eight consecutive cells; the null pointer is
    eight zero bytes.  An SH_LIST header is two pointers: `next`, then `p_next`. */
module FreeLists {

  /** What a pointer variable of the allocator can hold: nothing, a chunk of the arena, the
      address of a slot of `sh.freelist`, or the address of a chunk's `next` field. */
  datatype Pointer = Null | Chunk(off: nat) | HeadSlot(level: nat) | NextField(off: nat)

  datatype Cell = Byte(value: nat) | Fragment(p: Pointer, k: nat)

  const HEADER_SIZE: nat := 16

  function Encode(p: Pointer): (r: seq<Cell>)
    ensures |r| == 8
  {
    if p.Null? then [Byte(0), Byte(0), Byte(0), Byte(0), Byte(0), Byte(0), Byte(0), Byte(0)]
    else [Fragment(p, 0), Fragment(p, 1), Fragment(p, 2), Fragment(p, 3),
          Fragment(p, 4), Fragment(p, 5), Fragment(p, 6), Fragment(p, 7)]
  }

  /** `mem` with the cells from `off` on replaced. */
  function Patch(mem: seq<Cell>, off: nat, cells: seq<Cell>): (r: seq<Cell>)
    requires off + |cells| <= |mem|
    ensures |r| == |mem|
    ensures r[off..off + |cells|] == cells
    ensures forall k :: 0 <= k < |mem| && !(off <= k < off + |cells|) ==> r[k] == mem[k]
  {
    mem[..off] + cells + mem[off + |cells|..]
  }

  function SetNext(mem: seq<Cell>, off: nat, p: Pointer): seq<Cell>
    requires off + HEADER_SIZE <= |mem|
  {
    Patch(mem, off, Encode(p))
  }

  function SetPrev(mem: seq<Cell>, off: nat, p: Pointer): seq<Cell>
    requires off + HEADER_SIZE <= |mem|
  {
    Patch(mem, off + 8, Encode(p))
  }

  ghost predicate HeaderIs(mem: seq<Cell>, off: nat, next: Pointer, prev: Pointer) {
    off + HEADER_SIZE <= |mem| && mem[off..off + 8] == Encode(next) && mem[off + 8..off + 16] == Encode(prev)
  }

  ghost predicate Apart(a: nat, b: nat) {
    a + HEADER_SIZE <= b || b + HEADER_SIZE <= a
  }

  lemma SetNextHeader(mem: seq<Cell>, off: nat, next: Pointer, prev: Pointer, p: Pointer)
    requires HeaderIs(mem, off, next, prev)
    ensures HeaderIs(SetNext(mem, off, p), off, p, prev)
  {
    var m := SetNext(mem, off, p);
    assert m[off + 8..off + 16] == mem[off + 8..off + 16];
  }

  lemma SetPrevHeader(mem: seq<Cell>, off: nat, next: Pointer, prev: Pointer, p: Pointer)
    requires HeaderIs(mem, off, next, prev)
    ensures HeaderIs(SetPrev(mem, off, p), off, next, p)
  {
    var m := SetPrev(mem, off, p);
    assert m[off..off + 8] == mem[off..off + 8];
  }

  lemma SetBothHeader(mem: seq<Cell>, off: nat, next: Pointer, prev: Pointer)
    requires off + HEADER_SIZE <= |mem|
    ensures HeaderIs(SetPrev(SetNext(mem, off, next), off, prev), off, next, prev)
  {
    var m := SetNext(mem, off, next);
    var m' := SetPrev(m, off, prev);
    assert m'[off..off + 8] == m[off..off + 8];
  }

  /** Two memories that agree on a header. */
  ghost predicate SameHeader(mem: seq<Cell>, mem': seq<Cell>, off: nat) {
    |mem| == |mem'| && off + HEADER_SIZE <= |mem| && mem[off..off + HEADER_SIZE] == mem'[off..off + HEADER_SIZE]
  }

  lemma SameHeaderKeeps(mem: seq<Cell>, mem': seq<Cell>, off: nat, next: Pointer, prev: Pointer)
    requires HeaderIs(mem, off, next, prev) && SameHeader(mem, mem', off)
    ensures HeaderIs(mem', off, next, prev)
  {
    assert mem'[off..off + 8] == mem'[off..off + HEADER_SIZE][..8] == mem[off..off + 8];
    assert mem'[off + 8..off + 16] == mem'[off..off + HEADER_SIZE][8..] == mem[off + 8..off + 16];
  }

  lemma PatchKeepsHeader(mem: seq<Cell>, at: nat, cells: seq<Cell>, off: nat)
    requires at + |cells| <= |mem| && off + HEADER_SIZE <= |mem|
    requires at + |cells| <= off || off + HEADER_SIZE <= at
    ensures SameHeader(mem, Patch(mem, at, cells), off)
  {
  }

  // ---------- One list ----------

  function FirstOf(list: seq<nat>): Pointer {
    if list == [] then Null else Chunk(list[0])
  }

  function NextOf(list: seq<nat>, k: nat): Pointer
    requires k < |list|
  {
    if k + 1 < |list| then Chunk(list[k + 1]) else Null
  }

  function PrevOf(level: nat, list: seq<nat>, k: nat): Pointer
    requires k < |list|
  {
    if k == 0 then HeadSlot(level) else NextField(list[k - 1])
  }

  /** `list` are the offsets reached from `head`, every link present in both directions. */
  ghost predicate Threaded(head: Pointer, mem: seq<Cell>, level: nat, list: seq<nat>) {
    && head == FirstOf(list)
    && forall k :: 0 <= k < |list| ==> HeaderIs(mem, list[k], NextOf(list, k), PrevOf(level, list, k))
  }

  ghost predicate AllApart(list: seq<nat>) {
    forall i, j :: 0 <= i < j < |list| ==> Apart(list[i], list[j])
  }

  lemma ThreadedFrame(head: Pointer, mem: seq<Cell>, mem': seq<Cell>, level: nat, list: seq<nat>)
    requires Threaded(head, mem, level, list)
    requires forall k :: 0 <= k < |list| ==> SameHeader(mem, mem', list[k])
    ensures Threaded(head, mem', level, list)
  {
    forall k | 0 <= k < |list| ensures HeaderIs(mem', list[k], NextOf(list, k), PrevOf(level, list, k)) {
      SameHeaderKeeps(mem, mem', list[k], NextOf(list, k), PrevOf(level, list, k));
    }
  }

  /** The memory after `sh_add_to_list(&sh.freelist[level], off)`. */
  function AddMemory(mem: seq<Cell>, head: Pointer, level: nat, off: nat): (r: seq<Cell>)
    requires off + HEADER_SIZE <= |mem|
    requires head.Chunk? ==> head.off + HEADER_SIZE <= |mem|
  {
    var m := SetPrev(SetNext(mem, off, head), off, HeadSlot(level));
    if head.Chunk? then SetPrev(m, head.off, NextField(off)) else m
  }

  /** Writing the new header leaves the old first chunk's `p_next` readable. */
  lemma BackPointerKept(mem: seq<Cell>, head: Pointer, level: nat, off: nat, headNext: Pointer)
    requires head.Chunk? && HeaderIs(mem, head.off, headNext, HeadSlot(level))
    requires off + HEADER_SIZE <= |mem| && Apart(head.off, off)
    ensures var m := SetPrev(SetNext(mem, off, head), off, HeadSlot(level));
            m[head.off + 8..head.off + 16] == Encode(HeadSlot(level))
  {
    var m1 := SetNext(mem, off, head);
    PatchKeepsHeader(mem, off, Encode(head), head.off);
    PatchKeepsHeader(m1, off + 8, Encode(HeadSlot(level)), head.off);
    SameHeaderKeeps(mem, SetPrev(m1, off, HeadSlot(level)), head.off, headNext, HeadSlot(level));
  }

  lemma AddMemoryFrame(mem: seq<Cell>, head: Pointer, level: nat, off: nat, x: nat)
    requires off + HEADER_SIZE <= |mem| && x < |mem|
    requires head.Chunk? ==> head.off + HEADER_SIZE <= |mem|
    requires !(off <= x < off + HEADER_SIZE)
    requires head.Chunk? ==> !(head.off <= x < head.off + HEADER_SIZE)
    ensures |AddMemory(mem, head, level, off)| == |mem|
    ensures AddMemory(mem, head, level, off)[x] == mem[x]
  {
  }

  lemma AddMemoryKeepsHeader(mem: seq<Cell>, head: Pointer, level: nat, off: nat, h: nat)
    requires off + HEADER_SIZE <= |mem| && h + HEADER_SIZE <= |mem|
    requires head.Chunk? ==> head.off + HEADER_SIZE <= |mem| && Apart(h, head.off)
    requires Apart(h, off)
    ensures SameHeader(mem, AddMemory(mem, head, level, off), h)
  {
    hide Patch, Encode;
    PatchKeepsHeader(mem, off, Encode(head), h);
    var m := SetNext(mem, off, head);
    PatchKeepsHeader(m, off + 8, Encode(HeadSlot(level)), h);
    var m' := SetPrev(m, off, HeadSlot(level));
    if head.Chunk? {
      PatchKeepsHeader(m', head.off + 8, Encode(NextField(off)), h);
    }
  }

  /** Adding at the front threads the longer list. */
  lemma AddThreads(head: Pointer, mem: seq<Cell>, level: nat, list: seq<nat>, off: nat)
    requires Threaded(head, mem, level, list) && AllApart(list) && off + HEADER_SIZE <= |mem|
    requires forall k :: 0 <= k < |list| ==> Apart(list[k], off)
    ensures head.Chunk? ==> head.off + HEADER_SIZE <= |mem|
    ensures Threaded(Chunk(off), AddMemory(mem, head, level, off), level, [off] + list)
  {
    assert list != [] ==> HeaderIs(mem, list[0], NextOf(list, 0), HeadSlot(level));
    var m1 := SetNext(mem, off, head);
    var m := SetPrev(m1, off, HeadSlot(level));
    SetBothHeader(mem, off, head, HeadSlot(level));
    var mem' := AddMemory(mem, head, level, off);
    var list' := [off] + list;
    if list != [] {
      PatchKeepsHeader(m, list[0] + 8, Encode(NextField(off)), off);
      SameHeaderKeeps(m, mem', off, head, HeadSlot(level));
      PatchKeepsHeader(mem, off, Encode(head), list[0]);
      PatchKeepsHeader(m1, off + 8, Encode(HeadSlot(level)), list[0]);
      SameHeaderKeeps(mem, m, list[0], NextOf(list, 0), HeadSlot(level));
      SetPrevHeader(m, list[0], NextOf(list, 0), HeadSlot(level), NextField(off));
    }
    forall k | 0 <= k < |list'| ensures HeaderIs(mem', list'[k], NextOf(list', k), PrevOf(level, list', k)) {
      if k >= 2 {
        assert HeaderIs(mem, list[k - 1], NextOf(list, k - 1), PrevOf(level, list, k - 1));
        AddMemoryKeepsHeader(mem, head, level, off, list[k - 1]);
        SameHeaderKeeps(mem, mem', list[k - 1], NextOf(list, k - 1), PrevOf(level, list, k - 1));
      }
    }
  }

  /** The memory after `sh_remove_from_list` of a chunk whose header is (`next`, `prev`). */
  function RemoveMemory(mem: seq<Cell>, next: Pointer, prev: Pointer): (r: seq<Cell>)
    requires next.Chunk? ==> next.off + HEADER_SIZE <= |mem|
    requires prev.NextField? ==> prev.off + HEADER_SIZE <= |mem|
  {
    var m := if next.Chunk? then SetPrev(mem, next.off, prev) else mem;
    if prev.NextField? then SetNext(m, prev.off, next) else m
  }

  lemma RemoveMemoryFrame(mem: seq<Cell>, next: Pointer, prev: Pointer, x: nat)
    requires next.Chunk? ==> next.off + HEADER_SIZE <= |mem| && !(next.off <= x < next.off + HEADER_SIZE)
    requires prev.NextField? ==> prev.off + HEADER_SIZE <= |mem| && !(prev.off <= x < prev.off + HEADER_SIZE)
    requires x < |mem|
    ensures |RemoveMemory(mem, next, prev)| == |mem|
    ensures RemoveMemory(mem, next, prev)[x] == mem[x]
  {
  }

  lemma RemoveMemoryKeepsHeader(mem: seq<Cell>, next: Pointer, prev: Pointer, h: nat)
    requires next.Chunk? ==> next.off + HEADER_SIZE <= |mem| && Apart(h, next.off)
    requires prev.NextField? ==> prev.off + HEADER_SIZE <= |mem| && Apart(h, prev.off)
    requires h + HEADER_SIZE <= |mem|
    ensures SameHeader(mem, RemoveMemory(mem, next, prev), h)
  {
    var m := if next.Chunk? then SetPrev(mem, next.off, prev) else mem;
    if next.Chunk? { PatchKeepsHeader(mem, next.off + 8, Encode(prev), h); }
    if prev.NextField? { PatchKeepsHeader(m, prev.off, Encode(next), h); }
  }

  function Without(list: seq<nat>, k: nat): seq<nat>
    requires k < |list|
  {
    list[..k] + list[k + 1..]
  }

  /** Unlinking the chunk at position `k` threads the list without it. */
  lemma RemoveThreads(head: Pointer, mem: seq<Cell>, level: nat, list: seq<nat>, k: nat)
    requires Threaded(head, mem, level, list) && AllApart(list) && k < |list|
    ensures NextOf(list, k).Chunk? ==> NextOf(list, k).off + HEADER_SIZE <= |mem|
    ensures PrevOf(level, list, k).NextField? ==> PrevOf(level, list, k).off + HEADER_SIZE <= |mem|
    ensures Threaded(if k == 0 then NextOf(list, k) else head,
                     RemoveMemory(mem, NextOf(list, k), PrevOf(level, list, k)), level, Without(list, k))
  {
    var next, prev := NextOf(list, k), PrevOf(level, list, k);
    if k + 1 < |list| {
      assert HeaderIs(mem, list[k + 1], NextOf(list, k + 1), PrevOf(level, list, k + 1));
    }
    if k > 0 {
      assert HeaderIs(mem, list[k - 1], NextOf(list, k - 1), PrevOf(level, list, k - 1));
    }
    var mem' := RemoveMemory(mem, next, prev);
    var list' := Without(list, k);
    forall j | 0 <= j < |list'| ensures HeaderIs(mem', list'[j], NextOf(list', j), PrevOf(level, list', j)) {
      RemoveThreadsAt(mem, level, list, k, j);
    }
  }

  /** The chunk after the removed one has its `p_next` redirected. */
  lemma RemoveAtSuccessor(mem: seq<Cell>, next: Pointer, prev: Pointer, n: Pointer, q: Pointer)
    requires next.Chunk? && HeaderIs(mem, next.off, n, q)
    requires prev.NextField? ==> prev.off + HEADER_SIZE <= |mem| && Apart(next.off, prev.off)
    ensures HeaderIs(RemoveMemory(mem, next, prev), next.off, n, prev)
  {
    var m := SetPrev(mem, next.off, prev);
    SetPrevHeader(mem, next.off, n, q, prev);
    if prev.NextField? {
      PatchKeepsHeader(m, prev.off, Encode(next), next.off);
      SameHeaderKeeps(m, RemoveMemory(mem, next, prev), next.off, n, prev);
    }
  }

  /** The chunk before the removed one has its `next` redirected. */
  lemma RemoveAtPredecessor(mem: seq<Cell>, next: Pointer, prev: Pointer, n: Pointer, q: Pointer)
    requires prev.NextField? && HeaderIs(mem, prev.off, n, q)
    requires next.Chunk? ==> next.off + HEADER_SIZE <= |mem| && Apart(prev.off, next.off)
    ensures HeaderIs(RemoveMemory(mem, next, prev), prev.off, next, q)
  {
    if next.Chunk? {
      var m := SetPrev(mem, next.off, prev);
      PatchKeepsHeader(mem, next.off + 8, Encode(prev), prev.off);
      SameHeaderKeeps(mem, m, prev.off, n, q);
      SetNextHeader(m, prev.off, n, q, next);
    } else {
      SetNextHeader(mem, prev.off, n, q, next);
    }
  }

  /** Position `j` of the shortened list, in terms of the old one. */
  lemma WithoutAt(level: nat, list: seq<nat>, k: nat, j: nat, i: nat)
    requires k < |list| && j < |Without(list, k)| && i == if j < k then j else j + 1
    ensures Without(list, k)[j] == list[i]
    ensures NextOf(Without(list, k), j) == if i + 1 == k then NextOf(list, k) else NextOf(list, i)
    ensures PrevOf(level, Without(list, k), j) == if i == k + 1 then PrevOf(level, list, k) else PrevOf(level, list, i)
  {
  }

  lemma RemoveThreadsAt(mem: seq<Cell>, level: nat, list: seq<nat>, k: nat, j: nat)
    requires k < |list| && j < |Without(list, k)| && AllApart(list)
    requires forall i :: 0 <= i < |list| ==> HeaderIs(mem, list[i], NextOf(list, i), PrevOf(level, list, i))
    requires NextOf(list, k).Chunk? ==> NextOf(list, k).off + HEADER_SIZE <= |mem|
    requires PrevOf(level, list, k).NextField? ==> PrevOf(level, list, k).off + HEADER_SIZE <= |mem|
    ensures HeaderIs(RemoveMemory(mem, NextOf(list, k), PrevOf(level, list, k)), Without(list, k)[j],
                     NextOf(Without(list, k), j), PrevOf(level, Without(list, k), j))
  {
    var i := if j < k then j else j + 1;
    WithoutAt(level, list, k, j, i);
    RemoveHeaderAt(mem, level, list, k, i);
  }

  lemma RemoveHeaderAt(mem: seq<Cell>, level: nat, list: seq<nat>, k: nat, i: nat)
    requires k < |list| && i < |list| && i != k && AllApart(list)
    requires HeaderIs(mem, list[i], NextOf(list, i), PrevOf(level, list, i))
    requires NextOf(list, k).Chunk? ==> NextOf(list, k).off + HEADER_SIZE <= |mem|
    requires PrevOf(level, list, k).NextField? ==> PrevOf(level, list, k).off + HEADER_SIZE <= |mem|
    ensures HeaderIs(RemoveMemory(mem, NextOf(list, k), PrevOf(level, list, k)), list[i],
                     if i + 1 == k then NextOf(list, k) else NextOf(list, i),
                     if i == k + 1 then PrevOf(level, list, k) else PrevOf(level, list, i))
  {
    var next, prev := NextOf(list, k), PrevOf(level, list, k);
    if i == k + 1 {
      assert k > 0 ==> Apart(list[k - 1], list[i]);
      RemoveAtSuccessor(mem, next, prev, NextOf(list, i), PrevOf(level, list, i));
    } else if i + 1 == k {
      assert k + 1 < |list| ==> Apart(list[i], list[k + 1]);
      RemoveAtPredecessor(mem, next, prev, NextOf(list, i), PrevOf(level, list, i));
    } else {
      assert k > 0 ==> Apart(list[k - 1], list[i]);
      assert k + 1 < |list| ==> Apart(list[i], list[k + 1]);
      RemoveMemoryKeepsHeader(mem, next, prev, list[i]);
      SameHeaderKeeps(mem, RemoveMemory(mem, next, prev), list[i], NextOf(list, i), PrevOf(level, list, i));
    }
  }
}
