/** The iterative walk over a sparse array, crypto/sparse_array.c:sa_doall.  The calls to `leaf` and
    `node` are returned as two sequences. */
module SparseArrayWalk {
  import opened SparseArray

  // ---------- Where the walk stands ----------

  /** Index `m` comes before slot `pos` of level `lv`. */
  ghost predicate Before(m: nat, lv: nat, pos: nat) {
    Shift(m, lv) < pos
  }

  /** The node at `p` ends at or before slot `pos` of level `lv`. */
  ghost predicate Over(p: Place, lv: nat, pos: nat) {
    if p.level < lv then Shift(p.prefix, lv - 1 - p.level) < pos
    else p.prefix < Shift(pos, p.level + 1 - lv)
  }

  /** `p` is `cur` or above it. */
  ghost predicate OnPath(p: Place, cur: Place) {
    p.level >= cur.level && p.prefix == Shift(cur.prefix, p.level - cur.level)
  }

  /** The slots of a node at level `lv + 1` end where its children at level `lv` do: going up from
      slot 16 of a node, or down to slot 0 of a child, passes nothing. */
  lemma SameFrontier(m: nat, p: Place, lv: nat, pos: nat)
    ensures Before(m, lv, 16 * pos) <==> Before(m, lv + 1, pos)
    ensures Over(p, lv, 16 * pos) <==> Over(p, lv + 1, pos)
  {
    ShiftStep(m, lv);
    if p.level < lv {
      ShiftStep(p.prefix, lv - 1 - p.level);
    } else {
      assert Shift(16 * pos, p.level + 1 - lv) == Shift(pos, p.level - lv);
    }
  }

  /** What the next slot passes. */
  lemma NextSlot(m: nat, p: Place, cur: Place, n: nat)
    requires n < SA_BLOCK_MAX
    ensures var pos := 16 * cur.prefix + n;
            && (Before(m, cur.level, pos + 1) <==> Before(m, cur.level, pos) || Shift(m, cur.level) == pos)
            && (p.level < cur.level ==>
                  (Over(p, cur.level, pos + 1) <==>
                      Over(p, cur.level, pos) || Shift(p.prefix, cur.level - 1 - p.level) == pos))
            && (p.level >= cur.level && Over(p, cur.level, pos + 1) ==> Over(p, cur.level, pos) || OnPath(p, cur))
            && (p.level >= cur.level && Over(p, cur.level, pos) ==> Over(p, cur.level, pos + 1))
  {
    var pos := 16 * cur.prefix + n;
    if p.level >= cur.level {
      var d := p.level - cur.level;
      assert Shift(pos, d + 1) == Shift(cur.prefix, d);
      assert Shift(pos + 1, d + 1) == Shift((pos + 1) / 16, d);
      ShiftMonotone(cur.prefix, (pos + 1) / 16, d);
      NextShift(cur.prefix, d);
    }
  }

  lemma {:induction false} NextShift(n: nat, d: nat)
    ensures Shift(n + 1, d) <= Shift(n, d) + 1
    decreases d
  {
    if d > 0 {
      if (n + 1) / 16 == n / 16 {
      } else {
        assert (n + 1) / 16 == n / 16 + 1;
        NextShift(n / 16, d - 1);
      }
    }
  }

  // ---------- What has been called so far ----------

  ghost predicate LeavesOk<V>(leaves: seq<(nat, V)>, contents: map<nat, V>, lv: nat, pos: nat) {
    && (forall j, k :: 0 <= j < k < |leaves| ==> leaves[j].0 < leaves[k].0)
    && (forall k :: 0 <= k < |leaves| ==>
          leaves[k].0 in contents && leaves[k].1 == contents[leaves[k].0] && Before(leaves[k].0, lv, pos))
    && (forall m :: m in contents && Before(m, lv, pos) ==> (m, contents[m]) in leaves)
  }

  ghost predicate NodesDone(called: seq<Place>, places: set<Place>, cur: Place, lv: nat, pos: nat) {
    && (forall j, k :: 0 <= j < k < |called| ==> called[j] != called[k])
    && (forall p :: p in called <==> p in places && Over(p, lv, pos) && !OnPath(p, cur))
  }

  /** Every node comes after its children. */
  ghost predicate ChildrenFirst(called: seq<Place>, places: set<Place>) {
    forall k, i :: 0 <= k < |called| && 0 <= i < SA_BLOCK_MAX ==> ChildBefore(called, places, k, i)
  }

  ghost predicate ChildBefore(called: seq<Place>, places: set<Place>, k: nat, i: nat)
    requires k < |called|
  {
    called[k].level > 0 && Place(called[k].level - 1, 16 * called[k].prefix + i) in places ==>
      Place(called[k].level - 1, 16 * called[k].prefix + i) in called[..k]
  }

  /** The state of the walk at slot `n` of the node at `cur`. */
  ghost predicate WalkOk<V>(places: set<Place>, contents: map<nat, V>, cur: Place, n: nat,
                            leaves: seq<(nat, V)>, called: seq<Place>) {
    && LeavesOk(leaves, contents, cur.level, 16 * cur.prefix + n)
    && NodesDone(called, places, cur, cur.level, 16 * cur.prefix + n)
    && ChildrenFirst(called, places)
  }

  /** The nodes the walk has not reached yet. */
  ghost function Unreached(places: set<Place>, cur: Place, n: nat): set<Place> {
    set p | p in places && !Over(p, cur.level, 16 * cur.prefix + n) && !OnPath(p, cur)
  }

  lemma WalkStart<V>(levels: nat, places: set<Place>, contents: map<nat, V>, cur: Place)
    requires (levels > 0 && cur == Place(levels - 1, 0)) ||
             (levels == 0 && cur == Place(0, 0) && places == {} && contents == map[])
    ensures WalkOk(places, contents, cur, 0, [], [])
  {
    forall p | p in places ensures !Over(p, cur.level, 0) {
      if p.level >= cur.level {
        ShiftOfZero(p.level + 1 - cur.level);
      }
    }
  }

  lemma {:induction false} ShiftOfZero(k: nat)
    ensures Shift(0, k) == 0
    decreases k
  {
    if k > 0 {
      assert Shift(0, k) == Shift(0, k - 1);
      ShiftOfZero(k - 1);
    }
  }

  /** Going down to a child. */
  lemma WalkPush<V>(places: set<Place>, contents: map<nat, V>, cur: Place, n: nat, leaves: seq<(nat, V)>,
                    called: seq<Place>)
    requires WalkOk(places, contents, cur, n, leaves, called) && n < SA_BLOCK_MAX && cur.level > 0
    requires Place(cur.level - 1, 16 * cur.prefix + n) in places
    ensures var child := Place(cur.level - 1, 16 * cur.prefix + n);
            && WalkOk(places, contents, child, 0, leaves, called)
            && child in Unreached(places, cur, n)
            && Unreached(places, child, 0) == Unreached(places, cur, n) - {child}
  {
    var pos := 16 * cur.prefix + n;
    var child := Place(cur.level - 1, pos);
    forall m: nat ensures Before(m, child.level, 16 * pos) <==> Before(m, cur.level, pos) {
      SameFrontier(m, child, child.level, pos);
    }
    forall p ensures Over(p, child.level, 16 * pos) <==> Over(p, cur.level, pos) {
      SameFrontier(0, p, child.level, pos);
    }
    forall p ensures OnPath(p, child) <==> OnPath(p, cur) || p == child {
      PathGrows(p, cur, n);
    }
    assert Shift(child.prefix, 0) == pos;
    assert !Over(child, cur.level, pos) && !OnPath(child, cur);
  }

  /** The path to a child is the path to its parent and the child. */
  lemma PathGrows(p: Place, cur: Place, n: nat)
    requires n < SA_BLOCK_MAX && cur.level > 0
    ensures OnPath(p, Place(cur.level - 1, 16 * cur.prefix + n)) <==>
            OnPath(p, cur) || p == Place(cur.level - 1, 16 * cur.prefix + n)
  {
    var child := Place(cur.level - 1, 16 * cur.prefix + n);
    if p.level >= cur.level {
      assert Shift(child.prefix, p.level - child.level) == Shift(cur.prefix, p.level - cur.level);
    }
  }

  /** Leaving a finished node, after the call for it. */
  lemma WalkPop<V>(levels: nat, places: set<Place>, contents: map<nat, V>, cur: Place, leaves: seq<(nat, V)>,
                   called: seq<Place>)
    requires WalkOk(places, contents, cur, SA_BLOCK_MAX, leaves, called) && Closed(levels, places) && cur in places
    ensures cur !in called
    ensures cur.level + 1 < levels ==>
              WalkOk(places, contents, Place(cur.level + 1, cur.prefix / 16), cur.prefix % 16 + 1,
                     leaves, called + [cur])
    ensures cur.level + 1 == levels ==>
              && (forall p :: p in called + [cur] <==> p in places)
              && (forall j, k :: 0 <= j < k < |called| + 1 ==> (called + [cur])[j] != (called + [cur])[k])
              && ChildrenFirst(called + [cur], places)
              && (forall m :: m in contents && Before(m, cur.level, 16 * cur.prefix + 16) ==>
                  (m, contents[m]) in leaves)
  {
    assert OnPath(cur, cur);
    ParentOf(levels, places, cur);
    var called' := called + [cur];
    CalledAfterPop(places, cur, called);
    if cur.level + 1 < levels {
      var up := Place(cur.level + 1, cur.prefix / 16);
      var pos := cur.prefix + 1;
      assert 16 * up.prefix + (cur.prefix % 16 + 1) == pos && 16 * cur.prefix + SA_BLOCK_MAX == 16 * pos;
      forall m: nat ensures Before(m, cur.level, 16 * pos) <==> Before(m, up.level, pos) {
        SameFrontier(m, cur, cur.level, pos);
      }
      forall p ensures Over(p, cur.level, 16 * pos) <==> Over(p, up.level, pos) {
        SameFrontier(0, p, cur.level, pos);
      }
      forall p ensures OnPath(p, cur) <==> OnPath(p, up) || p == cur {
        PathGrows(p, up, cur.prefix % 16);
      }
      assert Over(cur, cur.level, 16 * pos) by {
        assert Shift(16 * pos, 1) == Shift(pos, 0);
      }
    } else {
      RootIsLast(levels, places, cur);
    }
  }

  lemma CalledAfterPop(places: set<Place>, cur: Place, called: seq<Place>)
    requires NodesDone(called, places, cur, cur.level, 16 * cur.prefix + SA_BLOCK_MAX) && ChildrenFirst(called, places)
    ensures ChildrenFirst(called + [cur], places)
  {
    var called' := called + [cur];
    forall k, i | 0 <= k < |called'| && 0 <= i < SA_BLOCK_MAX ensures ChildBefore(called', places, k, i) {
      if k < |called| {
        assert ChildBefore(called, places, k, i);
        assert called'[..k] == called[..k];
      } else {
        assert called'[..k] == called;
        if cur.level > 0 {
          var c := Place(cur.level - 1, 16 * cur.prefix + i);
          assert Shift(c.prefix, 0) == c.prefix;
          assert Over(c, cur.level, 16 * cur.prefix + SA_BLOCK_MAX) && !OnPath(c, cur);
        }
      }
    }
  }

  /** At the end of the root everything but the root is over. */
  lemma RootIsLast(levels: nat, places: set<Place>, root: Place)
    requires Closed(levels, places) && root in places && root.level + 1 == levels
    ensures root.prefix == 0
    ensures forall p :: p in places ==> p == root || (Over(p, root.level, SA_BLOCK_MAX) && !OnPath(p, root))
  {
    NoneAbove(levels, places);
    forall p | p in places && p != root ensures Over(p, root.level, SA_BLOCK_MAX) && !OnPath(p, root) {
      Ancestors(levels, places, p, root.level);
      assert p.level < root.level;
      assert Shift(p.prefix, root.level - p.level) == 0;
      ShiftStep(p.prefix, root.level - 1 - p.level);
    }
  }

  /** Passing an empty slot, or a user's pointer after the call for it. */
  lemma WalkNext<V>(levels: nat, places: set<Place>, contents: map<nat, V>, cur: Place, n: nat,
                    leaves: seq<(nat, V)>, leaves': seq<(nat, V)>, called: seq<Place>)
    requires WalkOk(places, contents, cur, n, leaves, called) && n < SA_BLOCK_MAX && Closed(levels, places)
    requires cur.level < levels || places == {}
    requires forall m :: m in contents ==> Place(0, m / 16) in places
    requires cur.level > 0 ==> Place(cur.level - 1, 16 * cur.prefix + n) !in places
    requires var pos := 16 * cur.prefix + n;
             leaves' == if cur.level == 0 && pos in contents then leaves + [(pos, contents[pos])] else leaves
    ensures WalkOk(places, contents, cur, n + 1, leaves', called)
    ensures Unreached(places, cur, n + 1) == Unreached(places, cur, n)
  {
    var pos := 16 * cur.prefix + n;
    forall p | p in places
      ensures Over(p, cur.level, pos + 1) && !OnPath(p, cur) <==> Over(p, cur.level, pos) && !OnPath(p, cur)
    {
      NextSlot(0, p, cur, n);
      if p.level < cur.level && Shift(p.prefix, cur.level - 1 - p.level) == pos {
        Ancestors(levels, places, p, cur.level - 1);
      }
    }
    LeavesNext(levels, places, contents, cur, n, leaves, leaves');
  }

  lemma LeavesNext<V>(levels: nat, places: set<Place>, contents: map<nat, V>, cur: Place, n: nat,
                      leaves: seq<(nat, V)>, leaves': seq<(nat, V)>)
    requires LeavesOk(leaves, contents, cur.level, 16 * cur.prefix + n) && n < SA_BLOCK_MAX && Closed(levels, places)
    requires cur.level < levels || places == {}
    requires forall m :: m in contents ==> Place(0, m / 16) in places
    requires cur.level > 0 ==> Place(cur.level - 1, 16 * cur.prefix + n) !in places
    requires var pos := 16 * cur.prefix + n;
             leaves' == if cur.level == 0 && pos in contents then leaves + [(pos, contents[pos])] else leaves
    ensures LeavesOk(leaves', contents, cur.level, 16 * cur.prefix + n + 1)
  {
    var pos := 16 * cur.prefix + n;
    forall m | m in contents && Before(m, cur.level, pos + 1) ensures (m, contents[m]) in leaves' {
      NextSlot(m, cur, cur, n);
      if Shift(m, cur.level) == pos {
        if cur.level > 0 {
          Ancestors(levels, places, Place(0, m / 16), cur.level - 1);
        } else {
          assert m == pos;
        }
      } else {
        assert (m, contents[m]) in leaves;
      }
    }
  }

  // ---------- The stacks ----------

  /** The two stacks hold the path to `cur`: on every level below the top the slot after the one
      that was entered, and the node. */
  ghost predicate StackOk<V>(i: seq<int>, nodes: seq<Slot<V>>, depth: nat, tree: map<Place, array<Slot<V>>>,
                             cur: Place, n: nat) {
    var l := depth - 1 - cur.level;
    && 1 <= depth <= SA_BLOCK_MAX_LEVELS && cur.level < depth && |i| == |nodes| == SA_BLOCK_MAX_LEVELS
    && i[l] == n && nodes[l] == SlotFor(tree, cur) && Shift(cur.prefix, l) == 0
    && forall m :: 0 <= m < l ==> LevelOk(i, nodes, depth, tree, cur, m)
  }

  ghost predicate LevelOk<V>(i: seq<int>, nodes: seq<Slot<V>>, depth: nat, tree: map<Place, array<Slot<V>>>,
                             cur: Place, m: nat)
    requires cur.level < depth && m < depth - 1 - cur.level && |i| == |nodes| && depth <= |i|
  {
    var l := depth - 1 - cur.level;
    && i[m] == Shift(cur.prefix, l - 1 - m) % 16 + 1
    && nodes[m] == SlotFor(tree, Place(depth - 1 - m, Shift(cur.prefix, l - m)))
  }

  lemma StackPush<V>(i: seq<int>, nodes: seq<Slot<V>>, depth: nat, tree: map<Place, array<Slot<V>>>, cur: Place,
                     n: nat, s: Slot<V>)
    requires StackOk(i, nodes, depth, tree, cur, n) && n < SA_BLOCK_MAX && cur.level > 0
    requires s == SlotFor(tree, Place(cur.level - 1, 16 * cur.prefix + n))
    ensures var l := depth - 1 - cur.level;
            && l + 1 < SA_BLOCK_MAX_LEVELS
            && StackOk(i[l := n + 1][l + 1 := 0], nodes[l + 1 := s], depth, tree,
                       Place(cur.level - 1, 16 * cur.prefix + n), 0)
  {
    var l := depth - 1 - cur.level;
    var child := Place(cur.level - 1, 16 * cur.prefix + n);
    var i', nodes' := i[l := n + 1][l + 1 := 0], nodes[l + 1 := s];
    assert Shift(child.prefix, l + 1) == Shift(cur.prefix, l);
    forall m | 0 <= m < l + 1 ensures LevelOk(i', nodes', depth, tree, child, m) {
      assert Shift(child.prefix, l + 1 - m) == Shift(cur.prefix, l - m);
      if m < l {
        assert LevelOk(i, nodes, depth, tree, cur, m);
        assert Shift(child.prefix, l - m) == Shift(cur.prefix, l - 1 - m);
      } else {
        assert Shift(child.prefix, 0) == child.prefix;
      }
    }
  }

  lemma StackPop<V>(i: seq<int>, nodes: seq<Slot<V>>, depth: nat, tree: map<Place, array<Slot<V>>>, cur: Place, n: nat)
    requires StackOk(i, nodes, depth, tree, cur, n) && cur.level + 1 < depth
    ensures StackOk(i, nodes, depth, tree, Place(cur.level + 1, cur.prefix / 16), cur.prefix % 16 + 1)
  {
    var l := depth - 1 - cur.level;
    var up := Place(cur.level + 1, cur.prefix / 16);
    assert LevelOk(i, nodes, depth, tree, cur, l - 1);
    assert Shift(cur.prefix, 0) == cur.prefix && Shift(cur.prefix, 1) == Shift(up.prefix, 0);
    assert Shift(cur.prefix, l) == Shift(up.prefix, l - 1);
    forall m | 0 <= m < l - 1 ensures LevelOk(i, nodes, depth, tree, up, m) {
      assert LevelOk(i, nodes, depth, tree, cur, m);
      assert Shift(cur.prefix, l - 1 - m) == Shift(up.prefix, l - 2 - m);
      assert Shift(cur.prefix, l - m) == Shift(up.prefix, l - 1 - m);
    }
  }

  lemma StackNext<V>(i: seq<int>, nodes: seq<Slot<V>>, depth: nat, tree: map<Place, array<Slot<V>>>, cur: Place, n: nat)
    requires StackOk(i, nodes, depth, tree, cur, n)
    ensures StackOk(i[depth - 1 - cur.level := n + 1], nodes, depth, tree, cur, n + 1)
  {
    var l := depth - 1 - cur.level;
    var i' := i[l := n + 1];
    forall m | 0 <= m < l ensures LevelOk(i', nodes, depth, tree, cur, m) {
      assert LevelOk(i, nodes, depth, tree, cur, m);
    }
  }

  /** A number whose digits from position `k` on are zero has at most `k` digits. */
  lemma {:induction false} FewDigits(n: nat, k: nat)
    requires Shift(n, k) == 0
    ensures n < Pow16(k)
    decreases k
  {
    if k > 0 {
      FewDigits(n / 16, k - 1);
    }
  }

  function Pow16(k: nat): nat {
    if k == 0 then 1 else 16 * Pow16(k - 1)
  }

  lemma {:induction false} Pow16Bound(k: nat)
    requires k <= 15
    ensures Pow16(k) * 16 <= UINTMAX_LIMIT
  {
    Pow16Grows(k, 15);
    assert Pow16(15) == 16 * 16 * 16 * 16 * 16 * 16 * 16 * Pow16(8);
    assert Pow16(8) == 0x1_0000_0000;
  }

  lemma {:induction false} Pow16Grows(a: nat, b: nat)
    requires a <= b
    ensures Pow16(a) <= Pow16(b)
  {
    if a < b {
      Pow16Grows(a, b - 1);
    }
  }

  // ---------- The walk ----------

  /** The calls are all the calls there should be: one to `leaf` for every entry, in increasing
      order of the index, and one to `node` for every node, children before parents. */
  ghost predicate Complete<V>(leaves: seq<(nat, V)>, called: seq<Place>, places: set<Place>, contents: map<nat, V>) {
    && (forall j, k :: 0 <= j < k < |leaves| ==> leaves[j].0 < leaves[k].0)
    && (forall k :: 0 <= k < |leaves| ==> leaves[k].0 in contents && leaves[k].1 == contents[leaves[k].0])
    && (forall m :: m in contents ==> (m, contents[m]) in leaves)
    && (forall j, k :: 0 <= j < k < |called| ==> called[j] != called[k])
    && (forall p :: p in called <==> p in places)
    && ChildrenFirst(called, places)
  }

  ghost predicate Matches<V>(freed: seq<array<Slot<V>>>, called: seq<Place>, tree: map<Place, array<Slot<V>>>) {
    |freed| == |called| && forall k :: 0 <= k < |freed| ==> called[k] in tree && freed[k] == tree[called[k]]
  }

  lemma WalkEnd<V>(levels: nat, places: set<Place>, contents: map<nat, V>, cur: Place, leaves: seq<(nat, V)>,
                   called: seq<Place>)
    requires WalkOk(places, contents, cur, SA_BLOCK_MAX, leaves, called) && Closed(levels, places)
    requires cur in places && cur.level + 1 == levels && forall m :: m in contents ==> Place(0, m / 16) in places
    ensures Complete(leaves, called + [cur], places, contents)
  {
    WalkPop(levels, places, contents, cur, leaves, called);
    NoneAbove(levels, places);
    forall m | m in contents ensures (m, contents[m]) in leaves {
      Ancestors(levels, places, Place(0, m / 16), cur.level);
      NoneAbove(levels, places);
      assert Shift(m, levels) == 0;
      ShiftStep(m, cur.level);
      assert Before(m, cur.level, 16 * cur.prefix + 16);
    }
  }

  function Depth(levels: nat): nat {
    if levels == 0 then 1 else levels
  }

  /** The loop invariant of the walk. */
  ghost predicate Walking<V>(levels: nat, tree: map<Place, array<Slot<V>>>, contents: map<nat, V>,
                             l: int, i: seq<int>, nodes: seq<Slot<V>>, idx: nat, cur: Place, n: nat,
                             leaves: seq<(nat, V)>, called: seq<Place>, freed: seq<array<Slot<V>>>) {
    && levels <= SA_BLOCK_MAX_LEVELS && (if levels == 0 then tree == map[] else cur in tree)
    && Closed(levels, tree.Keys) && (forall m :: m in contents ==> Place(0, m / 16) in tree)
    && cur.level < Depth(levels) && l == Depth(levels) - 1 - cur.level && n <= SA_BLOCK_MAX
    && StackOk(i, nodes, Depth(levels), tree, cur, n) && idx / 16 == cur.prefix
    && WalkOk(tree.Keys, contents, cur, n, leaves, called) && Matches(freed, called, tree)
  }

  ghost function Uncalled(places: set<Place>, called: seq<Place>): set<Place> {
    set p | p in places && p !in called
  }

  lemma NoEntries<V>(tree: map<Place, array<Slot<V>>>, contents: map<nat, V>)
    requires tree == map[] && forall m :: m in contents ==> Place(0, m / 16) in tree
    ensures contents == map[]
  {
  }

  lemma StepStart<V>(levels: nat, tree: map<Place, array<Slot<V>>>, contents: map<nat, V>, i: seq<int>,
                     nodes: seq<Slot<V>>)
    requires levels <= SA_BLOCK_MAX_LEVELS && Closed(levels, tree.Keys)
    requires forall m :: m in contents ==> Place(0, m / 16) in tree
    requires |i| == |nodes| == SA_BLOCK_MAX_LEVELS && i[0] == 0
    requires nodes[0] == if levels == 0 then Null else SlotFor(tree, Place(levels - 1, 0))
    ensures Walking(levels, tree, contents, 0, i, nodes, 0, Place(Depth(levels) - 1, 0), 0, [], [], [])
  {
    NoneAbove(levels, tree.Keys);
    if levels == 0 {
      assert forall p :: p !in tree;
      NoEntries(tree, contents);
    }
    WalkStart(levels, tree.Keys, contents, Place(Depth(levels) - 1, 0));
  }

  /** Slot 16: the node is done. */
  lemma StepPop<V>(levels: nat, tree: map<Place, array<Slot<V>>>, contents: map<nat, V>,
                   l: int, i: seq<int>, nodes: seq<Slot<V>>, idx: nat, cur: Place, n: nat,
                   leaves: seq<(nat, V)>, called: seq<Place>, freed: seq<array<Slot<V>>>)
    requires Walking(levels, tree, contents, l, i, nodes, idx, cur, n, leaves, called, freed) && n >= SA_BLOCK_MAX
    ensures 0 <= l < |nodes| && nodes[l] == SlotFor(tree, cur)
    ensures levels == 0 ==> l == 0 && nodes[l] == Null && Complete(leaves, called, tree.Keys, contents)
    ensures levels > 0 ==>
      cur in tree && nodes[l] == Child(tree[cur]) && Matches(freed + [tree[cur]], called + [cur], tree)
    ensures levels > 0 ==> Uncalled(tree.Keys, called + [cur]) < Uncalled(tree.Keys, called)
    ensures levels > 0 && l == 0 ==> Complete(leaves, called + [cur], tree.Keys, contents)
    ensures levels > 0 && l > 0 ==>
              Walking(levels, tree, contents, l - 1, i, nodes, idx / 16,
                      Place(cur.level + 1, cur.prefix / 16), cur.prefix % 16 + 1,
                      leaves, called + [cur], freed + [tree[cur]])
  {
    if levels == 0 {
      NoEntries(tree, contents);
    } else {
      WalkPop(levels, tree.Keys, contents, cur, leaves, called);
      assert cur in Uncalled(tree.Keys, called) && cur !in Uncalled(tree.Keys, called + [cur]);
      if l == 0 {
        WalkEnd(levels, tree.Keys, contents, cur, leaves, called);
      } else {
        StackPop(i, nodes, levels, tree, cur, n);
        RootPresent(levels, tree.Keys, cur);
        ParentOf(levels, tree.Keys, cur);
      }
    }
  }

  /** An empty slot, or no node at all. */
  lemma StepSkip<V>(levels: nat, tree: map<Place, array<Slot<V>>>, contents: map<nat, V>,
                    l: int, i: seq<int>, nodes: seq<Slot<V>>, idx: nat, cur: Place, n: nat,
                    leaves: seq<(nat, V)>, called: seq<Place>, freed: seq<array<Slot<V>>>)
    requires Walking(levels, tree, contents, l, i, nodes, idx, cur, n, leaves, called, freed) && n < SA_BLOCK_MAX
    requires levels == 0 || Expected(tree, contents, cur, n) == Null
    ensures 0 <= l < |i|
    ensures Walking(levels, tree, contents, l, i[l := n + 1], nodes, idx, cur, n + 1, leaves, called, freed)
    ensures Unreached(tree.Keys, cur, n + 1) == Unreached(tree.Keys, cur, n)
  {
    if levels == 0 {
      NoEntries(tree, contents);
    } else {
      ParentOf(levels, tree.Keys, cur);
    }
    WalkNext(levels, tree.Keys, contents, cur, n, leaves, leaves, called);
    StackNext(i, nodes, Depth(levels), tree, cur, n);
  }

  /** A user's pointer. */
  lemma StepLeaf<V>(levels: nat, tree: map<Place, array<Slot<V>>>, contents: map<nat, V>,
                    l: int, i: seq<int>, nodes: seq<Slot<V>>, idx: nat, cur: Place, n: nat,
                    leaves: seq<(nat, V)>, called: seq<Place>, freed: seq<array<Slot<V>>>)
    requires Walking(levels, tree, contents, l, i, nodes, idx, cur, n, leaves, called, freed) && n < SA_BLOCK_MAX
    requires levels > 0 && l == levels - 1 && Expected(tree, contents, cur, n) != Null
    ensures 0 <= l < |i| && Expected(tree, contents, cur, n).Leaf?
    ensures Walking(levels, tree, contents, l, i[l := n + 1], nodes, idx - idx % 16 + n, cur, n + 1,
                    leaves + [(idx - idx % 16 + n, Expected(tree, contents, cur, n).value)], called, freed)
    ensures Unreached(tree.Keys, cur, n + 1) == Unreached(tree.Keys, cur, n)
  {
    var pos := 16 * cur.prefix + n;
    assert idx - idx % 16 + n == pos;
    WalkNext(levels, tree.Keys, contents, cur, n, leaves, leaves + [(pos, contents[pos])], called);
    StackNext(i, nodes, Depth(levels), tree, cur, n);
  }

  /** A child node; the index stays within 64 bits. */
  lemma StepPush<V>(levels: nat, tree: map<Place, array<Slot<V>>>, contents: map<nat, V>,
                    l: int, i: seq<int>, nodes: seq<Slot<V>>, idx: nat, cur: Place, n: nat,
                    leaves: seq<(nat, V)>, called: seq<Place>, freed: seq<array<Slot<V>>>)
    requires Walking(levels, tree, contents, l, i, nodes, idx, cur, n, leaves, called, freed) && n < SA_BLOCK_MAX
    requires levels > 0 && l < levels - 1 && Expected(tree, contents, cur, n) != Null
    ensures 0 <= l < |i| - 1 && |nodes| == |i| && cur.level > 0 && (idx - idx % 16 + n) * 16 < UINTMAX_LIMIT
    ensures var child := Place(cur.level - 1, 16 * cur.prefix + n);
            && child in Unreached(tree.Keys, cur, n)
            && Unreached(tree.Keys, child, 0) == Unreached(tree.Keys, cur, n) - {child}
            && Walking(levels, tree, contents, l + 1, i[l := n + 1][l + 1 := 0],
                       nodes[l + 1 := Expected(tree, contents, cur, n)], (idx - idx % 16 + n) * 16, child, 0, leaves,
                       called, freed)
  {
    var pos := 16 * cur.prefix + n;
    assert idx - idx % 16 + n == pos;
    WalkPush(tree.Keys, contents, cur, n, leaves, called);
    StackPush(i, nodes, levels, tree, cur, n, Expected(tree, contents, cur, n));
    FewDigits(pos, l + 1);
    Pow16Bound(l + 1);
  }

  /** The loop body at a slot below 16 that is not empty. */
  method VisitSlot<V(!new)>(sa: Array<V>, i: array<int>, nodes: array<Slot<V>>, l: int, idx: nat, n: int, s: Slot<V>,
                            leaves: seq<(nat, V)>, ghost cur: Place, ghost called: seq<Place>,
                            ghost freed: seq<array<Slot<V>>>)
    returns (l': int, idx': nat, leaves': seq<(nat, V)>, ghost cur': Place, ghost n': nat)
    requires 0 <= n < SA_BLOCK_MAX && s != Null && sa.levels > 0
    requires Walking(sa.levels, sa.tree, sa.contents, l, i[..], nodes[..], idx, cur, n, leaves, called, freed)
    requires s == Expected(sa.tree, sa.contents, cur, n)
    modifies i, nodes
    ensures l' >= 0
    ensures Walking(sa.levels, sa.tree, sa.contents, l', i[..], nodes[..], idx', cur', n', leaves', called, freed)
    ensures Unreached(sa.tree.Keys, cur', n') <= Unreached(sa.tree.Keys, cur, n)
    ensures Unreached(sa.tree.Keys, cur', n') == Unreached(sa.tree.Keys, cur, n) ==> n' == n + 1
  {
    hide SlotsOk, NodesOk, Closed, StackOk, WalkOk, Matches, Unreached, Expected;
    ghost var i0, ns := i[..], nodes[..];
    StackFacts(sa.levels, sa.tree, sa.contents, l, i0, ns, idx, cur, n, leaves, called, freed);
    if l < sa.levels - 1 {
      StepPush(sa.levels, sa.tree, sa.contents, l, i0, ns, idx, cur, n, leaves, called, freed);
      hide Walking, Unreached, Expected;
      i[l] := n + 1;
      idx' := idx - idx % 16 + n;
      l' := l + 1;
      i[l'] := 0;
      nodes[l'] := s;
      idx' := idx' * 16;
      leaves' := leaves;
      cur', n' := Place(cur.level - 1, 16 * cur.prefix + n), 0;
      assert i[..] == i0[l := n + 1][l + 1 := 0] && nodes[..] == ns[l + 1 := s];
    } else {
      StepLeaf(sa.levels, sa.tree, sa.contents, l, i0, ns, idx, cur, n, leaves, called, freed);
      hide Walking, Unreached, Expected;
      i[l] := n + 1;
      idx' := idx - idx % 16 + n;
      leaves' := leaves + [(idx', s.value)];
      l', cur', n' := l, cur, n + 1;
      assert i[..] == i0[l := n + 1];
    }
  }

  /** The loop body at slot 16: the call for the node, if there is one, and up. */
  method LeaveNode<V(!new)>(sa: Array<V>, i: array<int>, nodes: array<Slot<V>>, l: int, idx: nat, ghost n: nat,
                            ghost leaves: seq<(nat, V)>, ghost cur: Place, ghost called: seq<Place>,
                            freed: seq<array<Slot<V>>>)
    returns (l': int, idx': nat, freed': seq<array<Slot<V>>>, ghost cur': Place, ghost n': nat,
             ghost called': seq<Place>)
    requires Walking(sa.levels, sa.tree, sa.contents, l, i[..], nodes[..], idx, cur, n, leaves, called, freed)
    requires n >= SA_BLOCK_MAX
    ensures l' >= 0 ==>
              Walking(sa.levels, sa.tree, sa.contents, l', i[..], nodes[..], idx', cur', n', leaves, called', freed')
    ensures l' < 0 ==> Complete(leaves, called', sa.tree.Keys, sa.contents) && Matches(freed', called', sa.tree)
    ensures l' >= 0 || called' != called ==> Uncalled(sa.tree.Keys, called') < Uncalled(sa.tree.Keys, called)
    ensures called' == called ==> cur' == cur && n' == n
  {
    ghost var i0, ns := i[..], nodes[..];
    StackFacts(sa.levels, sa.tree, sa.contents, l, i0, ns, idx, cur, n, leaves, called, freed);
    StepPop(sa.levels, sa.tree, sa.contents, l, i0, ns, idx, cur, n, leaves, called, freed);
    assert Matches(freed, called, sa.tree);
    hide Walking, Complete, Matches, Uncalled;
    var p := nodes[l];
    freed', called', cur', n' := freed, called, cur, n;
    if p != Null {
      freed' := freed + [p.node];
      called' := called + [cur];
      cur', n' := Place(cur.level + 1, cur.prefix / 16), cur.prefix % 16 + 1;
    }
    l' := l - 1;
    idx' := idx / 16;
  }

  /** The loop body at an empty slot. */
  method SkipSlot<V(!new)>(sa: Array<V>, i: array<int>, ghost nodes: seq<Slot<V>>, l: int, ghost idx: nat, n: int,
                           ghost leaves: seq<(nat, V)>, ghost cur: Place, ghost called: seq<Place>,
                           ghost freed: seq<array<Slot<V>>>)
    requires 0 <= n < SA_BLOCK_MAX && (sa.levels == 0 || Expected(sa.tree, sa.contents, cur, n) == Null)
    requires Walking(sa.levels, sa.tree, sa.contents, l, i[..], nodes, idx, cur, n, leaves, called, freed)
    modifies i
    ensures Walking(sa.levels, sa.tree, sa.contents, l, i[..], nodes, idx, cur, n + 1, leaves, called, freed)
    ensures Unreached(sa.tree.Keys, cur, n + 1) == Unreached(sa.tree.Keys, cur, n)
  {
    ghost var i0 := i[..];
    StepSkip(sa.levels, sa.tree, sa.contents, l, i0, nodes, idx, cur, n, leaves, called, freed);
    hide Walking, Unreached;
    i[l] := n + 1;
    assert i[..] == i0[l := n + 1];
  }

  /** The loop body at a slot below 16. */
  method NextInNode<V(!new)>(sa: Array<V>, i: array<int>, nodes: array<Slot<V>>, l: int, idx: nat, n: int, s: Slot<V>,
                             leaves: seq<(nat, V)>, ghost cur: Place, ghost called: seq<Place>,
                             ghost freed: seq<array<Slot<V>>>)
    returns (l': int, idx': nat, leaves': seq<(nat, V)>, ghost cur': Place, ghost n': nat)
    requires 0 <= n < SA_BLOCK_MAX && s == if sa.levels == 0 then Null else Expected(sa.tree, sa.contents, cur, n)
    requires Walking(sa.levels, sa.tree, sa.contents, l, i[..], nodes[..], idx, cur, n, leaves, called, freed)
    modifies i, nodes
    ensures l' >= 0
    ensures Walking(sa.levels, sa.tree, sa.contents, l', i[..], nodes[..], idx', cur', n', leaves', called, freed)
    ensures Unreached(sa.tree.Keys, cur', n') <= Unreached(sa.tree.Keys, cur, n)
    ensures Unreached(sa.tree.Keys, cur', n') == Unreached(sa.tree.Keys, cur, n) ==> n < n' <= SA_BLOCK_MAX
  {
    if s == Null {
      StackFacts(sa.levels, sa.tree, sa.contents, l, i[..], nodes[..], idx, cur, n, leaves, called, freed);
      hide Walking, Unreached, Expected;
      SkipSlot(sa, i, nodes[..], l, idx, n, leaves, cur, called, freed);
      l', idx', leaves', cur', n' := l, idx, leaves, cur, n + 1;
    } else {
      hide Walking, Unreached, Expected;
      l', idx', leaves', cur', n' := VisitSlot(sa, i, nodes, l, idx, n, s, leaves, cur, called, freed);
    }
  }

  /** The slot under the walk. */
  method ReadSlot<V(!new)>(sa: Array<V>, i: array<int>, nodes: array<Slot<V>>, l: int, ghost idx: nat,
                           ghost leaves: seq<(nat, V)>, ghost cur: Place, ghost n: nat, ghost called: seq<Place>,
                           ghost freed: seq<array<Slot<V>>>)
    returns (k: int, s: Slot<V>)
    requires sa.Valid()
    requires Walking(sa.levels, sa.tree, sa.contents, l, i[..], nodes[..], idx, cur, n, leaves, called, freed)
    ensures k == n <= SA_BLOCK_MAX
    ensures n < SA_BLOCK_MAX ==> s == if sa.levels == 0 then Null else Expected(sa.tree, sa.contents, cur, n)
  {
    StackFacts(sa.levels, sa.tree, sa.contents, l, i[..], nodes[..], idx, cur, n, leaves, called, freed);
    hide Walking, Expected, NodesOk, Closed;
    k := i[l];
    var p := nodes[l];
    s := Null;
    if k < SA_BLOCK_MAX && p != Null {
      s := sa.Read(p.node, k, cur);
    }
  }

  /** `i[0] = 0; nodes[0] = sa->nodes;` */
  method StartWalk<V(!new)>(sa: Array<V>) returns (i: array<int>, nodes: array<Slot<V>>)
    requires sa.Valid()
    ensures fresh(i) && fresh(nodes)
    ensures Walking(sa.levels, sa.tree, sa.contents, 0, i[..], nodes[..],
                    0, Place(Depth(sa.levels) - 1, 0), 0, [], [], [])
  {
    hide SlotsOk, SlotFor, StackOk, WalkOk, Matches, Unreached, Expected, Counted, UpTo;
    i := new int[SA_BLOCK_MAX_LEVELS](_ => 0);
    nodes := new Slot<V>[SA_BLOCK_MAX_LEVELS](_ => Null);
    i[0] := 0;
    nodes[0] := sa.nodes;
    StepStart(sa.levels, sa.tree, sa.contents, i[..], nodes[..]);
  }

  /** The entries handed over are those of the array. */
  lemma LeavesAre<V(!new)>(leaves: seq<(nat, V)>, called: seq<Place>, places: set<Place>, contents: map<nat, V>)
    requires Complete(leaves, called, places, contents)
    ensures forall j, k :: 0 <= j < k < |leaves| ==> leaves[j].0 < leaves[k].0
    ensures forall x :: x in leaves <==> x.0 in contents && contents[x.0] == x.1
    ensures |leaves| == |contents|
  {
    forall x: (nat, V) | x.0 in contents && contents[x.0] == x.1 ensures x in leaves {
      assert (x.0, contents[x.0]) == x;
    }
    KeysCounted(leaves, contents);
  }

  lemma {:induction false} KeysCounted<V(!new)>(leaves: seq<(nat, V)>, contents: map<nat, V>)
    requires forall j, k :: 0 <= j < k < |leaves| ==> leaves[j].0 < leaves[k].0
    requires forall x :: x in leaves <==> x.0 in contents && contents[x.0] == x.1
    ensures |leaves| == |contents|
  {
    forall m | m in contents ensures (m, contents[m]) in leaves {
      assert (m, contents[m]).0 in contents;
    }
    if leaves == [] {
      assert contents == map[];
    } else {
      var init, last := leaves[..|leaves| - 1], leaves[|leaves| - 1];
      var fewer := contents - {last.0};
      forall x | x in init ensures x.0 in fewer && fewer[x.0] == x.1 {
        assert x in leaves;
      }
      forall x: (nat, V) | x.0 in fewer && fewer[x.0] == x.1 ensures x in init {
        assert x in leaves;
      }
      KeysCounted(init, fewer);
      assert last in leaves;
      assert contents.Keys == fewer.Keys + {last.0};
      assert |contents| == |contents.Keys| && |fewer| == |fewer.Keys|;
    }
  }

  /** The nodes handed over are those of the tree, each once. */
  lemma NodesAre<V(!new)>(sa: Array<V>, freed: seq<array<Slot<V>>>, leaves: seq<(nat, V)>, called: seq<Place>)
    requires sa.Valid() && Complete(leaves, called, sa.tree.Keys, sa.contents) && Matches(freed, called, sa.tree)
    ensures forall j, k :: 0 <= j < k < |freed| ==> freed[j] != freed[k]
    ensures |freed| == |sa.tree|
  {
    hide SlotsOk, NodesOk, Closed, Counted, Holds;
    assert |sa.tree| == |sa.tree.Keys|;
    PlacesCounted(called, sa.tree.Keys);
  }

  lemma {:induction false} PlacesCounted(called: seq<Place>, places: set<Place>)
    requires forall j, k :: 0 <= j < k < |called| ==> called[j] != called[k]
    requires forall p :: p in called <==> p in places
    ensures |called| == |places|
  {
    if called == [] {
      assert places == {};
    } else {
      var init, last := called[..|called| - 1], called[|called| - 1];
      assert called == init + [last];
      PlacesCounted(init, places - {last});
      assert places == (places - {last}) + {last};
    }
  }

  /** A node is handed over after the nodes its slots point to. */
  lemma SlotsBefore<V(!new)>(sa: Array<V>, freed: seq<array<Slot<V>>>, leaves: seq<(nat, V)>, called: seq<Place>,
                             k: nat, i: nat)
    requires sa.Valid() && Complete(leaves, called, sa.tree.Keys, sa.contents) && Matches(freed, called, sa.tree)
    requires k < |freed| && i < freed[k].Length && freed[k][i].Child?
    ensures freed[k][i].node in freed[..k]
  {
    var p := called[k];
    SlotAtPlace(sa, p, i);
    assert ChildBefore(called, sa.tree.Keys, k, i);
    var c := Place(p.level - 1, 16 * p.prefix + i);
    var j :| 0 <= j < k && called[j] == c;
    assert freed[..k][j] == sa.tree[c];
  }

  lemma SlotsBeforeAll<V(!new)>(sa: Array<V>, freed: seq<array<Slot<V>>>, leaves: seq<(nat, V)>, called: seq<Place>)
    requires sa.Valid() && Complete(leaves, called, sa.tree.Keys, sa.contents) && Matches(freed, called, sa.tree)
    ensures forall k, i :: 0 <= k < |freed| && 0 <= i < freed[k].Length && freed[k][i].Child? ==>
              freed[k][i].node in freed[..k]
  {
    hide Array.Valid, Complete, Matches;
    forall k, i | 0 <= k < |freed| && 0 <= i < freed[k].Length && freed[k][i].Child?
      ensures freed[k][i].node in freed[..k]
    {
      SlotsBefore(sa, freed, leaves, called, k, i);
    }
  }

  lemma SlotAtPlace<V(!new)>(sa: Array<V>, p: Place, i: nat)
    requires sa.Valid() && p in sa.tree && i < sa.tree[p].Length
    ensures i < SA_BLOCK_MAX && sa.tree[p][i] == Expected(sa.tree, sa.contents, p, i)
  {
    hide Closed, Expected;
    assert sa.View()[p] == sa.tree[p][..];
    SlotAt(sa.View(), sa.tree, sa.contents, p, if i < SA_BLOCK_MAX then i else 0);
    assert sa.tree[p][i] == sa.tree[p][..][i];
  }

  /** The root is handed over last. */
  lemma RootLast<V(!new)>(sa: Array<V>, freed: seq<array<Slot<V>>>, leaves: seq<(nat, V)>, called: seq<Place>)
    requires sa.Valid() && Complete(leaves, called, sa.tree.Keys, sa.contents) && Matches(freed, called, sa.tree)
    ensures sa.nodes == if freed == [] then Null else Child(freed[|freed| - 1])
  {
    hide SlotsOk, NodesOk, Separate, HasParent;
    if sa.levels > 0 {
      RootIsThere(sa.levels, sa.nodes, sa.tree);
      LastIsRoot(sa.levels, sa.tree.Keys, called);
    } else if called != [] {
      ParentOf(sa.levels, sa.tree.Keys, called[0]);
      NoneAbove(sa.levels, sa.tree.Keys);
    }
  }

  lemma LastIsRoot(levels: nat, places: set<Place>, called: seq<Place>)
    requires levels > 0 && Closed(levels, places) && ChildrenFirst(called, places)
    requires forall j, k :: 0 <= j < k < |called| ==> called[j] != called[k]
    requires forall p :: p in called <==> p in places
    ensures called != [] && called[|called| - 1] == Place(levels - 1, 0)
  {
    assert Place(levels - 1, 0) in called;
    if called[|called| - 1].level + 1 < levels {
      ParentLater(levels, places, called, |called| - 1);
    } else {
      ParentOf(levels, places, called[|called| - 1]);
    }
  }

  lemma ParentLater(levels: nat, places: set<Place>, called: seq<Place>, k: nat)
    requires Closed(levels, places) && ChildrenFirst(called, places)
    requires forall i, j :: 0 <= i < j < |called| ==> called[i] != called[j]
    requires forall p :: p in called <==> p in places
    requires k < |called| && called[k].level + 1 < levels
    ensures exists j :: k < j < |called| && called[j] == Place(called[k].level + 1, called[k].prefix / 16)
  {
    var p := called[k];
    var parent := Place(p.level + 1, p.prefix / 16);
    ParentOf(levels, places, p);
    assert parent in called;
    var j :| 0 <= j < |called| && called[j] == parent;
    assert ChildBefore(called, places, j, p.prefix % 16);
    assert Place(parent.level - 1, 16 * parent.prefix + p.prefix % 16) == p;
    var m :| 0 <= m < j && called[m] == p;
    assert m == k;
  }

  /** `sa_doall`: every entry once, in ascending order of the indices; every node once, after the
      nodes its slots point to and so the root last. */
  method DoAll<V(!new)>(sa: Array<V>)
    returns (leaves: seq<(nat, V)>, freed: seq<array<Slot<V>>>, ghost called: seq<Place>)
    requires sa.Valid()
    ensures Complete(leaves, called, sa.tree.Keys, sa.contents) && Matches(freed, called, sa.tree)
    ensures forall j, k :: 0 <= j < k < |leaves| ==> leaves[j].0 < leaves[k].0
    ensures |leaves| == |sa.contents| && forall x :: x in leaves <==> x.0 in sa.contents && sa.contents[x.0] == x.1
    ensures forall j, k :: 0 <= j < k < |freed| ==> freed[j] != freed[k]
    ensures |freed| == |sa.tree| && sa.nodes == if freed == [] then Null else Child(freed[|freed| - 1])
    ensures forall k, i :: 0 <= k < |freed| && 0 <= i < freed[k].Length && freed[k][i].Child? ==>
              freed[k][i].node in freed[..k]
  {
    hide SlotsOk, NodesOk, Closed, StackOk, WalkOk;
    var idx: nat, l := 0, 0;
    var i, nodes := StartWalk(sa);
    leaves, freed, called := [], [], [];
    ghost var cur, k: nat := Place(Depth(sa.levels) - 1, 0), 0;
    hide Walking, Complete, Matches, Uncalled, Unreached, Expected;
    while l >= 0
      invariant l >= 0 ==>
                  Walking(sa.levels, sa.tree, sa.contents, l, i[..], nodes[..], idx, cur, k, leaves, called, freed)
      invariant l < 0 ==> Complete(leaves, called, sa.tree.Keys, sa.contents) && Matches(freed, called, sa.tree)
      decreases Uncalled(sa.tree.Keys, called), Unreached(sa.tree.Keys, cur, k), if l < 0 then 0 else 17 - k
    {
      var n, s := ReadSlot(sa, i, nodes, l, idx, leaves, cur, k, called, freed);
      if n >= SA_BLOCK_MAX {
        l, idx, freed, cur, k, called := LeaveNode(sa, i, nodes, l, idx, k, leaves, cur, called, freed);
      } else {
        l, idx, leaves, cur, k := NextInNode(sa, i, nodes, l, idx, n, s, leaves, cur, called, freed);
      }
    }
    LeavesAre(leaves, called, sa.tree.Keys, sa.contents);
    NodesAre(sa, freed, leaves, called);
    RootLast(sa, freed, leaves, called);
    SlotsBeforeAll(sa, freed, leaves, called);
  }

  lemma StackFacts<V>(levels: nat, tree: map<Place, array<Slot<V>>>, contents: map<nat, V>,
                      l: int, i: seq<int>, nodes: seq<Slot<V>>, idx: nat, cur: Place, n: nat,
                      leaves: seq<(nat, V)>, called: seq<Place>, freed: seq<array<Slot<V>>>)
    requires Walking(levels, tree, contents, l, i, nodes, idx, cur, n, leaves, called, freed)
    ensures 0 <= l < |i| && |i| == |nodes| && i[l] == n && nodes[l] == SlotFor(tree, cur)
    ensures levels == 0 <==> nodes[l] == Null
    ensures n <= SA_BLOCK_MAX && (levels > 0 ==> l < levels && cur in tree)
  {
  }
}
