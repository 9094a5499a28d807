/** The sparse array of crypto/sparse_array.c: a 16-way radix tree whose depth grows at the root.
    It behaves as a finite map from 64-bit indices to non-null values. */
module SparseArray {

  const SA_BLOCK_MAX: nat := 16
  const SA_BLOCK_MAX_LEVELS: nat := 16
  const UINTMAX_LIMIT: nat := 0x1_0000_0000_0000_0000

  /** A `void *` of a tree node: null, another node, or a user's pointer. */
  datatype Slot<V> = Null | Child(node: array<Slot<V>>) | Leaf(value: V)

  /** Where a node sits: `level` 0 holds user pointers, and slot `i` of a node stands for the
      indices whose digits from `level` upwards spell `16 * prefix + i`. */
  datatype Place = Place(level: nat, prefix: nat)

  /** `n >> (OPENSSL_SA_BLOCK_BITS * k)` */
  function Shift(n: nat, k: nat): nat
    decreases k
  {
    if k == 0 then n else Shift(n / 16, k - 1)
  }

  lemma {:induction false} ShiftShift(n: nat, a: nat, b: nat)
    ensures Shift(n, a + b) == Shift(Shift(n, a), b)
    decreases a
  {
    if a > 0 {
      ShiftShift(n / 16, a - 1, b);
    }
  }

  lemma ShiftStep(n: nat, k: nat)
    ensures Shift(n, k + 1) == Shift(n, k) / 16
  {
    ShiftShift(n, k, 1);
    assert Shift(Shift(n, k), 1) == Shift(Shift(n, k) / 16, 0);
  }

  lemma ShiftOne(n: nat)
    ensures Shift(n, 1) == n / 16
  {
    assert Shift(n, 1) == Shift(n / 16, 0);
  }

  lemma {:induction false} ShiftMonotone(a: nat, b: nat, k: nat)
    requires a <= b
    ensures Shift(a, k) <= Shift(b, k)
    decreases k
  {
    if k > 0 {
      ShiftMonotone(a / 16, b / 16, k - 1);
    }
  }

  lemma {:induction false} ShiftZero(n: nat, k: nat, m: nat)
    requires Shift(n, k) == 0 && k <= m
    ensures Shift(n, m) == 0
    decreases m - k
  {
    if k < m {
      ShiftStep(n, k);
      ShiftZero(n, k + 1, m);
    }
  }

  lemma {:induction false} Shift64(n: nat)
    requires n < UINTMAX_LIMIT
    ensures Shift(n, 16) == 0
  {
    assert Shift(n, 16) == Shift(n / 0x1000_0000, 9) by {
      assert n / 16 / 16 / 16 / 16 / 16 / 16 / 16 == n / 0x1000_0000;
      ShiftShift(n, 7, 9);
    }
    ShiftShift(n / 0x1000_0000, 7, 2);
  }

  /** Places below `levels`, the topmost level holding only the root, and every other place with
      its parent. */
  ghost predicate Closed(levels: nat, places: set<Place>) {
    && (levels > 0 ==> Place(levels - 1, 0) in places)
    && forall p {:trigger HasParent(levels, places, p)} :: p in places ==> HasParent(levels, places, p)
  }

  ghost predicate HasParent(levels: nat, places: set<Place>, p: Place) {
    && p.level < levels
    && (p.level + 1 == levels ==> p.prefix == 0)
    && (p.level + 1 < levels ==> Place(p.level + 1, p.prefix / 16) in places)
  }

  /** Above a node there are nodes all the way to the root. */
  lemma {:induction false} Ancestors(levels: nat, places: set<Place>, p: Place, k: nat)
    requires Closed(levels, places) && p in places && p.level <= k < levels
    ensures Place(k, Shift(p.prefix, k - p.level)) in places
    decreases k
  {
    if p.level < k {
      Ancestors(levels, places, p, k - 1);
      var q := Place(k - 1, Shift(p.prefix, k - 1 - p.level));
      ShiftStep(p.prefix, k - 1 - p.level);
      assert HasParent(levels, places, q);
    }
  }

  lemma NoneAbove(levels: nat, places: set<Place>)
    requires Closed(levels, places)
    ensures forall p :: p in places ==> p.level < levels && (p.level + 1 == levels ==> p.prefix == 0)
  {
    forall p | p in places ensures p.level < levels && (p.level + 1 == levels ==> p.prefix == 0) {
      ParentOf(levels, places, p);
    }
  }

  lemma RootPresent(levels: nat, places: set<Place>, p: Place)
    requires Closed(levels, places) && p in places
    ensures levels > 0 && Place(levels - 1, 0) in places
  {
    ParentOf(levels, places, p);
  }

  lemma NotEmpty<V>(levels: nat, places: set<Place>, contents: map<nat, V>)
    requires Closed(levels, places) && contents != map[] && forall n :: n in contents ==> Place(0, n / 16) in places
    ensures levels > 0
  {
    var n :| n in contents;
    ParentOf(levels, places, Place(0, n / 16));
  }

  lemma RootAdded(levels: nat, places: set<Place>)
    requires levels > 0 && Closed(levels - 1, places)
    ensures Closed(levels, places + {Place(levels - 1, 0)})
  {
    var places' := places + {Place(levels - 1, 0)};
    forall p | p in places' ensures HasParent(levels, places', p) {
      if p in places {
        assert HasParent(levels - 1, places, p);
      }
    }
  }

  lemma ChildAdded(levels: nat, places: set<Place>, p: Place, i: nat)
    requires Closed(levels, places) && p in places && p.level > 0 && i < SA_BLOCK_MAX
    ensures Closed(levels, places + {Place(p.level - 1, 16 * p.prefix + i)})
  {
    var c := Place(p.level - 1, 16 * p.prefix + i);
    var places' := places + {c};
    forall q | q in places' ensures HasParent(levels, places', q) {
      if q in places {
        assert HasParent(levels, places, q);
      } else {
        assert HasParent(levels, places, p);
      }
    }
  }

  /** Below a missing node there is nothing. */
  lemma NothingBelow(levels: nat, places: set<Place>, c: Place, j: nat)
    requires Closed(levels, places) && c !in places && c.level + 1 < levels && j < SA_BLOCK_MAX
    ensures c.level > 0 ==> Place(c.level - 1, 16 * c.prefix + j) !in places
  {
    if c.level > 0 && Place(c.level - 1, 16 * c.prefix + j) in places {
      ParentOf(levels, places, Place(c.level - 1, 16 * c.prefix + j));
    }
  }

  lemma ParentOf(levels: nat, places: set<Place>, p: Place)
    requires Closed(levels, places) && p in places
    ensures HasParent(levels, places, p)
  {
  }

  // ---------- How many nodes an index needs ----------

  /** The levels an index needs: one per digit, and at least one. */
  function LevelsFor(n: nat): nat {
    if n < 16 then 1 else LevelsFor(n / 16) + 1
  }

  /** The nodes that growing from `a` to `b` levels puts on top. */
  function Roots(a: nat, b: nat): set<Place> {
    set k | a <= k < b :: Place(k, 0)
  }

  ghost function Grown(places: set<Place>, a: nat, b: nat): set<Place> {
    places + Roots(a, b)
  }

  /** How many nodes are missing on the path of an index below level `k`. */
  function Missing(places: set<Place>, n: nat, k: nat): (r: nat)
    ensures r <= k
  {
    if k == 0 then 0
    else Missing(places, n, k - 1) + if Place(k - 1, Shift(n, k)) in places then 0 else 1
  }

  /** How many nodes must be allocated to store under an index: for growing, and then on its path. */
  ghost function NodesNeeded(levels: nat, places: set<Place>, n: nat): nat {
    var depth := if levels < LevelsFor(n) then LevelsFor(n) else levels;
    depth - levels + Missing(Grown(places, levels, depth), n, depth)
  }

  /** Nodes added further up make no difference. */
  lemma {:induction false} MissingBelow(places: set<Place>, places': set<Place>, n: nat, k: nat)
    requires forall p: Place :: p.level < k ==> (p in places <==> p in places')
    ensures Missing(places, n, k) == Missing(places', n, k)
  {
    if k > 0 {
      MissingBelow(places, places', n, k - 1);
    }
  }

  lemma SmallShift(n: nat, k: nat)
    requires k >= 1
    ensures n < 16 ==> Shift(n, k) == 0
  {
    ShiftOne(n);
    if n < 16 {
      ShiftZero(n, 1, k);
    }
  }

  lemma {:induction false} LevelsForIs(n: nat, k: nat)
    requires k >= 1 && Shift(n, k) == 0 && (k == 1 || Shift(n, k - 1) != 0)
    ensures LevelsFor(n) == k
  {
    if k > 1 {
      ShiftOne(n);
      ShiftShift(n, 1, k - 1);
      ShiftShift(n, 1, k - 2);
      SmallShift(n, k - 1);
      LevelsForIs(n / 16, k - 1);
    } else {
      ShiftOne(n);
    }
  }

  lemma RootsMore(places: set<Place>, a: nat, b: nat)
    requires a <= b
    ensures Grown(places, a, b + 1) == Grown(places, a, b) + {Place(b, 0)} && Grown(places, a, a) == places
  {
    assert Roots(a, b + 1) == Roots(a, b) + {Place(b, 0)};
  }

  /** One level further down, the node on the path is there. */
  lemma MissingStep(places: set<Place>, places': set<Place>, n: nat, k: nat)
    requires k > 0 && places' == places + {Place(k - 1, Shift(n, k))}
    ensures Missing(places, n, k) ==
            Missing(places', n, k - 1) + if Place(k - 1, Shift(n, k)) in places then 0 else 1
  {
    MissingBelow(places, places', n, k - 1);
  }

  // ---------- What the slots must hold ----------

  ghost function SlotFor<V>(tree: map<Place, array<Slot<V>>>, p: Place): Slot<V> {
    if p in tree then Child(tree[p]) else Null
  }

  /** What slot `i` of the node at `p` must hold. */
  ghost function Expected<V>(tree: map<Place, array<Slot<V>>>, contents: map<nat, V>, p: Place, i: nat): Slot<V> {
    if p.level > 0 then SlotFor(tree, Place(p.level - 1, 16 * p.prefix + i))
    else if 16 * p.prefix + i in contents then Leaf(contents[16 * p.prefix + i])
    else Null
  }

  ghost predicate SlotsOk<V>(slots: seq<Slot<V>>, tree: map<Place, array<Slot<V>>>, contents: map<nat, V>, p: Place) {
    |slots| == SA_BLOCK_MAX && forall i :: 0 <= i < SA_BLOCK_MAX ==> slots[i] == Expected(tree, contents, p, i)
  }

  /** A new node changes only the slot of its parent. */
  lemma SlotsWithNode<V>(slots: seq<Slot<V>>, tree: map<Place, array<Slot<V>>>, contents: map<nat, V>, p: Place,
                         c: Place, x: array<Slot<V>>)
    requires SlotsOk(slots, tree, contents, p)
    ensures p.level != c.level + 1 || p.prefix != c.prefix / 16 ==> SlotsOk(slots, tree[c := x], contents, p)
    ensures p.level == c.level + 1 && p.prefix == c.prefix / 16 ==>
              SlotsOk(slots[c.prefix % 16 := Child(x)], tree[c := x], contents, p)
  {
  }

  /** A change of one index changes only one slot of one node of level 0. */
  lemma SlotsWithValue<V>(slots: seq<Slot<V>>, tree: map<Place, array<Slot<V>>>, contents: map<nat, V>,
                          contents': map<nat, V>,
                          p: Place, n: nat)
    requires SlotsOk(slots, tree, contents, p)
    requires forall m :: m != n ==>
      (m in contents <==> m in contents') && (m in contents ==> contents[m] == contents'[m])
    ensures p != Place(0, n / 16) ==> SlotsOk(slots, tree, contents', p)
    ensures p == Place(0, n / 16) ==>
              SlotsOk(slots[n % 16 := if n in contents' then Leaf(contents'[n]) else Null], tree, contents', p)
  {
  }

  lemma SlotsEmpty<V>(slots: seq<Slot<V>>, levels: nat, tree: map<Place, array<Slot<V>>>, contents: map<nat, V>,
                      c: Place, x: array<Slot<V>>)
    requires |slots| == SA_BLOCK_MAX && forall i :: 0 <= i < SA_BLOCK_MAX ==> slots[i] == Null
    requires Closed(levels, tree.Keys) && c !in tree && c.level + 1 < levels
    requires forall n :: n in contents ==> Place(0, n / 16) in tree
    ensures SlotsOk(slots, tree[c := x], contents, c)
  {
    forall i | 0 <= i < SA_BLOCK_MAX ensures slots[i] == Expected(tree[c := x], contents, c, i) {
      NothingBelow(levels, tree.Keys, c, i);
    }
  }

  lemma SlotsOfRoot<V>(slots: seq<Slot<V>>, levels: nat, nodes: Slot<V>, tree: map<Place, array<Slot<V>>>,
                       contents: map<nat, V>,
                       x: array<Slot<V>>)
    requires |slots| == SA_BLOCK_MAX && slots[0] == nodes && forall i :: 1 <= i < SA_BLOCK_MAX ==> slots[i] == Null
    requires Closed(levels, tree.Keys) && (forall n :: n in contents ==> Place(0, n / 16) in tree)
    requires nodes == if levels == 0 then Null else SlotFor(tree, Place(levels - 1, 0))
    ensures SlotsOk(slots, tree[Place(levels, 0) := x], contents, Place(levels, 0))
  {
    NoneAbove(levels, tree.Keys);
  }

  /** `view` gives the slots of every node of `tree`, and all of them are right. */
  ghost predicate NodesOk<V>(view: map<Place, seq<Slot<V>>>, tree: map<Place, array<Slot<V>>>, contents: map<nat, V>) {
    && view.Keys == tree.Keys
    && (forall p :: p in view ==> SlotsOk(view[p], tree, contents, p))
    && (forall n :: n in contents ==> Place(0, n / 16) in tree)
  }

  lemma NodesWithRoot<V>(view: map<Place, seq<Slot<V>>>, tree: map<Place, array<Slot<V>>>, contents: map<nat, V>,
                         levels: nat, nodes: Slot<V>, slots: seq<Slot<V>>, x: array<Slot<V>>)
    requires NodesOk(view, tree, contents) && Closed(levels, tree.Keys)
    requires nodes == if levels == 0 then Null else SlotFor(tree, Place(levels - 1, 0))
    requires |slots| == SA_BLOCK_MAX && slots[0] == nodes && forall i :: 1 <= i < SA_BLOCK_MAX ==> slots[i] == Null
    ensures Place(levels, 0) !in tree
    ensures NodesOk(view[Place(levels, 0) := slots], tree[Place(levels, 0) := x], contents)
    ensures Closed(levels + 1, tree[Place(levels, 0) := x].Keys)
  {
    var root := Place(levels, 0);
    NoneAbove(levels, tree.Keys);
    SlotsOfRoot(slots, levels, nodes, tree, contents, x);
    RootAdded(levels + 1, tree.Keys);
    assert tree[root := x].Keys == tree.Keys + {root};
    hide Closed, SlotsOk;
    forall p | p in view ensures SlotsOk(view[p], tree[root := x], contents, p) {
      SlotsWithNode(view[p], tree, contents, p, root, x);
    }
  }

  lemma NodesWithChild<V>(view: map<Place, seq<Slot<V>>>, tree: map<Place, array<Slot<V>>>, contents: map<nat, V>,
                          levels: nat, p: Place, i: nat, slots: seq<Slot<V>>, x: array<Slot<V>>)
    requires NodesOk(view, tree, contents) && Closed(levels, tree.Keys)
    requires p in tree && p.level > 0 && i < SA_BLOCK_MAX && |view[p]| == SA_BLOCK_MAX && view[p][i] == Null
    requires |slots| == SA_BLOCK_MAX && forall j :: 0 <= j < SA_BLOCK_MAX ==> slots[j] == Null
    ensures var c := Place(p.level - 1, 16 * p.prefix + i);
            && c !in tree
            && NodesOk(view[p := view[p][i := Child(x)]][c := slots], tree[c := x], contents)
            && Closed(levels, tree[c := x].Keys)
  {
    var c := Place(p.level - 1, 16 * p.prefix + i);
    assert SlotsOk(view[p], tree, contents, p);
    assert view[p][i] == Expected(tree, contents, p, i);
    ParentOf(levels, tree.Keys, p);
    SlotsEmpty(slots, levels, tree, contents, c, x);
    ChildAdded(levels, tree.Keys, p, i);
    assert tree[c := x].Keys == tree.Keys + {c};
    hide Closed, SlotsOk;
    forall q | q in view
      ensures SlotsOk(if q == p then view[p][i := Child(x)] else view[q], tree[c := x], contents, q)
    {
      SlotsWithNode(view[q], tree, contents, q, c, x);
    }
  }

  lemma NodesWithValue<V>(view: map<Place, seq<Slot<V>>>, tree: map<Place, array<Slot<V>>>, contents: map<nat, V>,
                          contents': map<nat, V>, n: nat)
    requires NodesOk(view, tree, contents) && Place(0, n / 16) in tree
    requires forall m :: m != n ==>
      (m in contents <==> m in contents') && (m in contents ==> contents[m] == contents'[m])
    ensures var home := Place(0, n / 16);
            && |view[home]| == SA_BLOCK_MAX
            && view[home][n % 16] == (if n in contents then Leaf(contents[n]) else Null)
            && NodesOk(view[home := view[home][n % 16 := if n in contents' then Leaf(contents'[n]) else Null]],
                       tree, contents')
  {
    var home := Place(0, n / 16);
    assert SlotsOk(view[home], tree, contents, home);
    assert view[home][n % 16] == Expected(tree, contents, home, n % 16);
    hide SlotsOk;
    forall q | q in view
      ensures SlotsOk(if q == home then view[home][n % 16 := if n in contents' then Leaf(contents'[n]) else Null]
                      else view[q],
                      tree, contents', q)
    {
      SlotsWithValue(view[q], tree, contents, contents', q, n);
    }
  }

  lemma SlotAt<V>(view: map<Place, seq<Slot<V>>>, tree: map<Place, array<Slot<V>>>, contents: map<nat, V>, p: Place,
                  i: nat)
    requires NodesOk(view, tree, contents) && p in tree && i < SA_BLOCK_MAX
    ensures |view[p]| == SA_BLOCK_MAX && view[p][i] == Expected(tree, contents, p, i)
  {
    assert SlotsOk(view[p], tree, contents, p);
  }

  ghost predicate Separate<V>(tree: map<Place, array<Slot<V>>>) {
    forall p, q :: p in tree && q in tree && tree[p] == tree[q] ==> p == q
  }

  lemma OneMoreNode<V>(tree: map<Place, array<Slot<V>>>, c: Place, x: array<Slot<V>>)
    requires Separate(tree) && c !in tree && (forall p :: p in tree ==> tree[p] != x)
    ensures Separate(tree[c := x]) && tree[c := x].Keys == tree.Keys + {c}
    ensures SlotFor(tree[c := x], c) == Child(x)
    ensures forall p :: p != c ==> SlotFor(tree[c := x], p) == SlotFor(tree, p)
  {
  }

  /** `nodes` is the root of a tree of `levels` levels that stores `contents`. */
  ghost predicate Shaped<V>(levels: nat, nodes: Slot<V>, view: map<Place, seq<Slot<V>>>,
                            tree: map<Place, array<Slot<V>>>, contents: map<nat, V>) {
    && levels <= SA_BLOCK_MAX_LEVELS
    && nodes == (if levels == 0 then Null else SlotFor(tree, Place(levels - 1, 0)))
    && Closed(levels, tree.Keys) && Separate(tree)
    && NodesOk(view, tree, contents)
  }

  lemma ShapedWithRoot<V>(levels: nat, nodes: Slot<V>, view: map<Place, seq<Slot<V>>>,
                          tree: map<Place, array<Slot<V>>>, contents: map<nat, V>,
                          slots: seq<Slot<V>>, x: array<Slot<V>>)
    requires Shaped(levels, nodes, view, tree, contents) && levels < SA_BLOCK_MAX_LEVELS
    requires |slots| == SA_BLOCK_MAX && slots[0] == nodes && forall i :: 1 <= i < SA_BLOCK_MAX ==> slots[i] == Null
    requires forall p :: p in tree ==> tree[p] != x
    ensures var root := Place(levels, 0);
            && root !in tree
            && Shaped(levels + 1, Child(x), view[root := slots], tree[root := x], contents)
            && tree[root := x].Keys == tree.Keys + {root}
  {
    hide Closed, NodesOk;
    NodesWithRoot(view, tree, contents, levels, nodes, slots, x);
    OneMoreNode(tree, Place(levels, 0), x);
  }

  lemma ShapedWithChild<V>(levels: nat, nodes: Slot<V>, view: map<Place, seq<Slot<V>>>,
                           tree: map<Place, array<Slot<V>>>, contents: map<nat, V>,
                           p: Place, i: nat, slots: seq<Slot<V>>, x: array<Slot<V>>)
    requires Shaped(levels, nodes, view, tree, contents)
    requires p in tree && p.level > 0 && i < SA_BLOCK_MAX && |view[p]| == SA_BLOCK_MAX && view[p][i] == Null
    requires |slots| == SA_BLOCK_MAX && forall j :: 0 <= j < SA_BLOCK_MAX ==> slots[j] == Null
    requires forall q :: q in tree ==> tree[q] != x
    ensures var c := Place(p.level - 1, 16 * p.prefix + i);
            && c !in tree
            && Shaped(levels, nodes, view[p := view[p][i := Child(x)]][c := slots], tree[c := x], contents)
  {
    RootPresent(levels, tree.Keys, p);
    hide Closed, NodesOk;
    NodesWithChild(view, tree, contents, levels, p, i, slots, x);
    OneMoreNode(tree, Place(p.level - 1, 16 * p.prefix + i), x);
  }

  lemma ShapedWithValue<V>(levels: nat, nodes: Slot<V>, view: map<Place, seq<Slot<V>>>,
                           tree: map<Place, array<Slot<V>>>, contents: map<nat, V>, n: nat, val: Slot<V>)
    requires Shaped(levels, nodes, view, tree, contents)
    requires Place(0, n / 16) in tree && (val.Null? || val.Leaf?)
    ensures var home := Place(0, n / 16);
            && |view[home]| == SA_BLOCK_MAX
            && (view[home][n % 16] == Null <==> n !in contents)
            && Shaped(levels, nodes, view[home := view[home][n % 16 := val]], tree, Stored(contents, n, val))
  {
    hide Closed;
    NodesWithValue(view, tree, contents, Stored(contents, n, val), n);
  }

  lemma RootIsThere<V>(levels: nat, nodes: Slot<V>, tree: map<Place, array<Slot<V>>>)
    requires Closed(levels, tree.Keys) && levels > 0 && nodes == SlotFor(tree, Place(levels - 1, 0))
    ensures Place(levels - 1, 0) in tree && nodes == Child(tree[Place(levels - 1, 0)])
  {
  }

  ghost predicate UpTo<V>(contents: map<nat, V>, top: nat) {
    forall n :: n in contents ==> n <= top
  }

  /** The number of entries and the bound on their indices. */
  ghost predicate Counted<V>(levels: nat, top: nat, nelem: nat, contents: map<nat, V>) {
    && nelem == |contents|
    && (levels == 0 ==> top == 0) && Shift(top, levels) == 0
    && UpTo(contents, top)
  }

  lemma CountedDeeper<V>(levels: nat, top: nat, nelem: nat, contents: map<nat, V>)
    requires Counted(levels, top, nelem, contents)
    ensures Counted(levels + 1, top, nelem, contents)
  {
    ShiftZero(top, levels, levels + 1);
  }

  /** The entries after storing `val`, null meaning removal, at `n`. */
  ghost function Stored<V>(contents: map<nat, V>, n: nat, val: Slot<V>): map<nat, V> {
    if val.Leaf? then contents[n := val.value] else contents - {n}
  }

  /** How a change of one entry changes the number of entries. */
  lemma CountAfter<V>(contents: map<nat, V>, n: nat, val: Slot<V>)
    ensures |Stored(contents, n, val)| + (if n in contents then 1 else 0) == |contents| + (if val.Leaf? then 1 else 0)
  {
    var contents' := Stored(contents, n, val);
    assert contents'.Keys == if val.Leaf? then contents.Keys + {n} else contents.Keys - {n};
    assert |contents'| == |contents'.Keys| && |contents| == |contents.Keys|;
  }

  lemma CountedWithValue<V>(levels: nat, top: nat, nelem: nat, contents: map<nat, V>, n: nat, val: Slot<V>)
    requires Counted(levels, top, nelem, contents) && n <= top && (val.Null? || val.Leaf?)
    ensures n in contents ==> nelem > 0
    ensures Counted(levels, top, nelem - (if n in contents then 1 else 0) + (if val.Leaf? then 1 else 0),
                    Stored(contents, n, val))
  {
    CountAfter(contents, n, val);
    assert contents == map[] ==> n !in contents;
  }

  lemma StoredIs<V>(contents: map<nat, V>, n: nat, val: Slot<V>)
    ensures Stored(contents, n, val) == if val.Leaf? then contents[n := val.value] else contents - {n}
  {
  }

  lemma OneMorePlace(places: set<Place>, p: Place)
    requires p !in places
    ensures |places + {p}| == |places| + 1
  {
  }

  ghost predicate Holds<V>(owned: set<array<Slot<V>>>, tree: map<Place, array<Slot<V>>>) {
    forall p :: p in tree ==> tree[p] in owned
  }

  class Array<V(!new)> {
    var levels: nat
    var top: nat
    var nelem: nat
    var nodes: Slot<V>
    ghost var tree: map<Place, array<Slot<V>>>
    ghost var contents: map<nat, V>
    /** The nodes of `tree`. */
    ghost var owned: set<array<Slot<V>>>

    ghost function View(): map<Place, seq<Slot<V>>>
      reads `tree, tree.Values
    {
      map p | p in tree :: tree[p][..]
    }

    /** `x` is the node at `p`. */
    ghost predicate IsNode(x: array<Slot<V>>, p: Place)
      reads `tree, `owned
    {
      p in tree && tree[p] == x && x in owned
    }

    ghost predicate Valid()
      reads this, owned
    {
      && Holds(owned, tree)
      && Shaped(levels, nodes, View(), tree, contents)
      && Counted(levels, top, nelem, contents)
    }

    constructor ()
      ensures Valid() && contents == map[] && owned == {} && levels == 0 && tree == map[]
    {
      levels, top, nelem, nodes := 0, 0, 0, Null;
      tree, contents, owned := map[], map[], {};
    }

    /** An index is absent if the node on its path at some level is. */
    lemma AbsentBelow(n: nat, k: nat)
      requires Valid() && k < levels && Place(k, Shift(n, k + 1)) !in tree
      ensures n !in contents
    {
      hide SlotsOk, Closed;
      if n in contents {
        Ancestors(levels, tree.Keys, Place(0, n / 16), k);
      }
    }

    /** `ossl_sa_num` */
    method Num() returns (r: nat)
      requires Valid()
      ensures r == |contents|
    {
      r := nelem;
    }

    /** Slot `i` of a node, `p[i]`. */
    method Read(x: array<Slot<V>>, i: nat, ghost p: Place) returns (r: Slot<V>)
      requires Valid() && IsNode(x, p) && i < SA_BLOCK_MAX
      ensures x.Length == SA_BLOCK_MAX && r == x[i] == Expected(tree, contents, p, i)
    {
      hide Closed, Expected;
      SlotAt(View(), tree, contents, p, i);
      assert x[..] == View()[p];
      r := x[i];
      assert r == x[..][i];
    }

    /** Following the digits of `n` from one level to the next. */
    method Descend(x: array<Slot<V>>, level: nat, n: nat) returns (p: Slot<V>)
      requires Valid() && 0 < level
      requires IsNode(x, Place(level, Shift(n, level + 1)))
      ensures p == SlotFor(tree, Place(level - 1, Shift(n, level)))
    {
      hide View, Closed, NodesOk, SlotFor;
      ShiftStep(n, level);
      hide Shift;
      p := Read(x, Shift(n, level) % SA_BLOCK_MAX, Place(level, Shift(n, level + 1)));
    }

    /** `ossl_sa_get` */
    method Get(n: nat) returns (r: Slot<V>)
      requires Valid() && n < UINTMAX_LIMIT
      ensures r == if n in contents then Leaf(contents[n]) else Null
    {
      r := Null;
      if nelem == 0 {
        return;
      }
      if n <= top {
        var p := nodes;
        var level: int := levels - 1;
        NotEmpty(levels, tree.Keys, contents);
        ShiftMonotone(n, top, levels);
        assert Shift(n, 1) == n / 16;
        hide Closed, NodesOk, Shift;
        while p != Null && level > 0
          invariant 0 <= level < levels
          invariant p == SlotFor(tree, Place(level, Shift(n, level + 1)))
        {
          p := Descend(p.node, level, n);
          level := level - 1;
        }
        if p == Null {
          AbsentBelow(n, level);
        } else {
          r := Read(p.node, n % SA_BLOCK_MAX, Place(0, n / 16));
        }
      }
    }

    /** One round of the growth loop. */
    method GrowOnce(ghost places: set<Place>, ghost low: nat)
      requires Valid() && levels < SA_BLOCK_MAX_LEVELS
      requires low <= levels && tree.Keys == Grown(places, low, levels)
      modifies `levels, `nodes, `tree, `owned
      ensures Valid() && levels == old(levels) + 1 && tree.Keys == Grown(places, low, levels)
      ensures |tree.Keys| == |old(tree.Keys)| + 1
      ensures fresh(owned - old(owned))
    {
      hide Valid, Grown;
      ghost var before, root := tree.Keys, Place(levels, 0);
      RootIsNew();
      RootsMore(places, low, levels);
      AddRoot();
      OneMorePlace(before, root);
    }

    lemma RootIsNew()
      requires Valid()
      ensures Place(levels, 0) !in tree.Keys
    {
      hide View, SlotsOk, NodesOk, Separate, SlotFor;
      NoneAbove(levels, tree.Keys);
    }

    /** `alloc_node()`, with the old root in its first slot. */
    method NewRoot() returns (p: array<Slot<V>>)
      ensures fresh(p) && p.Length == SA_BLOCK_MAX
      ensures p[0] == nodes && forall i :: 1 <= i < SA_BLOCK_MAX ==> p[i] == Null
    {
      p := new Slot<V>[SA_BLOCK_MAX](_ => Null);
      p[0] := nodes;
    }

    /** A new root above the old one. */
    method AddRoot()
      requires Valid() && levels < SA_BLOCK_MAX_LEVELS
      modifies `levels, `nodes, `tree, `owned
      ensures Valid() && fresh(owned - old(owned))
      ensures levels == old(levels) + 1 && tree.Keys == old(tree.Keys) + {Place(old(levels), 0)}
    {
      hide SlotsOk, NodesOk, Closed, Separate, SlotFor, Shift, UpTo;
      ghost var view, root := View(), Place(levels, 0);
      CountedDeeper(levels, top, nelem, contents);
      var p := NewRoot();
      assert View() == view;
      ShapedWithRoot(levels, nodes, view, tree, contents, p[..], p);
      hide Shaped, Counted;
      nodes := Child(p);
      tree, owned := tree[root := p], owned + {p};
      levels := levels + 1;
      assert View() == view[root := p[..]];
    }

    lemma UpdatedView(before: map<Place, array<Slot<V>>>, view: map<Place, seq<Slot<V>>>, c: Place, p: Place,
                      slots: seq<Slot<V>>)
      requires c in tree && tree == before[c := tree[c]] && c !in before && view.Keys == before.Keys && p in before
      requires forall y :: y in before && y != p ==> before[y][..] == view[y]
      requires before[p][..] == slots
      ensures View() == view[p := slots][c := tree[c][..]]
    {
    }

    /** `p[i] = alloc_node()` */
    method LinkChild(x: array<Slot<V>>, i: nat, q: array<Slot<V>>, ghost p: Place, ghost c: Place)
      requires Separate(tree) && p in tree && tree[p] == x && c !in tree && i < x.Length
      requires forall y :: y in tree ==> tree[y] != q
      modifies `tree, x
      ensures tree == old(tree)[c := q] && x.Length == |old(View())[p]| && x[i] == Child(q)
      ensures View() == old(View())[p := old(View())[p][i := Child(q)]][c := q[..]]
    {
      ghost var before, view := tree, View();
      assert forall y :: y in before && y != p ==> before[y] != x;
      hide Separate;
      x[i] := Child(q);
      tree := before[c := q];
      UpdatedView(before, view, c, p, view[p][i := Child(q)]);
    }

    /** A missing child is allocated. */
    method AddChild(x: array<Slot<V>>, i: nat, ghost p: Place) returns (q: array<Slot<V>>)
      requires Valid() && IsNode(x, p) && p.level > 0 && i < SA_BLOCK_MAX && x.Length == SA_BLOCK_MAX && x[i] == Null
      modifies `tree, `owned, x
      ensures Valid() && fresh(owned - old(owned))
      ensures var c := Place(p.level - 1, 16 * p.prefix + i);
              IsNode(q, c) && tree == old(tree)[c := q] && x[i] == Child(q) && c !in old(tree)
    {
      hide SlotsOk, NodesOk, Closed, Separate, SlotFor, Shift, UpTo;
      ghost var view, c := View(), Place(p.level - 1, 16 * p.prefix + i);
      q := new Slot<V>[SA_BLOCK_MAX](_ => Null);
      assert View() == view && x[..] == view[p];
      ShapedWithChild(levels, nodes, view, tree, contents, p, i, q[..], q);
      hide Shaped, Counted, View;
      LinkChild(x, i, q, p, c);
      owned := owned + {q};
    }

    /** The number of levels that an index needs, between 1 and the maximum. */
    method NeededLevels(posn: nat) returns (level: nat)
      requires posn < UINTMAX_LIMIT
      ensures 1 <= level <= SA_BLOCK_MAX_LEVELS && Shift(posn, level) == 0
      ensures level == LevelsFor(posn)
    {
      var n := posn;
      level := 1;
      Shift64(posn);
      while level < SA_BLOCK_MAX_LEVELS
        invariant 1 <= level <= SA_BLOCK_MAX_LEVELS
        invariant n == Shift(posn, level - 1) && (level == 1 || n != 0)
      {
        ShiftStep(posn, level - 1);
        n := n / 16;
        if n == 0 {
          break;
        }
        level := level + 1;
      }
      LevelsForIs(posn, level);
    }

    /** The growth loop; `budget` bounds the allocations that succeed. */
    method Grow(level: nat, budget: nat) returns (ok: bool, left: nat)
      requires Valid() && level <= SA_BLOCK_MAX_LEVELS
      modifies `levels, `nodes, `tree, `owned
      ensures Valid() && fresh(owned - old(owned))
      ensures ok == (level - old(levels) <= budget)
      ensures ok ==>
        levels == (if old(levels) < level then level else old(levels)) && left + (levels - old(levels)) == budget
      ensures ok ==> tree.Keys == Grown(old(tree.Keys), old(levels), levels)
      ensures ok ==> |tree.Keys| == |old(tree.Keys)| + levels - old(levels)
    {
      hide Valid, SlotsOk, NodesOk, Closed, Separate, SlotFor, Shift, UpTo;
      LevelsBounded();
      left := budget;
      ghost var places, low := tree.Keys, levels;
      RootsMore(places, levels, levels);
      hide Grown;
      while levels < level
        invariant Valid() && fresh(owned - old(owned))
        invariant old(levels) <= levels <= (if old(levels) < level then level else old(levels))
        invariant left + (levels - old(levels)) == budget
        invariant tree.Keys == Grown(places, low, levels) && |tree.Keys| == |places| + levels - low
        decreases level - levels
      {
        if left == 0 {
          return false, left;
        }
        left := left - 1;
        GrowOnce(places, low);
      }
      return true, left;
    }

    /** One step of the walk: the child on the path of `posn`, allocated if missing. */
    method StepDown(x: array<Slot<V>>, level: nat, posn: nat, budget: nat)
      returns (ok: bool, y: array<Slot<V>>, left: nat)
      requires Valid() && 0 < level
      requires IsNode(x, Place(level, Shift(posn, level + 1)))
      modifies `tree, `owned, x
      ensures Valid() && fresh(owned - old(owned))
      ensures ok ==> IsNode(y, Place(level - 1, Shift(posn, level)))
      ensures ok ==> left + Missing(old(tree.Keys), posn, level) == budget + Missing(tree.Keys, posn, level - 1)
      ensures ok ==> |tree.Keys| + left == |old(tree.Keys)| + budget
      ensures !ok ==> budget < Missing(old(tree.Keys), posn, level)
    {
      hide Valid, View, Closed, NodesOk, Shift, Missing;
      ghost var c, before := Place(level - 1, Shift(posn, level)), tree.Keys;
      MissingStep(before, before + {c}, posn, level);
      ChildPlace(posn, level);
      var i := Shift(posn, level) % SA_BLOCK_MAX;
      var next := ReadChild(x, level, posn);
      if next != Null {
        assert before + {c} == before;
        return true, next.node, budget;
      }
      if budget == 0 {
        return false, x, 0;
      }
      y := AddChild(x, i, Place(level, Shift(posn, level + 1)));
      assert tree.Keys == before + {c};
      return true, y, budget - 1;
    }

    lemma ChildPlace(posn: nat, level: nat)
      requires 0 < level
      ensures 16 * Shift(posn, level + 1) + Shift(posn, level) % SA_BLOCK_MAX == Shift(posn, level)
    {
      ShiftStep(posn, level);
    }

    method ReadChild(x: array<Slot<V>>, level: nat, posn: nat) returns (next: Slot<V>)
      requires Valid() && 0 < level
      requires IsNode(x, Place(level, Shift(posn, level + 1)))
      ensures x.Length == SA_BLOCK_MAX && next == x[Shift(posn, level) % SA_BLOCK_MAX]
      ensures var c := Place(level - 1, Shift(posn, level));
              if c in tree then next.Child? && IsNode(next.node, c) else next == Null
    {
      ChildPlace(posn, level);
      hide Valid, View, Closed, NodesOk, Shift;
      next := Read(x, Shift(posn, level) % SA_BLOCK_MAX, Place(level, Shift(posn, level + 1)));
    }

    lemma RootNode()
      requires Valid() && levels > 0
      ensures nodes.Child? && IsNode(nodes.node, Place(levels - 1, 0))
    {
      RootIsThere(levels, nodes, tree);
    }

    /** The walk down to level 0, allocating missing nodes. */
    method WalkDown(posn: nat, budget: nat) returns (ok: bool, x: array<Slot<V>>)
      requires Valid() && levels > 0 && Shift(posn, levels) == 0
      modifies `tree, `owned, owned
      ensures Valid() && fresh(owned - old(owned))
      ensures ok ==> IsNode(x, Place(0, posn / 16))
      ensures ok == (Missing(old(tree.Keys), posn, levels) <= budget)
      ensures ok ==> |tree.Keys| == |old(tree.Keys)| + Missing(old(tree.Keys), posn, levels)
    {
      hide Valid, SlotsOk, NodesOk, Closed, Separate, SlotFor, UpTo;
      RootNode();
      ShiftOne(posn);
      x := nodes.node;
      var left: nat := budget;
      var level: nat := levels - 1;
      ghost var total := Missing(tree.Keys, posn, levels);
      assert Missing(tree.Keys, posn, level) == total;
      hide Shift;
      while level > 0
        invariant Valid() && level < levels && fresh(owned - old(owned))
        invariant IsNode(x, Place(level, Shift(posn, level + 1)))
        invariant left + total == budget + Missing(tree.Keys, posn, level)
        invariant |tree.Keys| + left == |old(tree.Keys)| + budget
      {
        ok, x, left := StepDown(x, level, posn, left);
        if !ok {
          return false, x;
        }
        level := level - 1;
      }
      return true, x;
    }

    /** `if (sa->top < posn) sa->top = posn;` */
    method RaiseTop(posn: nat)
      requires Valid() && levels > 0 && Shift(posn, levels) == 0
      modifies `top
      ensures Valid() && posn <= top
    {
      hide Shaped, Shift;
      if top < posn {
        top := posn;
      }
    }

    /** `*p = val` */
    method WriteSlot(x: array<Slot<V>>, i: nat, val: Slot<V>, ghost p: Place)
      requires Separate(tree) && p in tree && tree[p] == x && i < x.Length
      modifies x
      ensures |old(View())[p]| == x.Length && View() == old(View())[p := old(View())[p][i := val]]
    {
      assert forall y :: y in tree && y != p ==> tree[y] != x;
      hide Separate;
      x[i] := val;
      assert x[..] == old(x[..])[i := val];
    }

    /** One element less, one more, or as many as before. */
    method AdjustCount(x: array<Slot<V>>, n: nat, val: Slot<V>)
      requires Valid() && IsNode(x, Place(0, n / 16)) && n <= top
      requires val.Null? || val.Leaf?
      modifies `nelem
      ensures x.Length == SA_BLOCK_MAX && Counted(levels, top, nelem, Stored(contents, n, val))
    {
      ShapedWithValue(levels, nodes, View(), tree, contents, n, val);
      CountedWithValue(levels, top, nelem, contents, n, val);
      assert x[..] == View()[Place(0, n / 16)];
      hide View, Shaped, Counted, Stored;
      var i := n % SA_BLOCK_MAX;
      assert x[i] == x[..][i];
      if val == Null && x[i] != Null {
        nelem := nelem - 1;
      } else if val != Null && x[i] == Null {
        nelem := nelem + 1;
      }
    }

    /** The last lines: count, then write the slot. */
    method StoreValue(x: array<Slot<V>>, n: nat, val: Slot<V>)
      requires Valid() && IsNode(x, Place(0, n / 16)) && n <= top
      requires val.Null? || val.Leaf?
      modifies `nelem, `contents, x
      ensures Valid() && contents == Stored(old(contents), n, val)
    {
      hide SlotsOk, NodesOk, Closed, Separate, SlotFor, Shift, UpTo;
      ghost var home, view := Place(0, n / 16), View();
      ShapedWithValue(levels, nodes, view, tree, contents, n, val);
      AdjustCount(x, n, val);
      hide View, Counted, Stored;
      WriteSlot(x, n % SA_BLOCK_MAX, val, home);
      contents := Stored(contents, n, val);
    }

    /** The part of `ossl_sa_set` after the tree is deep enough. */
    method SetWithin(posn: nat, val: Slot<V>, budget: nat) returns (ok: bool)
      requires Valid() && levels > 0 && Shift(posn, levels) == 0 && (val.Null? || val.Leaf?)
      modifies `tree, `top, `nelem, `contents, `owned, owned
      ensures Valid() && fresh(owned - old(owned))
      ensures contents == if ok then Stored(old(contents), posn, val) else old(contents)
      ensures ok == (Missing(old(tree.Keys), posn, levels) <= budget)
      ensures ok ==> |tree.Keys| == |old(tree.Keys)| + Missing(old(tree.Keys), posn, levels)
    {
      hide Valid, Shift;
      RaiseTop(posn);
      var x;
      ok, x := WalkDown(posn, budget);
      if ok {
        StoreValue(x, posn, val);
      }
    }

    /** `ossl_sa_set`; `memory` bounds the node allocations that succeed.  A call fails exactly when
        more nodes are needed, and then it has changed no entry. */
    method Set(posn: nat, val: Slot<V>, memory: nat) returns (ok: bool)
      requires Valid() && posn < UINTMAX_LIMIT && (val.Null? || val.Leaf?)
      modifies this, owned
      ensures Valid() && fresh(owned - old(owned))
      ensures contents == if !ok then old(contents)
                          else if val.Leaf? then old(contents)[posn := val.value]
                          else old(contents) - {posn}
      ensures ok == (NodesNeeded(old(levels), old(tree.Keys), posn) <= memory)
      ensures ok ==> |tree.Keys| == |old(tree.Keys)| + NodesNeeded(old(levels), old(tree.Keys), posn)
      ensures memory >= 2 * SA_BLOCK_MAX_LEVELS ==> ok
    {
      hide Valid, Shift, Missing, Grown, Stored;
      LevelsBounded();
      StoredIs(contents, posn, val);
      var level := NeededLevels(posn);
      var left;
      ok, left := Grow(level, memory);
      if ok {
        ShiftZero(posn, level, levels);
        LevelsBounded();
        ok := SetWithin(posn, val, left);
      }
    }

    lemma LevelsBounded()
      requires Valid()
      ensures levels <= SA_BLOCK_MAX_LEVELS
    {
    }
  }
}
