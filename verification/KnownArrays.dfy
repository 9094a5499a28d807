/** A sparse array filled and emptied by hand (crypto/sparse_array.c): what is found, how many
    entries there are, how many nodes it takes, and in which order they are visited. */
module KnownArrays {
  import opened SparseArray
  import opened SparseArrayWalk

  /** An index of three hexadecimal digits needs three levels, and two more nodes on its path. */
  lemma FiveNodes()
    ensures NodesNeeded(0, {}, 0x123) == 5 && NodesNeeded(0, {}, 5) == 1
  {
    assert LevelsFor(0x123) == 3 && LevelsFor(5) == 1;
    var roots := Grown({}, 0, 3);
    assert roots == {Place(0, 0), Place(1, 0), Place(2, 0)};
    assert Shift(0x123, 3) == 0 && Shift(0x123, 2) == 1 && Shift(0x123, 1) == 0x12;
    assert Missing(roots, 0x123, 1) == 1;
    assert Missing(roots, 0x123, 2) == 2;
    assert Missing(roots, 0x123, 3) == 2;
    assert Grown({}, 0, 1) == {Place(0, 0)} && Shift(5, 1) == 0;
    assert Missing({Place(0, 0)}, 5, 1) == 0;
  }

  /** With memory for four nodes the entry cannot be made, with memory for five it can. */
  method FourOrFive<V(!new)>(v: V, memory: nat) returns (a: Array<V>, ok: bool)
    ensures fresh(a) && a.Valid() && ok == (memory >= 5)
    ensures ok ==> a.contents == map[0x123 := v] && |a.tree| == 5
  {
    hide SlotsOk, NodesOk, Closed, NodesNeeded;
    FiveNodes();
    a := new Array<V>();
    ok := a.Set(0x123, Leaf(v), memory);
    assert |a.tree| == |a.tree.Keys|;
  }

  /** The five are handed over when the array is freed, the root last. */
  method FiveFreed<V(!new)>(v: V)
    returns (found: Slot<V>, leaves: seq<(nat, V)>, nodes: nat, rootLast: bool)
    ensures found == Leaf(v) && leaves == [(0x123, v)] && nodes == 5 && rootLast
  {
    hide Array.Valid, Complete, Matches;
    var a, ok := FourOrFive(v, 5);
    found := a.Get(0x123);
    var freed;
    ghost var called;
    leaves, freed, called := DoAll(a);
    assert (0x123, v) in leaves;
    nodes := |freed|;
    rootLast := freed != [] && a.nodes == Child(freed[|freed| - 1]);
  }

  const LAST: nat := 0xFFFF_FFFF_FFFF_FFFF

  /** An entry stored or removed, with memory enough, and the number of entries then. */
  method Put<V(!new)>(a: Array<V>, n: nat, val: Slot<V>, ghost after: map<nat, V>) returns (ok: bool, count: nat)
    requires a.Valid() && n < UINTMAX_LIMIT && (val.Null? || val.Leaf?)
    requires after == if val.Leaf? then a.contents[n := val.value] else a.contents - {n}
    modifies a, a.owned
    ensures a.Valid() && fresh(a.owned - old(a.owned))
    ensures ok && a.contents == after && count == |after|
  {
    hide Array.Valid, NodesNeeded;
    ok := a.Set(n, val, 32);
    count := a.Num();
  }

  lemma Sizes<V>(v: V, w: V)
    ensures map[7 := v][LAST := v] == map[7 := v, LAST := v] && |map[7 := v, LAST := v]| == 2
    ensures map[7 := v, LAST := v][7 := w] == map[7 := w, LAST := v] && |map[7 := w, LAST := v]| == 2
    ensures map[7 := w, LAST := v] - {7} == map[LAST := v] && |map[LAST := v]| == 1 && |map[7 := v]| == 1
    ensures map[LAST := v] - {7} == map[LAST := v]
  {
    SizeOfTwo(v, v);
    SizeOfTwo(w, v);
  }

  lemma SizeOfTwo<V>(v: V, w: V)
    ensures |map[7 := v, LAST := w]| == 2
  {
    var m := map[7 := v, LAST := w];
    assert m.Keys == {7, LAST};
    assert |m| == |m.Keys|;
  }

  method TwoEntries<V(!new)>(v: V) returns (a: Array<V>, n1: nat, n2: nat)
    ensures fresh(a) && a.Valid() && fresh(a.owned) && a.contents == map[7 := v, LAST := v] && n1 == 1 && n2 == 2
  {
    hide Array.Valid;
    Sizes(v, v);
    a := new Array<V>();
    var ok;
    ok, n1 := Put(a, 7, Leaf(v), map[7 := v]);
    ok, n2 := Put(a, LAST, Leaf(v), map[7 := v, LAST := v]);
  }

  /** Entries are counted, replaced and removed, and found under their indices only. */
  method FewEntries<V(!new)>(v: V, w: V)
    returns (counts: (nat, nat, nat, nat, nat), low: Slot<V>, high: Slot<V>, other: Slot<V>, gone: Slot<V>)
    ensures counts == (1, 2, 2, 1, 1)
    ensures low == Leaf(w) && high == Leaf(v) && other == Null && gone == Null
  {
    hide Array.Valid;
    Sizes(v, w);
    var a, n1, n2 := TwoEntries(v);
    var ok, n3 := Put(a, 7, Leaf(w), map[7 := w, LAST := v]);
    low := a.Get(7);
    high := a.Get(LAST);
    other := a.Get(0x17);
    var n4, n5;
    n4, n5, gone := RemoveTwice(a, v, w);
    counts := (n1, n2, n3, n4, n5);
  }

  method RemoveTwice<V(!new)>(a: Array<V>, ghost v: V, ghost w: V) returns (n4: nat, n5: nat, gone: Slot<V>)
    requires a.Valid() && a.contents == map[7 := w, LAST := v]
    modifies a, a.owned
    ensures n4 == 1 && n5 == 1 && gone == Null
  {
    hide Array.Valid;
    Sizes(v, w);
    var ok;
    ok, n4 := Put(a, 7, Null, map[LAST := v]);
    gone := a.Get(7);
    ok, n5 := Put(a, 7, Null, map[LAST := v]);
  }
}
