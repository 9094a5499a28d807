/** Names and lists of names worked out by hand (crypto/core_namemap.c): which letters are equal,
    how a list falls into names, and a run with aliases. */
module KnownNames {
  import opened NameMap

  const UPPER := "ABCDEFGHIJKLMNOPQRSTUVWXYZ"
  const LOWER := "abcdefghijklmnopqrstuvwxyz"

  /** The 26 capital letters become small ones, and nothing else changes. */
  lemma LowerTable(c: char)
    ensures forall i :: 0 <= i < 26 ==> LowerChar(UPPER[i]) == LOWER[i]
    ensures c !in UPPER ==> LowerChar(c) == c
  {
    if 'A' <= c <= 'Z' {
      assert UPPER[c as int - 'A' as int] == c;
    }
  }

  lemma Sha256Same()
    ensures SameName("SHA256", "sha256") && SameName("Sha256", "sHA256") && !SameName("SHA-256", "SHA256")
    ensures !SameName("a[b", "a{b") && !SameName("sha256", "sha255")
  {
    assert LowerChar("a[b"[1]) == '[' && LowerChar("a{b"[1]) == '{';
    assert LowerChar("sha256"[5]) == '6' && LowerChar("sha255"[5]) == '5';
  }

  // ---------- Lists ----------

  /** Names with separators between them. */
  function Listed(names: seq<string>, sep: char): string {
    if names == [] then "" else if |names| == 1 then names[0] else names[0] + [sep] + Listed(names[1..], sep)
  }

  lemma FirstName(name: string, sep: char, rest: string)
    requires sep !in name
    ensures FirstSep(name + [sep] + rest, sep) == |name|
    ensures Split(name + [sep] + rest, sep) == [name] + Split(rest, sep)
  {
    var s := name + [sep] + rest;
    FirstSepIs(s, sep, |name|);
    assert s[..|name|] == name && s[|name| + 1..] == rest;
  }

  lemma OnlyName(name: string, sep: char)
    requires sep !in name && name != ""
    ensures Split(name, sep) == [name]
  {
    FirstSepIs(name, sep, |name|);
    assert name[..|name|] == name;
  }

  /** A list falls into its names, unless it ends in an empty one. */
  lemma {:induction false} SplitListed(names: seq<string>, sep: char)
    requires forall i :: 0 <= i < |names| ==> sep !in names[i]
    requires names != [] ==> names[|names| - 1] != ""
    ensures Split(Listed(names, sep), sep) == names
  {
    hide Split;
    if |names| == 1 {
      OnlyName(names[0], sep);
    } else if names == [] {
      assert Split("", sep) == [] by { Nothing(sep); }
    } else {
      SplitListed(names[1..], sep);
      FirstName(names[0], sep, Listed(names[1..], sep));
    }
  }

  lemma Nothing(sep: char)
    ensures Split("", sep) == []
  {
  }

  /** A separator at the end of a list adds no name. */
  lemma LastSeparator(name: string, sep: char)
    requires sep !in name
    ensures Split(name + [sep], sep) == [name]
  {
    assert name + [sep] + "" == name + [sep];
    FirstName(name, sep, "");
    Nothing(sep);
  }

  // ---------- A run ----------

  lemma OneName(t: Table, a: string)
    requires a != ""
    ensures Acceptable(t, 0, [a]) && Identity(t, 0, [a]) == NumberOf(t, a)
  {
    assert [a][1..] == [];
  }

  lemma TwoNames(t: Table, a: string, b: string)
    requires a != "" && b != ""
    ensures Identity(t, 0, [a, b]) == if NumberOf(t, a) != 0 then NumberOf(t, a) else NumberOf(t, b)
    ensures Acceptable(t, 0, [a, b]) <==>
      NumberOf(t, a) == 0 || NumberOf(t, b) == 0 || NumberOf(t, a) == NumberOf(t, b)
  {
    hide NumberOf;
    assert [a, b][1..] == [b] && [b][1..] == [];
    var n, na := Identity(t, 0, [a, b]), NumberOf(t, a);
    assert n == Identity(t, na, [b]) == Identity(t, if na == 0 then NumberOf(t, b) else na, []);
    assert Agree(t, n, [a, b]) <==> (NumberOf(t, a) == 0 || NumberOf(t, a) == n)
                                    && (NumberOf(t, b) == 0 || NumberOf(t, b) == n) by {
      assert [a, b][0] == a && [a, b][1] == b;
    }
  }

  lemma Numbered(t: Table, names: seq<string>, n: int, k: nat)
    requires AllNumbered(t, names, n) && k < |names|
    ensures NumberOf(t, names[k]) == n
  {
  }

  /** A name that was neither known before nor in the list. */
  lemma StillUnknown(t: Table, t': Table, names: seq<string>, name: string)
    requires Keyed(t) && Keyed(t') && NumberOf(t, name) == 0
    requires forall k :: k in t'.entries ==> k in t.entries || exists i :: 0 <= i < |names| && Key(names[i]) == k
    requires forall i :: 0 <= i < |names| ==> !SameName(names[i], name)
    ensures NumberOf(t', name) == 0
  {
    hide Key, SameName;
    forall i | 0 <= i < |names| ensures Key(names[i]) != Key(name) {
      SameKey(names[i], name);
    }
  }

  lemma SameNumber(t: Table, a: string, b: string)
    requires SameName(a, b)
    ensures NumberOf(t, a) == NumberOf(t, b)
  {
    SameKey(a, b);
  }

  predicate Proper(name: string, sep: char) {
    name != "" && sep !in name && CString(name)
  }

  lemma ListOfTwo(a: string, b: string, sep: char)
    requires Proper(a, sep) && Proper(b, sep) && sep != '\0'
    ensures a != "" && b != "" && Split(a + [sep] + b, sep) == [a, b] && CString(a + [sep] + b) && a + [sep] + b != ""
  {
    FirstName(a, sep, b);
    OnlyName(b, sep);
    hide Split;
    assert [a] + [b] == [a, b];
  }

  /** In an empty map: the two names of a list get the number 1, a list that names one of them in
      another case adds its other name to them, a name of its own gets the number 2, and a list with
      names of both identities is refused. */
  method Aliases(a: string, b: string, b': string, c: string, c': string, x: string, sep: char)
    returns (first: int, second: int, third: int, refused: int, found: int)
    requires sep != '\0' && Proper(a, sep) && Proper(b, sep) && Proper(b', sep) && Proper(c, sep) && Proper(x, sep)
    requires SameName(b, b') && SameName(c', c)
    requires !SameName(a, c) && !SameName(b, c) && !SameName(a, x) && !SameName(b', x) && !SameName(b, x)
    requires !SameName(c, x)
    ensures first == 1 && second == 1 && third == 2 && refused == 0 && found == 1
  {
    hide Split, Key, NumberOf, Acceptable, Identity, AllNumbered, SameName, CString, Sound, Proper, Extends, Keyed;
    var m := new Namemap();
    ghost var t0 := m.View();
    Empty(t0, a);
    Empty(t0, b);
    Empty(t0, c);
    Empty(t0, x);
    ListOfTwo(a, b, sep);
    TwoNames(t0, a, b);
    first := m.AddNames(0, a + [sep] + b, sep);
    ghost var t1 := m.View();
    Numbered(t1, [a, b], 1, 1);
    StillUnknown(t0, t1, [a, b], c);
    StillUnknown(t0, t1, [a, b], x);
    SameNumber(t1, b, b');
    ListOfTwo(b', c, sep);
    TwoNames(t1, b', c);
    second := m.AddNames(0, b' + [sep] + c, sep);
    third, refused, found := More(m, t1, b', c, c', x, sep);
  }

  lemma Empty(t: Table, name: string)
    requires t == Table(0, map[])
    ensures NumberOf(t, name) == 0 && Keyed(t)
  {
  }

  method More(m: Namemap, ghost t1: Table, b': string, c: string, c': string, x: string, sep: char)
    returns (third: int, refused: int, found: int)
    requires sep != '\0' && Proper(c, sep) && Proper(x, sep) && SameName(c', c)
    requires !SameName(b', x) && !SameName(c, x) && Keyed(t1) && NumberOf(t1, x) == 0
    requires Keyed(m.View()) && m.View().max == 1 && AllNumbered(m.View(), [b', c], 1)
    requires forall k :: k in m.View().entries ==>
      k in t1.entries || exists i :: 0 <= i < |[b', c]| && Key([b', c][i]) == k
    modifies m
    ensures third == 2 && refused == 0 && found == 1
  {
    hide Split, Key, NumberOf, Acceptable, Identity, AllNumbered, SameName, CString, Sound, Extends, Keyed;
    ghost var t2 := m.View();
    Numbered(t2, [b', c], 1, 1);
    StillUnknown(t1, t2, [b', c], x);
    OnlyName(x, sep);
    OneName(t2, x);
    third := m.AddNames(0, x, sep);
    ghost var t3 := m.View();
    Numbered(t3, [x], 2, 0);
    NumbersStay(t2, t3, c);
    ListOfTwo(x, c, sep);
    TwoNames(t3, x, c);
    refused := m.AddNames(0, x + [sep] + c, sep);
    SameNumber(m.View(), c', c);
    found := m.Name2Num(c');
  }

  lemma NumbersStay(t: Table, t': Table, name: string)
    requires Keyed(t) && Extends(t, t') && NumberOf(t, name) != 0
    ensures NumberOf(t', name) == NumberOf(t, name)
  {
  }
}
