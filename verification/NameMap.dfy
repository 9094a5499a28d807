/** Names and the numbers that identify them, crypto/core_namemap.c.  The hash table is a map from
    names without case; allocations succeed. */
module NameMap {
  import opened Sequences

  /** A C string: no NUL inside. */
  predicate CString(s: string) {
    forall i :: 0 <= i < |s| ==> s[i] != '\0'
  }

  function LowerChar(c: char): char {
    if 'A' <= c <= 'Z' then c - 'A' + 'a' else c
  }

  /** What names that differ only in case have in common (`OPENSSL_strcasecmp`). */
  function Key(name: string): string {
    seq(|name|, i requires 0 <= i < |name| => LowerChar(name[i]))
  }

  /** Names that `OPENSSL_strcasecmp` finds equal. */
  predicate SameName(a: string, b: string) {
    |a| == |b| && forall i :: 0 <= i < |a| ==> LowerChar(a[i]) == LowerChar(b[i])
  }

  lemma SameKey(a: string, b: string)
    ensures Key(a) == Key(b) <==> SameName(a, b)
  {
    if Key(a) == Key(b) {
      assert |a| == |Key(a)| == |Key(b)| == |b|;
      assert forall i :: 0 <= i < |a| ==> Key(a)[i] == LowerChar(a[i]) && Key(b)[i] == LowerChar(b[i]);
    }
  }

  datatype Entry = Entry(name: string, number: int)
  datatype Table = Table(max: nat, entries: map<string, Entry>)

  /** Every entry has a number and is found under its name. */
  ghost predicate Keyed(t: Table) {
    forall k :: k in t.entries ==> t.entries[k].number != 0 && Key(t.entries[k].name) == k
  }

  /** Every number in use is one of 1..max, and each of those has a name. */
  ghost predicate Sound(t: Table) {
    && Keyed(t)
    && (forall k :: k in t.entries ==> 1 <= t.entries[k].number <= t.max)
    && forall n :: 1 <= n <= t.max ==> HasName(t, n)
  }

  ghost predicate HasName(t: Table, n: int) {
    exists k :: k in t.entries && t.entries[k].number == n
  }

  /** Names keep their numbers. */
  ghost predicate Extends(t: Table, t': Table) {
    t.max <= t'.max && forall k :: k in t.entries ==> k in t'.entries && t'.entries[k] == t.entries[k]
  }

  /** The number of a name, 0 if it has none. */
  function NumberOf(t: Table, name: string): int {
    if Key(name) in t.entries then t.entries[Key(name)].number else 0
  }

  /** A number that can be given for a name: none, or one that is in use. */
  predicate Usable(t: Table, number: int) {
    0 <= number <= t.max
  }

  // ---------- Adding one name ----------

  function Added(t: Table, number: int, name: string): Table {
    if NumberOf(t, name) != 0 then t
    else
      var n := if number != 0 then number else t.max + 1;
      Table(if number != 0 then t.max else t.max + 1, t.entries[Key(name) := Entry(name, n)])
  }

  /** A name that has a number keeps it; a new one gets the number given, or one never used. */
  lemma AddedName(t: Table, number: int, name: string)
    requires Keyed(t)
    ensures var t' := Added(t, number, name);
            && Keyed(t') && Extends(t, t')
            && NumberOf(t', name) == (if NumberOf(t, name) != 0 then NumberOf(t, name)
                                      else if number != 0 then number else t.max + 1)
            && (forall k :: k in t'.entries ==> k in t.entries || k == Key(name))
            && (Sound(t) && Usable(t, number) ==> Sound(t'))
    ensures Sound(t) ==> forall k :: k in t.entries ==> t.entries[k].number != t.max + 1
  {
    var t' := Added(t, number, name);
    if NumberOf(t, name) == 0 && Sound(t) && Usable(t, number) {
      forall n | 1 <= n <= t'.max ensures HasName(t', n) {
        if n <= t.max {
          assert HasName(t, n);
          var k :| k in t.entries && t.entries[k].number == n;
          assert k in t'.entries && t'.entries[k].number == n;
        } else {
          assert t'.entries[Key(name)].number == n;
        }
      }
    }
  }

  // ---------- Numbers nobody was given ----------

  /** Adding new names one after the other, each without a number. */
  function AddEach(t: Table, names: seq<string>): Table {
    if names == [] then t else Added(AddEach(t, names[..|names| - 1]), 0, names[|names| - 1])
  }

  lemma {:induction false} AddEachExtends(t: Table, names: seq<string>)
    requires Keyed(t)
    ensures Keyed(AddEach(t, names)) && Extends(t, AddEach(t, names))
  {
    if names != [] {
      AddEachExtends(t, names[..|names| - 1]);
      AddedName(AddEach(t, names[..|names| - 1]), 0, names[|names| - 1]);
    }
  }

  /** After `name` was added under `number`, adding `others` without numbers ends with a new name
      that gets the number of `name`: two names without relation in one identity. */
  ghost predicate Clash(t: Table, number: int, name: string, others: seq<string>) {
    others != [] &&
    var before := AddEach(Added(t, number, name), others[..|others| - 1]);
    var last := others[|others| - 1];
    var after := Added(before, 0, last);
    NumberOf(before, last) == 0 && NumberOf(after, last) == NumberOf(after, name)
  }

  lemma {:induction false} LongerThanAll(keys: set<string>) returns (bound: nat)
    ensures forall k :: k in keys ==> |k| < bound
    decreases |keys|
  {
    bound := 0;
    if keys != {} {
      var k :| k in keys;
      var rest := LongerThanAll(keys - {k});
      bound := rest + |k| + 1;
    }
  }

  lemma NewName(t: Table) returns (name: string)
    ensures NumberOf(t, name) == 0
  {
    var bound := LongerThanAll(t.entries.Keys);
    name := Repeat('a', bound);
    assert |Key(name)| == bound;
  }

  /** `n` new names, each of which uses the next number. */
  lemma {:induction false} NewNames(t: Table, n: nat) returns (names: seq<string>)
    requires Keyed(t) && n >= 1
    ensures |names| == n && AddEach(t, names[..n - 1]).max == t.max + n - 1
    ensures NumberOf(AddEach(t, names[..n - 1]), names[n - 1]) == 0
  {
    var before: seq<string> := [];
    if n > 1 {
      before := NewNames(t, n - 1);
      assert AddEach(t, before) == Added(AddEach(t, before[..n - 2]), 0, before[n - 2]);
    }
    var name := NewName(AddEach(t, before));
    names := before + [name];
    assert names[..n - 1] == before;
  }

  /** A new name added under a number can later share it with a name it has nothing to do with if
      and only if the number lies above all those given out. */
  lemma ClashExactly(t: Table, number: int, name: string)
    requires Sound(t) && NumberOf(t, name) == 0
    ensures (exists others: seq<string> :: Clash(t, number, name, others)) <==> number > t.max
  {
    AddedName(t, number, name);
    if number > t.max {
      var others := LaterNames(t, number, name);
    } else {
      forall others: seq<string> ensures !Clash(t, number, name, others) {
        NoClash(t, number, name, others);
      }
    }
  }

  lemma LaterNames(t: Table, number: int, name: string) returns (others: seq<string>)
    requires Sound(t) && NumberOf(t, name) == 0 && number > t.max
    ensures Clash(t, number, name, others)
  {
    var t1 := Added(t, number, name);
    AddedName(t, number, name);
    others := NewNames(t1, number - t.max);
    var before := AddEach(t1, others[..|others| - 1]);
    AddEachExtends(t1, others[..|others| - 1]);
    AddedName(before, 0, others[|others| - 1]);
    assert Key(name) in t1.entries;
  }

  lemma NoClash(t: Table, number: int, name: string, others: seq<string>)
    requires Sound(t) && NumberOf(t, name) == 0 && number <= t.max
    ensures !Clash(t, number, name, others)
  {
    var t1 := Added(t, number, name);
    AddedName(t, number, name);
    if others != [] {
      var before := AddEach(t1, others[..|others| - 1]);
      AddEachExtends(t1, others[..|others| - 1]);
      AddedName(before, 0, others[|others| - 1]);
      assert Key(name) in t1.entries;
    }
  }

  /** An instance: a name added under 1, which nobody was given, and the next one without a number. */
  lemma NumbersClash()
    ensures Clash(Table(0, map[]), 1, "a", ["b"])
  {
    assert Key("a") == "a" && Key("b") == "b";
    assert "a"[0] != "b"[0];
    assert ["b"][..0] == [];
  }

  // ---------- Adding a list of names ----------

  /** Where the first separator is, or the end. */
  function FirstSep(s: string, sep: char): (k: nat)
    ensures k <= |s| && (k < |s| ==> s[k] == sep) && forall i :: 0 <= i < k ==> s[i] != sep
  {
    if s == [] || s[0] == sep then 0 else FirstSep(s[1..], sep) + 1
  }

  /** The names in a list; a separator at its end adds none. */
  function Split(s: string, sep: char): seq<string>
    decreases |s|
  {
    if s == [] then []
    else
      var k := FirstSep(s, sep);
      [s[..k]] + if k < |s| then Split(s[k + 1..], sep) else []
  }

  function AddAll(t: Table, number: int, names: seq<string>): Table
    decreases |names|
  {
    if names == [] then t
    else
      var t' := Added(t, number, names[0]);
      AddAll(t', if number == 0 then NumberOf(t', names[0]) else number, names[1..])
  }

  /** The one identity that a number and the names of a list have so far, 0 if none. */
  function Identity(t: Table, number: int, names: seq<string>): int
    decreases |names|
  {
    if names == [] then number
    else Identity(t, if number == 0 then NumberOf(t, names[0]) else number, names[1..])
  }

  /** No name is empty, and none has an identity other than `n`. */
  ghost predicate Agree(t: Table, n: int, names: seq<string>) {
    forall i :: 0 <= i < |names| ==> names[i] != "" && (NumberOf(t, names[i]) == 0 || NumberOf(t, names[i]) == n)
  }

  /** A list can be added when its names have at most one identity together with the number given. */
  ghost predicate Acceptable(t: Table, number: int, names: seq<string>) {
    Agree(t, Identity(t, number, names), names)
  }

  /** The identity the names of an accepted list have afterwards. */
  function Result(t: Table, number: int, names: seq<string>): int {
    var n := Identity(t, number, names);
    if n == 0 && names != [] then t.max + 1 else n
  }

  lemma {:induction false} IdentityUsable(t: Table, number: int, names: seq<string>)
    requires Sound(t) && Usable(t, number)
    ensures Usable(t, Identity(t, number, names)) && (number != 0 ==> Identity(t, number, names) == number)
    decreases |names|
  {
    if names != [] {
      IdentityUsable(t, if number == 0 then NumberOf(t, names[0]) else number, names[1..]);
    }
  }

  /** Adding an accepted list puts all its names in one identity and changes nothing else. */
  lemma {:induction false} AddAllRight(t: Table, n: int, names: seq<string>)
    requires Keyed(t) && Agree(t, n, names)
    ensures var t' := AddAll(t, n, names);
            var r := if n == 0 && names != [] then t.max + 1 else n;
            && Keyed(t') && Extends(t, t') && (Sound(t) && Usable(t, n) ==> Sound(t'))
            && t'.max == (if n == 0 && names != [] then t.max + 1 else t.max)
            && (forall i :: 0 <= i < |names| ==> NumberOf(t', names[i]) == r)
            && (forall k :: k in t'.entries ==> k in t.entries || exists i :: 0 <= i < |names| && Key(names[i]) == k)
    decreases |names|
  {
    if names != [] {
      var t1 := Added(t, n, names[0]);
      AddedName(t, n, names[0]);
      var r := NumberOf(t1, names[0]);
      assert r == if n == 0 then t.max + 1 else n;
      AgreeLater(t, t1, n, r, names);
      AddAllRight(t1, r, names[1..]);
      AddAllParts(t, n, names);
    }
  }

  lemma AgreeLater(t: Table, t1: Table, n: int, r: int, names: seq<string>)
    requires Keyed(t) && names != [] && Agree(t, n, names) && t1 == Added(t, n, names[0])
    requires r == (if n == 0 then t.max + 1 else n)
    ensures Agree(t1, r, names[1..])
  {
    forall i | 0 <= i < |names[1..]|
      ensures names[1..][i] != "" && (NumberOf(t1, names[1..][i]) == 0 || NumberOf(t1, names[1..][i]) == r)
    {
      assert names[1..][i] == names[i + 1];
      assert names[0] != "";
    }
  }

  lemma AddAllParts(t: Table, n: int, names: seq<string>)
    requires names != []
    ensures var t1 := Added(t, n, names[0]);
            AddAll(t, n, names) == AddAll(t1, if n == 0 then NumberOf(t1, names[0]) else n, names[1..])
  {
  }

  // ---------- The name map ----------

  /** A list in memory: the names with their separators, those before `p` overwritten by NUL, and
      the NUL at the end. */
  ghost predicate Buffer(tmp: seq<char>, names: string, sep: char, p: nat) {
    && |tmp| == |names| + 1 && tmp[|names|] == '\0'
    && forall i :: 0 <= i < |names| ==> tmp[i] == if i < p && names[i] == sep then '\0' else names[i]
  }

  /** `strchr` and `strlen`: the first `c` from `p` on, or the end of the string. */
  method Scan(tmp: array<char>, p: nat, c: char) returns (q: nat)
    requires p < tmp.Length && tmp[tmp.Length - 1] == '\0'
    ensures p <= q < tmp.Length && (tmp[q] == c || tmp[q] == '\0')
    ensures forall i :: p <= i < q ==> tmp[i] != c && tmp[i] != '\0'
  {
    q := p;
    while tmp[q] != c && tmp[q] != '\0'
      invariant p <= q < tmp.Length
      invariant forall i :: p <= i < q ==> tmp[i] != c && tmp[i] != '\0'
      decreases tmp.Length - q
    {
      q := q + 1;
    }
  }

  lemma {:induction false} FirstSepIs(s: string, sep: char, k: nat)
    requires k <= |s| && (k < |s| ==> s[k] == sep) && forall i :: 0 <= i < k ==> s[i] != sep
    ensures FirstSep(s, sep) == k
  {
    if k > 0 {
      assert forall i :: 0 <= i < k - 1 ==> s[1..][i] == s[i + 1];
      FirstSepIs(s[1..], sep, k - 1);
    }
  }

  /** The first name of the rest of a list. */
  lemma SplitAt(names: string, sep: char, p: nat, q: nat)
    requires p < |names| && p <= q <= |names| && (q < |names| ==> names[q] == sep)
    requires forall i :: p <= i < q ==> names[i] != sep
    ensures Split(names[p..], sep) == [names[p..q]] + if q < |names| then Split(names[q + 1..], sep) else []
  {
    hide Split, FirstSep;
    PartOfPart(names, p, q);
    FirstPart(names[p..], sep, q - p);
  }

  lemma PartOfPart(s: string, p: nat, q: nat)
    requires p <= q <= |s|
    ensures |s[p..]| == |s| - p && s[p..][..q - p] == s[p..q]
    ensures q < |s| ==> s[p..][q - p] == s[q] && s[p..][q - p + 1..] == s[q + 1..]
  {
  }

  lemma FirstPart(s: string, sep: char, k: nat)
    requires s != "" && k <= |s| && (k < |s| ==> s[k] == sep) && forall i :: 0 <= i < k ==> s[i] != sep
    ensures Split(s, sep) == [s[..k]] + if k < |s| then Split(s[k + 1..], sep) else []
  {
    FirstSepIs(s, sep, k);
  }

  function Rest(names: string, sep: char, p: nat): seq<string> {
    if p <= |names| then Split(names[p..], sep) else []
  }

  class Namemap {
    var maxNumber: nat
    var namenum: map<string, Entry>

    constructor ()
      ensures View() == Table(0, map[]) && Sound(View())
    {
      maxNumber, namenum := 0, map[];
    }

    function View(): Table
      reads this
    {
      Table(maxNumber, namenum)
    }

    /** `namemap_name2num`. */
    method Name2Num(name: string) returns (n: int)
      requires Keyed(View())
      ensures n == NumberOf(View(), name)
      ensures forall k :: k in View().entries && SameName(View().entries[k].name, name) ==>
          View().entries[k].number == n
      ensures n == 0 <==> forall k :: k in View().entries ==> !SameName(View().entries[k].name, name)
    {
      forall k | k in namenum ensures SameName(namenum[k].name, name) <==> k == Key(name) {
        SameKey(namenum[k].name, name);
      }
      n := if Key(name) in namenum then namenum[Key(name)].number else 0;
    }

    /** `namemap_add_name`. */
    method AddNameLocked(number: int, name: string) returns (n: int)
      requires Keyed(View())
      modifies this
      ensures View() == Added(old(View()), number, name) && Keyed(View()) && Extends(old(View()), View())
      ensures old(Sound(View()) && Usable(View(), number)) ==> Sound(View())
      ensures n == NumberOf(View(), name) != 0
    {
      AddedName(View(), number, name);
      hide Sound, Extends, Keyed, SameName;
      n := Name2Num(name);
      if n != 0 {
        return;
      }
      if number != 0 {
        n := number;
      } else {
        maxNumber := maxNumber + 1;
        n := maxNumber;
      }
      namenum := namenum[Key(name) := Entry(name, n)];
    }

    /** `ossl_namemap_add_name`. */
    method AddName(number: int, name: string) returns (n: int)
      requires Keyed(View())
      modifies this
      ensures Keyed(View()) && Extends(old(View()), View())
      ensures old(Sound(View()) && Usable(View(), number)) ==> Sound(View())
      ensures if name == "" then n == 0 && View() == old(View())
              else View() == Added(old(View()), number, name) && n == NumberOf(View(), name) != 0
    {
      if name == "" {
        return 0;
      }
      n := AddNameLocked(number, name);
    }

    /** The first loop of `ossl_namemap_add_names`: whether the list is acceptable, and the identity
        its names have. */
    method CheckNames(tmp: array<char>, names: string, sep: char, number0: int) returns (ok: bool, number: int)
      requires Keyed(View()) && CString(names) && sep != '\0'
      requires Buffer(tmp[..], names, sep, 0)
      modifies tmp
      ensures ok == Acceptable(View(), number0, Split(names, sep))
      ensures ok ==> number == Identity(View(), number0, Split(names, sep)) && Buffer(tmp[..], names, sep, |names|)
    {
      ghost var t, all := View(), Split(names, sep);
      ghost var done: seq<string> := [];
      assert names[0..] == names;
      number := number0;
      var p := 0;
      while tmp[p] != '\0'
        invariant p <= |names| && Buffer(tmp[..], names, sep, p)
        invariant Progress(t, number0, all, number, done, Split(names[p..], sep))
        decreases |names| - p
      {
        ghost var rest := Split(names[p..], sep);
        var s, q := NextName(tmp, names, sep, p);
        if tmp[p] == '\0' {
          NotAcceptable(t, number0, all, number, done, rest);
          return false, 0;
        }
        var thisNumber := Name2Num(tmp[p..s]);
        if number != 0 && thisNumber != 0 && thisNumber != number {
          NotAcceptable(t, number0, all, number, done, rest);
          return false, 0;
        }
        ProgressNext(t, number0, all, number, done, rest);
        if number == 0 {
          number := thisNumber;
        }
        done := done + [tmp[p..s]];
        p := q;
      }
      assert p == |names|;
      assert names[p..] == "";
      assert done + [] == done;
      ok := true;
    }

    /** Finding the end of a name and terminating it there. */
    method NextName(tmp: array<char>, names: string, sep: char, p: nat) returns (s: nat, q: nat)
      requires CString(names) && sep != '\0' && p < |names| && Buffer(tmp[..], names, sep, p)
      modifies tmp
      ensures p <= s <= q <= |names| && p < q && Buffer(tmp[..], names, sep, q)
      ensures Split(names[p..], sep) == [tmp[p..s]] + Split(names[q..], sep)
      ensures tmp[p] == '\0' <==> p == s
    {
      hide Split;
      ghost var before := tmp[..];
      s := Scan(tmp, p, sep);
      SplitFrom(before, names, sep, p, s);
      q := s;
      if tmp[s] == sep {
        tmp[s] := '\0';
        q := s + 1;
        BufferCut(before, tmp[..], names, sep, p, s);
      } else {
        BufferEnd(before, names, sep, p, s);
      }
      assert tmp[p..s] == before[p..s];
      assert p < s ==> tmp[p] == before[p];
    }

    /** The second loop: all names are registered, and the internal error cannot happen. */
    method RegisterNames(tmp: array<char>, names: string, sep: char, number0: int) returns (number: int)
      requires Keyed(View()) && CString(names) && sep != '\0'
      requires Buffer(tmp[..], names, sep, |names|) && Agree(View(), number0, Split(names, sep))
      modifies this
      ensures View() == AddAll(old(View()), number0, Split(names, sep))
      ensures Split(names, sep) == [] ==> number == number0
      ensures Split(names, sep) != [] ==> number == if number0 == 0 then old(View()).max + 1 else number0
    {
      ghost var t0, all := View(), Split(names, sep);
      assert names[0..] == names;
      assert all == Rest(names, sep, 0);
      number := number0;
      var p := 0;
      EmptyRest(names, sep);
      hide Keyed, Sound, AddAll, Agree, Split, Buffer, Added, NumberOf, Rest, CString;
      while p < |names|
        invariant Keyed(View()) && Agree(View(), number, Rest(names, sep, p))
        invariant AddAll(t0, number0, all) == AddAll(View(), number, Rest(names, sep, p))
        invariant p == 0 ==> number == number0 && View() == t0
        invariant p > 0 ==> names != ""
        invariant p > 0 ==> number == if number0 == 0 then t0.max + 1 else number0
        decreases |names| - p
      {
        number, p := RegisterOne(tmp, names, sep, p, number);
      }
      AllRegistered(View(), number, names, sep, p);
    }

    method RegisterOne(tmp: array<char>, names: string, sep: char, p: nat, number0: int) returns (number: int, q: nat)
      requires Keyed(View()) && CString(names) && sep != '\0' && p < |names|
      requires Buffer(tmp[..], names, sep, |names|) && Agree(View(), number0, Rest(names, sep, p))
      modifies this
      ensures Keyed(View()) && Agree(View(), number, Rest(names, sep, q)) && p < q
      ensures AddAll(old(View()), number0, Rest(names, sep, p)) == AddAll(View(), number, Rest(names, sep, q))
      ensures number == if number0 == 0 then old(View()).max + 1 else number0
    {
      hide Keyed, Sound, AddAll, Agree, Split, Buffer, Added, NumberOf, Rest, CString, Extends;
      ghost var t, rest := View(), Rest(names, sep, p);
      var s := NextRegistered(tmp, names, sep, p);
      RegisterStep(t, number0, rest);
      number := number0;
      var thisNumber := AddNameLocked(number, tmp[p..s]);
      if number == 0 {
        number := thisNumber;
      } else if thisNumber != number {
        assert false;
      }
      q := s + 1;
    }

    method NextRegistered(tmp: array<char>, names: string, sep: char, p: nat) returns (s: nat)
      requires CString(names) && sep != '\0' && p < |names| && Buffer(tmp[..], names, sep, |names|)
      ensures p <= s < tmp.Length && Rest(names, sep, p) == [tmp[p..s]] + Rest(names, sep, s + 1)
    {
      s := Scan(tmp, p, '\0');
      SplitAt(names, sep, p, s);
      assert tmp[p..s] == names[p..s];
    }

    /** `ossl_namemap_doall_names`: all names of a number, each once, in some order. */
    method NamesOf(number: int) returns (names: seq<string>)
      requires Keyed(View())
      ensures forall i :: 0 <= i < |names| ==> IsNameOf(View(), names[i], number)
      ensures forall k :: k in View().entries && View().entries[k].number == number ==> View().entries[k].name in names
      ensures forall i, j :: 0 <= i < j < |names| ==> Key(names[i]) != Key(names[j])
      ensures |names| == |KeysOf(View(), number, {})|
    {
      names := [];
      var keys := namenum.Keys;
      assert KeysOf(View(), number, keys) == {};
      while keys != {}
        invariant keys <= namenum.Keys
        invariant forall i :: 0 <= i < |names| ==> IsNameOf(View(), names[i], number) && Key(names[i]) !in keys
        invariant forall k :: k in namenum.Keys - keys && namenum[k].number == number ==> namenum[k].name in names
        invariant forall i, j :: 0 <= i < j < |names| ==> Key(names[i]) != Key(names[j])
        invariant |names| == |KeysOf(View(), number, keys)|
        decreases |keys|
      {
        var k :| k in keys;
        assert Key(namenum[k].name) == k;
        OneMore(View(), number, keys, k);
        if namenum[k].number == number {
          names := names + [namenum[k].name];
        }
        keys := keys - {k};
      }
    }

    /** `ossl_namemap_num2name`: the `idx`-th of those names, or NULL. */
    method Num2Name(number: int, idx: nat) returns (found: bool, name: string)
      requires Keyed(View())
      ensures found ==> IsNameOf(View(), name, number)
      ensures found == (idx < |KeysOf(View(), number, {})|)
      ensures Sound(View()) && idx == 0 ==> found == (1 <= number <= View().max)
    {
      var names := NamesOf(number);
      if Sound(View()) {
        FirstName(View(), number, names);
      }
      found, name := false, "";
      var left := idx;
      for i := 0 to |names|
        invariant found ==> IsNameOf(View(), name, number)
        invariant left == (if i < idx then idx - i else 0) && (found <==> i > idx)
      {
        if left > 0 {
          left := left - 1;
        } else if !found {
          found, name := true, names[i];
        }
      }
    }

    /** `ossl_namemap_add_names`: all names of an acceptable list end up in one identity; any other
        list is refused as a whole. */
    method AddNames(number0: int, names: string, sep: char) returns (number: int)
      requires Keyed(View()) && CString(names) && sep != '\0'
      modifies this
      ensures Keyed(View()) && Extends(old(View()), View())
      ensures old(Sound(View()) && Usable(View(), number0)) ==> Sound(View()) && Usable(View(), number)
      ensures Acceptable(old(View()), number0, Split(names, sep)) ==>
        number == Result(old(View()), number0, Split(names, sep)) && AllNumbered(View(), Split(names, sep), number)
      ensures View().max == old(View()).max +
              if names != "" && Identity(old(View()), number0, Split(names, sep)) == 0
                 && Acceptable(old(View()), number0, Split(names, sep)) then 1 else 0
      ensures forall k :: k in View().entries ==>
        k in old(View()).entries || exists i :: 0 <= i < |Split(names, sep)| && Key(Split(names, sep)[i]) == k
      ensures !Acceptable(old(View()), number0, Split(names, sep)) ==> number == 0 && View() == old(View())
    {
      var tmp := new char[|names| + 1](i requires 0 <= i => if i < |names| then names[i] else '\0');
      var ok, n := CheckNames(tmp, names, sep, number0);
      if !ok {
        return 0;
      }
      ghost var t, all := View(), Split(names, sep);
      if Sound(t) && Usable(t, number0) {
        IdentityUsable(t, number0, all);
      }
      AddAllRight(t, n, all);
      number := RegisterNames(tmp, names, sep, n);
    }
  }

  lemma SplitFrom(tmp: string, names: string, sep: char, p: nat, s: nat)
    requires CString(names) && sep != '\0' && p < |names| && Buffer(tmp, names, sep, p)
    requires p <= s < |tmp| && (tmp[s] == sep || tmp[s] == '\0')
    requires forall i :: p <= i < s ==> tmp[i] != sep && tmp[i] != '\0'
    ensures s <= |names| && (tmp[s] == sep <==> s < |names|)
    ensures Split(names[p..], sep) == [tmp[p..s]] + Split(names[if s < |names| then s + 1 else s..], sep)
  {
    assert forall i :: p <= i < s ==> names[i] == tmp[i];
    assert tmp[p..s] == names[p..s];
    SplitAt(names, sep, p, s);
    assert names[|names|..] == "";
  }

  lemma BufferCut(tmp: string, tmp': string, names: string, sep: char, p: nat, s: nat)
    requires Buffer(tmp, names, sep, p) && p <= s < |names| && names[s] == sep && tmp' == tmp[s := '\0']
    requires forall i :: p <= i < s ==> tmp[i] != sep
    ensures Buffer(tmp', names, sep, s + 1)
  {
  }

  lemma BufferEnd(tmp: string, names: string, sep: char, p: nat, s: nat)
    requires Buffer(tmp, names, sep, p) && p < |names| && s == |names|
    requires forall i :: p <= i < s ==> tmp[i] != sep
    ensures Buffer(tmp, names, sep, s)
  {
  }

  ghost predicate IsNameOf(t: Table, name: string, number: int) {
    Key(name) in t.entries && t.entries[Key(name)] == Entry(name, number)
  }

  /** The names of a number, except those in `left`. */
  function KeysOf(t: Table, number: int, left: set<string>): set<string> {
    set k | k in t.entries && k !in left && t.entries[k].number == number
  }

  lemma OneMore(t: Table, number: int, left: set<string>, k: string)
    requires k in left && k in t.entries
    ensures |KeysOf(t, number, left - {k})| ==
            |KeysOf(t, number, left)| + (if t.entries[k].number == number then 1 else 0)
  {
    if t.entries[k].number == number {
      assert KeysOf(t, number, left - {k}) == KeysOf(t, number, left) + {k};
    } else {
      assert KeysOf(t, number, left - {k}) == KeysOf(t, number, left);
    }
  }

  lemma FirstName(t: Table, number: int, names: seq<string>)
    requires Sound(t) && forall i :: 0 <= i < |names| ==> IsNameOf(t, names[i], number)
    requires forall k :: k in t.entries && t.entries[k].number == number ==> t.entries[k].name in names
    ensures names != [] <==> 1 <= number <= t.max
  {
    if 1 <= number <= t.max {
      assert HasName(t, number);
    }
    if names != [] {
      assert IsNameOf(t, names[0], number);
    }
  }

  lemma EmptyRest(names: string, sep: char)
    ensures names != "" ==> Split(names, sep) != []
    ensures names == "" ==> Split(names, sep) == []
  {
  }

  lemma AllRegistered(t: Table, number: int, names: string, sep: char, p: nat)
    requires p >= |names|
    ensures AddAll(t, number, Rest(names, sep, p)) == t
  {
  }

  /** How far the check has come: the names seen agree, and the identity of the rest is that of all. */
  ghost predicate Progress(t: Table, number0: int, all: seq<string>, number: int, done: seq<string>,
                           rest: seq<string>) {
    && all == done + rest && Agree(t, number, done)
    && Identity(t, number0, all) == Identity(t, number, rest)
  }

  lemma ProgressNext(t: Table, number0: int, all: seq<string>, number: int, done: seq<string>, rest: seq<string>)
    requires Progress(t, number0, all, number, done, rest) && rest != [] && rest[0] != ""
    requires number == 0 || NumberOf(t, rest[0]) == 0 || NumberOf(t, rest[0]) == number
    ensures Progress(t, number0, all, if number == 0 then NumberOf(t, rest[0]) else number, done + [rest[0]], rest[1..])
  {
    assert done + rest == done + [rest[0]] + rest[1..];
  }

  /** A name that is empty or has another identity spoils the list. */
  lemma NotAcceptable(t: Table, number0: int, all: seq<string>, number: int, done: seq<string>, rest: seq<string>)
    requires Progress(t, number0, all, number, done, rest) && rest != []
    requires rest[0] == "" || (number != 0 && NumberOf(t, rest[0]) != 0 && NumberOf(t, rest[0]) != number)
    ensures !Acceptable(t, number0, all)
  {
    assert all[|done|] == rest[0];
    if rest[0] != "" {
      IdentityFixed(t, number, rest);
    }
  }

  /** Registering one name of a list that agrees. */
  lemma RegisterStep(t: Table, number: int, rest: seq<string>)
    requires Keyed(t) && rest != [] && Agree(t, number, rest)
    ensures var t', r := Added(t, number, rest[0]), if number == 0 then t.max + 1 else number;
            && NumberOf(t', rest[0]) == r && Agree(t', r, rest[1..])
            && AddAll(t, number, rest) == AddAll(t', r, rest[1..])
  {
    AddedName(t, number, rest[0]);
    assert rest[0] != "";
    AgreeLater(t, Added(t, number, rest[0]), number, if number == 0 then t.max + 1 else number, rest);
    AddAllParts(t, number, rest);
  }

  /** Once there is an identity, it stays. */
  lemma {:induction false} IdentityFixed(t: Table, number: int, names: seq<string>)
    requires number != 0
    ensures Identity(t, number, names) == number
    decreases |names|
  {
    if names != [] {
      IdentityFixed(t, number, names[1..]);
    }
  }

  // ---------- Whole runs ----------

  /** The number given with a list: none, the answer to an earlier request, or any number at all. */
  datatype Number = NoNumber | Earlier(k: nat) | Literal(n: int)
  datatype Request = Request(names: string, sep: char, number: Number)

  predicate Proper(r: Request) {
    CString(r.names) && r.sep != '\0'
  }

  /** Every list that was accepted has one identity, for good. */
  ghost predicate Kept(t: Table, rs: seq<Request>, answers: seq<int>) {
    |answers| <= |rs| && forall i :: 0 <= i < |answers| && answers[i] != 0 ==>
      AllNumbered(t, Split(rs[i].names, rs[i].sep), answers[i])
  }

  ghost predicate AllNumbered(t: Table, names: seq<string>, n: int) {
    forall k :: 0 <= k < |names| ==> NumberOf(t, names[k]) == n
  }

  ghost predicate AllUsable(t: Table, answers: seq<int>) {
    forall i :: 0 <= i < |answers| ==> Usable(t, answers[i])
  }

  lemma StillKept(t: Table, t': Table, rs: seq<Request>, answers: seq<int>)
    requires Keyed(t) && Kept(t, rs, answers) && Extends(t, t')
    ensures Kept(t', rs, answers) && (AllUsable(t, answers) ==> AllUsable(t', answers))
  {
    forall i | 0 <= i < |answers| && answers[i] != 0
      ensures AllNumbered(t', Split(rs[i].names, rs[i].sep), answers[i])
    {
      assert AllNumbered(t, Split(rs[i].names, rs[i].sep), answers[i]);
    }
  }

  /** In every run, starting from an empty map, the answers stay right to the end; and if the
      numbers given are answers to earlier requests, every number up to the largest has a name. */
  method Run(rs: seq<Request>) returns (m: Namemap, answers: seq<int>)
    requires forall i :: 0 <= i < |rs| ==> Proper(rs[i])
    ensures fresh(m) && Keyed(m.View()) && |answers| == |rs| && Kept(m.View(), rs, answers)
    ensures (forall i :: 0 <= i < |rs| ==> !rs[i].number.Literal?) ==> Sound(m.View())
  {
    m := new Namemap();
    answers := [];
    ghost var given := forall i :: 0 <= i < |rs| ==> !rs[i].number.Literal?;
    for i := 0 to |rs|
      invariant fresh(m) && Keyed(m.View()) && |answers| == i && Kept(m.View(), rs, answers)
      invariant given ==> Sound(m.View()) && AllUsable(m.View(), answers)
    {
      var r := rs[i];
      assert Proper(r);
      var number := match r.number
        case NoNumber => 0
        case Earlier(k) => if k < i then answers[k] else 0
        case Literal(n) => n;
      var n := Handle(m, r, number, rs, answers);
      answers := answers + [n];
    }
  }

  method Handle(m: Namemap, r: Request, number: int, ghost rs: seq<Request>, ghost answers: seq<int>) returns (n: int)
    requires Keyed(m.View()) && Proper(r) && Kept(m.View(), rs, answers) && |answers| < |rs| && rs[|answers|] == r
    modifies m
    ensures Keyed(m.View()) && Kept(m.View(), rs, answers + [n])
    ensures old(Sound(m.View()) && Usable(m.View(), number) && AllUsable(m.View(), answers)) ==>
      Sound(m.View()) && AllUsable(m.View(), answers + [n])
  {
    ghost var t := m.View();
    hide Sound, Keyed, Extends, Acceptable, AllNumbered;
    n := m.AddNames(number, r.names, r.sep);
    StillKept(t, m.View(), rs, answers);
    Answered(m.View(), rs, answers, n);
  }

  lemma Answered(t: Table, rs: seq<Request>, answers: seq<int>, n: int)
    requires |answers| < |rs| && Kept(t, rs, answers)
    requires n != 0 ==> AllNumbered(t, Split(rs[|answers|].names, rs[|answers|].sep), n)
    ensures Kept(t, rs, answers + [n])
    ensures AllUsable(t, answers) && Usable(t, n) ==> AllUsable(t, answers + [n])
  {
  }
}
