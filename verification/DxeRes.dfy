/** The resolver (src/dxe/dxe3res.c): it follows the dependencies of the modules it is
    given and writes an export table of what they leave unresolved. */
module DxeRes {
  import opened Memory
  import opened Strings
  import F = DxeFormat

  /** The files there are. */
  type Disk = map<string, F.File>

  /** The module files that can be read, with what parse and process find in them. */
  type Files = map<string, F.Lists>

  /** F.ReadLists does the reading; `hs` is the size of the file header. */
  function Readable(disk: Disk, hs: nat): Files {
    map x | x in disk && F.ListsOf(disk[x], hs).Got? :: F.ListsOf(disk[x], hs).value
  }

  // ------------------------------------------------------------------- closures

  ghost predicate Chain(files: Files, args: seq<string>, p: seq<string>) {
    && p != [] && p[0] in args
    && forall k | 0 <= k < |p| - 1 :: p[k] in files && p[k + 1] in files[p[k]].deps
  }

  /** The name is given, or a readable module the names lead to depends on it. */
  ghost predicate Reached(files: Files, args: seq<string>, name: string) {
    exists p :: Chain(files, args, p) && p[|p| - 1] == name
  }

  lemma ReachedGiven(files: Files, args: seq<string>, name: string)
    requires name in args
    ensures Reached(files, args, name)
  {
    assert Chain(files, args, [name]) && [name][|[name]| - 1] == name;
  }

  lemma ReachedNext(files: Files, args: seq<string>, name: string, dep: string)
    requires Reached(files, args, name) && name in files && dep in files[name].deps
    ensures Reached(files, args, dep)
  {
    var p :| Chain(files, args, p) && p[|p| - 1] == name;
    var q := p + [dep];
    assert Chain(files, args, q) && q[|q| - 1] == dep;
  }

  /** Whatever has the given names and all dependencies of its members has everything
      that is reached. */
  lemma {:induction false} ClosedHasChain(files: Files, args: seq<string>, m: seq<string>, p: seq<string>)
    requires forall a | a in args :: a in m
    requires forall x | x in m && x in files :: forall y | y in files[x].deps :: y in m
    requires Chain(files, args, p)
    ensures p[|p| - 1] in m
    decreases |p|
  {
    if |p| > 1 {
      var n := |p| - 1;
      ClosedHasChain(files, args, m, p[..n]);
    }
  }

  // ------------------------------------------------------------------ processing

  /** What has been read covers a module: its names are listed and its dependencies
      are modules. */
  ghost predicate Covered(files: Files, m: seq<string>, u: seq<string>, e: seq<string>, x: string) {
    && x in files
    && (forall y | y in files[x].deps :: y in m)
    && (forall y | y in files[x].unres :: y in u)
    && (forall y | y in files[x].exports :: y in e)
  }

  lemma CoveredGrows(files: Files, m: seq<string>, u: seq<string>, e: seq<string>,
                     n: seq<string>, v: seq<string>, f: seq<string>, x: string)
    requires Covered(files, m, u, e, x) && m <= n && u <= v && e <= f
    ensures Covered(files, n, v, f, x)
  {
  }

  /** The modules start with the given ones, are all reached, and none is added twice. */
  ghost predicate Modules(files: Files, args: seq<string>, m: seq<string>) {
    && args <= m
    && (forall x | x in m :: Reached(files, args, x))
    && (forall i, j | 0 <= i < j < |m| && |args| <= j :: m[i] != m[j])
  }

  /** Nothing is listed that no module calls for. */
  ghost predicate Listed(files: Files, m: seq<string>, u: seq<string>, e: seq<string>) {
    && (forall y | y in u :: exists x :: x in m && x in files && y in files[x].unres)
    && (forall y | y in e :: exists x :: x in m && x in files && y in files[x].exports)
  }

  /** All names that are dependencies of something. */
  ghost function Names(files: Files): set<string> {
    set x, y | x in files && y in files[x].deps :: y
  }

  lemma {:induction false} DistinctFit(s: seq<string>, names: set<string>)
    requires forall i, j | 0 <= i < j < |s| :: s[i] != s[j]
    requires forall i | 0 <= i < |s| :: s[i] in names
    ensures |s| <= |names|
  {
    if s != [] {
      var n := |s| - 1;
      assert forall i | 0 <= i < n :: s[..n][i] in names - {s[n]};
      DistinctFit(s[..n], names - {s[n]});
    }
  }

  /** There are only so many modules to find. */
  ghost predicate Fit(files: Files, args: seq<string>, m: seq<string>) {
    |m| <= |args| + |Names(files)|
  }

  ghost predicate AddedNamed(files: Files, args: seq<string>, m: seq<string>) {
    forall i | |args| <= i < |m| :: m[i] in Names(files)
  }

  lemma ModulesFit(files: Files, args: seq<string>, m: seq<string>)
    requires Modules(files, args, m) && AddedNamed(files, args, m)
    ensures Fit(files, args, m)
  {
    var added := m[|args|..];
    assert forall i | 0 <= i < |added| :: added[i] == m[|args| + i];
    DistinctFit(added, Names(files));
  }

  class Resolver {
    /** The symsets of modules, unresolved and exported names. */
    var m: seq<string>
    var u: seq<string>
    var e: seq<string>

    ghost predicate Valid(files: Files, args: seq<string>)
      reads this
    {
      && Modules(files, args, m) && Listed(files, m, u, e) && AddedNamed(files, args, m)
    }

    ghost predicate CoversFrom(files: Files, i: nat)
      reads this
    {
      forall j | i <= j < |m| :: Covered(files, m, u, e, m[j])
    }

    constructor (args: seq<string>)
      ensures m == args && u == [] && e == []
    {
      m, u, e := args, [], [];
    }

    /** Lines 391-410: a dependency that is not a module yet becomes one. */
    method AddDep(ghost files: Files, ghost args: seq<string>, ghost x: string, dep: string)
      requires Valid(files, args) && x in m && x in files && dep in files[x].deps
      modifies this`m
      ensures Valid(files, args) && dep in m && old(m) <= m
    {
      var k := 0;
      while k < |m| && m[k] != dep
        invariant 0 <= k <= |m| && forall j | 0 <= j < k :: m[j] != dep
      {
        k := k + 1;
      }
      if k == |m| {
        ReachedNext(files, args, x, dep);
        m := m + [dep];
      }
    }
  
    /** The loop over the dependencies of one module. */
    method AddDeps(ghost files: Files, ghost args: seq<string>, ghost x: string, deps: seq<string>)
      requires Valid(files, args) && x in m && x in files && deps == files[x].deps
      modifies this`m
      ensures Valid(files, args) && old(m) <= m && forall y | y in files[x].deps :: y in m
    {
      var j := 0;
      while j < |deps|
        invariant 0 <= j <= |deps| && Valid(files, args) && old(m) <= m
        invariant forall k | 0 <= k < j :: deps[k] in m
      {
        AddDep(files, args, x, deps[j]);
        j := j + 1;
      }
    }

    /** parse (lines 211-236): the names of a module join the lists. */
    method Parse(ghost files: Files, ghost args: seq<string>, ghost x: string, lists: F.Lists)
      requires Valid(files, args) && x in m && x in files && lists == files[x]
      modifies this`u, this`e
      ensures Valid(files, args) && u == old(u) + files[x].unres && e == old(e) + files[x].exports
    {
      e := e + lists.exports;
      u := u + lists.unres;
    }

    /** Lines 373-415: one module, and through it all that have been added. */
    method ProcessOne(files: Files, ghost args: seq<string>, i: nat, idx: nat, memory: bool)
      returns (rv: int)
      requires Valid(files, args) && i < idx <= |m|
      modifies this
      ensures Valid(files, args) && old(m) <= m && old(u) <= u && old(e) <= e
      ensures rv == 0 ==> Covered(files, m, u, e, m[i]) && (old(CoversFrom(files, idx)) ==> CoversFrom(files, idx))
      ensures rv == 3 ==> exists x :: x in m && x !in files
      ensures rv in {0, 2, 3} && (memory ==> rv != 2)
      decreases |args| + |Names(files)| - idx, 3
    {
      var x := m[i];
      if x !in files { return 3; }
      var lists := files[x];
      var noMemory := RunsOut(memory);
      if noMemory { return 2; }
      Parse(files, args, x, lists);
      rv := 0;
      if lists.deps != [] {
        AddDeps(files, args, x, lists.deps);
        noMemory := RunsOut(memory);
        if noMemory { return 2; }
        ghost var m1, u1, e1 := m, u, e;
        assert Covered(files, m1, u1, e1, x);
        rv := Process(files, args, idx, memory);
        CoveredGrows(files, m1, u1, e1, m, u, e, x);
      }
    }

    /** process (lines 362-418), for the modules from idx on. */
    method Process(files: Files, ghost args: seq<string>, idx: nat, memory: bool) returns (rv: int)
      requires Valid(files, args) && idx <= |m|
      modifies this
      ensures Valid(files, args) && old(m) <= m && old(u) <= u && old(e) <= e
      ensures rv == 0 ==> CoversFrom(files, idx)
      ensures rv == 3 ==> exists x :: x in m && x !in files
      ensures rv in {0, 2, 3} && (memory ==> rv != 2)
      decreases |args| + |Names(files)| - idx, 2
    {
      var noMemory := RunsOut(memory);
      if noMemory { return 2; }
      var i, limit := idx, |m|;
      ModulesFit(files, args, m);
      while i < limit
        invariant idx <= i <= limit <= |m| && Valid(files, args) && old(m) <= m && old(u) <= u && old(e) <= e
        invariant forall j | idx <= j < i :: Covered(files, m, u, e, m[j])
        invariant CoversFrom(files, limit)
      {
        rv := ProcessOne(files, args, i, limit, memory);
        if rv != 0 { return; }
        i := i + 1;
      }
      rv := 0;
    }
  }

  ghost predicate Unresolves(files: Files, args: seq<string>, y: string) {
    exists x :: Reached(files, args, x) && x in files && y in files[x].unres
  }

  ghost predicate Exports(files: Files, args: seq<string>, y: string) {
    exists x :: Reached(files, args, x) && x in files && y in files[x].exports
  }

  ghost predicate AllReadable(files: Files, args: seq<string>) {
    forall x | Reached(files, args, x) :: x in files
  }

  /** From the given modules: the modules found are all that are reached, each added
      once, and the lists hold the names of exactly those. Unless memory runs out (code
      2) it succeeds exactly if all of them can be read, and else fails with 3. */
  method ProcessAll(files: Files, args: seq<string>, memory: bool) returns (rv: int, r: Resolver)
    ensures rv in {0, 2, 3} && (memory ==> rv != 2)
    ensures rv != 2 ==> (rv == 0 <==> AllReadable(files, args))
    ensures rv == 0 ==>
      && (forall x :: Reached(files, args, x) <==> x in r.m)
      && args <= r.m && (forall i, j | 0 <= i < j < |r.m| && |args| <= j :: r.m[i] != r.m[j])
      && (forall y :: y in r.u <==> Unresolves(files, args, y))
      && (forall y :: y in r.e <==> Exports(files, args, y))
  {
    r := new Resolver(args);
    forall x | x in args ensures Reached(files, args, x) { ReachedGiven(files, args, x); }
    rv := r.Process(files, args, 0, memory);
    if rv == 0 { AllFound(files, args, r.m, r.u, r.e); }
  }

  lemma AllFound(files: Files, args: seq<string>, m: seq<string>, u: seq<string>, e: seq<string>)
    requires Modules(files, args, m) && Listed(files, m, u, e)
    requires forall j | 0 <= j < |m| :: Covered(files, m, u, e, m[j])
    ensures forall x :: Reached(files, args, x) <==> x in m
    ensures forall x | Reached(files, args, x) :: x in files
    ensures forall y :: y in u <==> Unresolves(files, args, y)
    ensures forall y :: y in e <==> Exports(files, args, y)
  {
    forall x | Reached(files, args, x) ensures x in m && Covered(files, m, u, e, x) {
      var p :| Chain(files, args, p) && p[|p| - 1] == x;
      ClosedHasChain(files, args, m, p);
    }
    forall y | y in u ensures Unresolves(files, args, y) {
      var x :| x in m && x in files && y in files[x].unres;
    }
    forall y | y in e ensures Exports(files, args, y) {
      var x :| x in m && x in files && y in files[x].exports;
    }
  }

  // ------------------------------------------------------------ sorting and sifting

  function Insert(s: seq<string>, x: string): (t: seq<string>)
    ensures |t| == |s| + 1
  {
    if s == [] then [x]
    else if Compare(x, s[0]) <= 0 then [x] + s
    else [s[0]] + Insert(s[1..], x)
  }

  lemma {:induction false} InsertHolds(s: seq<string>, x: string)
    ensures multiset(Insert(s, x)) == multiset(s) + multiset{x}
    ensures Sorted(s) ==> Sorted(Insert(s, x))
  {
    if s != [] {
      assert s == [s[0]] + s[1..];
      InsertHolds(s[1..], x);
      if Sorted(s) { InsertSorted(s, x); }
    }
  }

  lemma InsertSorted(s: seq<string>, x: string)
    requires s != [] && Sorted(s)
    requires Sorted(Insert(s[1..], x)) && multiset(Insert(s[1..], x)) == multiset(s[1..]) + multiset{x}
    ensures Sorted(Insert(s, x))
  {
    CompareSwap(x, s[0]);
    if Compare(x, s[0]) <= 0 {
      BelowAll(s, x);
      SortedBehind(x, s);
    } else {
      var t := Insert(s[1..], x);
      forall y | y in t ensures Compare(s[0], y) <= 0 { AmongThem(s, x, t, y); }
      SortedBehind(s[0], t);
    }
  }

  lemma BelowAll(s: seq<string>, x: string)
    requires s != [] && Sorted(s) && Compare(x, s[0]) <= 0
    ensures forall y | y in s :: Compare(x, y) <= 0
  {
    forall i | 0 <= i < |s| ensures Compare(x, s[i]) <= 0 {
      if i > 0 { LessThrough(x, s[0], s[i]); }
    }
  }

  lemma AmongThem(s: seq<string>, x: string, t: seq<string>, y: string)
    requires s != [] && Sorted(s) && Compare(s[0], x) <= 0
    requires multiset(t) == multiset(s[1..]) + multiset{x} && y in t
    ensures Compare(s[0], y) <= 0
  {
    assert y in multiset(t);
    if y != x {
      assert y in s[1..];
      var i :| 0 <= i < |s[1..]| && s[1..][i] == y;
      assert s[i + 1] == y;
    }
  }

  lemma SortedBehind(x: string, s: seq<string>)
    requires Sorted(s) && forall y | y in s :: Compare(x, y) <= 0
    ensures Sorted([x] + s)
  {
    var t := [x] + s;
    forall i, j | 0 <= i < j < |t| ensures Compare(t[i], t[j]) <= 0 {
      assert t[j] == s[j - 1] && t[j] in s;
      if i > 0 { assert t[i] == s[i - 1]; }
    }
  }

  /** The order qsort with cmp brings about. */
  method Sort(s: seq<string>) returns (t: seq<string>)
    ensures Sorted(t) && multiset(t) == multiset(s)
  {
    t := [];
    var i := 0;
    while i < |s|
      invariant 0 <= i <= |s| && Sorted(t) && multiset(t) == multiset(s[..i])
    {
      InsertHolds(t, s[i]);
      assert s[..i + 1] == s[..i] + [s[i]];
      t := Insert(t, s[i]);
      i := i + 1;
    }
    assert s[..i] == s;
  }

  /** bsearch. */
  method Search(e: seq<string>, key: string) returns (found: bool)
    requires Sorted(e)
    ensures found <==> key in e
  {
    var low, high := 0, |e|;
    found := false;
    while low < high && !found
      invariant 0 <= low <= high <= |e| && (found ==> key in e)
      invariant forall i | 0 <= i < |e| && e[i] == key :: low <= i < high || found
      decreases high - low, !found
    {
      var mid := (low + high) / 2;
      var order := Compare(key, e[mid]);
      CompareEqual(key, e[mid]);
      if order == 0 {
        found := true;
      } else if order < 0 {
        Halves(e, key, mid);
        high := mid;
      } else {
        Halves(e, key, mid);
        low := mid + 1;
      }
    }
  }

  lemma Halves(e: seq<string>, key: string, mid: nat)
    requires Sorted(e) && mid < |e|
    ensures Compare(key, e[mid]) < 0 ==> forall i | mid <= i < |e| :: e[i] != key
    ensures Compare(key, e[mid]) > 0 ==> forall i | 0 <= i <= mid :: e[i] != key
  {
    CompareSwap(key, e[mid]);
    CompareEqual(key, e[mid]);
    CompareEqual(e[mid], key);
  }

  datatype Entry = Null | Name(name: string)

  predicate First(names: seq<string>, i: nat)
    requires i < |names|
  {
    i == 0 || names[i - 1] != names[i]
  }

  /** The entry that sift leaves at i. */
  ghost function Sifted(names: seq<string>, e: seq<string>, i: nat): Entry
    requires i < |names|
  {
    if First(names, i) && names[i] !in e then Name(names[i]) else Null
  }

  /** sift (lines 131-142), in place: of each run of equal names all but the first entry
      are dropped, and the first too if it is exported. */
  method Sift(u: array<Entry>, e: seq<string>, ghost names: seq<string>)
    requires Sorted(e) && |names| == u.Length && forall i | 0 <= i < u.Length :: u[i] == Name(names[i])
    modifies u
    ensures forall i | 0 <= i < u.Length :: u[i] == Sifted(names, e, i)
  {
    var i := 0;
    while i < u.Length
      invariant 0 <= i <= u.Length && (i < u.Length ==> First(names, i))
      invariant forall k | 0 <= k < i :: u[k] == Sifted(names, e, k)
      invariant forall k | i <= k < u.Length :: u[k] == Name(names[k])
    {
      var j := i + 1;
      while j < u.Length && Compare(u[i].name, u[j].name) == 0
        invariant i < j <= u.Length
        invariant forall k | 0 <= k < i :: u[k] == Sifted(names, e, k)
        invariant forall k | i < k < j :: names[k] == names[i] && u[k] == Null
        invariant forall k | i <= k < u.Length && (k == i || j <= k) :: u[k] == Name(names[k])
      {
        CompareEqual(names[i], names[j]);
        u[j] := Null;
        j := j + 1;
      }
      if j < u.Length { CompareEqual(names[i], names[j]); }
      var found := Search(e, u[i].name);
      if found { u[i] := Null; }
      i := j;
    }
  }

  /** The names that dump writes (lines 159-163 and 170-174). */
  function Shown(u: seq<Entry>): seq<string> {
    if u == [] then []
    else Shown(u[..|u| - 1]) + match u[|u| - 1] case Null => [] case Name(y) => [y]
  }

  /** Of equal names in a sorted list only the first is new. */
  lemma FirstIsNew(names: seq<string>, n: nat)
    requires Sorted(names) && n < |names|
    ensures First(names, n) <==> names[n] !in names[..n]
  {
    if n > 0 && names[n - 1] == names[n] { assert names[..n][n - 1] == names[n]; }
    if First(names, n) && names[n] in names[..n] {
      var k :| 0 <= k < n && names[k] == names[n];
      CompareEqual(names[k], names[n]);
      LessThrough(names[k], names[n - 1], names[n]);
      CompareEqual(names[n - 1], names[n]);
    }
  }

  lemma SiftedFront(names: seq<string>, e: seq<string>, n: nat, i: nat)
    requires i < n <= |names|
    ensures Sifted(names[..n], e, i) == Sifted(names, e, i)
  {
  }

  /** Of a list that shows what it should, one more entry. */
  lemma ShownMore(names: seq<string>, e: seq<string>, n: nat, front: seq<string>, last: seq<string>)
    requires Sorted(names) && n + 1 == |names|
    requires forall y :: y in front <==> y in names[..n] && y !in e
    requires last == match Sifted(names, e, n) case Null => [] case Name(y) => [y]
    ensures forall y :: y in front + last <==> y in names && y !in e
    ensures last != [] ==> last[0] !in front
  {
    FirstIsNew(names, n);
    assert names == names[..n] + [names[n]];
  }

  lemma {:induction false} ShownNames(names: seq<string>, e: seq<string>, u: seq<Entry>)
    requires Sorted(names) && |u| == |names| && forall i | 0 <= i < |u| :: u[i] == Sifted(names, e, i)
    ensures forall y :: y in Shown(u) <==> y in names && y !in e
    ensures forall i, j | 0 <= i < j < |Shown(u)| :: Shown(u)[i] != Shown(u)[j]
  {
    if u != [] {
      var n := |u| - 1;
      forall i | 0 <= i < n ensures u[..n][i] == Sifted(names[..n], e, i) { SiftedFront(names, e, n, i); }
      ShownNames(names[..n], e, u[..n]);
      ShownMore(names, e, n, Shown(u[..n]), match u[n] case Null => [] case Name(y) => [y]);
    }
  }

  /** resolve (lines 429-477): unless memory runs out it succeeds exactly if every module
      that is reached can be read, and then a name is written once if one of them leaves
      it unresolved and none exports it, and otherwise not at all. */
  method Resolve(files: Files, args: seq<string>, memory: bool) returns (rv: int, out: seq<string>)
    ensures rv in {0, 2, 3} && (memory ==> rv != 2)
    ensures rv != 2 ==> (rv == 0 <==> AllReadable(files, args))
    ensures rv == 0 ==> forall i, j | 0 <= i < j < |out| :: out[i] != out[j]
    ensures rv == 0 ==> forall y :: y in out <==> Unresolves(files, args, y) && !Exports(files, args, y)
  {
    out := [];
    var r;
    rv, r := ProcessAll(files, args, memory);
    if rv == 0 {
      var names := Sort(r.u);
      var e := Sort(r.e);
      SameMembers(names, r.u);
      SameMembers(e, r.e);
      var u := new Entry[|names|](i requires 0 <= i < |names| => Name(names[i]));
      Sift(u, e, names);
      ShownNames(names, e, u[..]);
      out := Shown(u[..]);
    }
  }

  lemma SameMembers(s: seq<string>, t: seq<string>)
    requires multiset(s) == multiset(t)
    ensures forall y :: y in s <==> y in t
  {
    forall y ensures y in s <==> y in t {
      assert y in s <==> y in multiset(s);
      assert y in t <==> y in multiset(t);
    }
  }
}
