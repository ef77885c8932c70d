/** The dynamic module loader (src/libc/dxe/dlopen.c): a chain of reference-counted
    modules that load and unload their dependencies. */
module DxeLoader {
  import opened Bits
  import opened DxeImage
  import opened DxeChain
  import opened DxeOpening
  import opened DxeLookup
  import opened Memory

  /** Lines 486-495, one symbol table: its first entry with the name. */
  method SearchTable(table: seq<(string, Word)>, name: string) returns (sym: Word)
    ensures sym == InTable(table, name)
  {
    var j := 0;
    while j < |table| && table[j].0 != name
      invariant 0 <= j <= |table| && InTable(table, name) == InTable(table[j..], name)
    {
      j := j + 1;
    }
    sym := if j < |table| then table[j].1 else 0;
  }

  /** Lines 499-504 and 513-515: the first export of a module with the name. */
  method SearchExports(es: seq<Export>, name: string) returns (found: Option<Word>)
    ensures found == ExportOffset(es, name)
  {
    var i := 0;
    while i < |es| && es[i].name != name
      invariant 0 <= i <= |es| && ExportOffset(es, name) == ExportOffset(es[i..], name)
    {
      i := i + 1;
    }
    found := if i < |es| then Some(es[i].offset) else None;
  }

  /** dlsym for RTLD_DEFAULT (lines 481-511). */
  method Dlsym(env: Env, chain: seq<Module>, name: string) returns (sym: Word)
    ensures sym == Address(env, chain, name) && LookedUp(env, chain, name, sym)
  {
    AddressMeans(env, chain, name);
    sym := 0;
    var i := 0;
    while i < |env.symtabs| && sym == 0
      invariant 0 <= i <= |env.symtabs|
      invariant InTables(env.symtabs, name) == if sym != 0 then sym else InTables(env.symtabs[i..], name)
    {
      sym := SearchTable(env.symtabs[i], name);
      i := i + 1;
    }
    var cur, done := 0, false;
    while cur < |chain| && !done
      invariant 0 <= cur <= |chain|
      invariant if done then InChain(chain, name) == Some(sym)
                else InChain(chain, name) == InChain(chain[cur..], name) && sym == InTables(env.symtabs, name)
    {
      if chain[cur].global {
        var found := SearchExports(chain[cur].exports, name);
        if found.Some? { sym, done := U32(chain[cur].base + found.value), true; }
      }
      cur := cur + 1;
    }
    if sym == 0 { sym := env.resolver(name); }
  }

  // ---------------------------------------------------------- the order of finalisers

  /** No module of the list is finalised after one of its dependencies, and none twice. */
  ghost predicate Ordered(deps: map<Handle, seq<Handle>>, f: seq<Handle>) {
    && (forall i, j | 0 <= i < j < |f| :: f[i] != f[j])
    && (forall i, j | 0 <= i < j < |f| && f[j] in deps :: f[i] !in deps[f[j]])
  }

  ghost predicate Records(deps: map<Handle, seq<Handle>>, c: seq<Module>) {
    forall i | 0 <= i < |c| :: c[i].h in deps && deps[c[i].h] == c[i].deps
  }

  /** Going from c to d finalises exactly the modules that left, dependents first. */
  ghost predicate Unwound(deps: map<Handle, seq<Handle>>, c: seq<Module>, d: seq<Module>, f: seq<Handle>) {
    && Ordered(deps, f)
    && (forall h | h in f :: h in Handles(c) && h !in Handles(d))
    && (forall h | h in Handles(c) :: h in f || h in Handles(d))
    && Handles(d) <= Handles(c)
  }

  lemma UnwoundNothing(deps: map<Handle, seq<Handle>>, c: seq<Module>, d: seq<Module>)
    requires Handles(c) == Handles(d)
    ensures Unwound(deps, c, d, [])
  {
  }

  lemma UnwoundTwice(deps: map<Handle, seq<Handle>>, c: seq<Module>, d: seq<Module>, e: seq<Module>, f: seq<Handle>,
                     g: seq<Handle>)
    requires Unwound(deps, c, d, f) && Unwound(deps, d, e, g)
    requires Layered(d) && Records(deps, d)
    ensures Unwound(deps, c, e, f + g)
  {
    var fg := f + g;
    forall i, j | 0 <= i < j < |fg|
      ensures fg[i] != fg[j] && (fg[j] in deps ==> fg[i] !in deps[fg[j]])
    {
      if i < |f| <= j {
        assert fg[i] == f[i] && fg[j] == g[j - |f|];
        assert f[i] in f && g[j - |f|] in g;
        if fg[j] in deps && fg[i] in deps[fg[j]] {
          var k := HandleIndex(d, fg[j]);
          DepsLoaded(d, k, fg[i]);
        }
      }
    }
  }

  lemma UnwoundOne(deps: map<Handle, seq<Handle>>, c: seq<Module>, k: nat)
    requires k < |c| && Layered(c) && Unnamed(c, c[k].h)
    ensures Unwound(deps, c, Without(c, k), [c[k].h])
  {
    LayeredWithout(c, k);
  }

  /** New modules have come in front; the rest is as it was but for the counters. */
  ghost predicate Extends(c: seq<Module>, d: seq<Module>) {
    |d| >= |c| && BareAll(d)[|d| - |c|..] == BareAll(c)
  }

  lemma ExtendsTwice(c: seq<Module>, d: seq<Module>, e: seq<Module>)
    requires Extends(c, d) && Extends(d, e)
    ensures Extends(c, e)
  {
    assert BareAll(e)[|e| - |c|..] == BareAll(e)[|e| - |d|..][|d| - |c|..];
  }

  lemma ExtendsFront(c: seq<Module>, d: seq<Module>, e: seq<Module>)
    requires Extends(c, d) && e != [] && e[1..] == d
    ensures Extends(c, e)
  {
    assert BareAll(e)[|e| - |c|..] == BareAll(d)[|d| - |c|..];
  }

  lemma NewInFront(c: seq<Module>, d: seq<Module>, e: seq<Module>, realfn: string, loading: seq<string>)
    requires Extends(c, d) && e != [] && e[1..] == d && e[0].fname == realfn && realfn !in loading
    requires forall i | 0 <= i < |d| :: d[i].fname !in loading
    ensures Extends(c, e) && forall i | 0 <= i < |e| :: e[i].fname !in loading
  {
    ExtendsFront(c, d, e);
    forall i | 0 <= i < |e| ensures e[i].fname !in loading {
      if i > 0 { assert e[i] == d[i - 1]; }
    }
  }

  lemma ExtendsApart(c: seq<Module>, d: seq<Module>, loading: seq<string>)
    requires Extends(c, d) && forall i | 0 <= i < |d| :: d[i].fname !in loading
    ensures forall i | 0 <= i < |c| :: c[i].fname !in loading
  {
    var n := |d| - |c|;
    forall i | 0 <= i < |c| ensures c[i].fname !in loading {
      assert BareAll(d)[n..][i] == BareAll(c)[i];
    }
  }

  lemma PrefixTwice(f: seq<Handle>, g: seq<Handle>, h: seq<Handle>)
    requires |f| <= |g| <= |h| && g[..|f|] == f && h[..|g|] == g
    ensures h[..|f|] == f
  {
    assert h[..|g|][..|f|] == h[..|f|];
  }

  lemma ExtendsHandles(c: seq<Module>, d: seq<Module>, i: nat)
    requires Extends(c, d) && Layered(d) && i < |d| - |c|
    ensures d[i].h !in Handles(c)
  {
    if d[i].h in Handles(c) {
      var j := HandleIndex(c, d[i].h);
      assert BareAll(d)[|d| - |c|..][j] == BareAll(c)[j];
      Distinct(d, i, |d| - |c| + j);
    }
  }

  ghost predicate Named(c: seq<Module>, h: Handle, name: string) {
    exists i :: 0 <= i < |c| && c[i].h == h && c[i].fname == name
  }

  /** The handles are those of the modules that the first names stand for. */
  ghost predicate NamedAll(env: Env, c: seq<Module>, names: seq<string>, list: seq<Handle>) {
    && |list| <= |names|
    && forall i | 0 <= i < |list| :: names[i] in env.realpath && Named(c, list[i], env.realpath[names[i]])
  }

  /** A section fixed for the chain makes a properly linked head. */
  lemma LinkedNow(env: Env, realfn: string, img: Image, m: Module, c: seq<Module>)
    requires realfn in env.files && env.files[realfn] == Readable(img) && WellFormed(img)
    requires m.fname == realfn && m.base == env.place(m.h) && m.exports == img.exports
    requires NamedAll(env, c, img.deps, m.deps) && |m.deps| == |img.deps| && Missing(img.unres, AddressIn(env, c)) == []
    requires AllInside(LinkEdits(img, m.base, AddressIn(env, c)), img.size)
    requires m.section == ApplyAll(LinkEdits(img, m.base, AddressIn(env, c)), Padded(img))
    ensures Linked(env, realfn, m.global, [m] + c) && ([m] + c)[1..] == c
  {
    assert ([m] + c)[1..] == c;
  }

  /** The head of the chain is the named file's module: its dependencies are loaded,
      every symbol it needs has an address in the chain behind it, and its section has
      been fixed accordingly. */
  ghost predicate Linked(env: Env, realfn: string, global: bool, c: seq<Module>)
    requires c != []
  {
    && realfn in env.files && env.files[realfn].Readable?
    && c[0].fname == realfn && c[0].global == global && c[0].base == env.place(c[0].h)
    && var img, addr := env.files[realfn].img, AddressIn(env, c[1..]);
       && c[0].exports == img.exports
       && NamedAll(env, c[1..], img.deps, c[0].deps) && |c[0].deps| == |img.deps|
       && Missing(img.unres, addr) == []
       && WellFormed(img) && AllInside(LinkEdits(img, c[0].base, addr), img.size)
       && c[0].section == ApplyAll(LinkEdits(img, c[0].base, addr), Padded(img))
  }

  lemma ExtendsSame(c: seq<Module>)
    ensures Extends(c, c)
  {
  }

  lemma NamedAfter(env: Env, c: seq<Module>, d: seq<Module>, names: seq<string>, list: seq<Handle>)
    requires Extends(c, d) && NamedAll(env, c, names, list)
    ensures NamedAll(env, d, names, list)
  {
    forall i | 0 <= i < |list| ensures Named(d, list[i], env.realpath[names[i]]) {
      var k :| 0 <= k < |c| && c[k].h == list[i] && c[k].fname == env.realpath[names[i]];
      assert BareAll(d)[|d| - |c|..][k] == BareAll(c)[k];
      assert d[|d| - |c| + k].h == list[i];
    }
  }

  /** From (c, e), opening the first names has led to (d, f): a reference is held for
      each handle gathered. */
  ghost predicate Gathered(env: Env, c: seq<Module>, e: multiset<Handle>, d: seq<Module>, f: multiset<Handle>,
                           names: seq<string>, list: seq<Handle>) {
    f == e + multiset(list) && Extends(c, d) && NamedAll(env, d, names, list)
  }

  lemma GatherMore(env: Env, c: seq<Module>, e: multiset<Handle>, d: seq<Module>, f: multiset<Handle>,
                   d1: seq<Module>, f1: multiset<Handle>, names: seq<string>, list: seq<Handle>, h: Handle)
    requires Gathered(env, c, e, d, f, names, list) && |list| < |names|
    requires f1 == f + multiset{h} && Extends(d, d1)
    requires names[|list|] in env.realpath && Named(d1, h, env.realpath[names[|list|]])
    ensures Gathered(env, c, e, d1, f1, names, list + [h])
  {
    ExtendsTwice(c, d, d1);
    NamedAfter(env, d, d1, names, list);
    var more := list + [h];
    assert more[..|more| - 1] == list;
    forall i | 0 <= i < |more| ensures names[i] in env.realpath && Named(d1, more[i], env.realpath[names[i]]) {
      if i < |list| { assert more[i] == list[i]; }
    }
  }

  /** A name goes on the stack or off it without its module being in the chain. */
  lemma StackApart(c: seq<Module>, loading: seq<string>, realfn: string)
    ensures (forall i | 0 <= i < |c| :: c[i].fname !in [realfn] + loading) <==>
      !Loaded(c, realfn) && forall i | 0 <= i < |c| :: c[i].fname !in loading
  {
  }

  lemma SameNames(c: seq<Module>, d: seq<Module>, loading: seq<string>)
    requires BareAll(c) == BareAll(d)
    requires forall i | 0 <= i < |c| :: c[i].fname !in loading
    ensures forall i | 0 <= i < |d| :: d[i].fname !in loading
  {
    forall i | 0 <= i < |d| ensures d[i].fname !in loading {
      assert BareAll(c)[i] == BareAll(d)[i];
    }
  }

  lemma RollbackRestores(c: seq<Module>, held: multiset<Handle>, c1: seq<Module>, d: seq<Module>)
    requires Consistent(c, held) && Layered(c1) && Extends(c, c1)
    requires Consistent(d, held) && BareAll(d) == Live(BareAll(c1), held)
    ensures d == c
  {
    var n := |c1| - |c|;
    var front := BareAll(c1)[..n];
    assert BareAll(c1) == front + BareAll(c);
    forall i | 0 <= i < n ensures front[i].h !in held {
      ExtendsHandles(c, c1, i);
      assert front[i] == c1[i].Bare();
    }
    LiveFront(front, BareAll(c), held);
    ConsistentLive(c, held);
    BareDetermines(d, c, held);
  }

  lemma FreshHandle(deps: map<Handle, seq<Handle>>, c: seq<Module>, held: multiset<Handle>, h: Handle)
    requires Consistent(c, held) && Records(deps, c) && (forall x | x in deps :: x < h)
    ensures h !in Handles(c) && h !in held && h !in deps
  {
    if h in Handles(c) { var k := HandleIndex(c, h); }
  }

  lemma RecordsMore(deps: map<Handle, seq<Handle>>, c: seq<Module>, m: Module)
    requires Records(deps, c) && m.h !in deps
    ensures Records(deps[m.h := m.deps], [m] + c)
  {
    var d := [m] + c;
    forall i | 0 <= i < |d| ensures d[i].h in deps[m.h := m.deps] && deps[m.h := m.deps][d[i].h] == d[i].deps {
      if i > 0 { assert d[i] == c[i - 1]; }
    }
  }

  lemma NothingHeld(held: multiset<Handle>)
    requires Consistent([], held)
    ensures held == multiset{}
  {
    assert forall h :: h !in held;
  }

  /** Dropping references until `e` is what is held takes the chain from c to d: what
      `e` keeps alive stays, and what leaves is finalised, dependents first. */
  ghost predicate Released(deps: map<Handle, seq<Handle>>, c: seq<Module>, f: seq<Handle>,
                           d: seq<Module>, e: multiset<Handle>, g: seq<Handle>) {
    && BareAll(d) == Live(BareAll(c), e)
    && |g| >= |f| && g[..|f|] == f
    && Unwound(deps, c, d, g[|f|..])
  }

  lemma ReleasedNothing(deps: map<Handle, seq<Handle>>, c: seq<Module>, d: seq<Module>, e: multiset<Handle>,
                        f: seq<Handle>)
    requires Consistent(d, e) && BareAll(c) == BareAll(d)
    ensures Released(deps, c, f, d, e, f)
  {
    ConsistentLive(d, e);
    BareLayered(d, c);
    assert f[|f|..] == [];
    UnwoundNothing(deps, c, d);
  }

  function OneLess(c: seq<Module>, k: nat): seq<Module>
    requires k < |c|
  {
    c[k := c[k].(inuse := c[k].inuse - 1)]
  }

  function OneUp(c: seq<Module>, k: nat): seq<Module>
    requires k < |c|
  {
    c[k := c[k].(inuse := c[k].inuse + 1)]
  }

  lemma Incremented(deps: map<Handle, seq<Handle>>, c: seq<Module>, k: nat, held: multiset<Handle>)
    requires k < |c| && Consistent(c, held) && Records(deps, c)
    ensures var d := OneUp(c, k);
      Consistent(d, held + multiset{c[k].h}) && Records(deps, d) && BareAll(d) == BareAll(c)
  {
    AddReference(c, k, held);
    SetUse(c, k, c[k].inuse + 1);
  }

  lemma Decremented(deps: map<Handle, seq<Handle>>, c: seq<Module>, k: nat, rest: multiset<Handle>, f: seq<Handle>)
    requires k < |c| && Consistent(c, rest + multiset{c[k].h}) && Records(deps, c) && c[k].inuse > 1
    ensures var d := OneLess(c, k);
      Consistent(d, rest) && Records(deps, d) && TotalUse(d) < TotalUse(c) && Released(deps, c, f, d, rest, f)
  {
    UseAt(c, k, c[k].inuse - 1);
    DropReference(c, k, rest);
    SetUse(c, k, c[k].inuse - 1);
    ReleasedNothing(deps, c, OneLess(c, k), rest, f);
  }

  lemma Unlinked(deps: map<Handle, seq<Handle>>, c: seq<Module>, k: nat, rest: multiset<Handle>)
    requires k < |c| && Consistent(c, rest + multiset{c[k].h}) && Records(deps, c) && c[k].inuse == 1
    ensures Unnamed(c, c[k].h) && c[k].h !in rest
    ensures Consistent(Without(c, k), rest + multiset(c[k].deps))
    ensures Records(deps, Without(c, k)) && TotalUse(Without(c, k)) == TotalUse(c) - 1
  {
    RemoveModule(c, k, rest);
    UseWithout(c, k);
    RecordsWithout(deps, c, k);
  }

  lemma ReleasedTwice(deps: map<Handle, seq<Handle>>, c: seq<Module>, f: seq<Handle>,
                      c1: seq<Module>, e1: multiset<Handle>, f1: seq<Handle>,
                      c2: seq<Module>, e2: multiset<Handle>, f2: seq<Handle>)
    requires Released(deps, c, f, c1, e1, f1) && Released(deps, c1, f1, c2, e2, f2)
    requires e2 <= e1 && Layered(c1) && Records(deps, c1)
    ensures Released(deps, c, f, c2, e2, f2)
  {
    LiveLive(BareAll(c), e1, e2);
    UnwoundTwice(deps, c, c1, c2, f1[|f|..], f2[|f1|..]);
    assert f2[|f|..] == f1[|f|..] + f2[|f1|..];
  }

  lemma ReleasedRemoval(deps: map<Handle, seq<Handle>>, c: seq<Module>, k: nat, f: seq<Handle>,
                        d: seq<Module>, e: multiset<Handle>, g: seq<Handle>)
    requires k < |c| && Layered(c) && Records(deps, c) && Unnamed(c, c[k].h) && c[k].h !in e
    requires Released(deps, Without(c, k), f + [c[k].h], d, e, g)
    ensures Released(deps, c, f, d, e, g)
  {
    var w := Without(c, k);
    LiveAfterRemoval(c, k, e);
    LayeredWithout(c, k);
    RecordsWithout(deps, c, k);
    UnwoundOne(deps, c, k);
    UnwoundTwice(deps, c, w, d, [c[k].h], g[|f| + 1..]);
    Continue(f, c[k].h, g);
  }

  lemma Continue(f: seq<Handle>, h: Handle, g: seq<Handle>)
    requires |g| > |f| && g[..|f| + 1] == f + [h]
    ensures g[|f|..] == [h] + g[|f| + 1..] && g[..|f|] == f
  {
    assert g[|f|] == g[..|f| + 1][|f|] == h;
    assert g[..|f|] == g[..|f| + 1][..|f|];
  }

  lemma RecordsWithout(deps: map<Handle, seq<Handle>>, c: seq<Module>, k: nat)
    requires k < |c| && Records(deps, c)
    ensures Records(deps, Without(c, k))
  {
  }

  lemma UsesPositive(c: seq<Module>, held: multiset<Handle>)
    requires Consistent(c, held)
    ensures TotalUse(c) >= 0
  {
    UsePositive(c);
  }

  lemma LiveAfterRemoval(c: seq<Module>, k: nat, held: multiset<Handle>)
    requires k < |c| && c[k].h !in held && Unnamed(c, c[k].h)
    ensures Live(BareAll(Without(c, k)), held) == Live(BareAll(c), held)
  {
    var b := BareAll(c);
    assert BareAll(Without(c, k)) == Without(b, k);
    LiveWithout(b, k, held);
  }

  lemma TakeOne(held: multiset<Handle>, h: Handle) returns (rest: multiset<Handle>)
    requires h in held
    ensures held == rest + multiset{h}
  {
    rest := held - multiset{h};
  }

  lemma GiveBack(a: multiset<Handle>, b: multiset<Handle>, h: Handle)
    requires a + multiset{h} == b + multiset{h}
    ensures a == b
  {
    assert a == a + multiset{h} - multiset{h};
  }

  lemma BagEnds(rest: multiset<Handle>, list: seq<Handle>)
    ensures multiset(list[0..]) == multiset(list) && rest + multiset(list[|list|..]) == rest
  {
    assert list[0..] == list && list[|list|..] == [];
  }

  lemma SameRest(e: multiset<Handle>, b: multiset<Handle>, h: Handle, d: multiset<Handle>)
    requires d + multiset{h} == e + (multiset{h} + b)
    ensures d == e + b
  {
    assert d + multiset{h} == (e + b) + multiset{h};
    GiveBack(d, e + b, h);
  }

  lemma BagSuffix(list: seq<Handle>, i: nat)
    requires i < |list|
    ensures multiset(list[i..]) == multiset{list[i]} + multiset(list[i + 1..])
  {
    assert list[i..] == [list[i]] + list[i + 1..];
  }

  // ----------------------------------------------------- the chain without counters

  lemma {:induction false} BareExports(c: seq<Module>, name: string)
    ensures InChain(BareAll(c), name) == InChain(c, name)
  {
    if c != [] {
      assert BareAll(c)[0] == c[0].Bare() && BareAll(c)[1..] == BareAll(c[1..]);
      BareExports(c[1..], name);
    }
  }

  lemma {:induction false} SameMissing(us: seq<Unresolved>, f: string -> Word, g: string -> Word, base: Word)
    requires forall name :: f(name) == g(name)
    ensures Missing(us, f) == Missing(us, g) && UnresEdits(us, base, f) == UnresEdits(us, base, g)
  {
    if us != [] { SameMissing(us[..|us| - 1], f, g, base); }
  }

  /** Linking does not look at the counters. */
  lemma BareLink(env: Env, img: Image, base: Word, c: seq<Module>)
    requires WellFormed(img)
    ensures var f, g := AddressIn(env, c), AddressIn(env, BareAll(c));
      && Missing(img.unres, f) == Missing(img.unres, g) && LinkEdits(img, base, f) == LinkEdits(img, base, g)
      && AllInside(LinkEdits(img, base, f), img.size)
      && ApplyAll(LinkEdits(img, base, f), Padded(img)) == SectionAt(img, base, g)
  {
    var f, g := AddressIn(env, c), AddressIn(env, BareAll(c));
    forall name ensures f(name) == g(name) { BareExports(c, name); }
    SameMissing(img.unres, f, g, base);
    LinkInside(img, base, f);
  }

  lemma BareFront(m: Module, c: seq<Module>)
    ensures BareAll([m] + c) == [m.Bare()] + BareAll(c)
  {
    var d, e := BareAll([m] + c), [m.Bare()] + BareAll(c);
    forall i | 0 <= i < |d| ensures d[i] == e[i] {
      assert ([m] + c)[i] == if i == 0 then m else c[i - 1];
    }
  }

  lemma BareMade(env: Env, realfn: string, global: bool, img: Image, list: seq<Handle>, b: seq<Module>, m: Module)
    requires WellFormed(img) && m == Module(m.h, realfn, 1, global, list, img.exports, env.place(m.h), m.section)
    requires m.section == SectionAt(img, m.base, AddressIn(env, b))
    ensures m.Bare() == ModuleAt(env, realfn, global, img, list, b, m.h)
  {
  }

  lemma BareLoaded(c: seq<Module>, name: string)
    ensures Loaded(BareAll(c), name) <==> Loaded(c, name)
  {
    if Loaded(c, name) {
      var i :| 0 <= i < |c| && c[i].fname == name;
      assert BareAll(c)[i].fname == name;
    }
    if Loaded(BareAll(c), name) {
      var i :| 0 <= i < |c| && BareAll(c)[i].fname == name;
      assert c[i].fname == name;
    }
  }

  lemma {:induction false} BareHandle(c: seq<Module>, name: string, k: nat)
    requires k < |c| && c[k].fname == name && forall i | 0 <= i < k :: c[i].fname != name
    ensures HandleOf(BareAll(c), name) == Some(c[k].h)
  {
    assert BareAll(c)[0] == c[0].Bare() && BareAll(c)[1..] == BareAll(c[1..]);
    if k > 0 {
      assert c[1..][k - 1] == c[k] && forall i | 0 <= i < k - 1 :: c[1..][i] == c[i + 1];
      BareHandle(c[1..], name, k - 1);
    }
  }

  lemma FinishedNone(env: Env, b: seq<Module>, realfn: string, global: bool, img: Image, t: Batch)
    requires WellFormed(img) && (!t.ok || Missing(img.unres, AddressIn(env, t.b)) != [])
    ensures Finished(env, b, realfn, global, img, t) == Attempt(None, b, t.next)
  {
  }

  lemma FinishedSome(env: Env, b: seq<Module>, realfn: string, global: bool, img: Image, t: Batch)
    requires WellFormed(img) && t.ok && Missing(img.unres, AddressIn(env, t.b)) == []
    ensures Finished(env, b, realfn, global, img, t)
      == Attempt(Some(t.next), [ModuleAt(env, realfn, global, img, t.list, t.b, t.next)] + t.b, t.next + 1)
  {
  }

  lemma TryRealIs(env: Env, b: seq<Module>, next: Handle, loading: seq<string>, realfn: string, global: bool,
                  img: Image)
    requires ValidEnv(env) && realfn !in loading && !Loaded(b, realfn)
    requires realfn in env.files && env.files[realfn] == Readable(img)
    ensures TryReal(env, b, next, loading, realfn, global)
      == Finished(env, b, realfn, global, img, TryAll(env, b, next, [realfn] + loading, img.deps))
  {
    StackGrows(env, loading, realfn);
  }

  /** The batch goes on with the next name, or has failed for good. */
  lemma TryNext(env: Env, b0: seq<Module>, next0: Handle, stack: seq<string>, names: seq<string>, list: seq<Handle>,
                b: seq<Module>, next: Handle)
    requires ValidEnv(env) && |list| < |names|
    requires TryAll(env, b0, next0, stack, names[..|list|]) == Batch(true, list, b, next)
    ensures var a := Try(env, b, next, stack, names[|list|], true);
      match a.found
      case Some(h) => TryAll(env, b0, next0, stack, names[..|list| + 1]) == Batch(true, list + [h], a.b, a.next)
      case None => TryAll(env, b0, next0, stack, names) == Batch(false, list, b, a.next)
  {
    var more := names[..|list| + 1];
    assert more[..|more| - 1] == names[..|list|] && more[|more| - 1] == names[|list|];
    var a := Try(env, b, next, stack, names[|list|], true);
    if a.found.None? { FailsEarly(env, b0, next0, stack, names, |more|); }
  }

  /** A run of the loader has come out as the attempt says. */
  ghost predicate Tried(a: Attempt, r: Option<Handle>, c: seq<Module>, next: Handle) {
    r == a.found && BareAll(c) == a.b && next == a.next
  }

  ghost predicate Collected(t: Batch, ok: bool, list: seq<Handle>, c: seq<Module>, next: Handle) {
    t == Batch(ok, list, BareAll(c), next)
  }

  /** The dependencies opened so far, and the outcome when they are to be no more. */
  ghost predicate Progress(env: Env, b0: seq<Module>, next0: Handle, stack: seq<string>, names: seq<string>,
                           ok: bool, oom: bool, list: seq<Handle>, c: seq<Module>, next: Handle)
    requires ValidEnv(env)
  {
    && |list| <= |names|
    && (ok ==> Collected(TryAll(env, b0, next0, stack, names[..|list|]), true, list, c, next))
    && (!ok && !oom ==> Collected(TryAll(env, b0, next0, stack, names), false, list, c, next))
    && (oom ==> !ok)
  }

  lemma Proceed(env: Env, b0: seq<Module>, next0: Handle, stack: seq<string>, names: seq<string>, list: seq<Handle>,
                c: seq<Module>, next: Handle, r: Option<Handle>, oom: bool, d: seq<Module>, next': Handle)
    requires ValidEnv(env) && |list| < |names|
    requires Progress(env, b0, next0, stack, names, true, false, list, c, next)
    requires !oom ==> Tried(Try(env, BareAll(c), next, stack, names[|list|], true), r, d, next')
    requires r.None? ==> d == c
    requires oom ==> r.None?
    ensures Progress(env, b0, next0, stack, names, r.Some?, oom, if r.Some? then list + [r.value] else list, d, next')
  {
    TryNext(env, b0, next0, stack, names, list, BareAll(c), next);
  }

  // ------------------------------------------------------------- what dlopen promises

  /** Of a returned handle: one more reference is held, to a module with the asked name;
      a module that was there already stays as it was, a new one is in front, linked
      against the chain behind it. */
  ghost predicate Opened(env: Env, filename: string, global: bool, c: seq<Module>, e: multiset<Handle>,
                         d: seq<Module>, f: multiset<Handle>, h: Handle) {
    && f == e + multiset{h} && Extends(c, d)
    && filename in env.realpath
    && Named(d, h, env.realpath[filename])
    && (if Loaded(c, env.realpath[filename]) then BareAll(d) == BareAll(c)
        else d != [] && d[0].h == h && Linked(env, env.realpath[filename], global, d))
  }

  lemma OpenedAgain(env: Env, filename: string, global: bool, c: seq<Module>, e: multiset<Handle>, d: seq<Module>,
                    k: nat)
    requires filename in env.realpath && k < |c| && c[k].fname == env.realpath[filename] && BareAll(c) == BareAll(d)
    ensures Opened(env, filename, global, c, e, d, e + multiset{c[k].h}, c[k].h)
  {
    ExtendsSame(c);
    assert BareAll(d)[k] == BareAll(c)[k];
    assert d[k].h == c[k].h && d[k].fname == c[k].fname;
    assert Named(d, c[k].h, env.realpath[filename]);
    assert c[k].fname == env.realpath[filename];
  }

  // ------------------------------------------------------- the order of initialisers

  /** Every module has been initialised once, after all its dependencies. */
  ghost predicate InitOrder(deps: map<Handle, seq<Handle>>, started: seq<Handle>) {
    deps.Keys == Begun(started) && EachAfter(deps, started)
  }

  function Begun(started: seq<Handle>): set<Handle> {
    if started == [] then {} else Begun(started[..|started| - 1]) + {started[|started| - 1]}
  }

  ghost predicate EachAfter(deps: map<Handle, seq<Handle>>, started: seq<Handle>) {
    started != [] ==>
      var n := |started| - 1;
      && started[n] in deps && started[n] !in Begun(started[..n])
      && (forall d | d in deps[started[n]] :: d in Begun(started[..n]))
      && EachAfter(deps, started[..n])
  }

  lemma {:induction false} EachAfterMore(deps: map<Handle, seq<Handle>>, started: seq<Handle>, h: Handle,
                                         list: seq<Handle>)
    requires EachAfter(deps, started) && h !in Begun(started)
    ensures EachAfter(deps[h := list], started)
  {
    if started != [] { EachAfterMore(deps, started[..|started| - 1], h, list); }
  }

  lemma StartsAfter(deps: map<Handle, seq<Handle>>, started: seq<Handle>, c: seq<Module>, held: multiset<Handle>,
                    list: seq<Handle>, h: Handle)
    requires InitOrder(deps, started) && Records(deps, c) && Consistent(c, held + multiset(list)) && h !in deps
    ensures InitOrder(deps[h := list], started + [h])
  {
    var more := started + [h];
    assert more[..|more| - 1] == started && more[|more| - 1] == h;
    forall d | d in list ensures d in Begun(started) {
      assert d in held + multiset(list);
      var k := HandleIndex(c, d);
    }
    EachAfterMore(deps, started, h, list);
  }

  lemma {:induction false} BegunAt(started: seq<Handle>, h: Handle)
    ensures h in Begun(started) <==> h in started
  {
    if started != [] {
      var n := |started| - 1;
      BegunAt(started[..n], h);
      assert started == started[..n] + [started[n]];
    }
  }

  /** In terms of places in the log: a module's dependencies were initialised earlier. */
  lemma {:induction false} DependenciesFirst(deps: map<Handle, seq<Handle>>, started: seq<Handle>, i: nat)
    requires EachAfter(deps, started) && i < |started|
    ensures started[i] in deps && started[i] !in started[..i]
    ensures forall d | d in deps[started[i]] :: d in started[..i]
  {
    var n := |started| - 1;
    if i == n {
      BegunAt(started[..n], started[n]);
      forall d | d in deps[started[n]] ensures d in started[..n] { BegunAt(started[..n], d); }
    } else {
      DependenciesFirst(deps, started[..n], i);
      assert started[..n][..i] == started[..i];
    }
  }

  // ------------------------------------------------------------------------ the loader

  class Loader {
    /** dxe_chain, and the names on the stack of modules being loaded. */
    var chain: seq<Module>
    var loading: seq<string>
    /** _dl_unresolved_count. */
    var unresolved: nat
    /** The next address malloc hands out for a handle; none is handed out twice. */
    var nextHandle: Handle

    /** References outside the chain: handles dlopen has returned and dlclose has not
        taken back, and dependency lists under construction or being released. */
    ghost var held: multiset<Handle>
    /** The dependency list of every module there has been. */
    ghost var deps: map<Handle, seq<Handle>>
    /** The modules whose initialisers and whose finalisers have run, in order. */
    ghost var started: seq<Handle>
    ghost var finished: seq<Handle>

    ghost predicate Valid()
      reads this
    {
      && Consistent(chain, held) && Records(deps, chain) && InitOrder(deps, started)
      && (forall h | h in deps :: h < nextHandle)
    }

    /** The names on the stack are of modules not yet in the chain. */
    ghost predicate Apart()
      reads this
    {
      forall i | 0 <= i < |chain| :: chain[i].fname !in loading
    }

    /** The log of finalisers has only grown. */
    ghost predicate Logged(f: seq<Handle>)
      reads this
    {
      |finished| >= |f| && finished[..|f|] == f
    }

    constructor ()
      ensures Valid() && chain == [] && loading == [] && held == multiset{} && started == [] && finished == []
    {
      chain, loading, unresolved, nextHandle := [], [], 0, 0;
      held, deps, started, finished := multiset{}, map[], [], [];
    }

    /** The place of a handle in the chain. */
    method IndexOf(h: Handle) returns (k: nat)
      requires h in Handles(chain)
      ensures k < |chain| && chain[k].h == h
    {
      ghost var n := HandleIndex(chain, h);
      k := 0;
      while chain[k].h != h
        invariant k <= n
        decreases n - k
      {
        k := k + 1;
      }
    }

    /** Lines 193-198: the place of a loaded name, or the length of the chain. */
    method FindName(realfn: string) returns (k: nat)
      ensures k <= |chain| && (k < |chain| ==> chain[k].fname == realfn)
      ensures forall i | 0 <= i < k :: chain[i].fname != realfn
      ensures k == |chain| ==> !Loaded(chain, realfn)
    {
      k := 0;
      while k < |chain| && chain[k].fname != realfn
        invariant k <= |chain| && forall i | 0 <= i < k :: chain[i].fname != realfn
      {
        k := k + 1;
      }
    }

    /** Lines 439-440: references remain. */
    method Decrement(k: nat, ghost rest: multiset<Handle>)
      requires k < |chain| && Valid() && held == rest + multiset{chain[k].h} && chain[k].inuse > 1
      modifies this`chain, this`held
      ensures Valid() && held == rest
      ensures TotalUse(chain) < TotalUse(old(chain))
      ensures Released(deps, old(chain), finished, chain, held, finished)
    {
      Decremented(deps, chain, k, rest, finished);
      held := rest;
      chain := OneLess(chain, k);
    }

    /** Lines 442-455: finalise the module, whose count has come to 0, and take it off
        the chain; its dependency list is left to be released. */
    method Unlink(k: nat, ghost rest: multiset<Handle>) returns (mine: seq<Handle>)
      requires k < |chain| && Valid() && held == rest + multiset{chain[k].h} && chain[k].inuse == 1
      modifies this`chain, this`held, this`finished
      ensures Valid() && chain == Without(old(chain), k) && mine == old(chain)[k].deps
      ensures held == rest + multiset(mine)
      ensures old(chain)[k].h !in rest && Unnamed(old(chain), old(chain)[k].h)
      ensures finished == old(finished) + [old(chain)[k].h]
      ensures TotalUse(chain) == TotalUse(old(chain)) - 1
    {
      var c := chain;
      Unlinked(deps, c, k, rest);
      mine := c[k].deps;
      var d := Without(c, k);
      ghost var e := rest + multiset(mine);
      assert Consistent(d, e) && Records(deps, d);
      finished, held, chain := finished + [c[k].h], e, d;
    }

    /** dlclose: what is left is what the remaining references keep alive. */
    method Dlclose(h: Handle)
      requires Valid() && h in held
      modifies this`chain, this`held, this`finished
      ensures Valid() && old(held) == held + multiset{h}
      ensures TotalUse(chain) < TotalUse(old(chain))
      ensures Released(deps, old(chain), old(finished), chain, held, finished)
      decreases TotalUse(chain), 0
    {
      var k := IndexOf(h);
      UsesPositive(chain, held);
      ghost var rest := TakeOne(held, h);
      if chain[k].inuse - 1 != 0 {
        Decrement(k, rest);
        return;
      }
      var mine := Unlink(k, rest);
      UsesPositive(chain, held);
      CloseAll(mine, rest);
      ReleasedRemoval(deps, old(chain), k, old(finished), chain, rest, finished);
    }

    /** Having started with the chain c and the finalisers f, and released the first i
        entries of the list; the references e remain in any case. */
    ghost predicate Closing(c: seq<Module>, f: seq<Handle>, e: multiset<Handle>, list: seq<Handle>, i: nat)
      requires i <= |list|
      reads this
    {
      && Valid() && held == e + multiset(list[i..])
      && TotalUse(chain) <= TotalUse(c) && (i > 0 ==> TotalUse(chain) < TotalUse(c))
      && Released(deps, c, f, chain, held, finished)
    }

    method CloseNext(list: seq<Handle>, i: nat, ghost c: seq<Module>, ghost f: seq<Handle>, ghost e: multiset<Handle>)
      requires i < |list| && Closing(c, f, e, list, i)
      modifies this`chain, this`held, this`finished
      ensures Closing(c, f, e, list, i + 1)
      decreases TotalUse(chain), 1
    {
      ghost var c1, held1, f1 := chain, held, finished;
      BagSuffix(list, i);
      UsesPositive(chain, held);
      Dlclose(list[i]);
      SameRest(e, multiset(list[i + 1..]), list[i], held);
      ReleasedTwice(deps, c, f, c1, held1, f1, chain, held, finished);
    }

    /** The loop that releases a dependency list, in dlclose and in a failed dlopen. */
    method CloseAll(list: seq<Handle>, ghost rest: multiset<Handle>)
      requires Valid() && held == rest + multiset(list)
      modifies this`chain, this`held, this`finished
      ensures Valid() && held == rest
      ensures TotalUse(chain) <= TotalUse(old(chain))
      ensures Released(deps, old(chain), old(finished), chain, held, finished)
      decreases TotalUse(chain), 2
    {
      ghost var c, f := chain, finished;
      ReleasedNothing(deps, c, c, held, f);
      BagEnds(rest, list);
      var i := 0;
      while i < |list|
        invariant 0 <= i <= |list| && Closing(c, f, rest, list, i)
      {
        UsesPositive(chain, held);
        CloseNext(list, i, c, f, rest);
        i := i + 1;
      }
    }

    /** _closeall: every module is finalised once, dependents before what they depend on.
        Each turn closes the head of the chain, which only outside references hold. */
    method Closeall()
      requires Valid()
      modifies this`chain, this`held, this`finished
      ensures chain == [] && held == multiset{} && Valid() && Logged(old(finished))
      ensures Unwound(deps, old(chain), [], finished[|old(finished)|..])
    {
      UsesPositive(chain, held);
      ReleasedNothing(deps, chain, chain, held, finished);
      while chain != []
        invariant Valid() && held <= old(held)
        invariant Released(deps, old(chain), old(finished), chain, held, finished)
        decreases TotalUse(chain)
      {
        ghost var c1, held1, f1 := chain, held, finished;
        CountOutside(chain, chain[0].h);
        Dlclose(chain[0].h);
        UsesPositive(chain, held);
        ReleasedTwice(deps, old(chain), old(finished), c1, held1, f1, chain, held, finished);
      }
      NothingHeld(held);
    }

    method Increment(k: nat)
      requires k < |chain| && Valid()
      modifies this`chain, this`held
      ensures Valid() && held == old(held) + multiset{old(chain)[k].h}
      ensures BareAll(chain) == BareAll(old(chain))
    {
      Incremented(deps, chain, k, held);
      held := held + multiset{chain[k].h};
      chain := OneUp(chain, k);
    }

    /** Lines 194-198: a module loaded before. */
    method Reopen(env: Env, filename: string, global: bool, k: nat) returns (h: Handle)
      requires Valid() && Apart() && filename in env.realpath
      requires k < |chain| && chain[k].fname == env.realpath[filename]
      modifies this`chain, this`held
      ensures Valid() && Apart() && Opened(env, filename, global, old(chain), old(held), chain, held, h)
      ensures BareAll(chain) == BareAll(old(chain)) && h == old(chain)[k].h
    {
      h := chain[k].h;
      ghost var c, e := chain, held;
      Increment(k);
      OpenedAgain(env, filename, global, c, e, chain, k);
      SameNames(c, chain, loading);
    }

    /** Lines 351-364: the module is initialised and goes in front of the chain; the references its
        dependency list has gathered become counted references. */
    method Install(env: Env, realfn: string, global: bool, exports: seq<Export>, list: seq<Handle>, section: seq<Byte>,
                   ghost held0: multiset<Handle>)
      returns (h: Handle)
      requires Valid() && held == held0 + multiset(list) && !Loaded(chain, realfn)
      modifies this`chain, this`held, this`deps, this`started, this`nextHandle
      ensures Valid() && held == held0 + multiset{h} && h !in old(deps)
      ensures chain == [Module(h, realfn, 1, global, list, exports, env.place(h), section)] + old(chain)
      ensures h == old(nextHandle) && nextHandle == h + 1 && started == old(started) + [h]
    {
      h := nextHandle;
      nextHandle := nextHandle + 1;
      var m := Module(h, realfn, 1, global, list, exports, env.place(h), section);
      FreshHandle(deps, chain, held, h);
      AddModule(chain, m, held0);
      RecordsMore(deps, chain, m);
      StartsAfter(deps, started, chain, held0, list, h);
      chain := [m] + chain;
      deps, started := deps[h := list], started + [h];
      held := held0 + multiset{h};
    }

    /** Lines 300-333: look up what the module needs and fix its section. */
    method Resolve(env: Env, img: Image) returns (section: seq<Byte>, missing: seq<string>)
      requires WellFormed(img)
      modifies this`unresolved
      ensures var base, addr := env.place(nextHandle), AddressIn(env, chain);
        && missing == Missing(img.unres, addr) && unresolved == |missing|
        && AllInside(LinkEdits(img, base, addr), img.size)
        && (missing == [] ==> section == ApplyAll(LinkEdits(img, base, addr), Padded(img)))
    {
      section, missing := LinkSection(img, env.place(nextHandle), AddressIn(env, chain));
      unresolved := |missing|;
    }

    /** Lines 300-364: with all symbols resolved the module is completed and goes in
        front of the chain. */
    method Complete(env: Env, realfn: string, global: bool, img: Image, list: seq<Handle>,
                    ghost held0: multiset<Handle>)
      returns (r: Option<Handle>, ghost oom: bool)
      requires realfn in env.files && env.files[realfn] == Readable(img) && WellFormed(img)
      requires Valid() && held == held0 + multiset(list)
      requires !Loaded(chain, realfn) && NamedAll(env, chain, img.deps, list) && |list| == |img.deps|
      modifies this`unresolved, this`chain, this`nextHandle, this`held, this`deps, this`started
      ensures Valid()
      ensures r.None? ==> chain == old(chain) && held == old(held) && nextHandle == old(nextHandle)
      ensures r.Some? ==> held == held0 + multiset{r.value} && chain != [] && chain[1..] == old(chain)
      ensures r.Some? ==> chain[0].h == r.value && Linked(env, realfn, global, chain)
      ensures oom ==> r.None? && !env.memory
      ensures !oom ==> (r.None? <==> Missing(img.unres, AddressIn(env, old(BareAll(chain)))) != [])
      ensures r.Some? ==> r.value == old(nextHandle) && nextHandle == r.value + 1
      ensures r.Some? ==>
        BareAll(chain) == old([ModuleAt(env, realfn, global, img, list, BareAll(chain), nextHandle)] + BareAll(chain))
    {
      var base := env.place(nextHandle);
      var section, missing := Resolve(env, img);
      BareLink(env, img, base, chain);
      var noMemory := RunsOut(env.memory);
      oom := missing == [] && noMemory;
      if missing != [] || noMemory {
        r := None;
      } else {
        ghost var m := Module(nextHandle, realfn, 1, global, list, img.exports, base, section);
        LinkedNow(env, realfn, img, m, chain);
        BareMade(env, realfn, global, img, list, BareAll(chain), m);
        BareFront(m, chain);
        var h := Install(env, realfn, global, img.exports, list, section, held0);
        r := Some(h);
      }
    }

    /** Lines 280-285: no memory for the list node, the reference is given back. */
    method GiveUp(h: Handle, ghost c: seq<Module>, ghost e: multiset<Handle>)
      requires Valid() && held == e + multiset{h} && Consistent(c, e) && Extends(c, chain)
      modifies this`chain, this`held, this`finished
      ensures Valid() && chain == c && held == e && Logged(old(finished)) && loading == old(loading)
    {
      ghost var c1 := chain;
      Dlclose(h);
      GiveBack(e, held, h);
      RollbackRestores(c, e, c1, chain);
    }

    /** Lines 416-431: releasing what was gathered puts everything back. */
    method Rollback(list: seq<Handle>, ghost c0: seq<Module>, ghost held0: multiset<Handle>)
      requires Valid() && held == held0 + multiset(list) && Consistent(c0, held0) && Extends(c0, chain)
      modifies this`chain, this`held, this`finished
      ensures Valid() && chain == c0 && held == held0 && Logged(old(finished)) && loading == old(loading)
    {
      ghost var c1 := chain;
      CloseAll(list, held0);
      RollbackRestores(c0, held0, c1, chain);
    }

    /** Lines 259-275: one dependency, with the name of its dependent on the stack. */
    method OpenDep(env: Env, realfn: string, name: string) returns (r: Option<Handle>, ghost oom: bool)
      requires ValidEnv(env) && Valid() && Apart()
      requires realfn in env.files && realfn !in loading && !Loaded(chain, realfn)
      modifies this
      ensures Valid() && Apart() && loading == old(loading) && Logged(old(finished)) && !Loaded(chain, realfn)
      ensures r.None? ==> chain == old(chain) && held == old(held)
      ensures r.Some? ==> held == old(held) + multiset{r.value} && Extends(old(chain), chain)
      ensures r.Some? ==> name in env.realpath && Named(chain, r.value, env.realpath[name])
      ensures oom ==> r.None? && !env.memory
      ensures !oom ==>
        Tried(old(Try(env, BareAll(chain), nextHandle, [realfn] + loading, name, true)), r, chain, nextHandle)
      decreases Below(env, loading), 0
    {
      var below := loading;
      loading := [realfn] + loading;
      StackGrows(env, below, realfn);
      StackApart(chain, below, realfn);
      r, oom := Dlopen(env, name, true);
      StackApart(chain, below, realfn);
      loading := below;
    }

    /** Lines 259-296: one dependency with its list node. */
    method LoadDep(env: Env, realfn: string, name: string) returns (r: Option<Handle>, ghost oom: bool)
      requires ValidEnv(env) && Valid() && Apart()
      requires realfn in env.files && realfn !in loading && !Loaded(chain, realfn)
      modifies this
      ensures Valid() && Apart() && loading == old(loading) && Logged(old(finished)) && !Loaded(chain, realfn)
      ensures r.None? ==> chain == old(chain) && held == old(held)
      ensures r.Some? ==> held == old(held) + multiset{r.value} && Extends(old(chain), chain)
      ensures r.Some? ==> name in env.realpath && Named(chain, r.value, env.realpath[name])
      ensures oom ==> r.None? && !env.memory
      ensures !oom ==>
        Tried(old(Try(env, BareAll(chain), nextHandle, [realfn] + loading, name, true)), r, chain, nextHandle)
      decreases Below(env, loading), 1
    {
      r, oom := OpenDep(env, realfn, name);
      if r.Some? {
        var noMemory := RunsOut(env.memory);
        if noMemory {
          GiveUp(r.value, old(chain), old(held));
          r, oom := None, true;
        }
      }
    }

    /** One turn of the loop below. */
    method LoadNext(env: Env, realfn: string, names: seq<string>, list0: seq<Handle>,
                    ghost c0: seq<Module>, ghost e0: multiset<Handle>, ghost f0: seq<Handle>,
                    ghost b0: seq<Module>, ghost next0: Handle, ghost stack: seq<string>)
      returns (ok: bool, list: seq<Handle>, ghost oom: bool)
      requires ValidEnv(env) && Valid() && Apart()
      requires realfn in env.files && realfn !in loading && !Loaded(chain, realfn)
      requires Logged(f0) && stack == [realfn] + loading
      requires |list0| < |names| && Gathered(env, c0, e0, chain, held, names, list0)
      requires Progress(env, b0, next0, stack, names, true, false, list0, chain, nextHandle)
      modifies this
      ensures Valid() && Apart() && loading == old(loading) && Logged(f0) && !Loaded(chain, realfn)
      ensures Gathered(env, c0, e0, chain, held, names, list)
      ensures Progress(env, b0, next0, stack, names, ok, oom, list, chain, nextHandle) && (oom ==> !env.memory)
      ensures ok ==> |list| == |list0| + 1
      decreases Below(env, loading), 2
    {
      ghost var c, e, next := chain, held, nextHandle;
      var dep;
      dep, oom := LoadDep(env, realfn, names[|list0|]);
      PrefixTwice(f0, old(finished), finished);
      Proceed(env, b0, next0, stack, names, list0, c, next, dep, oom, chain, nextHandle);
      ok, list := dep.Some?, list0;
      if ok {
        GatherMore(env, c0, e0, c, e, chain, held, names, list, dep.value);
        list := list + [dep.value];
      }
    }

    /** Lines 255-297: open the dependencies in order, collecting their handles, until
        one of them fails. */
    method LoadDeps(env: Env, realfn: string, names: seq<string>)
      returns (ok: bool, list: seq<Handle>, ghost oom: bool)
      requires ValidEnv(env) && Valid() && Apart()
      requires realfn in env.files && realfn !in loading && !Loaded(chain, realfn)
      modifies this
      ensures Valid() && Apart() && loading == old(loading) && Logged(old(finished)) && !Loaded(chain, realfn)
      ensures Gathered(env, old(chain), old(held), chain, held, names, list)
      ensures ok ==> |list| == |names|
      ensures oom ==> !ok && !env.memory
      ensures !oom ==>
        Collected(old(TryAll(env, BareAll(chain), nextHandle, [realfn] + loading, names)), ok, list, chain, nextHandle)
      decreases Below(env, loading), 3
    {
      list, ok, oom := [], true, false;
      ExtendsSame(chain);
      ghost var c0, e0, f0 := chain, held, finished;
      ghost var b0, next0, stack := BareAll(chain), nextHandle, [realfn] + loading;
      while |list| < |names| && ok
        invariant Valid() && Apart() && loading == old(loading) && !Loaded(chain, realfn)
        invariant Logged(f0) && Gathered(env, c0, e0, chain, held, names, list)
        invariant Progress(env, b0, next0, stack, names, ok, oom, list, chain, nextHandle) && (oom ==> !env.memory)
        decreases ok, |names| - |list|
      {
        ok, list, oom := LoadNext(env, realfn, names, list, c0, e0, f0, b0, next0, stack);
      }
      assert names[..|names|] == names;
    }

    /** Rollback as part of a failed load. */
    method Undo(list: seq<Handle>, ghost c0: seq<Module>, ghost e0: multiset<Handle>, ghost f0: seq<Handle>)
      requires Valid() && Apart() && Logged(f0)
      requires held == e0 + multiset(list) && Consistent(c0, e0) && Extends(c0, chain)
      modifies this`chain, this`held, this`finished
      ensures Valid() && Apart() && Logged(f0) && chain == c0 && held == e0
    {
      ghost var f := finished;
      ExtendsApart(c0, chain, loading);
      Rollback(list, c0, e0);
      PrefixTwice(f0, f, finished);
    }

    /** The module completed, in front of all that has been loaded for it. */
    method Join(env: Env, realfn: string, global: bool, img: Image, list: seq<Handle>, ghost c0: seq<Module>,
                ghost e0: multiset<Handle>, ghost a: Attempt)
      returns (r: Option<Handle>, ghost oom: bool)
      requires ValidEnv(env) && Valid() && Apart() && realfn !in loading && !Loaded(chain, realfn)
      requires realfn in env.files && env.files[realfn] == Readable(img)
      requires Gathered(env, c0, e0, chain, held, img.deps, list) && |list| == |img.deps|
      requires WellFormed(img)
      requires a == Finished(env, BareAll(c0), realfn, global, img, Batch(true, list, BareAll(chain), nextHandle))
      modifies this`unresolved, this`chain, this`nextHandle, this`held, this`deps, this`started
      ensures Valid() && Apart()
      ensures r.None? ==> chain == old(chain) && held == old(held) && nextHandle == old(nextHandle)
      ensures r.Some? ==> held == e0 + multiset{r.value} && Extends(c0, chain)
      ensures r.Some? ==> chain != [] && chain[0].h == r.value && Linked(env, realfn, global, chain)
      ensures oom ==> r.None? && !env.memory
      ensures r.Some? ==> Tried(a, r, chain, nextHandle)
      ensures !oom && r.None? ==> a == Attempt(None, BareAll(c0), nextHandle)
    {
      ghost var c, t := chain, Batch(true, list, BareAll(chain), nextHandle);
      r, oom := Complete(env, realfn, global, img, list, e0);
      if r.Some? {
        NewInFront(c0, c, chain, realfn, loading);
        FinishedSome(env, BareAll(c0), realfn, global, img, t);
      } else if !oom {
        FinishedNone(env, BareAll(c0), realfn, global, img, t);
      }
    }

    /** Lines 299-431, after the dependencies: the module is completed, or everything is
        put back. */
    method Settle(env: Env, realfn: string, global: bool, img: Image, ok: bool, list: seq<Handle>, ghost full: bool,
                  ghost c0: seq<Module>, ghost e0: multiset<Handle>, ghost f0: seq<Handle>, ghost t: Batch,
                  ghost a: Attempt)
      returns (r: Option<Handle>, ghost oom: bool)
      requires ValidEnv(env) && Valid() && Apart() && Logged(f0) && Consistent(c0, e0)
      requires full ==> !ok && !env.memory
      requires realfn in env.files && env.files[realfn] == Readable(img) && realfn !in loading && !Loaded(chain, realfn)
      requires Gathered(env, c0, e0, chain, held, img.deps, list) && (ok ==> |list| == |img.deps|)
      requires WellFormed(img) && t == Batch(ok, list, BareAll(chain), nextHandle)
      requires a == Finished(env, BareAll(c0), realfn, global, img, t)
      modifies this`unresolved, this`chain, this`nextHandle, this`held, this`deps, this`started, this`finished
      ensures Valid() && Apart() && Logged(f0)
      ensures r.None? ==> chain == c0 && held == e0
      ensures r.Some? ==> held == e0 + multiset{r.value} && Extends(c0, chain)
      ensures r.Some? ==> chain != [] && chain[0].h == r.value && Linked(env, realfn, global, chain)
      ensures oom ==> r.None? && !env.memory
      ensures full ==> oom
      ensures !oom ==> Tried(a, r, chain, nextHandle)
    {
      r, oom := None, full;
      if ok {
        r, oom := Join(env, realfn, global, img, list, c0, e0, a);
      } else {
        FinishedNone(env, BareAll(c0), realfn, global, img, t);
      }
      if r.None? { Undo(list, c0, e0, f0); }
    }

    /** A module that is not loaded yet. */
    method LoadNew(env: Env, realfn: string, global: bool, img: Image) returns (r: Option<Handle>, ghost oom: bool)
      requires ValidEnv(env) && Valid() && Apart()
      requires realfn in env.files && env.files[realfn] == Readable(img)
      requires realfn !in loading && !Loaded(chain, realfn)
      modifies this
      ensures Valid() && Apart() && loading == old(loading) && Logged(old(finished))
      ensures r.None? ==> chain == old(chain) && held == old(held)
      ensures r.Some? ==> held == old(held) + multiset{r.value} && Extends(old(chain), chain)
      ensures r.Some? ==> chain != [] && chain[0].h == r.value && Linked(env, realfn, global, chain)
      ensures oom ==> r.None? && !env.memory
      ensures !oom ==>
        Tried(old(TryReal(env, BareAll(chain), nextHandle, loading, realfn, global)), r, chain, nextHandle)
      decreases Below(env, loading), 4
    {
      ghost var c0, e0 := chain, held;
      BareLoaded(c0, realfn);
      TryRealIs(env, BareAll(c0), nextHandle, loading, realfn, global, img);
      var ok, list;
      ok, list, oom := LoadDeps(env, realfn, img.deps);
      ghost var t := Batch(ok, list, BareAll(chain), nextHandle);
      ghost var a := Finished(env, BareAll(c0), realfn, global, img, t);
      r, oom := Settle(env, realfn, global, img, ok, list, oom, c0, e0, old(finished), t, a);
    }

    /** Lines 214-431: a file that can be read, if there is memory for its header. */
    method LoadFile(env: Env, filename: string, global: bool) returns (r: Option<Handle>, ghost oom: bool)
      requires ValidEnv(env) && Valid() && Apart()
      requires filename in env.realpath && env.realpath[filename] !in loading
      requires env.realpath[filename] in env.files && env.files[env.realpath[filename]].Readable?
      requires !Loaded(chain, env.realpath[filename])
      modifies this
      ensures Valid() && Apart() && loading == old(loading) && Logged(old(finished))
      ensures r.None? ==> chain == old(chain) && held == old(held)
      ensures r.Some? ==> Opened(env, filename, global, old(chain), old(held), chain, held, r.value)
      ensures oom ==> r.None? && !env.memory
      ensures !oom ==>
        Tried(old(TryReal(env, BareAll(chain), nextHandle, loading, env.realpath[filename], global)),
              r, chain, nextHandle)
      decreases Below(env, loading), 5
    {
      var realfn := env.realpath[filename];
      var noMemory := RunsOut(env.memory);
      r, oom := None, noMemory;
      if !noMemory {
        r, oom := LoadNew(env, realfn, global, env.files[realfn].img);
        assert r.Some? ==> Named(chain, r.value, realfn);
      }
    }

    /** Lines 192-431, for a real name that is not being loaded. */
    method OpenReal(env: Env, filename: string, global: bool) returns (r: Option<Handle>, ghost oom: bool)
      requires ValidEnv(env) && Valid() && Apart()
      requires filename in env.realpath && env.realpath[filename] !in loading
      modifies this
      ensures Valid() && Apart() && loading == old(loading) && Logged(old(finished))
      ensures r.None? ==> chain == old(chain) && held == old(held) && !Loaded(old(chain), env.realpath[filename])
      ensures r.Some? ==> Opened(env, filename, global, old(chain), old(held), chain, held, r.value)
      ensures oom ==> r.None? && !env.memory
      ensures !oom ==>
        Tried(old(TryReal(env, BareAll(chain), nextHandle, loading, env.realpath[filename], global)),
              r, chain, nextHandle)
      decreases Below(env, loading), 6
    {
      var realfn := env.realpath[filename];
      var k := FindName(realfn);
      r, oom := None, false;
      BareLoaded(chain, realfn);
      if k < |chain| {
        BareHandle(chain, realfn, k);
        var h := Reopen(env, filename, global, k);
        r := Some(h);
      } else if realfn in env.files && env.files[realfn].Readable? {
        r, oom := LoadFile(env, filename, global);
      }
    }

    /** dlopen. A failure, whatever its reason, leaves the chain, all counters and the
        held references as they were; unless memory has run out, the outcome is the one
        that Try defines. */
    method Dlopen(env: Env, filename: string, global: bool) returns (r: Option<Handle>, ghost oom: bool)
      requires ValidEnv(env) && Valid() && Apart()
      modifies this
      ensures Valid() && Apart() && loading == old(loading) && Logged(old(finished))
      ensures r.None? ==> chain == old(chain) && held == old(held)
      ensures r.Some? ==> Opened(env, filename, global, old(chain), old(held), chain, held, r.value)
      ensures filename !in env.realpath || env.realpath[filename] in loading ==> r.None?
      ensures filename in env.realpath && Loaded(old(chain), env.realpath[filename]) ==> r.Some?
      ensures oom ==> r.None? && !env.memory
      ensures !oom ==> Tried(old(Try(env, BareAll(chain), nextHandle, loading, filename, global)), r, chain, nextHandle)
      decreases Below(env, loading), 7
    {
      unresolved := 0;
      r, oom := None, false;
      if filename != "" && filename in env.realpath && env.realpath[filename] !in loading {
        r, oom := OpenReal(env, filename, global);
      }
    }
  }
}
