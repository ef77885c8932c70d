/** Which address a symbol gets (dlsym for RTLD_DEFAULT, src/libc/dxe/dlopen.c, lines
    481-511), in terms of places in the chain and in the tables; and that what a
    dependency exports is found. */
module DxeLookup {
  import opened Bits
  import opened DxeImage
  import opened DxeChain
  import opened DxeOpening

  /** Entry j is the first of the name. */
  ghost predicate FirstEntry(table: seq<(string, Word)>, name: string, j: nat) {
    j < |table| && table[j].0 == name && forall k | 0 <= k < j :: table[k].0 != name
  }

  ghost predicate FirstExport(es: seq<Export>, name: string, j: nat) {
    j < |es| && es[j].name == name && forall k | 0 <= k < j :: es[k].name != name
  }

  /** Modules opened with RTLD_GLOBAL offer what they export. */
  ghost predicate Offers(m: Module, name: string) {
    m.global && exists j :: 0 <= j < |m.exports| && m.exports[j].name == name
  }

  /** Module i is the newest that offers the name, and export j its first of it. */
  ghost predicate FirstOffer(c: seq<Module>, name: string, i: nat, j: nat) {
    && i < |c| && c[i].global && FirstExport(c[i].exports, name, j)
    && forall k | 0 <= k < i :: !Offers(c[k], name)
  }

  /** The first entry of the name in table t is not 0. */
  ghost predicate Gives(tables: seq<seq<(string, Word)>>, name: string, t: nat, j: nat) {
    t < |tables| && FirstEntry(tables[t], name, j) && tables[t][j].1 != 0
  }

  ghost predicate FirstGives(tables: seq<seq<(string, Word)>>, name: string, t: nat, j: nat) {
    Gives(tables, name, t, j) && forall k, m | 0 <= k < t && 0 <= m :: !Gives(tables, name, k, m)
  }

  /** What chain and tables have: the newest module that offers the name decides, then the
      first table that gives it. */
  ghost predicate Has(env: Env, c: seq<Module>, name: string, v: Word) {
    if exists k :: 0 <= k < |c| && Offers(c[k], name)
    then exists i: nat, j: nat ::
           FirstOffer(c, name, i, j) && v == (c[i].base + c[i].exports[j].offset) % 0x1_0000_0000
    else if exists t: nat, j: nat :: Gives(env.symtabs, name, t, j)
    then exists t: nat, j: nat :: FirstGives(env.symtabs, name, t, j) && v == env.symtabs[t][j].1
    else v == 0
  }

  /** And the resolver is asked about what is still 0. */
  ghost predicate LookedUp(env: Env, c: seq<Module>, name: string, a: Word) {
    exists v: Word :: Has(env, c, name, v) && a == if v == 0 then env.resolver(name) else v
  }

  // ------------------------------------------------------------------ the functions

  lemma {:induction false} ExportFirst(es: seq<Export>, name: string) returns (j: nat)
    ensures ExportOffset(es, name).Some? <==> exists k :: 0 <= k < |es| && es[k].name == name
    ensures ExportOffset(es, name).Some? ==>
      FirstExport(es, name, j) && ExportOffset(es, name) == Some(es[j].offset)
  {
    j := 0;
    if es != [] && es[0].name != name {
      j := ExportFirst(es[1..], name);
      j := j + 1;
      if k :| 0 <= k < |es| && es[k].name == name { assert es[1..][k - 1].name == name; }
      if ExportOffset(es[1..], name).Some? {
        forall k | 0 <= k < j ensures es[k].name != name { if k > 0 { assert es[1..][k - 1] == es[k]; } }
      }
    }
  }

  lemma {:induction false} ChainFirst(c: seq<Module>, name: string) returns (i: nat, j: nat)
    ensures InChain(c, name).Some? <==> exists k :: 0 <= k < |c| && Offers(c[k], name)
    ensures InChain(c, name).Some? ==>
      FirstOffer(c, name, i, j) &&
      InChain(c, name).value == (c[i].base + c[i].exports[j].offset) % 0x1_0000_0000
  {
    i, j := 0, 0;
    if c != [] {
      j := ExportFirst(c[0].exports, name);
      if c[0].global && ExportOffset(c[0].exports, name).Some? {
        assert Offers(c[0], name);
      } else {
        var rest := c[1..];
        i, j := ChainFirst(rest, name);
        i := i + 1;
        forall k | 0 <= k < |rest| ensures Offers(rest[k], name) <==> Offers(c[k + 1], name) { }
        if k :| 0 <= k < |c| && Offers(c[k], name) { assert Offers(rest[k - 1], name); }
        if InChain(rest, name).Some? {
          forall k | 0 <= k < i ensures !Offers(c[k], name) { if k > 0 { assert rest[k - 1] == c[k]; } }
        }
      }
    }
  }

  lemma {:induction false} TableFirst(table: seq<(string, Word)>, name: string) returns (j: nat)
    ensures InTable(table, name) != 0 ==> FirstEntry(table, name, j) && table[j].1 == InTable(table, name)
    ensures forall k: nat | FirstEntry(table, name, k) :: table[k].1 == InTable(table, name)
  {
    j := 0;
    if table != [] && table[0].0 != name {
      var rest := table[1..];
      j := TableFirst(rest, name);
      j := j + 1;
      forall k: nat | FirstEntry(table, name, k) ensures table[k].1 == InTable(table, name) {
        assert FirstEntry(rest, name, k - 1) by {
          forall m | 0 <= m < k - 1 ensures rest[m].0 != name { assert rest[m] == table[m + 1]; }
        }
      }
      if InTable(rest, name) != 0 {
        forall m | 0 <= m < j ensures table[m].0 != name { if m > 0 { assert rest[m - 1] == table[m]; } }
      }
    }
  }

  lemma {:induction false} TablesFirst(tables: seq<seq<(string, Word)>>, name: string) returns (t: nat, j: nat)
    ensures InTables(tables, name) != 0 <==> exists k, m :: Gives(tables, name, k, m)
    ensures InTables(tables, name) != 0 ==>
      FirstGives(tables, name, t, j) && tables[t][j].1 == InTables(tables, name)
  {
    t, j := 0, 0;
    if tables != [] {
      j := TableFirst(tables[0], name);
      if InTable(tables[0], name) != 0 {
        assert Gives(tables, name, 0, j);
      } else {
        var rest := tables[1..];
        t, j := TablesFirst(rest, name);
        t := t + 1;
        forall k: nat, m: nat ensures Gives(tables, name, k, m) <==> k > 0 && Gives(rest, name, k - 1, m) {
          if k > 0 && k < |tables| { assert rest[k - 1] == tables[k]; }
        }
        if k: nat, m: nat :| Gives(tables, name, k, m) { assert Gives(rest, name, k - 1, m); }
        if k: nat, m: nat :| Gives(rest, name, k, m) { assert Gives(tables, name, k + 1, m); }
      }
    }
  }

  /** The address that the functions of the loader's model compute. */
  lemma AddressMeans(env: Env, c: seq<Module>, name: string)
    ensures LookedUp(env, c, name, Address(env, c, name))
  {
    var i, j := ChainFirst(c, name);
    var t, m := TablesFirst(env.symtabs, name);
    var v := match InChain(c, name) case Some(a) => a case None => InTables(env.symtabs, name);
    assert Has(env, c, name, v);
  }

  lemma OfferUnique(c: seq<Module>, name: string, i: nat, j: nat, k: nat, m: nat)
    requires FirstOffer(c, name, i, j) && FirstOffer(c, name, k, m)
    ensures i == k && j == m
  {
    assert Offers(c[i], name) && Offers(c[k], name);
  }

  lemma GiveUnique(tables: seq<seq<(string, Word)>>, name: string, t: nat, j: nat, k: nat, m: nat)
    requires FirstGives(tables, name, t, j) && FirstGives(tables, name, k, m)
    ensures t == k && j == m
  {
  }

  lemma HasUnique(env: Env, c: seq<Module>, name: string, v: Word, w: Word)
    requires Has(env, c, name, v) && Has(env, c, name, w)
    ensures v == w
  {
    if exists k :: 0 <= k < |c| && Offers(c[k], name) {
      var i: nat, j: nat :|
        FirstOffer(c, name, i, j) && v == (c[i].base + c[i].exports[j].offset) % 0x1_0000_0000;
      var k: nat, m: nat :|
        FirstOffer(c, name, k, m) && w == (c[k].base + c[k].exports[m].offset) % 0x1_0000_0000;
      OfferUnique(c, name, i, j, k, m);
    } else if exists t: nat, j: nat :: Gives(env.symtabs, name, t, j) {
      var t: nat, j: nat :| FirstGives(env.symtabs, name, t, j) && v == env.symtabs[t][j].1;
      var k: nat, m: nat :| FirstGives(env.symtabs, name, k, m) && w == env.symtabs[k][m].1;
      GiveUnique(env.symtabs, name, t, j, k, m);
    }
  }

  /** Nothing else is the address. */
  lemma LookupUnique(env: Env, c: seq<Module>, name: string, a: Word, b: Word)
    requires LookedUp(env, c, name, a) && LookedUp(env, c, name, b)
    ensures a == b
  {
    var v: Word :| Has(env, c, name, v) && a == if v == 0 then env.resolver(name) else v;
    var w: Word :| Has(env, c, name, w) && b == if w == 0 then env.resolver(name) else w;
    HasUnique(env, c, name, v, w);
  }

  // ------------------------------------------------------ what a dependency exports

  /** Whatever global module offers the name, offers it at an address other than 0. */
  ghost predicate NowhereZero(c: seq<Module>, name: string) {
    forall i: nat, j: nat | i < |c| && c[i].global && FirstExport(c[i].exports, name, j) ::
      (c[i].base + c[i].exports[j].offset) % 0x1_0000_0000 != 0
  }

  lemma OfferedFound(env: Env, c: seq<Module>, name: string, i: nat)
    requires i < |c| && Offers(c[i], name) && NowhereZero(c, name)
    ensures Address(env, c, name) != 0
  {
    var k, j := ChainFirst(c, name);
  }

  lemma {:induction false} FoundNotMissing(us: seq<Unresolved>, addr: string -> Word, name: string)
    requires addr(name) != 0
    ensures name !in Missing(us, addr)
  {
    if us != [] { FoundNotMissing(us[..|us| - 1], addr, name); }
  }

  ghost predicate NewGlobal(b: seq<Module>, c: seq<Module>) { forall m | m in c :: m in b || m.global }

  /** What is loaded for a dependency is global. */
  lemma {:induction false} TryNewGlobal(env: Env, b: seq<Module>, next: Handle, loading: seq<string>, filename: string)
    requires ValidEnv(env)
    ensures NewGlobal(b, Try(env, b, next, loading, filename, true).b)
    decreases Below(env, loading), 0, 1
  {
    if filename in env.realpath && env.realpath[filename] !in loading {
      RealNewGlobal(env, b, next, loading, env.realpath[filename]);
    }
  }

  lemma {:induction false} RealNewGlobal(env: Env, b: seq<Module>, next: Handle, loading: seq<string>, realfn: string)
    requires ValidEnv(env) && realfn !in loading
    ensures NewGlobal(b, TryReal(env, b, next, loading, realfn, true).b)
    decreases Below(env, loading), 0, 0
  {
    if !Loaded(b, realfn) && realfn in env.files && env.files[realfn].Readable? {
      StackGrows(env, loading, realfn);
      AllNewGlobal(env, b, next, [realfn] + loading, env.files[realfn].img.deps);
    }
  }

  lemma {:induction false} AllNewGlobal(env: Env, b: seq<Module>, next: Handle, loading: seq<string>,
                                        names: seq<string>)
    requires ValidEnv(env)
    ensures NewGlobal(b, TryAll(env, b, next, loading, names).b)
    decreases Below(env, loading), 1, |names|
  {
    if names != [] {
      var n := |names| - 1;
      var t := TryAll(env, b, next, loading, names[..n]);
      AllNewGlobal(env, b, next, loading, names[..n]);
      if t.ok { TryNewGlobal(env, t.b, t.next, loading, names[n]); }
    }
  }

  /** A name that a module in the chain exports is not missing for what depends on it, if
      the module has been loaded for it or was opened as global before. */
  lemma DependencySeen(env: Env, b: seq<Module>, next: Handle, loading: seq<string>, names: seq<string>,
                       us: seq<Unresolved>, i: nat, j: nat, name: string)
    requires ValidEnv(env)
    requires var c := TryAll(env, b, next, loading, names).b;
      && i < |c| && (c[i] in b ==> c[i].global) && NowhereZero(c, name)
      && j < |c[i].exports| && c[i].exports[j].name == name
    ensures name !in Missing(us, AddressIn(env, TryAll(env, b, next, loading, names).b))
  {
    var c := TryAll(env, b, next, loading, names).b;
    AllNewGlobal(env, b, next, loading, names);
    assert c[i] in c;
    OfferedFound(env, c, name, i);
    FoundNotMissing(us, AddressIn(env, c), name);
  }
}
