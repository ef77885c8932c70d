/** What opening a module should do, as a function: which files are loaded, in which
    order, at which addresses, and when it fails (src/libc/dxe/dlopen.c, lines 108-432,
    when memory does not run out). A file fails to load exactly if it leads only to
    missing, unreadable or mutually dependent files, or a symbol has no address. */
module DxeOpening {
  import opened Bits
  import opened DxeImage
  import opened DxeChain

  datatype Option<+T> = None | Some(value: T)

  /** A file that cannot be opened or read, one without the right header, or a module. */
  datatype Content = Unreadable | Malformed | Readable(img: Image)

  /** What the loader finds outside itself: the search path and _truename as a map
      from given to real names, the files, the program's symbol tables, its
      last-resort resolver (0 without one), the addresses malloc hands out, and whether it
      always finds memory. */
  datatype Env = Env(
    realpath: map<string, string>,
    files: map<string, Content>,
    symtabs: seq<seq<(string, Word)>>,
    resolver: string -> Word,
    place: Handle -> Word,
    memory: bool)

  ghost predicate ValidEnv(env: Env) {
    && "" !in env.realpath
    && forall f | f in env.files && env.files[f].Readable? :: WellFormed(env.files[f].img)
  }

  // ----------------------------------------------------------------- symbol lookup

  function InTable(table: seq<(string, Word)>, name: string): Word {
    if table == [] then 0 else if table[0].0 == name then table[0].1 else InTable(table[1..], name)
  }

  /** The first table with an address other than 0 for the name. */
  function InTables(tables: seq<seq<(string, Word)>>, name: string): Word {
    if tables == [] then 0
    else if InTable(tables[0], name) != 0 then InTable(tables[0], name)
    else InTables(tables[1..], name)
  }

  function ExportOffset(es: seq<Export>, name: string): Option<Word> {
    if es == [] then None else if es[0].name == name then Some(es[0].offset) else ExportOffset(es[1..], name)
  }

  /** The first global module of the chain that exports the name. */
  function InChain(c: seq<Module>, name: string): Option<Word> {
    if c == [] then None
    else if c[0].global && ExportOffset(c[0].exports, name).Some?
      then Some(U32(c[0].base + ExportOffset(c[0].exports, name).value))
    else InChain(c[1..], name)
  }

  /** dlsym(RTLD_DEFAULT, name): a loaded module overrides the program's tables, and
      the resolver is asked about what is still 0. */
  function Address(env: Env, c: seq<Module>, name: string): Word {
    var sym := match InChain(c, name) case Some(a) => a case None => InTables(env.symtabs, name);
    if sym == 0 then env.resolver(name) else sym
  }

  function AddressIn(env: Env, c: seq<Module>): string -> Word { name => Address(env, c, name) }

  // --------------------------------------------------------------------- the chain

  ghost predicate Loaded(c: seq<Module>, name: string) { exists i :: 0 <= i < |c| && c[i].fname == name }

  /** The names being loaded are on a stack; these files loading may still go down to. */
  function Below(env: Env, loading: seq<string>): set<string> {
    env.files.Keys - set i | 0 <= i < |loading| :: loading[i]
  }

  lemma StackGrows(env: Env, loading: seq<string>, realfn: string)
    requires realfn in env.files && realfn !in loading
    ensures Below(env, [realfn] + loading) < Below(env, loading)
  {
    var more := [realfn] + loading;
    var a, b := set i | 0 <= i < |more| :: more[i], set i | 0 <= i < |loading| :: loading[i];
    assert realfn in a by { assert more[0] == realfn; }
    forall x | x in b ensures x in a {
      var i :| 0 <= i < |loading| && loading[i] == x;
      assert more[i + 1] == x;
    }
    assert realfn in env.files.Keys - b && realfn !in env.files.Keys - a;
  }

  /** The handle of the first module of that name. */
  function HandleOf(c: seq<Module>, name: string): Option<Handle> {
    if c == [] then None else if c[0].fname == name then Some(c[0].h) else HandleOf(c[1..], name)
  }

  lemma {:induction false} HandleOfLoaded(c: seq<Module>, name: string)
    ensures HandleOf(c, name).Some? <==> Loaded(c, name)
  {
    if c != [] {
      HandleOfLoaded(c[1..], name);
      if c[0].fname == name {
        assert c[0].fname == name;
      } else if Loaded(c, name) {
        var i :| 0 <= i < |c| && c[i].fname == name;
        assert c[1..][i - 1].fname == name;
      }
    }
  }

  /** The finished section of a module at `base`. */
  ghost function SectionAt(img: Image, base: Word, addr: string -> Word): seq<Byte>
    requires WellFormed(img)
  {
    LinkInside(img, base, addr);
    ApplyAll(LinkEdits(img, base, addr), Padded(img))
  }

  /** The module made of a file, without its counter. */
  ghost function ModuleAt(env: Env, realfn: string, global: bool, img: Image, list: seq<Handle>, b: seq<Module>,
                          next: Handle): Module
    requires WellFormed(img)
  {
    var base := env.place(next);
    Module(next, realfn, 0, global, list, img.exports, base, SectionAt(img, base, AddressIn(env, b)))
  }

  // ------------------------------------------------------------------------ opening

  /** What has come of opening: the handle, the chain without counters, and the next
      address malloc will hand out. */
  datatype Attempt = Attempt(found: Option<Handle>, b: seq<Module>, next: Handle)

  /** And of opening dependencies: their handles, up to the first that fails. */
  datatype Batch = Batch(ok: bool, list: seq<Handle>, b: seq<Module>, next: Handle)

  ghost function Try(env: Env, b: seq<Module>, next: Handle, loading: seq<string>, filename: string,
                     global: bool): Attempt
    requires ValidEnv(env)
    decreases Below(env, loading), 0, 1
  {
    if filename !in env.realpath || env.realpath[filename] in loading then Attempt(None, b, next)
    else TryReal(env, b, next, loading, env.realpath[filename], global)
  }

  /** For a real name that is not being loaded. */
  ghost function TryReal(env: Env, b: seq<Module>, next: Handle, loading: seq<string>, realfn: string,
                         global: bool): Attempt
    requires ValidEnv(env) && realfn !in loading
    decreases Below(env, loading), 0, 0
  {
    if Loaded(b, realfn) then Attempt(HandleOf(b, realfn), b, next)
    else if realfn !in env.files || !env.files[realfn].Readable? then Attempt(None, b, next)
    else
      StackGrows(env, loading, realfn);
      var img := env.files[realfn].img;
      Finished(env, b, realfn, global, img, TryAll(env, b, next, [realfn] + loading, img.deps))
  }

  /** The end of a load, after its dependencies. */
  ghost function Finished(env: Env, b: seq<Module>, realfn: string, global: bool, img: Image, t: Batch): Attempt
    requires WellFormed(img)
  {
    if !t.ok || Missing(img.unres, AddressIn(env, t.b)) != [] then Attempt(None, b, t.next)
    else Attempt(Some(t.next), [ModuleAt(env, realfn, global, img, t.list, t.b, t.next)] + t.b, t.next + 1)
  }

  ghost function TryAll(env: Env, b: seq<Module>, next: Handle, loading: seq<string>, names: seq<string>): Batch
    requires ValidEnv(env)
    decreases Below(env, loading), 1, |names|
  {
    if names == [] then Batch(true, [], b, next)
    else
      var n := |names| - 1;
      var t := TryAll(env, b, next, loading, names[..n]);
      if !t.ok then t else OneMore(t, Try(env, t.b, t.next, loading, names[n], true))
  }

  function OneMore(t: Batch, a: Attempt): Batch {
    match a.found
    case None => Batch(false, t.list, t.b, a.next)
    case Some(h) => Batch(true, t.list + [h], a.b, a.next)
  }

  /** A batch ends with the first failure. */
  lemma {:induction false} FailsEarly(env: Env, b: seq<Module>, next: Handle, loading: seq<string>, names: seq<string>,
                                      i: nat)
    requires ValidEnv(env) && i <= |names| && !TryAll(env, b, next, loading, names[..i]).ok
    ensures TryAll(env, b, next, loading, names) == TryAll(env, b, next, loading, names[..i])
    decreases |names|
  {
    if i < |names| {
      var n := |names| - 1;
      assert names[..n][..i] == names[..i];
      FailsEarly(env, b, next, loading, names[..n], i);
    } else {
      assert names[..i] == names;
    }
  }

  // ------------------------------------------------------- which files can be loaded

  /** Files that are not loaded and cannot be: each is unreadable, or depends on a name
      that is not found or stands for one of them, or for one in `loading`. A dependency
      cycle is such a set. */
  ghost predicate Doomed(env: Env, b: seq<Module>, loading: seq<string>, files: set<string>) {
    forall s | s in files :: !Loaded(b, s) && DoomedOne(env, loading, files, s)
  }

  ghost predicate DoomedOne(env: Env, loading: seq<string>, files: set<string>, s: string) {
    || s !in env.files || !env.files[s].Readable?
    || exists d | d in env.files[s].img.deps :: LeadsTo(env, loading, files, d)
  }

  ghost predicate LeadsTo(env: Env, loading: seq<string>, files: set<string>, d: string) {
    d in env.realpath ==> env.realpath[d] in files || env.realpath[d] in loading
  }

  ghost predicate NoneLoaded(b: seq<Module>, files: set<string>) {
    forall i | 0 <= i < |b| :: b[i].fname !in files
  }

  /** What is loaded stays loaded. */
  lemma {:induction false} TryGrows(env: Env, b: seq<Module>, next: Handle, loading: seq<string>, filename: string,
                                    global: bool, name: string)
    requires ValidEnv(env) && Loaded(b, name)
    ensures Loaded(Try(env, b, next, loading, filename, global).b, name)
    decreases Below(env, loading), 0, 1
  {
    if filename in env.realpath && env.realpath[filename] !in loading {
      TryRealGrows(env, b, next, loading, env.realpath[filename], global, name);
    }
  }

  lemma {:induction false} TryRealGrows(env: Env, b: seq<Module>, next: Handle, loading: seq<string>, realfn: string,
                                        global: bool, name: string)
    requires ValidEnv(env) && Loaded(b, name) && realfn !in loading
    ensures Loaded(TryReal(env, b, next, loading, realfn, global).b, name)
    decreases Below(env, loading), 0, 0
  {
    if !Loaded(b, realfn) && realfn in env.files && env.files[realfn].Readable? {
      StackGrows(env, loading, realfn);
      var img := env.files[realfn].img;
      var t := TryAll(env, b, next, [realfn] + loading, img.deps);
      TryAllGrows(env, b, next, [realfn] + loading, img.deps, name);
      LoadedBehind(ModuleAt(env, realfn, global, img, t.list, t.b, t.next), t.b, name);
    }
  }

  lemma LoadedBehind(m: Module, c: seq<Module>, name: string)
    ensures Loaded([m] + c, name) <==> m.fname == name || Loaded(c, name)
  {
    if Loaded(c, name) {
      var i :| 0 <= i < |c| && c[i].fname == name;
      assert ([m] + c)[i + 1].fname == name;
    }
    assert ([m] + c)[0] == m;
  }

  lemma {:induction false} TryAllGrows(env: Env, b: seq<Module>, next: Handle, loading: seq<string>, names: seq<string>,
                                       name: string)
    requires ValidEnv(env) && Loaded(b, name)
    ensures Loaded(TryAll(env, b, next, loading, names).b, name)
    decreases Below(env, loading), 1, |names|
  {
    if names != [] {
      var n := |names| - 1;
      var t := TryAll(env, b, next, loading, names[..n]);
      TryAllGrows(env, b, next, loading, names[..n], name);
      if t.ok { TryGrows(env, t.b, t.next, loading, names[n], true, name); }
    }
  }

  ghost predicate Hopeless(env: Env, files: set<string>) { forall s | s in files :: DoomedOne(env, [], files, s) }

  /** No hopeless file is ever loaded. */
  lemma {:induction false} TryAvoids(env: Env, b: seq<Module>, next: Handle, loading: seq<string>, filename: string,
                                     global: bool, files: set<string>)
    requires ValidEnv(env) && Hopeless(env, files) && NoneLoaded(b, files)
    ensures NoneLoaded(Try(env, b, next, loading, filename, global).b, files)
    ensures Try(env, b, next, loading, filename, global).found.Some? ==>
      filename in env.realpath && env.realpath[filename] !in files
    decreases Below(env, loading), 0, 1
  {
    if filename in env.realpath && env.realpath[filename] !in loading {
      TryRealAvoids(env, b, next, loading, env.realpath[filename], global, files);
    }
  }

  lemma {:induction false} TryRealAvoids(env: Env, b: seq<Module>, next: Handle, loading: seq<string>, realfn: string,
                                         global: bool, files: set<string>)
    requires ValidEnv(env) && Hopeless(env, files) && NoneLoaded(b, files) && realfn !in loading
    ensures NoneLoaded(TryReal(env, b, next, loading, realfn, global).b, files)
    ensures TryReal(env, b, next, loading, realfn, global).found.Some? ==> realfn !in files
    decreases Below(env, loading), 0, 0
  {
    if Loaded(b, realfn) {
      var i :| 0 <= i < |b| && b[i].fname == realfn;
    } else if realfn in env.files && env.files[realfn].Readable? {
      StackGrows(env, loading, realfn);
      var img := env.files[realfn].img;
      TryAllAvoids(env, b, next, [realfn] + loading, img.deps, files);
      if realfn in files {
        var d :| d in img.deps && LeadsTo(env, [], files, d);
      }
    }
  }

  lemma {:induction false} TryAllAvoids(env: Env, b: seq<Module>, next: Handle, loading: seq<string>,
                                        names: seq<string>, files: set<string>)
    requires ValidEnv(env) && Hopeless(env, files) && NoneLoaded(b, files)
    ensures NoneLoaded(TryAll(env, b, next, loading, names).b, files)
    ensures TryAll(env, b, next, loading, names).ok ==> forall d | d in names :: !LeadsTo(env, [], files, d)
    decreases Below(env, loading), 1, |names|
  {
    if names != [] {
      var n := |names| - 1;
      var t := TryAll(env, b, next, loading, names[..n]);
      TryAllAvoids(env, b, next, loading, names[..n], files);
      if t.ok {
        TryAvoids(env, t.b, t.next, loading, names[n], true, files);
        assert names == names[..n] + [names[n]];
      }
    }
  }

  // ------------------------------------------------------------ what a failure is due to

  /** While `filename` is being opened the turn comes to complete s, all its dependencies
      being loaded, the chain then being c. */
  ghost predicate Turn(env: Env, b: seq<Module>, next: Handle, loading: seq<string>, filename: string, global: bool,
                       s: string, c: seq<Module>)
    requires ValidEnv(env)
    decreases Below(env, loading), 0, 1
  {
    && filename in env.realpath && env.realpath[filename] !in loading
    && TurnReal(env, b, next, loading, env.realpath[filename], global, s, c)
  }

  ghost predicate TurnReal(env: Env, b: seq<Module>, next: Handle, loading: seq<string>, realfn: string, global: bool,
                           s: string, c: seq<Module>)
    requires ValidEnv(env) && realfn !in loading
    decreases Below(env, loading), 0, 0
  {
    && !Loaded(b, realfn) && realfn in env.files && env.files[realfn].Readable?
    && (StackGrows(env, loading, realfn);
        var deps, stack := env.files[realfn].img.deps, [realfn] + loading;
        var t := TryAll(env, b, next, stack, deps);
        (s == realfn && t.ok && c == t.b) || TurnAmong(env, b, next, stack, deps, s, c))
  }

  ghost predicate TurnAmong(env: Env, b: seq<Module>, next: Handle, loading: seq<string>, names: seq<string>, s: string,
                            c: seq<Module>)
    requires ValidEnv(env)
    decreases Below(env, loading), 1, |names|
  {
    && names != []
    && (var n := |names| - 1;
        var t := TryAll(env, b, next, loading, names[..n]);
        || TurnAmong(env, b, next, loading, names[..n], s, c)
        || (t.ok && Turn(env, t.b, t.next, loading, names[n], true, s, c)))
  }

  /** When its turn comes s needs a symbol that has no address. */
  ghost predicate LacksAt(env: Env, s: string, c: seq<Module>) {
    s in env.files && env.files[s].Readable? && Missing(env.files[s].img.unres, AddressIn(env, c)) != []
  }

  /** In what is opened nothing lacks a symbol at its turn. */
  lemma {:induction false} OpenLacksNothing(env: Env, b: seq<Module>, next: Handle, loading: seq<string>,
                                            filename: string, global: bool, s: string, c: seq<Module>)
    requires ValidEnv(env) && Try(env, b, next, loading, filename, global).found.Some?
    requires Turn(env, b, next, loading, filename, global, s, c)
    ensures !LacksAt(env, s, c)
    decreases Below(env, loading), 0, 1
  {
    OpenRealLacksNothing(env, b, next, loading, env.realpath[filename], global, s, c);
  }

  lemma {:induction false} OpenRealLacksNothing(env: Env, b: seq<Module>, next: Handle, loading: seq<string>,
                                                realfn: string, global: bool, s: string, c: seq<Module>)
    requires ValidEnv(env) && realfn !in loading && TryReal(env, b, next, loading, realfn, global).found.Some?
    requires TurnReal(env, b, next, loading, realfn, global, s, c)
    ensures !LacksAt(env, s, c)
    decreases Below(env, loading), 0, 0
  {
    StackGrows(env, loading, realfn);
    var deps, stack := env.files[realfn].img.deps, [realfn] + loading;
    if TurnAmong(env, b, next, stack, deps, s, c) { BatchLacksNothing(env, b, next, stack, deps, s, c); }
  }

  lemma {:induction false} BatchLacksNothing(env: Env, b: seq<Module>, next: Handle, loading: seq<string>,
                                             names: seq<string>, s: string, c: seq<Module>)
    requires ValidEnv(env) && TryAll(env, b, next, loading, names).ok
    requires TurnAmong(env, b, next, loading, names, s, c)
    ensures !LacksAt(env, s, c)
    decreases Below(env, loading), 1, |names|
  {
    var n := |names| - 1;
    var t := TryAll(env, b, next, loading, names[..n]);
    if TurnAmong(env, b, next, loading, names[..n], s, c) {
      BatchLacksNothing(env, b, next, loading, names[..n], s, c);
    } else {
      OpenLacksNothing(env, t.b, t.next, loading, names[n], true, s, c);
    }
  }

  /** The reason of a failure: a file that lacks a symbol when its turn comes, with the
      chain then, or none. */
  datatype Lack = Nothing | Lack(s: string, c: seq<Module>)

  /** Files that are doomed, or lead to the one that lacks a symbol. */
  ghost predicate DoomedBy(env: Env, b: seq<Module>, loading: seq<string>, files: set<string>, why: Lack) {
    forall s | s in files ::
      !Loaded(b, s) && (DoomedOne(env, loading, files, s) || (why.Lack? && s == why.s && LacksAt(env, s, why.c)))
  }

  /** A failure has its reason. */
  lemma {:induction false} FailureDooms(env: Env, b: seq<Module>, next: Handle, loading: seq<string>, filename: string,
                                        global: bool)
    returns (files: set<string>, why: Lack)
    requires ValidEnv(env) && Try(env, b, next, loading, filename, global).found.None?
    ensures DoomedBy(env, b, loading, files, why) && LeadsTo(env, loading, files, filename)
    ensures why.Lack? ==> Turn(env, b, next, loading, filename, global, why.s, why.c)
    decreases Below(env, loading), 0, 1
  {
    files, why := {}, Nothing;
    if filename in env.realpath && env.realpath[filename] !in loading {
      files, why := FailureDoomsReal(env, b, next, loading, env.realpath[filename], global);
    }
  }

  lemma {:induction false} FailureDoomsReal(env: Env, b: seq<Module>, next: Handle, loading: seq<string>,
                                            realfn: string, global: bool)
    returns (files: set<string>, why: Lack)
    requires ValidEnv(env) && realfn !in loading
    requires TryReal(env, b, next, loading, realfn, global).found.None?
    ensures DoomedBy(env, b, loading, files, why) && realfn in files
    ensures why.Lack? ==> TurnReal(env, b, next, loading, realfn, global, why.s, why.c)
    decreases Below(env, loading), 0, 0
  {
    HandleOfLoaded(b, realfn);
    files, why := {realfn}, Nothing;
    if realfn in env.files && env.files[realfn].Readable? {
      StackGrows(env, loading, realfn);
      var img := env.files[realfn].img;
      var t := TryAll(env, b, next, [realfn] + loading, img.deps);
      if t.ok {
        why := Lack(realfn, t.b);
      } else {
        var more;
        more, why := BatchDooms(env, b, next, [realfn] + loading, img.deps);
        files := more + {realfn};
        OffStack(env, b, loading, realfn, more, why);
      }
    }
  }

  /** A file that leads to doomed files, as one of them. */
  lemma OffStack(env: Env, b: seq<Module>, loading: seq<string>, realfn: string, more: set<string>, why: Lack)
    requires realfn in env.files && env.files[realfn].Readable? && !Loaded(b, realfn)
    requires DoomedBy(env, b, [realfn] + loading, more, why)
    requires exists d | d in env.files[realfn].img.deps :: LeadsTo(env, [realfn] + loading, more, d)
    ensures DoomedBy(env, b, loading, more + {realfn}, why)
  {
    var files := more + {realfn};
    forall s | s in files && DoomedOne(env, [realfn] + loading, more, s) ensures DoomedOne(env, loading, files, s) {
      if s in env.files && env.files[s].Readable? {
        var d :| d in env.files[s].img.deps && LeadsTo(env, [realfn] + loading, more, d);
        assert LeadsTo(env, loading, files, d);
      }
    }
    assert DoomedOne(env, [realfn] + loading, more, realfn);
  }

  lemma {:induction false} BatchDooms(env: Env, b: seq<Module>, next: Handle, loading: seq<string>, names: seq<string>)
    returns (files: set<string>, why: Lack)
    requires ValidEnv(env) && !TryAll(env, b, next, loading, names).ok
    ensures DoomedBy(env, b, loading, files, why) && exists d | d in names :: LeadsTo(env, loading, files, d)
    ensures why.Lack? ==> TurnAmong(env, b, next, loading, names, why.s, why.c)
    decreases Below(env, loading), 1, |names|
  {
    var n := |names| - 1;
    var t := TryAll(env, b, next, loading, names[..n]);
    if !t.ok {
      files, why := BatchDooms(env, b, next, loading, names[..n]);
      var d :| d in names[..n] && LeadsTo(env, loading, files, d);
      assert d in names;
    } else {
      files, why := FailureDooms(env, t.b, t.next, loading, names[n], true);
      forall s | s in files ensures !Loaded(b, s) {
        if Loaded(b, s) { TryAllGrows(env, b, next, loading, names[..n], s); }
      }
      assert names[n] in names;
    }
  }

  /** Why opening fails: the file is doomed, or leads to one that lacks a symbol when its
      turn comes. */
  ghost predicate Blamed(env: Env, b: seq<Module>, next: Handle, filename: string, global: bool, files: set<string>,
                         why: Lack)
    requires ValidEnv(env) && filename in env.realpath
  {
    && DoomedBy(env, b, [], files, why) && env.realpath[filename] in files
    && (why.Lack? ==> Turn(env, b, next, [], filename, global, why.s, why.c))
  }

  lemma DoomedAlone(env: Env, b: seq<Module>, files: set<string>, why: Lack)
    requires DoomedBy(env, b, [], files, why) && (why.Lack? ==> !LacksAt(env, why.s, why.c))
    ensures Doomed(env, b, [], files)
  {
  }

  /** Opening succeeds exactly for the names that are found and not to blame. */
  lemma OpensExactly(env: Env, b: seq<Module>, next: Handle, filename: string, global: bool)
    requires ValidEnv(env)
    ensures Try(env, b, next, [], filename, global).found.Some? <==>
      filename in env.realpath && !exists files, why :: Blamed(env, b, next, filename, global, files, why)
  {
    if Try(env, b, next, [], filename, global).found.None? {
      var files, why := FailureDooms(env, b, next, [], filename, global);
      if filename in env.realpath { assert Blamed(env, b, next, filename, global, files, why); }
    } else {
      OpensOnlyPossible(env, b, next, filename, global);
      forall files, why ensures !Blamed(env, b, next, filename, global, files, why) {
        if Blamed(env, b, next, filename, global, files, why) {
          if why.Lack? { OpenLacksNothing(env, b, next, [], filename, global, why.s, why.c); }
          DoomedAlone(env, b, files, why);
        }
      }
    }
  }

  /** Whatever symbols there are, a doomed file is not opened. */
  lemma OpensOnlyPossible(env: Env, b: seq<Module>, next: Handle, filename: string, global: bool)
    requires ValidEnv(env) && Try(env, b, next, [], filename, global).found.Some?
    ensures filename in env.realpath
    ensures forall files | Doomed(env, b, [], files) :: env.realpath[filename] !in files
  {
    forall files | Doomed(env, b, [], files) ensures env.realpath[filename] !in files {
      forall i | 0 <= i < |b| ensures b[i].fname !in files {
        assert Loaded(b, b[i].fname);
      }
      TryAvoids(env, b, next, [], filename, global, files);
    }
  }

  /** p goes from file to file by dependencies, and back to where it started. */
  ghost predicate Cycle(env: Env, p: seq<string>) {
    && p != []
    && forall i | 0 <= i < |p| :: p[i] in env.files && Depends(env, p[i], p[if i == |p| - 1 then 0 else i + 1])
  }

  ghost predicate Depends(env: Env, s: string, t: string)
    requires s in env.files
  {
    env.files[s].Readable? ==> exists d | d in env.files[s].img.deps :: d in env.realpath && env.realpath[d] == t
  }

  /** So no module on a dependency cycle is ever loaded. */
  lemma CycleIsHopeless(env: Env, p: seq<string>)
    requires Cycle(env, p)
    ensures Hopeless(env, set s | s in p)
  {
    var files := set s | s in p;
    forall s | s in files ensures DoomedOne(env, [], files, s) {
      var i :| 0 <= i < |p| && p[i] == s;
      var t := p[if i == |p| - 1 then 0 else i + 1];
      assert Depends(env, s, t) && t in files;
      if env.files[s].Readable? {
        var d :| d in env.files[s].img.deps && d in env.realpath && env.realpath[d] == t;
        assert LeadsTo(env, [], files, d);
      }
    }
  }

  /** Whatever is opened, from whatever state without them, they stay out, and opening
      one of them fails. */
  lemma CycleNeverLoads(env: Env, p: seq<string>, b: seq<Module>, next: Handle, loading: seq<string>, filename: string,
                        global: bool)
    requires ValidEnv(env) && Cycle(env, p) && forall i | 0 <= i < |b| :: b[i].fname !in p
    ensures var a := Try(env, b, next, loading, filename, global);
      && (forall i | 0 <= i < |a.b| :: a.b[i].fname !in p)
      && (filename in env.realpath && env.realpath[filename] in p ==> a.found.None?)
  {
    var files := set s | s in p;
    CycleIsHopeless(env, p);
    TryAvoids(env, b, next, loading, filename, global, files);
    forall i | 0 <= i < |Try(env, b, next, loading, filename, global).b|
      ensures Try(env, b, next, loading, filename, global).b[i].fname !in p
    {
      assert Try(env, b, next, loading, filename, global).b[i].fname !in files;
    }
  }
}
