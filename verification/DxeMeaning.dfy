/** What a generated module has to be, symbol by symbol and relocation by relocation
    (write_dxe in src/dxe/dxe3gen.c, lines 998-1285), and what its fields hold once it
    has been linked (src/libc/dxe/dlopen.c, lines 299-333). */
module DxeMeaning {
  import opened Bits
  import opened DxeImage
  import opened DxeGen

  // --------------------------------------------------------------- picking indices

  /** The numbers below n with the property, in order. */
  ghost predicate Picks(at: seq<nat>, n: nat, P: nat -> bool) {
    && (forall k | 0 <= k < |at| :: at[k] < n && P(at[k]))
    && (forall j, k | 0 <= j < k < |at| :: at[j] < at[k])
    && (forall j: nat | j < n && P(j) :: j in at)
  }

  function Picked(at: seq<nat>, n: nat, P: nat -> bool): seq<nat> { if P(n) then at + [n] else at }

  lemma PickNext(at: seq<nat>, n: nat, P: nat -> bool)
    requires Picks(at, n, P)
    ensures Picks(Picked(at, n, P), n + 1, P)
  {
    var next := Picked(at, n, P);
    forall j: nat | j < n + 1 && P(j) ensures j in next {
      if j < n { assert j in at; } else { assert next[|at|] == n; }
    }
  }

  // ------------------------------------------------------------- the symbol table

  ghost predicate Chained(syms: seq<Symbol>, stops: seq<nat>) {
    && (forall k | 0 <= k < |stops| :: stops[k] < |syms|)
    && (forall j, k | 0 <= j && k == j + 1 < |stops| :: stops[k] == stops[j] + 1 + syms[stops[j]].numaux)
  }

  /** From place i on each symbol is followed by its auxiliary entries, to the end. */
  ghost predicate WalkFrom(syms: seq<Symbol>, i: nat, stops: seq<nat>) {
    && (stops == [] <==> i >= |syms|) && (stops != [] ==> stops[0] == i)
    && Chained(syms, stops)
    && (stops != [] ==> stops[|stops| - 1] + 1 + syms[stops[|stops| - 1]].numaux >= |syms|)
  }

  /** The places of the symbols. */
  ghost predicate Walk(syms: seq<Symbol>, stops: seq<nat>) { WalkFrom(syms, 0, stops) }

  lemma WalkMore(syms: seq<Symbol>, i: nat, rest: seq<nat>)
    requires i < |syms| && WalkFrom(syms, i + 1 + syms[i].numaux, rest)
    ensures WalkFrom(syms, i, [i] + rest)
  {
    var stops := [i] + rest;
    forall j, k | 0 <= j && k == j + 1 < |stops| ensures stops[k] == stops[j] + 1 + syms[stops[j]].numaux {
      assert stops[k] == rest[j];
      if j > 0 { assert stops[j] == rest[j - 1]; }
    }
  }

  lemma {:induction false} StopsFollow(syms: seq<Symbol>, i: nat)
    ensures WalkFrom(syms, i, Stops(syms, i))
    decreases |syms| - i
  {
    if i < |syms| {
      var next := i + 1 + syms[i].numaux;
      var rest := Stops(syms, next);
      StopsFollow(syms, next);
      WalkMore(syms, i, rest);
      assert Stops(syms, i) == [i] + rest;
    }
  }

  lemma WalkRest(syms: seq<Symbol>, i: nat, a: seq<nat>)
    requires WalkFrom(syms, i, a) && a != []
    ensures i < |syms| && a[0] == i && WalkFrom(syms, i + 1 + syms[i].numaux, a[1..])
  {
    var next, rest := i + 1 + syms[i].numaux, a[1..];
    if rest != [] {
      assert a[1] == a[0] + 1 + syms[a[0]].numaux;
      assert rest[0] == a[1] && rest[|rest| - 1] == a[|a| - 1];
    }
    forall j, k | 0 <= j && k == j + 1 < |rest| ensures rest[k] == rest[j] + 1 + syms[rest[j]].numaux {
      assert rest[k] == a[k + 1] && rest[j] == a[k];
    }
  }

  lemma StopsJoin(syms: seq<Symbol>, i: nat, a: seq<nat>, rest: seq<nat>)
    requires i < |syms| && a != [] && a[0] == i && a[1..] == rest && rest == Stops(syms, i + 1 + syms[i].numaux)
    ensures a == Stops(syms, i)
  {
    assert a == [i] + rest;
  }

  lemma {:induction false} WalkUnique(syms: seq<Symbol>, i: nat, a: seq<nat>)
    requires WalkFrom(syms, i, a)
    ensures a == Stops(syms, i)
    decreases |a|
  {
    if a != [] {
      WalkRest(syms, i, a);
      var rest := a[1..];
      WalkUnique(syms, i + 1 + syms[i].numaux, rest);
      StopsJoin(syms, i, a, rest);
    }
  }

  /** A symbol of another module: named, not private, and in no section. */
  predicate Outside(s: Symbol) { s.name != "" && s.cls != Static && s.section == 0 }

  /** A symbol others may see. */
  predicate Public(s: Symbol) { s.name != "" && s.cls == External && s.section != 0 }

  predicate StartsWith(name: string, prefix: string) { |prefix| <= |name| && name[..|prefix|] == prefix }

  /** What is exported under the options -E and -X. */
  ghost predicate LetThrough(s: Symbol, opts: Options) {
    && Public(s) && s.name != "_init" && s.name != "_fini" && !StartsWith(s.name, "__GLOBAL_$")
    && s.name != "djgpp_first_ctor" && s.name != "djgpp_last_ctor"
    && s.name != "djgpp_first_dtor" && s.name != "djgpp_last_dtor"
    && s.name != "___EH_FRAME_BEGIN__" && s.name != "___EH_FRAME_END__"
    && (forall x | x in opts.excluded :: !StartsWith(s.name, x))
    && (opts.prefixes == [] || exists x | x in opts.prefixes :: StartsWith(s.name, x))
  }

  ghost function Exporting(coff: Coff, opts: Options, stops: seq<nat>): nat -> bool {
    (j: nat) => j < |stops| && stops[j] < |coff.syms| && LetThrough(coff.syms[stops[j]], opts)
  }

  /** The symbols exported, once each and in their order. */
  ghost predicate ExportsAre(coff: Coff, opts: Options, stops: seq<nat>, exports: seq<Export>, at: seq<nat>)
    requires Indices(coff, stops)
  {
    && Picks(at, |stops|, Exporting(coff, opts, stops)) && |exports| == |at|
    && forall k | 0 <= k < |at| ::
         var s := coff.syms[stops[at[k]]];
         exports[k].name == s.name && exports[k].offset == s.value
  }

  lemma PrefixLists(prefixes: seq<string>, name: string)
    ensures HasPrefix(prefixes, name) <==> exists x | x in prefixes :: StartsWith(name, x)
  {
    if HasPrefix(prefixes, name) {
      var i :| 0 <= i < |prefixes| && prefixes[i] <= name;
      assert prefixes[i] in prefixes && StartsWith(name, prefixes[i]);
    }
    if exists x | x in prefixes :: StartsWith(name, x) {
      var x :| x in prefixes && StartsWith(name, x);
      var i :| 0 <= i < |prefixes| && prefixes[i] == x;
    }
  }

  lemma ExportedMeans(s: Symbol, opts: Options)
    ensures Exported(s, opts) <==> LetThrough(s, opts)
  {
    PrefixLists(opts.excluded, s.name);
    PrefixLists(opts.prefixes, s.name);
    assert "__GLOBAL_$" <= s.name <==> StartsWith(s.name, "__GLOBAL_$");
  }

  lemma {:induction false} ExportsPicked(coff: Coff, opts: Options, stops: seq<nat>, n: nat) returns (at: seq<nat>)
    requires Indices(coff, stops) && n <= |stops|
    ensures Picks(at, n, Exporting(coff, opts, stops)) && |at| == |Exports(coff, stops[..n], opts)|
    ensures forall k | 0 <= k < |at| ::
      Exports(coff, stops[..n], opts)[k] == Export(coff.syms[stops[at[k]]].name, coff.syms[stops[at[k]]].value)
  {
    at := [];
    if n > 0 {
      assert stops[..n][..n - 1] == stops[..n - 1];
      at := ExportsPicked(coff, opts, stops, n - 1);
      PickNext(at, n - 1, Exporting(coff, opts, stops));
      ExportedMeans(coff.syms[stops[n - 1]], opts);
      at := Picked(at, n - 1, Exporting(coff, opts, stops));
    }
  }

  ghost predicate NamedAt(coff: Coff, stops: seq<nat>, name: string, j: int)
    requires Indices(coff, stops)
  {
    0 <= j < |stops| && Public(coff.syms[stops[j]]) && coff.syms[stops[j]].name == name
  }

  ghost predicate LastAt(coff: Coff, stops: seq<nat>, name: string, j: int)
    requires Indices(coff, stops)
  {
    NamedAt(coff, stops, name, j) && forall k | NamedAt(coff, stops, name, k) :: k <= j
  }

  /** v is the value of the last public symbol of that name, or -1. */
  ghost predicate LastNamed(coff: Coff, stops: seq<nat>, name: string, v: int)
    requires Indices(coff, stops)
  {
    || (v == -1 && forall j :: !NamedAt(coff, stops, name, j))
    || exists j :: LastAt(coff, stops, name, j) && v == coff.syms[stops[j]].value
  }

  lemma NamedFront(coff: Coff, stops: seq<nat>, name: string, n: nat, j: int)
    requires Indices(coff, stops) && n + 1 == |stops|
    ensures Indices(coff, stops[..n])
    ensures NamedAt(coff, stops, name, j) <==>
      NamedAt(coff, stops[..n], name, j) || (j == n && NamedAt(coff, stops, name, n))
  {
  }

  lemma {:induction false} EntranceIs(coff: Coff, stops: seq<nat>, name: string)
    requires Indices(coff, stops)
    ensures LastNamed(coff, stops, name, Entrance(coff, stops, name))
  {
    if stops != [] {
      var n := |stops| - 1;
      EntranceIs(coff, stops[..n], name);
      forall j ensures NamedAt(coff, stops, name, j) <==>
        NamedAt(coff, stops[..n], name, j) || (j == n && NamedAt(coff, stops, name, n))
      {
        NamedFront(coff, stops, name, n, j);
      }
      if NamedAt(coff, stops, name, n) {
        assert LastAt(coff, stops, name, n);
      } else if j :| LastAt(coff, stops[..n], name, j) {
        assert LastAt(coff, stops, name, j);
      }
    }
  }

  ghost predicate BssAt(coff: Coff, stops: seq<nat>, j: int)
    requires Indices(coff, stops)
  {
    0 <= j < |stops| && coff.syms[stops[j]].name == ".bss"
  }

  /** The data stored end where the first .bss symbol lies. */
  ghost predicate LeastBss(coff: Coff, stops: seq<nat>, start: nat)
    requires Indices(coff, stops)
  {
    && start <= |coff.data| && (forall j | BssAt(coff, stops, j) :: start <= coff.syms[stops[j]].value)
    && (start == |coff.data| || exists j :: BssAt(coff, stops, j) && start == coff.syms[stops[j]].value)
  }

  lemma {:induction false} StartIs(coff: Coff, stops: seq<nat>)
    requires Indices(coff, stops)
    ensures LeastBss(coff, stops, StartBss(coff, stops))
  {
    if stops != [] {
      var n := |stops| - 1;
      var front := stops[..n];
      StartIs(coff, front);
      assert forall j | 0 <= j < n :: BssAt(coff, front, j) <==> BssAt(coff, stops, j);
      if StartBss(coff, stops) != StartBss(coff, front) {
        assert BssAt(coff, stops, n);
      } else if StartBss(coff, front) != |coff.data| {
        var j :| BssAt(coff, front, j) && StartBss(coff, front) == coff.syms[front[j]].value;
        assert BssAt(coff, stops, j);
      }
    }
  }

  // --------------------------------------------------------------- the relocations

  /** The relocations that refer to the symbol at i, of one kind. */
  ghost function Referring(coff: Coff, i: nat, relative: bool): nat -> bool {
    (k: nat) => k < |coff.relocs| && coff.relocs[k].symndx == i && coff.relocs[k].relative == relative
  }

  ghost predicate Referenced(coff: Coff, i: nat) {
    exists k :: 0 <= k < |coff.relocs| && coff.relocs[k].symndx == i
  }

  lemma {:induction false} RelativePicked(coff: Coff, i: nat, n: nat) returns (at: seq<nat>)
    requires n <= |coff.relocs|
    ensures Picks(at, n, Referring(coff, i, true)) && |at| == |Relative(coff.relocs[..n], i)|
    ensures forall k | 0 <= k < |at| :: Relative(coff.relocs[..n], i)[k] == coff.relocs[at[k]].vaddr
  {
    at := [];
    if n > 0 {
      assert coff.relocs[..n][..n - 1] == coff.relocs[..n - 1];
      at := RelativePicked(coff, i, n - 1);
      PickNext(at, n - 1, Referring(coff, i, true));
      at := Picked(at, n - 1, Referring(coff, i, true));
    }
  }

  lemma {:induction false} AbsolutePicked(coff: Coff, i: nat, n: nat) returns (at: seq<nat>)
    requires n <= |coff.relocs|
    ensures Picks(at, n, Referring(coff, i, false)) && |at| == |Absolute(coff.relocs[..n], i)|
    ensures forall k | 0 <= k < |at| :: Absolute(coff.relocs[..n], i)[|at| - 1 - k] == coff.relocs[at[k]].vaddr
  {
    at := [];
    if n > 0 {
      assert coff.relocs[..n][..n - 1] == coff.relocs[..n - 1];
      at := AbsolutePicked(coff, i, n - 1);
      PickNext(at, n - 1, Referring(coff, i, false));
      at := Picked(at, n - 1, Referring(coff, i, false));
    }
  }

  /** The sites of the references to the symbol at i: the relative ones in their order,
      the absolute ones in reverse. */
  ghost predicate SitesAre(coff: Coff, i: nat, u: Unresolved, rel: seq<nat>, abs: seq<nat>) {
    && Picks(rel, |coff.relocs|, Referring(coff, i, true)) && |u.rel| == |rel|
    && Picks(abs, |coff.relocs|, Referring(coff, i, false)) && |u.abs| == |abs|
    && (forall k | 0 <= k < |rel| :: u.rel[k] == coff.relocs[rel[k]].vaddr)
    && (forall k | 0 <= k < |abs| :: u.abs[|abs| - 1 - k] == coff.relocs[abs[k]].vaddr)
  }

  /** The table entry of the symbol at i. */
  ghost predicate EntryIs(coff: Coff, i: nat, u: Unresolved)
    requires i < |coff.syms|
  {
    u.name == coff.syms[i].name && exists rel, abs :: SitesAre(coff, i, u, rel, abs)
  }

  lemma NoReferences(coff: Coff, i: nat)
    ensures Relative(coff.relocs, i) == [] && Absolute(coff.relocs, i) == [] <==> !Referenced(coff, i)
  {
    var n := |coff.relocs|;
    assert coff.relocs[..n] == coff.relocs;
    var rel := RelativePicked(coff, i, n);
    var abs := AbsolutePicked(coff, i, n);
    if Referenced(coff, i) {
      var k :| 0 <= k < n && coff.relocs[k].symndx == i;
      assert Referring(coff, i, coff.relocs[k].relative)(k);
      assert k in rel || k in abs;
    }
    if rel != [] { FirstRefers(coff, i, true, rel); }
    if abs != [] { FirstRefers(coff, i, false, abs); }
  }

  lemma FirstRefers(coff: Coff, i: nat, relative: bool, at: seq<nat>)
    requires at != [] && Picks(at, |coff.relocs|, Referring(coff, i, relative))
    ensures Referenced(coff, i)
  {
    assert Referring(coff, i, relative)(at[0]);
  }

  lemma EntryMeans(coff: Coff, i: nat)
    requires i < |coff.syms|
    ensures Entry(coff, i) != [] <==> Outside(coff.syms[i]) && Referenced(coff, i)
    ensures Entry(coff, i) != [] ==> |Entry(coff, i)| == 1 && EntryIs(coff, i, Entry(coff, i)[0])
  {
    NoReferences(coff, i);
    if Entry(coff, i) != [] {
      assert coff.relocs[..|coff.relocs|] == coff.relocs;
      var rel := RelativePicked(coff, i, |coff.relocs|);
      var abs := AbsolutePicked(coff, i, |coff.relocs|);
      assert SitesAre(coff, i, Entry(coff, i)[0], rel, abs);
    }
  }

  /** The symbols of other modules that are needed. */
  ghost function Needed(coff: Coff, stops: seq<nat>): nat -> bool {
    (j: nat) => j < |stops| && stops[j] < |coff.syms| && Outside(coff.syms[stops[j]]) && Referenced(coff, stops[j])
  }

  lemma {:induction false} EntriesPicked(coff: Coff, stops: seq<nat>, n: nat) returns (at: seq<nat>)
    requires Indices(coff, stops) && n <= |stops|
    ensures Indices(coff, stops[..n]) && Picks(at, n, Needed(coff, stops)) && |at| == |Entries(coff, stops[..n])|
    ensures forall k | 0 <= k < |at| :: EntryIs(coff, stops[at[k]], Entries(coff, stops[..n])[k])
  {
    at := [];
    if n > 0 {
      assert stops[..n][..n - 1] == stops[..n - 1];
      at := EntriesPicked(coff, stops, n - 1);
      PickNext(at, n - 1, Needed(coff, stops));
      EntryMeans(coff, stops[n - 1]);
      at := Picked(at, n - 1, Needed(coff, stops));
    }
  }

  /** A relocation against a symbol of another module. */
  ghost predicate Foreign(coff: Coff, stops: seq<nat>, r: Reloc) {
    exists j :: 0 <= j < |stops| && stops[j] == r.symndx && r.symndx < |coff.syms| && Outside(coff.syms[r.symndx])
  }

  lemma ForeignGone(coff: Coff, r: Reloc)
    ensures Foreign(coff, Stops(coff.syms, 0), r) <==> r.symndx in Gone(coff)
  {
    var stops := Stops(coff.syms, 0);
    StopsRise(coff.syms, 0);
    if Foreign(coff, stops, r) {
      var j :| 0 <= j < |stops| && stops[j] == r.symndx;
      assert stops[j] in stops;
    }
    if r.symndx in Gone(coff) {
      var j :| 0 <= j < |stops| && stops[j] == r.symndx;
    }
  }

  /** What is left to move by the base. */
  ghost function Moving(coff: Coff, stops: seq<nat>): nat -> bool {
    (k: nat) => k < |coff.relocs| && !coff.relocs[k].relative && !Foreign(coff, stops, coff.relocs[k])
  }

  lemma {:induction false} RemainingPicked(coff: Coff, n: nat) returns (at: seq<nat>)
    requires n <= |coff.relocs|
    ensures Picks(at, n, Moving(coff, Stops(coff.syms, 0))) && |at| == |Remaining(coff.relocs[..n], Gone(coff))|
    ensures forall k | 0 <= k < |at| :: Remaining(coff.relocs[..n], Gone(coff))[k] == coff.relocs[at[k]].vaddr
  {
    at := [];
    if n > 0 {
      assert coff.relocs[..n][..n - 1] == coff.relocs[..n - 1];
      at := RemainingPicked(coff, n - 1);
      PickNext(at, n - 1, Moving(coff, Stops(coff.syms, 0)));
      ForeignGone(coff, coff.relocs[n - 1]);
      at := Picked(at, n - 1, Moving(coff, Stops(coff.syms, 0)));
    }
  }

  // --------------------------------------------------------------------- the module

  /** The unresolved table, one entry for each symbol that is needed, in their order. */
  ghost predicate UnresolvedAre(coff: Coff, stops: seq<nat>, us: seq<Unresolved>, at: seq<nat>)
    requires Indices(coff, stops)
  {
    && Picks(at, |stops|, Needed(coff, stops)) && |us| == |at|
    && forall k | 0 <= k < |at| :: EntryIs(coff, stops[at[k]], us[k])
  }

  ghost predicate RelocsAre(coff: Coff, stops: seq<nat>, sites: seq<Word>, at: seq<nat>) {
    && Picks(at, |coff.relocs|, Moving(coff, stops)) && |sites| == |at|
    && forall k | 0 <= k < |at| :: sites[k] == coff.relocs[at[k]].vaddr
  }

  ghost predicate ExportsRight(coff: Coff, opts: Options, stops: seq<nat>, exports: seq<Export>)
    requires Indices(coff, stops)
  {
    exists at :: ExportsAre(coff, opts, stops, exports, at)
  }

  ghost predicate UnresolvedRight(coff: Coff, stops: seq<nat>, us: seq<Unresolved>)
    requires Indices(coff, stops)
  {
    exists at :: UnresolvedAre(coff, stops, us, at)
  }

  ghost predicate RelocsRight(coff: Coff, stops: seq<nat>, sites: seq<Word>) {
    exists at :: RelocsAre(coff, stops, sites, at)
  }

  /** The module that an object and the options call for. */
  ghost predicate ImageMeans(coff: Coff, opts: Options, stops: seq<nat>, img: Image)
    requires Indices(coff, stops)
  {
    && ExportsRight(coff, opts, stops, img.exports)
    && LeastBss(coff, stops, |img.data|) && img.data == coff.data[..|img.data|] && img.size == |coff.data|
    && img.deps == opts.deps
    && UnresolvedRight(coff, stops, img.unres) && RelocsRight(coff, stops, img.relocs)
    && LastNamed(coff, stops, "_init", img.init) && LastNamed(coff, stops, "_fini", img.fini)
  }

  lemma ExportsMean(coff: Coff, opts: Options, stops: seq<nat>)
    requires Indices(coff, stops)
    ensures ExportsRight(coff, opts, stops, Exports(coff, stops, opts))
  {
    assert stops[..|stops|] == stops;
    var at := ExportsPicked(coff, opts, stops, |stops|);
    assert ExportsAre(coff, opts, stops, Exports(coff, stops, opts), at);
  }

  lemma EntriesMean(coff: Coff, stops: seq<nat>)
    requires Indices(coff, stops)
    ensures UnresolvedRight(coff, stops, Entries(coff, stops))
  {
    assert stops[..|stops|] == stops;
    var at := EntriesPicked(coff, stops, |stops|);
    assert UnresolvedAre(coff, stops, Entries(coff, stops), at);
  }

  lemma RemainingMean(coff: Coff)
    ensures RelocsRight(coff, Stops(coff.syms, 0), Remaining(coff.relocs, Gone(coff)))
  {
    assert coff.relocs[..|coff.relocs|] == coff.relocs;
    var at := RemainingPicked(coff, |coff.relocs|);
    assert RelocsAre(coff, Stops(coff.syms, 0), Remaining(coff.relocs, Gone(coff)), at);
  }

  lemma DataMean(coff: Coff, opts: Options, stops: seq<nat>, img: Image)
    requires Indices(coff, stops) && img.data == coff.data[..StartBss(coff, stops)] && img.size == |coff.data|
    requires img.init == Entrance(coff, stops, "_init") && img.fini == Entrance(coff, stops, "_fini")
    ensures LeastBss(coff, stops, |img.data|) && img.data == coff.data[..|img.data|]
    ensures LastNamed(coff, stops, "_init", img.init) && LastNamed(coff, stops, "_fini", img.fini)
  {
    StartIs(coff, stops);
    EntranceIs(coff, stops, "_init");
    EntranceIs(coff, stops, "_fini");
  }

  lemma ModuleMeans(coff: Coff, opts: Options)
    ensures Walk(coff.syms, Stops(coff.syms, 0)) && Indices(coff, Stops(coff.syms, 0))
    ensures ImageMeans(coff, opts, Stops(coff.syms, 0), ModuleOf(coff, opts))
  {
    var stops, img := Stops(coff.syms, 0), ModuleOf(coff, opts);
    StopsFollow(coff.syms, 0);
    StopsRise(coff.syms, 0);
    DataMean(coff, opts, stops, img);
    ExportsMean(coff, opts, stops);
    EntriesMean(coff, stops);
    RemainingMean(coff);
  }

  // -------------------------------------------------------------------- the outcome

  /** The symbol at stop j has more references of a kind than 16 bits can count. */
  ghost predicate TooMany(coff: Coff, stops: seq<nat>, j: nat)
    requires Indices(coff, stops)
  {
    && j < |stops| && Needed(coff, stops)(j)
    && exists at, relative :: Picks(at, |coff.relocs|, Referring(coff, stops[j], relative)) && |at| > 0xffff
  }

  /** The module, the number of needed symbols when there may be none, or the name of the
      first with too many references. */
  ghost predicate Meaning(coff: Coff, opts: Options, stops: seq<nat>, r: Outcome)
    requires Indices(coff, stops)
  {
    match r
    case Errors(n) => !opts.unresolved && n > 0 && exists at :: Picks(at, |stops|, Needed(coff, stops)) && |at| == n
    case TooManyRelocations(name) =>
      opts.unresolved && exists j: nat ::
        TooMany(coff, stops, j) && name == coff.syms[stops[j]].name && forall i | 0 <= i < j :: !TooMany(coff, stops, i)
    case Written(n, img) =>
      && n == |img.relocs| && ImageMeans(coff, opts, stops, img)
      && if opts.unresolved then forall j: nat :: !TooMany(coff, stops, j)
         else forall j: nat :: !Needed(coff, stops)(j)
  }

  /** The outcome for an object with these symbols. */
  ghost predicate Correct(coff: Coff, opts: Options, stops: seq<nat>, r: Outcome) {
    Walk(coff.syms, stops) && Meaning(coff, opts, stops, r)
  }

  lemma PicksUnique(at: seq<nat>, bt: seq<nat>, n: nat, P: nat -> bool)
    requires Picks(at, n, P) && Picks(bt, n, P)
    ensures |at| == |bt|
  {
    SameMembers(at, bt);
    SameMembers(bt, at);
  }

  /** A rising list within another is no longer. */
  lemma {:induction false} SameMembers(at: seq<nat>, bt: seq<nat>)
    requires forall j, k | 0 <= j < k < |at| :: at[j] < at[k]
    requires forall k | 0 <= k < |at| :: at[k] in bt
    ensures |at| <= |bt|
  {
    if at != [] {
      var n := |at| - 1;
      var i :| 0 <= i < |bt| && bt[i] == at[n];
      var rest := bt[..i] + bt[i + 1..];
      forall k | 0 <= k < n ensures at[..n][k] in rest {
        var m :| 0 <= m < |bt| && bt[m] == at[k];
        assert rest[if m < i then m else m - 1] == at[k];
      }
      SameMembers(at[..n], rest);
    }
  }

  lemma CountIs(coff: Coff, i: nat, relative: bool) returns (at: seq<nat>)
    ensures Picks(at, |coff.relocs|, Referring(coff, i, relative))
    ensures |at| == if relative then |Relative(coff.relocs, i)| else |Absolute(coff.relocs, i)|
  {
    assert coff.relocs[..|coff.relocs|] == coff.relocs;
    if relative { at := RelativePicked(coff, i, |coff.relocs|); } else { at := AbsolutePicked(coff, i, |coff.relocs|); }
  }

  /** A symbol has too many references exactly if one of its two counts is too large. */
  lemma TooManyCounts(coff: Coff, stops: seq<nat>, j: nat)
    requires Indices(coff, stops) && j < |stops| && Needed(coff, stops)(j)
    ensures TooMany(coff, stops, j) <==>
      |Relative(coff.relocs, stops[j])| > 0xffff || |Absolute(coff.relocs, stops[j])| > 0xffff
  {
    var i, n := stops[j], |coff.relocs|;
    var rel := CountIs(coff, i, true);
    var abs := CountIs(coff, i, false);
    if TooMany(coff, stops, j) {
      var at, relative :| Picks(at, n, Referring(coff, i, relative)) && |at| > 0xffff;
      PicksUnique(at, if relative then rel else abs, n, Referring(coff, i, relative));
    }
  }

  /** Entries that cannot be counted are those of symbols with too many references. */
  lemma TooManyEntry(coff: Coff, stops: seq<nat>, j: nat)
    requires Indices(coff, stops) && j < |stops| && Needed(coff, stops)(j)
    ensures Entry(coff, stops[j]) != []
    ensures TooMany(coff, stops, j) <==> !Countable(Entry(coff, stops[j])[0])
  {
    NoReferences(coff, stops[j]);
    TooManyCounts(coff, stops, j);
  }

  lemma NeededIn(at: seq<nat>, n: nat, P: nat -> bool, j: nat) returns (k: nat)
    requires Picks(at, n, P) && j < n && P(j)
    ensures k < |at| && at[k] == j
  {
    k :| 0 <= k < |at| && at[k] == j;
  }

  /** The entries, each with the stop it comes from. */
  lemma {:induction false} EntryAt(coff: Coff, stops: seq<nat>, n: nat) returns (at: seq<nat>)
    requires Indices(coff, stops) && n <= |stops|
    ensures Indices(coff, stops[..n]) && Picks(at, n, Needed(coff, stops)) && |at| == |Entries(coff, stops[..n])|
    ensures forall k | 0 <= k < |at| ::
      var e := Entry(coff, stops[at[k]]); e != [] && Entries(coff, stops[..n])[k] == e[0]
  {
    at := [];
    if n > 0 {
      assert stops[..n][..n - 1] == stops[..n - 1];
      at := EntryAt(coff, stops, n - 1);
      PickNext(at, n - 1, Needed(coff, stops));
      EntryMeans(coff, stops[n - 1]);
      at := Picked(at, n - 1, Needed(coff, stops));
    }
  }

  /** at[k] is the stop that entry k comes from. */
  ghost predicate EntriesFrom(coff: Coff, stops: seq<nat>, at: seq<nat>)
    requires Indices(coff, stops)
  {
    && Picks(at, |stops|, Needed(coff, stops)) && |at| == |Entries(coff, stops)|
    && forall k | 0 <= k < |at| ::
         var e := Entry(coff, stops[at[k]]); e != [] && Entries(coff, stops)[k] == e[0]
  }

  lemma TooManyFirst(coff: Coff, stops: seq<nat>, at: seq<nat>, k: nat)
    requires Indices(coff, stops) && EntriesFrom(coff, stops, at)
    requires k < |at| && UncountableAt(Entries(coff, stops), k)
    ensures TooMany(coff, stops, at[k]) && Entries(coff, stops)[k].name == coff.syms[stops[at[k]]].name
    ensures forall i | 0 <= i < at[k] :: !TooMany(coff, stops, i)
  {
    TooManyEntry(coff, stops, at[k]);
    forall i: nat | TooMany(coff, stops, i) ensures at[k] <= i {
      TooManyEntry(coff, stops, i);
      var m := NeededIn(at, |stops|, Needed(coff, stops), i);
      assert m >= k;
    }
  }

  lemma NoneTooMany(coff: Coff, stops: seq<nat>, at: seq<nat>)
    requires Indices(coff, stops) && EntriesFrom(coff, stops, at)
    ensures (exists j: nat :: TooMany(coff, stops, j)) ==>
      exists k :: 0 <= k < |at| && !Countable(Entries(coff, stops)[k])
  {
    if j: nat :| TooMany(coff, stops, j) {
      TooManyEntry(coff, stops, j);
      var k := NeededIn(at, |stops|, Needed(coff, stops), j);
      assert !Countable(Entries(coff, stops)[k]);
    }
  }

  lemma NoneNeeded(coff: Coff, stops: seq<nat>, at: seq<nat>)
    requires Picks(at, |stops|, Needed(coff, stops)) && at == []
    ensures forall j: nat :: !Needed(coff, stops)(j)
  {
    forall j: nat | Needed(coff, stops)(j) ensures j in at { }
  }

  lemma FatalMeans(coff: Coff, opts: Options, stops: seq<nat>, at: seq<nat>, name: string)
    requires Indices(coff, stops) && EntriesFrom(coff, stops, at)
    requires opts.unresolved && stops == Stops(coff.syms, 0) && FirstUncountable(coff, name)
    ensures Meaning(coff, opts, stops, TooManyRelocations(name))
  {
    var entries := Entries(coff, stops);
    var k :| 0 <= k < |entries| && UncountableAt(entries, k) && entries[k].name == name;
    TooManyFirst(coff, stops, at, k);
  }

  lemma ErrorsMean(coff: Coff, opts: Options, stops: seq<nat>, at: seq<nat>, n: nat)
    requires Indices(coff, stops) && Picks(at, |stops|, Needed(coff, stops)) && |at| == n > 0 && !opts.unresolved
    ensures Meaning(coff, opts, stops, Errors(n))
  {
  }

  lemma WrittenMeans(coff: Coff, opts: Options, stops: seq<nat>, img: Image, n: nat)
    requires Indices(coff, stops) && ImageMeans(coff, opts, stops, img) && n == |img.relocs|
    requires if opts.unresolved then forall j: nat :: !TooMany(coff, stops, j)
      else forall j: nat :: !Needed(coff, stops)(j)
    ensures Meaning(coff, opts, stops, Written(n, img))
  {
  }

  /** What write_dxe is expected to do is what it should mean. */
  lemma ExpectedMeans(coff: Coff, opts: Options, r: Outcome)
    requires Expected(coff, opts, r)
    ensures Correct(coff, opts, Stops(coff.syms, 0), r)
  {
    var stops := Stops(coff.syms, 0);
    StopsFollow(coff.syms, 0);
    StopsRise(coff.syms, 0);
    assert stops[..|stops|] == stops;
    var at := EntryAt(coff, stops, |stops|);
    match r
    case Errors(n) => ErrorsMean(coff, opts, stops, at, n);
    case TooManyRelocations(name) => FatalMeans(coff, opts, stops, at, name);
    case Written(n, img) =>
      ModuleMeans(coff, opts);
      if opts.unresolved { NoneTooMany(coff, stops, at); } else { NoneNeeded(coff, stops, at); }
      WrittenMeans(coff, opts, stops, img, n);
  }

  // -------------------------------------------------------------- the linked section

  /** The object's own bytes, zero from the first .bss symbol on. */
  ghost function Original(coff: Coff, stops: seq<nat>): (s: seq<Byte>)
    requires Indices(coff, stops)
    ensures |s| == |coff.data|
  {
    seq(|coff.data|, k requires 0 <= k < |coff.data| =>
      if exists j :: BssAt(coff, stops, j) && coff.syms[stops[j]].value <= k then 0 else coff.data[k])
  }

  /** A relocation that changes its field. */
  ghost predicate Acts(coff: Coff, stops: seq<nat>, r: Reloc) { Foreign(coff, stops, r) || !r.relative }

  predicate Overlap(r: Reloc, q: Reloc) { r.vaddr < q.vaddr + 4 && q.vaddr < r.vaddr + 4 }

  /** No two relocations change the same byte. */
  ghost predicate Disjoint(coff: Coff, stops: seq<nat>) {
    forall i, j |
      0 <= i < j < |coff.relocs| && Acts(coff, stops, coff.relocs[i]) && Acts(coff, stops, coff.relocs[j]) ::
      !Overlap(coff.relocs[i], coff.relocs[j])
  }

  /** The field of a relocation: a relative reference to another module gives the target
      when the end of the field in memory is added, an absolute one has gained the target,
      and an absolute one within the module the base. */
  ghost predicate FieldIs(coff: Coff, stops: seq<nat>, base: Word, addr: string -> Word, r: Reloc, was: int, now: int)
    requires r.symndx < |coff.syms|
  {
    var target := addr(coff.syms[r.symndx].name);
    if Foreign(coff, stops, r) then
      if r.relative then (base + r.vaddr + 4 + now) % 0x1_0000_0000 == target else now == (was + target) % 0x1_0000_0000
    else !r.relative ==> now == (was + base) % 0x1_0000_0000
  }

  ghost predicate Relocated(coff: Coff, stops: seq<nat>, base: Word, addr: string -> Word, section: seq<Byte>)
    requires ValidCoff(coff) && Indices(coff, stops)
  {
    var was := Original(coff, stops);
    && |section| == |coff.data|
    && (forall r | r in coff.relocs ::
          FieldIs(coff, stops, base, addr, r, Number(was, r.vaddr), Number(section, r.vaddr)))
    && (forall k | 0 <= k < |section| && section[k] != was[k] ::
          exists r | r in coff.relocs :: Acts(coff, stops, r) && r.vaddr <= k < r.vaddr + 4)
  }

  /** The section of an object with these symbols. */
  ghost predicate CorrectSection(coff: Coff, stops: seq<nat>, base: Word, addr: string -> Word, section: seq<Byte>)
    requires ValidCoff(coff)
  {
    Walk(coff.syms, stops) && Relocated(coff, stops, base, addr, section)
  }

  lemma PaddedOriginal(coff: Coff, opts: Options)
    ensures Walk(coff.syms, Stops(coff.syms, 0)) && |ModuleOf(coff, opts).data| <= ModuleOf(coff, opts).size
    ensures Padded(ModuleOf(coff, opts)) == Original(coff, Stops(coff.syms, 0))
  {
    var stops, img := Stops(coff.syms, 0), ModuleOf(coff, opts);
    StopsFollow(coff.syms, 0);
    StopsRise(coff.syms, 0);
    StartIs(coff, stops);
    var s, o := Padded(img), Original(coff, stops);
    forall k | 0 <= k < |coff.data| ensures s[k] == o[k] {
      if k >= |img.data| {
        var j :| BssAt(coff, stops, j) && |img.data| == coff.syms[stops[j]].value;
        assert BssAt(coff, stops, j) && coff.syms[stops[j]].value <= k;
      }
    }
  }

  lemma {:induction false} EditOf(coff: Coff, rs: seq<Reloc>, r: Reloc, base: Word, addr: string -> Word)
    requires InTable(coff, rs) && r in rs
    ensures r.symndx < |coff.syms|
    ensures DirectEdit(coff, r, base, addr) != [] ==>
      DirectEdit(coff, r, base, addr)[0] in multiset(DirectEdits(coff, rs, base, addr))
  {
    var n := |rs| - 1;
    assert rs == rs[..n] + [rs[n]];
    if r != rs[n] { EditOf(coff, rs[..n], r, base, addr); }
  }

  lemma {:induction false} EditFrom(coff: Coff, rs: seq<Reloc>, e: Edit, base: Word, addr: string -> Word)
    returns (r: Reloc)
    requires InTable(coff, rs) && e in multiset(DirectEdits(coff, rs, base, addr))
    ensures r in rs && r.symndx < |coff.syms| && DirectEdit(coff, r, base, addr) == [e]
  {
    var n := |rs| - 1;
    assert rs == rs[..n] + [rs[n]];
    if e in DirectEdit(coff, rs[n], base, addr) {
      r := rs[n];
    } else {
      r := EditFrom(coff, rs[..n], e, base, addr);
    }
  }

  /** Who changes a field, and where. */
  lemma EditActs(coff: Coff, r: Reloc, base: Word, addr: string -> Word)
    requires r.symndx < |coff.syms|
    ensures DirectEdit(coff, r, base, addr) != [] <==> Acts(coff, Stops(coff.syms, 0), r)
    ensures Acts(coff, Stops(coff.syms, 0), r) ==>
      |DirectEdit(coff, r, base, addr)| == 1 && DirectEdit(coff, r, base, addr)[0].site == r.vaddr
  {
    ForeignGone(coff, r);
  }

  lemma FieldOf(coff: Coff, r: Reloc, base: Word, addr: string -> Word, was: Word, now: Word)
    requires r.symndx < |coff.syms|
    requires DirectEdit(coff, r, base, addr) != [] ==> now == Edited(DirectEdit(coff, r, base, addr)[0], was)
    ensures FieldIs(coff, Stops(coff.syms, 0), base, addr, r, was, now)
  {
    ForeignGone(coff, r);
    FarTarget(base, r.vaddr, addr(coff.syms[r.symndx].name));
  }

  /** A fix of an earlier relocation does not meet that of the next. */
  lemma EditAway(coff: Coff, n: nat, f: Edit, base: Word, addr: string -> Word)
    requires ValidCoff(coff) && n < |coff.relocs| && Disjoint(coff, Stops(coff.syms, 0))
    requires Acts(coff, Stops(coff.syms, 0), coff.relocs[n])
    requires f in multiset(DirectEdits(coff, coff.relocs[..n], base, addr))
    ensures f.site + 4 <= coff.relocs[n].vaddr || coff.relocs[n].vaddr + 4 <= f.site
  {
    var q := EditFrom(coff, coff.relocs[..n], f, base, addr);
    EditActs(coff, q, base, addr);
    var i :| 0 <= i < n && coff.relocs[..n][i] == q;
    assert coff.relocs[i] == q;
  }

  lemma {:induction false} DisjointApart(coff: Coff, n: nat, base: Word, addr: string -> Word)
    requires ValidCoff(coff) && n <= |coff.relocs| && Disjoint(coff, Stops(coff.syms, 0))
    ensures Apart(multiset(DirectEdits(coff, coff.relocs[..n], base, addr)))
  {
    if n > 0 {
      var rs, r := coff.relocs[..n - 1], coff.relocs[n - 1];
      assert coff.relocs[..n][..n - 1] == rs;
      DisjointApart(coff, n - 1, base, addr);
      EditActs(coff, r, base, addr);
      var es := DirectEdits(coff, rs, base, addr);
      if Acts(coff, Stops(coff.syms, 0), r) {
        var e := DirectEdit(coff, r, base, addr)[0];
        forall f: Edit | f in multiset(es) ensures f.site + 4 <= e.site || e.site + 4 <= f.site {
          EditAway(coff, n - 1, f, base, addr);
        }
        OneMoreApart(es, e);
      }
    }
  }

  lemma FieldsMean(coff: Coff, base: Word, addr: string -> Word, was: seq<Byte>, now: seq<Byte>, r: Reloc)
    requires ValidCoff(coff) && r in coff.relocs && |was| == |now| == |coff.data|
    requires FixedBy(multiset(DirectEdits(coff, coff.relocs, base, addr)), was, now)
    ensures FieldIs(coff, Stops(coff.syms, 0), base, addr, r, Number(was, r.vaddr), Number(now, r.vaddr))
  {
    EditOf(coff, coff.relocs, r, base, addr);
    EditActs(coff, r, base, addr);
    NumberIs(was, r.vaddr);
    NumberIs(now, r.vaddr);
    FieldOf(coff, r, base, addr, Get32(was, r.vaddr), Get32(now, r.vaddr));
  }

  lemma ChangeMeans(coff: Coff, base: Word, addr: string -> Word, was: seq<Byte>, now: seq<Byte>, k: nat)
    returns (r: Reloc)
    requires ValidCoff(coff) && k < |now| == |was| && now[k] != was[k]
    requires FixedBy(multiset(DirectEdits(coff, coff.relocs, base, addr)), was, now)
    ensures r in coff.relocs && Acts(coff, Stops(coff.syms, 0), r) && r.vaddr <= k < r.vaddr + 4
  {
    var es := multiset(DirectEdits(coff, coff.relocs, base, addr));
    var e :| e in es && Touches(e, k);
    r := EditFrom(coff, coff.relocs, e, base, addr);
    EditActs(coff, r, base, addr);
  }

  /** The section after its fixes, in terms of the relocations alone. */
  lemma FixedMeans(coff: Coff, base: Word, addr: string -> Word, section: seq<Byte>)
    requires ValidCoff(coff) && Walk(coff.syms, Stops(coff.syms, 0))
    requires FixedBy(multiset(DirectEdits(coff, coff.relocs, base, addr)), Original(coff, Stops(coff.syms, 0)), section)
    ensures CorrectSection(coff, Stops(coff.syms, 0), base, addr, section)
  {
    var stops := Stops(coff.syms, 0);
    var was := Original(coff, stops);
    forall r | r in coff.relocs
      ensures FieldIs(coff, stops, base, addr, r, Number(was, r.vaddr), Number(section, r.vaddr))
    {
      FieldsMean(coff, base, addr, was, section, r);
    }
    forall k | 0 <= k < |section| && section[k] != was[k]
      ensures exists r | r in coff.relocs :: Acts(coff, stops, r) && r.vaddr <= k < r.vaddr + 4
    {
      var r := ChangeMeans(coff, base, addr, was, section, k);
    }
  }

  /** A name is missing exactly if a relocation refers to it and it has no address. */
  ghost predicate Lacks(coff: Coff, stops: seq<nat>, addr: string -> Word, name: string) {
    addr(name) == 0 && exists r | r in coff.relocs ::
      Foreign(coff, stops, r) && r.symndx < |coff.syms| && coff.syms[r.symndx].name == name
  }

  lemma {:induction false} MissingNames(us: seq<Unresolved>, addr: string -> Word, name: string)
    ensures name in Missing(us, addr) <==> addr(name) == 0 && exists k :: 0 <= k < |us| && us[k].name == name
  {
    if us != [] {
      var n, front := |us| - 1, us[..|us| - 1];
      MissingNames(front, addr, name);
      if us[n].name != name {
        assert forall k | 0 <= k < n :: front[k] == us[k];
      }
    }
  }

  lemma EntryLacks(coff: Coff, stops: seq<nat>, us: seq<Unresolved>, at: seq<nat>, addr: string -> Word, k: nat)
    requires Indices(coff, stops) && UnresolvedAre(coff, stops, us, at) && k < |us| && addr(us[k].name) == 0
    ensures Lacks(coff, stops, addr, us[k].name)
  {
    assert EntryIs(coff, stops[at[k]], us[k]) && Needed(coff, stops)(at[k]);
    var m :| 0 <= m < |coff.relocs| && coff.relocs[m].symndx == stops[at[k]];
    assert coff.relocs[m] in coff.relocs && Foreign(coff, stops, coff.relocs[m]);
  }

  lemma LacksEntry(coff: Coff, stops: seq<nat>, us: seq<Unresolved>, at: seq<nat>, r: Reloc) returns (k: nat)
    requires Indices(coff, stops) && UnresolvedAre(coff, stops, us, at)
    requires r in coff.relocs && Foreign(coff, stops, r)
    ensures r.symndx < |coff.syms| && k < |us| && us[k].name == coff.syms[r.symndx].name
  {
    var j :| 0 <= j < |stops| && stops[j] == r.symndx;
    var m :| 0 <= m < |coff.relocs| && coff.relocs[m] == r;
    assert Referenced(coff, stops[j]);
    k := NeededIn(at, |stops|, Needed(coff, stops), j);
    assert EntryIs(coff, stops[at[k]], us[k]);
  }

  lemma MissingMeans(coff: Coff, stops: seq<nat>, us: seq<Unresolved>, addr: string -> Word, name: string)
    requires Indices(coff, stops) && UnresolvedRight(coff, stops, us)
    ensures name in Missing(us, addr) <==> Lacks(coff, stops, addr, name)
  {
    MissingNames(us, addr, name);
    var at :| UnresolvedAre(coff, stops, us, at);
    if name in Missing(us, addr) {
      var k :| 0 <= k < |us| && us[k].name == name;
      EntryLacks(coff, stops, us, at, addr, k);
    }
    if Lacks(coff, stops, addr, name) {
      var r :| r in coff.relocs && Foreign(coff, stops, r) && coff.syms[r.symndx].name == name;
      var k := LacksEntry(coff, stops, us, at, r);
    }
  }
}
