/** Turning a linked COFF object into a DXE3 module (write_dxe in
    src/dxe/dxe3gen.c) and what that means once the module is loaded. */
module DxeGen {
  import opened Bits
  import opened DxeImage

  datatype Class = Static | External | OtherClass

  /** A symbol table entry; `numaux` auxiliary entries follow it. */
  datatype Symbol = Symbol(name: string, value: Word, section: int, cls: Class, numaux: nat)

  datatype Reloc = Reloc(vaddr: Word, symndx: Word, relative: bool)

  datatype Coff = Coff(data: seq<Byte>, syms: seq<Symbol>, relocs: seq<Reloc>)

  datatype Options = Options(unresolved: bool, excluded: seq<string>, prefixes: seq<string>, deps: seq<string>)

  /** Leaving with an error count, with too many references, or with a module. */
  datatype Outcome = Errors(count: nat) | TooManyRelocations(name: string) | Written(nrelocs: nat, img: Image)

  const MARK: Word := 0xffff_ffff

  /** Tables as a linker writes them: every relocation names a symbol entry and a
      field of the section. */
  ghost predicate ValidCoff(coff: Coff) {
    && |coff.syms| <= 0xffff_ffff
    && forall i | 0 <= i < |coff.relocs| ::
         coff.relocs[i].symndx < |coff.syms| && coff.relocs[i].vaddr + 4 <= |coff.data|
  }

  /** The entries that are symbols: those the scan of line 998 stops at. */
  function Stops(syms: seq<Symbol>, i: nat): seq<nat>
    decreases |syms| - i
  {
    if i >= |syms| then [] else [i] + Stops(syms, i + 1 + syms[i].numaux)
  }

  predicate IsStop(syms: seq<Symbol>, i: nat) { i in Stops(syms, 0) }

  /** Named, not private, in no section. */
  predicate Undefined(s: Symbol) { s.name != "" && s.cls != Static && s.section == 0 }

  function Relative(relocs: seq<Reloc>, i: nat): seq<Word> {
    if relocs == [] then []
    else
      var n := |relocs| - 1;
      Relative(relocs[..n], i) +
      if relocs[n].symndx == i && relocs[n].relative then [relocs[n].vaddr] else []
  }

  /** Absolute references are written from the end of the entry backwards. */
  function Absolute(relocs: seq<Reloc>, i: nat): seq<Word> {
    if relocs == [] then []
    else
      var n := |relocs| - 1;
      (if relocs[n].symndx == i && !relocs[n].relative then [relocs[n].vaddr] else []) +
      Absolute(relocs[..n], i)
  }

  /** The unresolved table entry of the symbol at i, if it is referred to. */
  function Entry(coff: Coff, i: nat): seq<Unresolved>
    requires i < |coff.syms|
  {
    var rel, abs := Relative(coff.relocs, i), Absolute(coff.relocs, i);
    if Undefined(coff.syms[i]) && !(rel == [] && abs == [])
    then [Unresolved(coff.syms[i].name, rel, abs)] else []
  }

  predicate Indices(coff: Coff, idx: seq<nat>) { forall k | 0 <= k < |idx| :: idx[k] < |coff.syms| }

  function Entries(coff: Coff, idx: seq<nat>): seq<Unresolved>
    requires Indices(coff, idx)
  {
    if idx == [] then []
    else Entries(coff, idx[..|idx| - 1]) + Entry(coff, idx[|idx| - 1])
  }

  /** The relocations left for the loader to move by the base. */
  function Remaining(relocs: seq<Reloc>, gone: set<nat>): seq<Word> {
    if relocs == [] then []
    else
      var n := |relocs| - 1;
      Remaining(relocs[..n], gone) +
      if !relocs[n].relative && relocs[n].symndx !in gone then [relocs[n].vaddr] else []
  }

  /** The stops that are undefined. */
  function Gone(coff: Coff): set<nat> {
    set i | 0 <= i < |coff.syms| && IsStop(coff.syms, i) && Undefined(coff.syms[i])
  }

  // ------------------------------------------------- what the COFF relocations mean

  /** The fix a COFF relocation asks for, applied directly. */
  function DirectEdit(coff: Coff, r: Reloc, base: Word, addr: string -> Word): seq<Edit>
    requires r.symndx < |coff.syms|
  {
    if r.symndx in Gone(coff) then
      var target := addr(coff.syms[r.symndx].name);
      [if r.relative then RelEdit(r.vaddr, base, target) else Increase(r.vaddr, target)]
    else if r.relative then []
    else [Increase(r.vaddr, base)]
  }

  predicate InTable(coff: Coff, rs: seq<Reloc>) { forall i | 0 <= i < |rs| :: rs[i].symndx < |coff.syms| }

  function DirectEdits(coff: Coff, rs: seq<Reloc>, base: Word, addr: string -> Word): seq<Edit>
    requires InTable(coff, rs)
  {
    if rs == [] then []
    else DirectEdits(coff, rs[..|rs| - 1], base, addr) + DirectEdit(coff, rs[|rs| - 1], base, addr)
  }

  // ------------------------------------------------------- the tables hold the same

  /** The fixes for the references in rs to the undefined symbol at i. */
  function SymbolFixes(coff: Coff, rs: seq<Reloc>, i: nat, base: Word, addr: string -> Word): multiset<Edit>
    requires i < |coff.syms|
  {
    if Undefined(coff.syms[i]) then
      var target := addr(coff.syms[i].name);
      multiset(RelEdits(Relative(rs, i), base, target)) + multiset(AddEdits(Absolute(rs, i), target))
    else multiset{}
  }

  function TableFixes(coff: Coff, rs: seq<Reloc>, idx: seq<nat>, base: Word, addr: string -> Word): multiset<Edit>
    requires Indices(coff, idx)
  {
    if idx == [] then multiset{}
    else TableFixes(coff, rs, idx[..|idx| - 1], base, addr) + SymbolFixes(coff, rs, idx[|idx| - 1], base, addr)
  }

  /** Every name the entries mention has an address. */
  ghost predicate Addressed(us: seq<Unresolved>, addr: string -> Word) {
    forall i | 0 <= i < |us| :: addr(us[i].name) != 0
  }

  lemma {:induction false} EntriesFix(coff: Coff, idx: seq<nat>, base: Word, addr: string -> Word)
    requires Indices(coff, idx) && Addressed(Entries(coff, idx), addr)
    ensures multiset(UnresEdits(Entries(coff, idx), base, addr)) == TableFixes(coff, coff.relocs, idx, base, addr)
  {
    if idx != [] {
      var n := |idx| - 1;
      var front, last := Entries(coff, idx[..n]), Entry(coff, idx[n]);
      assert Entries(coff, idx) == front + last;
      assert forall i | 0 <= i < |front| :: front[i] == Entries(coff, idx)[i];
      EntriesFix(coff, idx[..n], base, addr);
      if last == [] {
        assert front + last == front;
        assert SymbolFixes(coff, coff.relocs, idx[n], base, addr) == multiset{};
      } else {
        var u := last[0];
        assert (front + last)[|front|] == u && (front + last)[..|front|] == front;
        assert addr(u.name) != 0;
        assert multiset(SymbolEdits(u, base, addr(u.name))) ==
          SymbolFixes(coff, coff.relocs, idx[n], base, addr);
      }
    }
  }

  function FixOf(coff: Coff, r: Reloc, base: Word, addr: string -> Word): Edit
    requires r.symndx < |coff.syms|
  {
    var target := addr(coff.syms[r.symndx].name);
    if r.relative then RelEdit(r.vaddr, base, target) else Increase(r.vaddr, target)
  }

  /** The fix of r when its symbol is undefined and among those looked at. */
  function Extra(coff: Coff, r: Reloc, seen: bool, base: Word, addr: string -> Word): multiset<Edit>
    requires r.symndx < |coff.syms|
  {
    if seen && Undefined(coff.syms[r.symndx]) then multiset{FixOf(coff, r, base, addr)} else multiset{}
  }

  /** One more relocation adds its fix to the one entry of its symbol. */
  lemma {:induction false} TableFixesGrow(coff: Coff, rs: seq<Reloc>, r: Reloc, idx: seq<nat>, base: Word,
                                          addr: string -> Word)
    requires Indices(coff, idx) && r.symndx < |coff.syms|
    requires forall j, k | 0 <= j < k < |idx| :: idx[j] != idx[k]
    ensures TableFixes(coff, rs + [r], idx, base, addr) ==
      TableFixes(coff, rs, idx, base, addr) + Extra(coff, r, r.symndx in idx, base, addr)
  {
    if idx != [] {
      var n := |idx| - 1;
      var before, here := r.symndx in idx[..n], r.symndx == idx[n];
      InFront(idx, r.symndx);
      TableFixesGrow(coff, rs, r, idx[..n], base, addr);
      SymbolFixesGrow(coff, rs, r, idx[n], base, addr);
      SumGrows(
        TableFixes(coff, rs, idx[..n], base, addr), SymbolFixes(coff, rs, idx[n], base, addr),
        Extra(coff, r, before, base, addr), Extra(coff, r, here, base, addr),
        Extra(coff, r, before || here, base, addr));
    }
  }

  lemma InFront(idx: seq<nat>, i: nat)
    requires idx != [] && forall j, k | 0 <= j < k < |idx| :: idx[j] != idx[k]
    ensures var n := |idx| - 1;
      (i in idx <==> i in idx[..n] || i == idx[n]) && !(i in idx[..n] && i == idx[n])
  {
  }

  lemma SumGrows(a: multiset<Edit>, b: multiset<Edit>, x: multiset<Edit>, y: multiset<Edit>, z: multiset<Edit>)
    requires z == x + y
    ensures (a + x) + (b + y) == (a + b) + z
  {
  }

  lemma SymbolFixesGrow(coff: Coff, rs: seq<Reloc>, r: Reloc, i: nat, base: Word, addr: string -> Word)
    requires i < |coff.syms| && r.symndx < |coff.syms|
    ensures SymbolFixes(coff, rs + [r], i, base, addr) ==
      SymbolFixes(coff, rs, i, base, addr) + Extra(coff, r, r.symndx == i, base, addr)
  {
    assert (rs + [r])[..|rs|] == rs;
    if r.symndx == i && Undefined(coff.syms[i]) {
      var target := addr(coff.syms[i].name);
      if r.relative {
        assert RelEdits(Relative(rs + [r], i), base, target) ==
          RelEdits(Relative(rs, i), base, target) + [RelEdit(r.vaddr, base, target)];
        assert Absolute(rs + [r], i) == Absolute(rs, i);
      } else {
        assert AddEdits(Absolute(rs + [r], i), target) ==
          [Increase(r.vaddr, target)] + AddEdits(Absolute(rs, i), target);
        assert Relative(rs + [r], i) == Relative(rs, i);
      }
    } else if r.symndx != i {
      assert Relative(rs + [r], i) == Relative(rs, i);
      assert Absolute(rs + [r], i) == Absolute(rs, i);
    }
  }

  /** Table by table, the loader's fixes are those of the relocations one by one. */
  lemma {:induction false} SameFixes(coff: Coff, rs: seq<Reloc>, idx: seq<nat>, base: Word, addr: string -> Word)
    requires Indices(coff, idx) && InTable(coff, rs)
    requires forall j, k | 0 <= j < k < |idx| :: idx[j] != idx[k]
    requires forall i | 0 <= i < |coff.syms| :: i in Gone(coff) <==> i in idx && Undefined(coff.syms[i])
    ensures TableFixes(coff, rs, idx, base, addr) + multiset(AddEdits(Remaining(rs, Gone(coff)), base))
         == multiset(DirectEdits(coff, rs, base, addr))
  {
    if rs == [] {
      EmptyTableFixes(coff, idx, base, addr);
    } else {
      var n := |rs| - 1;
      var front, r := rs[..n], rs[n];
      assert rs == front + [r];
      SameFixes(coff, front, idx, base, addr);
      TableFixesGrow(coff, front, r, idx, base, addr);
      RemainingGrows(front, r, Gone(coff), base);
    }
  }

  lemma RemainingGrows(front: seq<Reloc>, r: Reloc, gone: set<nat>, base: Word)
    ensures multiset(AddEdits(Remaining(front + [r], gone), base)) ==
      multiset(AddEdits(Remaining(front, gone), base)) +
      if !r.relative && r.symndx !in gone then multiset([Increase(r.vaddr, base)]) else multiset{}
  {
    assert (front + [r])[..|front|] == front;
    if !r.relative && r.symndx !in gone {
      assert AddEdits(Remaining(front + [r], gone), base) ==
        AddEdits(Remaining(front, gone), base) + [Increase(r.vaddr, base)];
    } else {
      assert Remaining(front + [r], gone) == Remaining(front, gone);
    }
  }

  lemma {:induction false} EmptyTableFixes(coff: Coff, idx: seq<nat>, base: Word, addr: string -> Word)
    requires Indices(coff, idx)
    ensures TableFixes(coff, [], idx, base, addr) == multiset{}
  {
    if idx != [] { EmptyTableFixes(coff, idx[..|idx| - 1], base, addr); }
  }

  // ------------------------------------------------------------ the stops of the scan

  lemma {:induction false} StopsRise(syms: seq<Symbol>, i: nat)
    ensures forall k | 0 <= k < |Stops(syms, i)| :: i <= Stops(syms, i)[k] < |syms|
    ensures forall j, k | 0 <= j < k < |Stops(syms, i)| :: Stops(syms, i)[j] != Stops(syms, i)[k]
    decreases |syms| - i
  {
    if i < |syms| { StopsRise(syms, i + 1 + syms[i].numaux); }
  }

  // -------------------------------------------------------------------- the module

  predicate HasPrefix(prefixes: seq<string>, name: string) {
    exists i :: 0 <= i < |prefixes| && prefixes[i] <= name
  }

  const RESERVED: set<string> := {
    "djgpp_first_ctor", "djgpp_last_ctor", "djgpp_first_dtor", "djgpp_last_dtor",
    "___EH_FRAME_BEGIN__", "___EH_FRAME_END__"
  }

  predicate Defined(s: Symbol) { s.name != "" && s.cls == External && s.section != 0 }

  /** Lines 1120-1171: what the name and the options let through. */
  predicate Exported(s: Symbol, opts: Options) {
    && Defined(s) && s.name != "_init" && s.name != "_fini"
    && !("__GLOBAL_$" <= s.name) && s.name !in RESERVED
    && !HasPrefix(opts.excluded, s.name)
    && (opts.prefixes != [] ==> HasPrefix(opts.prefixes, s.name))
  }

  function Exports(coff: Coff, idx: seq<nat>, opts: Options): seq<Export>
    requires Indices(coff, idx)
  {
    if idx == [] then []
    else
      var s := coff.syms[idx[|idx| - 1]];
      Exports(coff, idx[..|idx| - 1], opts) + if Exported(s, opts) then [Export(s.name, s.value)] else []
  }

  /** The value of the last definition of a name, -1 without one. */
  function Entrance(coff: Coff, idx: seq<nat>, name: string): int
    requires Indices(coff, idx)
  {
    if idx == [] then -1
    else
      var s := coff.syms[idx[|idx| - 1]];
      if Defined(s) && s.name == name then s.value else Entrance(coff, idx[..|idx| - 1], name)
  }

  /** Where the uninitialised part starts: the least value of a ".bss" symbol. */
  function StartBss(coff: Coff, idx: seq<nat>): (start: nat)
    requires Indices(coff, idx)
    ensures start <= |coff.data|
  {
    if idx == [] then |coff.data|
    else
      var s, before := coff.syms[idx[|idx| - 1]], StartBss(coff, idx[..|idx| - 1]);
      if s.name == ".bss" && before > s.value then s.value else before
  }

  function ModuleOf(coff: Coff, opts: Options): Image {
    StopsRise(coff.syms, 0);
    var idx := Stops(coff.syms, 0);
    Image(
      Exports(coff, idx, opts),
      coff.data[..StartBss(coff, idx)],
      |coff.data|,
      opts.deps,
      Entries(coff, idx),
      Remaining(coff.relocs, Gone(coff)),
      Entrance(coff, idx, "_init"),
      Entrance(coff, idx, "_fini"))
  }

  predicate Countable(u: Unresolved) { |u.rel| <= 0xffff && |u.abs| <= 0xffff }

  // ------------------------------------------------------- loading equals relocating

  lemma {:induction false} SitesOf(rs: seq<Reloc>, i: nat, gone: set<nat>, size: nat)
    requires forall k | 0 <= k < |rs| :: rs[k].vaddr + 4 <= size
    ensures SitesInside(Relative(rs, i), size) && SitesInside(Absolute(rs, i), size)
    ensures SitesInside(Remaining(rs, gone), size)
  {
    if rs != [] { SitesOf(rs[..|rs| - 1], i, gone, size); }
  }

  lemma {:induction false} EntriesInside(coff: Coff, idx: seq<nat>)
    requires ValidCoff(coff) && Indices(coff, idx)
    ensures forall k | 0 <= k < |Entries(coff, idx)| ::
      SitesInside(Entries(coff, idx)[k].rel, |coff.data|) && SitesInside(Entries(coff, idx)[k].abs, |coff.data|)
  {
    if idx != [] {
      EntriesInside(coff, idx[..|idx| - 1]);
      SitesOf(coff.relocs, idx[|idx| - 1], {}, |coff.data|);
    }
  }

  lemma ModuleWellFormed(coff: Coff, opts: Options)
    requires ValidCoff(coff)
    ensures WellFormed(ModuleOf(coff, opts))
  {
    StopsRise(coff.syms, 0);
    EntriesInside(coff, Stops(coff.syms, 0));
    SitesOf(coff.relocs, 0, Gone(coff), |coff.data|);
  }

  /** Generating with -U and loading at any base, with all names known, gives the
      section on which every COFF relocation has acted exactly once, and nothing
      else. */
  lemma LoadIsRelocation(coff: Coff, opts: Options, base: Word, addr: string -> Word)
    requires ValidCoff(coff)
    requires Missing(ModuleOf(coff, opts).unres, addr) == []
    requires Apart(multiset(DirectEdits(coff, coff.relocs, base, addr)))
    ensures var img := ModuleOf(coff, opts);
      && AllInside(LinkEdits(img, base, addr), img.size) && |img.data| <= img.size
      && FixedBy(multiset(DirectEdits(coff, coff.relocs, base, addr)), Padded(img),
                 ApplyAll(LinkEdits(img, base, addr), Padded(img)))
  {
    var img := ModuleOf(coff, opts);
    var idx := Stops(coff.syms, 0);
    ModuleWellFormed(coff, opts);
    LinkInside(img, base, addr);
    StopsRise(coff.syms, 0);
    NoneMissing(img.unres, addr);
    EntriesFix(coff, idx, base, addr);
    SameFixes(coff, coff.relocs, idx, base, addr);
    assert multiset(LinkEdits(img, base, addr)) == multiset(DirectEdits(coff, coff.relocs, base, addr));
    EditsFix(LinkEdits(img, base, addr), Padded(img));
  }

  lemma {:induction false} NoneMissing(us: seq<Unresolved>, addr: string -> Word)
    ensures Missing(us, addr) == [] <==> Addressed(us, addr)
  {
    if us != [] { NoneMissing(us[..|us| - 1], addr); }
  }

  // -------------------------------------------------------------------- write_dxe

  /** The relocations with the processed ones marked. */
  function Marked(rs: seq<Reloc>, gone: set<nat>): (ms: seq<Reloc>)
    ensures |ms| == |rs|
  {
    seq(|rs|, k requires 0 <= k < |rs| => if rs[k].symndx in gone then rs[k].(symndx := MARK) else rs[k])
  }

  lemma {:induction false} MarkedReferences(rs: seq<Reloc>, gone: set<nat>, i: nat)
    requires i !in gone && i != MARK
    ensures Relative(Marked(rs, gone), i) == Relative(rs, i)
    ensures Absolute(Marked(rs, gone), i) == Absolute(rs, i)
  {
    if rs != [] {
      var n := |rs| - 1;
      MarkedReferences(rs[..n], gone, i);
      assert Marked(rs, gone)[..n] == Marked(rs[..n], gone);
    }
  }

  lemma OneMoreReference(rs: seq<Reloc>, i: nat, j: nat)
    requires j < |rs|
    ensures Relative(rs[..j + 1], i) ==
      Relative(rs[..j], i) + (if rs[j].symndx == i && rs[j].relative then [rs[j].vaddr] else [])
    ensures Absolute(rs[..j + 1], i) ==
      (if rs[j].symndx == i && !rs[j].relative then [rs[j].vaddr] else []) + Absolute(rs[..j], i)
  {
    var upTo := rs[..j + 1];
    assert upTo[..|upTo| - 1] == rs[..j] && upTo[|upTo| - 1] == rs[j];
  }

  /** Lines 1045-1054. */
  method CountReferences(relocs: array<Reloc>, i: nat) returns (nRel: nat, nAbs: nat)
    ensures nRel == |Relative(relocs[..], i)| && nAbs == |Absolute(relocs[..], i)|
  {
    nRel, nAbs := 0, 0;
    ghost var rs := relocs[..];
    var j := 0;
    while j < relocs.Length
      invariant 0 <= j <= relocs.Length
      invariant nRel == |Relative(rs[..j], i)| && nAbs == |Absolute(rs[..j], i)|
    {
      OneMoreReference(rs, i, j);
      if relocs[j].symndx == i {
        if relocs[j].relative { nRel := nRel + 1; } else { nAbs := nAbs + 1; }
      }
      j := j + 1;
    }
    assert rs[..j] == rs;
  }

  /** Lines 1099-1116: the relative references are stored forwards from the start,
      the absolute ones backwards from the end, and all of them are marked. */
  method TakeReferences(relocs: array<Reloc>, i: nat) returns (rel: seq<Word>, abs: seq<Word>)
    requires i != MARK
    modifies relocs
    ensures rel == Relative(old(relocs[..]), i) && abs == Absolute(old(relocs[..]), i)
    ensures relocs[..] == Marked(old(relocs[..]), {i})
  {
    rel, abs := [], [];
    var j := 0;
    ghost var rs := relocs[..];
    ghost var ms := Marked(rs, {i});
    while j < relocs.Length
      invariant 0 <= j <= relocs.Length
      invariant forall k | 0 <= k < relocs.Length :: relocs[k] == if k < j then ms[k] else rs[k]
      invariant rel == Relative(rs[..j], i) && abs == Absolute(rs[..j], i)
    {
      OneMoreReference(rs, i, j);
      var r := relocs[j];
      if r.symndx == i {
        if r.relative { rel := rel + [r.vaddr]; } else { abs := [r.vaddr] + abs; }
        relocs[j] := r.(symndx := MARK);
      }
      j := j + 1;
    }
    assert rs[..j] == rs;
  }

  /** Lines 1203-1210 and 1281-1285: the count starts at all of them. */
  method LeftOver(relocs: array<Reloc>, ghost rs: seq<Reloc>, ghost gone: set<nat>)
    returns (nrelocs: int, out: seq<Word>)
    requires relocs[..] == Marked(rs, gone) && MARK !in gone
    requires forall k | 0 <= k < |rs| :: rs[k].symndx != MARK
    ensures out == Remaining(rs, gone) && nrelocs == |out|
  {
    nrelocs, out := relocs.Length, [];
    var i := 0;
    while i < relocs.Length
      invariant 0 <= i <= relocs.Length
      invariant out == Remaining(rs[..i], gone) && nrelocs == |out| + relocs.Length - i
    {
      assert rs[..i + 1][..i] == rs[..i] && relocs[i] == Marked(rs, gone)[i];
      if relocs[i].relative || relocs[i].symndx == MARK {
        nrelocs := nrelocs - 1;
      } else {
        out := out + [relocs[i].vaddr];
      }
      i := i + 1;
    }
    assert rs[..i] == rs;
  }

  /** The undefined symbols among those looked at. */
  function GoneIn(coff: Coff, seen: seq<nat>): set<nat>
    requires Indices(coff, seen)
  {
    set k | k in seen && Undefined(coff.syms[k])
  }

  lemma {:induction false} Unreferenced(rs: seq<Reloc>, i: nat)
    requires Relative(rs, i) == [] && Absolute(rs, i) == []
    ensures forall k | 0 <= k < |rs| :: rs[k].symndx != i
  {
    if rs != [] { Unreferenced(rs[..|rs| - 1], i); }
  }

  lemma MarkMore(rs: seq<Reloc>, gone: set<nat>, i: nat)
    requires i != MARK
    ensures Marked(Marked(rs, gone), {i}) == Marked(rs, gone + {i})
    ensures (forall k | 0 <= k < |rs| :: rs[k].symndx != i) ==> Marked(rs, gone + {i}) == Marked(rs, gone)
  {
  }

  /** Lines 1143-1171: a linear search for a prefix of the name. */
  method AnyPrefix(prefixes: seq<string>, name: string) returns (ok: bool)
    ensures ok == HasPrefix(prefixes, name)
  {
    ok := false;
    var j := 0;
    while j < |prefixes|
      invariant 0 <= j <= |prefixes| && !HasPrefix(prefixes[..j], name)
    {
      if prefixes[j] <= name { return true; }
      j := j + 1;
    }
    assert prefixes[..j] == prefixes;
  }

  /** Lines 1120-1171. */
  method Exportable(s: Symbol, opts: Options) returns (ok: bool)
    requires Defined(s)
    ensures ok == Exported(s, opts)
  {
    if s.name == "_init" || s.name == "_fini" || "__GLOBAL_$" <= s.name || s.name in RESERVED {
      return false;
    }
    var no := AnyPrefix(opts.excluded, s.name);
    if no { return false; }
    if opts.prefixes != [] {
      ok := AnyPrefix(opts.prefixes, s.name);
    } else {
      ok := true;
    }
  }

  /** Lines 1038-1119 for one undefined symbol, with -U: its table entry, if anything
      refers to it. Too many references leave by the fatal error. */
  method TakeSymbol(coff: Coff, i: nat, relocs: array<Reloc>, ghost seen: seq<nat>)
    returns (entry: seq<Unresolved>, fatal: bool)
    requires ValidCoff(coff) && i < |coff.syms| && Undefined(coff.syms[i])
    requires Indices(coff, seen) && i !in seen
    requires relocs[..] == Marked(coff.relocs, GoneIn(coff, seen))
    modifies relocs
    ensures entry == Entry(coff, i)
    ensures fatal <==> entry != [] && !Countable(entry[0])
    ensures !fatal ==> relocs[..] == Marked(coff.relocs, GoneIn(coff, seen) + {i})
  {
    ghost var gone := GoneIn(coff, seen);
    MarkedReferences(coff.relocs, gone, i);
    MarkMore(coff.relocs, gone, i);
    var nRel, nAbs := CountReferences(relocs, i);
    fatal := false;
    if nRel == 0 && nAbs == 0 {
      Unreferenced(coff.relocs, i);
      entry := [];
    } else {
      fatal := nRel > 0xffff || nAbs > 0xffff;
      var rel, abs := TakeReferences(relocs, i);
      entry := [Unresolved(coff.syms[i].name, rel, abs)];
    }
  }

  /** One more stop: what each table of the module gains. */
  lemma NextStop(coff: Coff, opts: Options, seen: seq<nat>, i: nat)
    requires Indices(coff, seen) && i < |coff.syms|
    ensures Indices(coff, seen + [i])
    ensures var s, next := coff.syms[i], seen + [i];
      && Exports(coff, next, opts) ==
        Exports(coff, seen, opts) + (if Exported(s, opts) then [Export(s.name, s.value)] else [])
      && Entries(coff, next) == Entries(coff, seen) + Entry(coff, i)
      && StartBss(coff, next) ==
        (if s.name == ".bss" && StartBss(coff, seen) > s.value then s.value else StartBss(coff, seen))
      && Entrance(coff, next, "_init") ==
        (if Defined(s) && s.name == "_init" then s.value else Entrance(coff, seen, "_init"))
      && Entrance(coff, next, "_fini") ==
        (if Defined(s) && s.name == "_fini" then s.value else Entrance(coff, seen, "_fini"))
      && GoneIn(coff, next) == GoneIn(coff, seen) + (if Undefined(s) then {i} else {})
  {
    var next := seen + [i];
    assert next[..|next| - 1] == seen && next[|next| - 1] == i;
    assert forall k: nat :: k in next <==> k in seen || k == i;
  }

  /** The result write_dxe should have. */
  ghost predicate Expected(coff: Coff, opts: Options, r: Outcome) {
    StopsRise(coff.syms, 0);
    var entries := Entries(coff, Stops(coff.syms, 0));
    if !opts.unresolved && entries != [] then r == Errors(|entries|)
    else if opts.unresolved && Uncountable(coff) then r.TooManyRelocations? && FirstUncountable(coff, r.name)
    else r == Written(|ModuleOf(coff, opts).relocs|, ModuleOf(coff, opts))
  }

  lemma {:induction false} EntriesPrefix(coff: Coff, a: seq<nat>, b: seq<nat>)
    requires Indices(coff, a + b)
    ensures Indices(coff, a)
    ensures Entries(coff, a) <= Entries(coff, a + b)
  {
    assert forall k | 0 <= k < |a| :: (a + b)[k] == a[k];
    if b == [] {
      assert a + b == a;
    } else {
      var n := |b| - 1;
      assert (a + b)[..|a + b| - 1] == a + b[..n];
      EntriesPrefix(coff, a, b[..n]);
    }
  }

  /** Lines 1056-1068 without -U: a referenced undefined symbol is an error. */
  method CountError(coff: Coff, i: nat, relocs: array<Reloc>) returns (bad: bool)
    requires i < |coff.syms| && Undefined(coff.syms[i]) && relocs[..] == coff.relocs
    ensures bad <==> Entry(coff, i) != []
  {
    var nRel, nAbs := CountReferences(relocs, i);
    bad := !(nRel == 0 && nAbs == 0);
  }

  /** The local tables and header fields the scan fills in. */
  datatype Scanned = Scanned(
    exports: seq<Export>, unres: seq<Unresolved>, start: nat, init: int, fini: int, errors: nat)

  /** They hold what the stops in `seen` call for. */
  ghost predicate Tables(coff: Coff, opts: Options, seen: seq<nat>, t: Scanned) {
    && Indices(coff, seen)
    && t.exports == Exports(coff, seen, opts)
    && t.start == StartBss(coff, seen)
    && t.init == Entrance(coff, seen, "_init") && t.fini == Entrance(coff, seen, "_fini")
    && (if opts.unresolved
        then t.unres == Entries(coff, seen) && t.errors == 0 && (forall k | 0 <= k < |t.unres| :: Countable(t.unres[k]))
        else t.unres == [] && t.errors == |Entries(coff, seen)|)
  }

  /** The relocations as the scan leaves them after the stops in `seen`. */
  ghost predicate MarkedSoFar(coff: Coff, opts: Options, seen: seq<nat>, rs: seq<Reloc>) {
    && Indices(coff, seen)
    && rs == if opts.unresolved then Marked(coff.relocs, GoneIn(coff, seen)) else coff.relocs
  }

  /** Reaching a stop outside the symbols seen. */
  lemma StopAhead(coff: Coff, seen: seq<nat>, i: nat)
    requires Stops(coff.syms, 0) == seen + Stops(coff.syms, i) && i < |coff.syms|
    ensures var next := i + 1 + coff.syms[i].numaux;
      && Stops(coff.syms, 0) == (seen + [i]) + Stops(coff.syms, next)
      && next !in seen + [i]
  {
    StopsRise(coff.syms, 0);
    var next := i + 1 + coff.syms[i].numaux;
    assert Stops(coff.syms, i) == [i] + Stops(coff.syms, next);
    assert Stops(coff.syms, 0) == (seen + [i]) + Stops(coff.syms, next);
    assert Stops(coff.syms, 0)[|seen|] == i;
    if next in seen + [i] {
      var k :| 0 <= k < |seen + [i]| && (seen + [i])[k] == next;
      StopsOrder(coff.syms, 0, k, |seen|);
    }
  }

  lemma {:induction false} StopsOrder(syms: seq<Symbol>, i: nat, j: nat, k: nat)
    requires j <= k < |Stops(syms, i)|
    ensures Stops(syms, i)[j] <= Stops(syms, i)[k]
    decreases |syms| - i
  {
    if i < |syms| {
      var next := i + 1 + syms[i].numaux;
      StopsRise(syms, next);
      if j > 0 { StopsOrder(syms, next, j - 1, k - 1); }
    }
  }

  /** Lines 1038-1119: an undefined symbol, with or without -U. */
  method ScanUndefined(coff: Coff, opts: Options, i: nat, relocs: array<Reloc>, ghost seen: seq<nat>)
    returns (entry: seq<Unresolved>, bad: bool, fatal: bool)
    requires ValidCoff(coff) && i < |coff.syms| && Undefined(coff.syms[i]) && i !in seen
    requires MarkedSoFar(coff, opts, seen, relocs[..])
    modifies relocs
    ensures opts.unresolved ==> entry == Entry(coff, i) && !bad && (fatal <==> entry != [] && !Countable(entry[0]))
    ensures !opts.unresolved ==> entry == [] && (bad <==> Entry(coff, i) != []) && !fatal
    ensures !fatal ==>
      relocs[..] == if opts.unresolved then Marked(coff.relocs, GoneIn(coff, seen) + {i}) else coff.relocs
  {
    entry, bad, fatal := [], false, false;
    if opts.unresolved {
      entry, fatal := TakeSymbol(coff, i, relocs, seen);
    } else {
      bad := CountError(coff, i, relocs);
    }
  }

  /** Lines 1120-1190: a defined external symbol is an entrance or may be exported. */
  method ScanDefined(s: Symbol, opts: Options, t: Scanned) returns (d: Scanned)
    requires Defined(s)
    ensures d.exports == t.exports + if Exported(s, opts) then [Export(s.name, s.value)] else []
    ensures d.init == if s.name == "_init" then s.value else t.init
    ensures d.fini == if s.name == "_fini" then s.value else t.fini
    ensures d.unres == t.unres && d.start == t.start && d.errors == t.errors
  {
    d := t;
    var ok := Exportable(s, opts);
    if s.name == "_init" {
      d := t.(init := s.value);
    } else if s.name == "_fini" {
      d := t.(fini := s.value);
    } else if ok {
      d := t.(exports := t.exports + [Export(s.name, s.value)]);
    }
  }

  /** The tables follow when each gains what the stop calls for. */
  lemma TablesStep(coff: Coff, opts: Options, seen: seq<nat>, i: nat, t0: Scanned, t: Scanned)
    requires i < |coff.syms| && Tables(coff, opts, seen, t0)
    requires var s := coff.syms[i];
      && t.exports == t0.exports + (if Exported(s, opts) then [Export(s.name, s.value)] else [])
      && t.start == (if s.name == ".bss" && t0.start > s.value then s.value else t0.start)
      && t.init == (if Defined(s) && s.name == "_init" then s.value else t0.init)
      && t.fini == (if Defined(s) && s.name == "_fini" then s.value else t0.fini)
    requires if opts.unresolved
      then
        && t.unres == t0.unres + Entry(coff, i) && t.errors == 0
        && (Entry(coff, i) != [] ==> Countable(Entry(coff, i)[0]))
      else t.unres == [] && t.errors == t0.errors + |Entry(coff, i)|
    ensures Tables(coff, opts, seen + [i], t)
  {
    NextStop(coff, opts, seen, i);
  }

  lemma MarkedStep(coff: Coff, opts: Options, seen: seq<nat>, i: nat, rs: seq<Reloc>)
    requires i < |coff.syms| && Indices(coff, seen)
    requires rs == if opts.unresolved
      then Marked(coff.relocs, GoneIn(coff, seen) + if Undefined(coff.syms[i]) then {i} else {}) else coff.relocs
    ensures MarkedSoFar(coff, opts, seen + [i], rs)
  {
    NextStop(coff, opts, seen, i);
  }

  /** One turn of the scan, lines 1014-1192. */
  method ScanSymbol(coff: Coff, opts: Options, i: nat, relocs: array<Reloc>, ghost seen: seq<nat>, t0: Scanned)
    returns (t: Scanned, fatal: bool)
    requires ValidCoff(coff) && i < |coff.syms| && i !in seen
    requires Tables(coff, opts, seen, t0) && MarkedSoFar(coff, opts, seen, relocs[..])
    modifies relocs
    ensures fatal ==> opts.unresolved && Entry(coff, i) != [] && !Countable(Entry(coff, i)[0])
    ensures !fatal ==> Tables(coff, opts, seen + [i], t) && MarkedSoFar(coff, opts, seen + [i], relocs[..])
  {
    var s := coff.syms[i];
    t, fatal := t0, false;
    if s.name == ".bss" && t.start > s.value { t := t.(start := s.value); }
    if s.name == "" || s.cls == Static {
      assert GoneIn(coff, seen) + {} == GoneIn(coff, seen);
    } else if s.section == 0 {
      var entry, bad;
      entry, bad, fatal := ScanUndefined(coff, opts, i, relocs, seen);
      t := t.(unres := t.unres + entry, errors := if bad then t.errors + 1 else t.errors);
    } else {
      assert GoneIn(coff, seen) + {} == GoneIn(coff, seen);
      if s.cls == External { t := ScanDefined(s, opts, t); }
    }
    if !fatal {
      TablesStep(coff, opts, seen, i, t0, t);
      MarkedStep(coff, opts, seen, i, relocs[..]);
    }
  }

  /** The scan of the symbol table, lines 998-1193. */
  method Scan(coff: Coff, opts: Options, relocs: array<Reloc>)
    returns (fatal: bool, name: string, t: Scanned, ghost seen: seq<nat>)
    requires ValidCoff(coff) && relocs[..] == coff.relocs
    modifies relocs
    ensures fatal ==> opts.unresolved && FirstUncountable(coff, name)
    ensures !fatal ==> seen == Stops(coff.syms, 0)
    ensures !fatal ==> Tables(coff, opts, seen, t) && MarkedSoFar(coff, opts, seen, relocs[..])
  {
    t := Scanned([], [], |coff.data|, -1, -1, 0);
    fatal, name := false, "";
    var i: nat := 0;
    seen := [];
    assert Marked(coff.relocs, GoneIn(coff, seen)) == coff.relocs;
    while i < |coff.syms|
      invariant Stops(coff.syms, 0) == seen + Stops(coff.syms, i) && i !in seen
      invariant Tables(coff, opts, seen, t) && MarkedSoFar(coff, opts, seen, relocs[..])
      decreases |coff.syms| - i
    {
      StopAhead(coff, seen, i);
      ghost var t0 := t;
      t, fatal := ScanSymbol(coff, opts, i, relocs, seen, t);
      if fatal {
        FatalScan(coff, opts, seen, i, t0);
        name := coff.syms[i].name;
        return;
      }
      seen := seen + [i];
      i := i + 1 + coff.syms[i].numaux;
    }
    assert seen + Stops(coff.syms, i) == seen;
  }

  /** write_dxe, for the DXE3 form. */
  method WriteDxe(coff: Coff, opts: Options) returns (r: Outcome)
    requires ValidCoff(coff)
    ensures Expected(coff, opts, r)
  {
    var relocs := new Reloc[|coff.relocs|](k requires 0 <= k < |coff.relocs| => coff.relocs[k]);
    assert relocs[..] == coff.relocs;
    StopsRise(coff.syms, 0);
    var fatal, name, t, seen := Scan(coff, opts, relocs);
    if fatal {
      FirstIsOne(coff, name);
      return TooManyRelocations(name);
    }
    if t.errors != 0 { return Errors(t.errors); }
    AllGone(coff, seen);
    if !opts.unresolved { NoneMarked(coff, seen); }
    var nrelocs, rest := LeftOver(relocs, coff.relocs, Gone(coff));
    var img := Image(t.exports, coff.data[..t.start], |coff.data|, opts.deps, t.unres, rest, t.init, t.fini);
    r := Written(nrelocs, img);
  }

  /** Some undefined symbol has more references than its entry can count. */
  ghost predicate Uncountable(coff: Coff) {
    StopsRise(coff.syms, 0);
    exists k :: 0 <= k < |Entries(coff, Stops(coff.syms, 0))| && !Countable(Entries(coff, Stops(coff.syms, 0))[k])
  }

  /** The name of the first such symbol. */
  ghost predicate FirstUncountable(coff: Coff, name: string) {
    StopsRise(coff.syms, 0);
    var entries := Entries(coff, Stops(coff.syms, 0));
    exists k :: 0 <= k < |entries| && UncountableAt(entries, k) && entries[k].name == name
  }

  ghost predicate UncountableAt(us: seq<Unresolved>, k: nat)
    requires k < |us|
  {
    !Countable(us[k]) && forall j | 0 <= j < k :: Countable(us[j])
  }

  lemma FirstIsOne(coff: Coff, name: string)
    requires FirstUncountable(coff, name)
    ensures Uncountable(coff)
  {
    StopsRise(coff.syms, 0);
    var entries := Entries(coff, Stops(coff.syms, 0));
    var k :| 0 <= k < |entries| && UncountableAt(entries, k) && entries[k].name == name;
    assert !Countable(entries[k]);
  }

  lemma UncountableEntry(coff: Coff, seen: seq<nat>, i: nat)
    requires i < |coff.syms| && Indices(coff, seen)
    requires Stops(coff.syms, 0) == (seen + [i]) + Stops(coff.syms, i + 1 + coff.syms[i].numaux)
    requires Entry(coff, i) != [] && !Countable(Entry(coff, i)[0])
    requires forall k | 0 <= k < |Entries(coff, seen)| :: Countable(Entries(coff, seen)[k])
    ensures FirstUncountable(coff, coff.syms[i].name)
  {
    StopsRise(coff.syms, 0);
    var next := seen + [i];
    EntriesPrefix(coff, next, Stops(coff.syms, i + 1 + coff.syms[i].numaux));
    assert next[..|next| - 1] == seen;
    var k, before, entries := |Entries(coff, seen)|, Entries(coff, next), Entries(coff, Stops(coff.syms, 0));
    assert before == Entries(coff, seen) + Entry(coff, i);
    assert entries[..|before|] == before;
    assert entries[k] == before[k] == Entry(coff, i)[0];
    forall j | 0 <= j < k ensures Countable(entries[j]) {
      assert entries[j] == before[j] == Entries(coff, seen)[j];
    }
    assert UncountableAt(entries, k) && entries[k].name == coff.syms[i].name;
  }

  lemma FatalScan(coff: Coff, opts: Options, seen: seq<nat>, i: nat, t: Scanned)
    requires i < |coff.syms| && Tables(coff, opts, seen, t) && opts.unresolved
    requires Stops(coff.syms, 0) == (seen + [i]) + Stops(coff.syms, i + 1 + coff.syms[i].numaux)
    requires Entry(coff, i) != [] && !Countable(Entry(coff, i)[0])
    ensures FirstUncountable(coff, coff.syms[i].name)
  {
    UncountableEntry(coff, seen, i);
  }

  lemma AllGone(coff: Coff, seen: seq<nat>)
    requires seen == Stops(coff.syms, 0)
    ensures Indices(coff, seen) && GoneIn(coff, seen) == Gone(coff)
  {
    StopsRise(coff.syms, 0);
  }

  /** Without errors and without -U no relocation names an undefined symbol. */
  lemma NoneMarked(coff: Coff, seen: seq<nat>)
    requires Indices(coff, seen) && Entries(coff, seen) == []
    ensures Marked(coff.relocs, GoneIn(coff, seen)) == coff.relocs
  {
    NoEntries(coff, seen);
  }

  lemma {:induction false} NoEntries(coff: Coff, seen: seq<nat>)
    requires Indices(coff, seen) && Entries(coff, seen) == []
    ensures forall k | 0 <= k < |coff.relocs| :: coff.relocs[k].symndx !in GoneIn(coff, seen)
  {
    if seen != [] {
      var n := |seen| - 1;
      NoEntries(coff, seen[..n]);
      if Undefined(coff.syms[seen[n]]) { Unreferenced(coff.relocs, seen[n]); }
      assert forall k: nat :: k in seen <==> k in seen[..n] || k == seen[n];
    }
  }
}
