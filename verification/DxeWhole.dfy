/** The DXE3 tools together: what dxe3gen writes for an object is a file that dlopen
    reads back and turns into the relocated object, and in which dxe3res finds the names
    the object exports, needs and depends on (src/dxe/dxe3gen.c, lines 995-1291;
    src/libc/dxe/dlopen.c, lines 223-349; src/dxe/dxe3res.c, lines 211-236 and 373-415). */
module DxeWhole {
  import opened Bits
  import opened DxeImage
  import opened DxeGen
  import opened DxeMeaning
  import opened DxeFormat
  import DxeRes

  /** All names are C strings. */
  ghost predicate CNames(coff: Coff, opts: Options) {
    && (forall i | 0 <= i < |coff.syms| :: CName(coff.syms[i].name))
    && (forall i | 0 <= i < |opts.deps| :: CName(opts.deps[i]))
  }

  lemma {:induction false} EntriesStorable(coff: Coff, opts: Options, idx: seq<nat>)
    requires Indices(coff, idx) && CNames(coff, opts)
    requires forall k | 0 <= k < |Entries(coff, idx)| :: Countable(Entries(coff, idx)[k])
    ensures forall k | 0 <= k < |Entries(coff, idx)| :: Storable(Entries(coff, idx)[k])
  {
    if idx != [] {
      var n := |idx| - 1;
      var front, last := Entries(coff, idx[..n]), Entry(coff, idx[n]);
      assert Entries(coff, idx) == front + last;
      forall k | 0 <= k < |front| ensures Countable(front[k]) {
        assert front[k] == Entries(coff, idx)[k];
      }
      EntriesStorable(coff, opts, idx[..n]);
      if last != [] { assert last[0] == Entries(coff, idx)[|front|]; }
    }
  }

  lemma {:induction false} ExportsNamed(coff: Coff, opts: Options, idx: seq<nat>)
    requires Indices(coff, idx) && CNames(coff, opts)
    ensures forall k | 0 <= k < |Exports(coff, idx, opts)| :: CName(Exports(coff, idx, opts)[k].name)
  {
    if idx != [] { ExportsNamed(coff, opts, idx[..|idx| - 1]); }
  }

  /** What is written can be stored. */
  lemma ModuleWritable(coff: Coff, opts: Options)
    requires CNames(coff, opts) && !Uncountable(coff)
    ensures Writable(ModuleOf(coff, opts))
  {
    StopsRise(coff.syms, 0);
    var idx := Stops(coff.syms, 0);
    EntriesStorable(coff, opts, idx);
    ExportsNamed(coff, opts, idx);
  }

  lemma NothingUncountable(coff: Coff, opts: Options, r: Outcome)
    requires Expected(coff, opts, r) && r.Written?
    ensures r.img == ModuleOf(coff, opts) && !Uncountable(coff)
  {
    StopsRise(coff.syms, 0);
  }

  /** dxe3gen: the module that the object calls for, if there is one, as a file. */
  method Generate(coff: Coff, opts: Options, hs: nat, description: seq<Byte>, ghost stops: seq<nat>)
    returns (r: Outcome, file: File)
    requires ValidCoff(coff) && CNames(coff, opts) && Walk(coff.syms, stops)
    ensures Correct(coff, opts, stops, r) && (r.Written? ==> r.img == ModuleOf(coff, opts))
    ensures r.Written? ==> file == WriteFile(r.img, hs, description) && Load(file, hs) == Got(r.img, [])
    ensures r.Written? ==> ListsOf(file, hs) == Got(NamesOf(r.img), [])
  {
    r := WriteDxe(coff, opts);
    file := WriteFile(if r.Written? then r.img else Image([], [], 0, [], [], [], -1, -1), hs, description);
    WalkUnique(coff.syms, 0, stops);
    ExpectedMeans(coff, opts, r);
    if r.Written? {
      NothingUncountable(coff, opts, r);
      FileReads(coff, opts, hs, description, r);
    }
  }

  lemma FileReads(coff: Coff, opts: Options, hs: nat, description: seq<Byte>, r: Outcome)
    requires CNames(coff, opts) && Expected(coff, opts, r) && r.Written?
    ensures Load(WriteFile(r.img, hs, description), hs) == Got(r.img, [])
    ensures ListsOf(WriteFile(r.img, hs, description), hs) == Got(NamesOf(r.img), [])
  {
    NothingUncountable(coff, opts, r);
    ModuleWritable(coff, opts);
    LoadBack(r.img, hs, description);
    ListsBack(r.img, hs, description);
  }

  lemma SectionMeans(coff: Coff, opts: Options, base: Word, addr: string -> Word)
    requires ValidCoff(coff) && Disjoint(coff, Stops(coff.syms, 0))
    ensures Indices(coff, Stops(coff.syms, 0)) && WellFormed(ModuleOf(coff, opts))
    ensures var img := ModuleOf(coff, opts);
      && AllInside(LinkEdits(img, base, addr), img.size)
      && (Missing(img.unres, addr) == [] ==>
            CorrectSection(coff, Stops(coff.syms, 0), base, addr, ApplyAll(LinkEdits(img, base, addr), Padded(img))))
  {
    var img := ModuleOf(coff, opts);
    PaddedOriginal(coff, opts);
    ModuleWellFormed(coff, opts);
    LinkInside(img, base, addr);
    if Missing(img.unres, addr) == [] {
      assert coff.relocs[..|coff.relocs|] == coff.relocs;
      DisjointApart(coff, |coff.relocs|, base, addr);
      LoadIsRelocation(coff, opts, base, addr);
      FixedMeans(coff, base, addr, ApplyAll(LinkEdits(img, base, addr), Padded(img)));
    }
  }

  lemma AllMissing(coff: Coff, opts: Options, addr: string -> Word)
    ensures Indices(coff, Stops(coff.syms, 0))
    ensures forall name ::
      name in Missing(ModuleOf(coff, opts).unres, addr) <==> Lacks(coff, Stops(coff.syms, 0), addr, name)
  {
    ModuleMeans(coff, opts);
    var stops, us := Stops(coff.syms, 0), ModuleOf(coff, opts).unres;
    forall name ensures name in Missing(us, addr) <==> Lacks(coff, stops, addr, name) {
      MissingMeans(coff, stops, us, addr, name);
    }
  }

  /** From the object through the file to the loaded section: every COFF relocation has
      acted exactly once on the object's own bytes, and nothing else has changed. */
  method GenerateAndLoad(coff: Coff, opts: Options, hs: nat, description: seq<Byte>, base: Word, addr: string -> Word,
                         ghost stops: seq<nat>)
    returns (r: Outcome, section: seq<Byte>, missing: seq<string>)
    requires ValidCoff(coff) && CNames(coff, opts) && Walk(coff.syms, stops) && Disjoint(coff, stops)
    ensures Correct(coff, opts, stops, r)
    ensures r.Written? ==> forall name :: name in missing <==> Lacks(coff, stops, addr, name)
    ensures r.Written? && missing == [] ==> CorrectSection(coff, stops, base, addr, section)
  {
    var file;
    r, file := Generate(coff, opts, hs, description, stops);
    section, missing := [], [];
    if r.Written? {
      WalkUnique(coff.syms, 0, stops);
      AllMissing(coff, opts, addr);
      SectionMeans(coff, opts, base, addr);
      var ok, img := LoadFile(file, hs);
      section, missing := LinkSection(img, base, addr);
    }
  }

  lemma {:induction false} ExportNameAt(es: seq<Export>, i: nat)
    requires i < |es|
    ensures |ExportNames(es)| == |es| && ExportNames(es)[i] == es[i].name
    decreases i
  {
    if i > 0 { ExportNameAt(es[1..], i - 1); } else { ExportNamesCount(es); }
  }

  lemma {:induction false} UnresNameAt(us: seq<Unresolved>, i: nat)
    requires i < |us|
    ensures |UnresNames(us)| == |us| && UnresNames(us)[i] == us[i].name
    decreases i
  {
    if i > 0 { UnresNameAt(us[1..], i - 1); } else { UnresNamesCount(us); }
  }

  lemma {:induction false} ExportNamesCount(es: seq<Export>)
    ensures |ExportNames(es)| == |es|
  {
    if es != [] { ExportNamesCount(es[1..]); }
  }

  lemma {:induction false} UnresNamesCount(us: seq<Unresolved>)
    ensures |UnresNames(us)| == |us|
  {
    if us != [] { UnresNamesCount(us[1..]); }
  }

  /** The resolver works on the names of the modules written. */
  lemma ResolverReads(disk: DxeRes.Disk, hs: nat, x: string, img: Image, description: seq<Byte>)
    requires x in disk && disk[x] == WriteFile(img, hs, description) && Writable(img)
    ensures x in DxeRes.Readable(disk, hs)
    ensures var l := DxeRes.Readable(disk, hs)[x];
      && |l.exports| == |img.exports| && (forall i | 0 <= i < |img.exports| :: l.exports[i] == img.exports[i].name)
      && |l.unres| == |img.unres| && (forall i | 0 <= i < |img.unres| :: l.unres[i] == img.unres[i].name)
      && l.deps == img.deps
  {
    ListsBack(img, hs, description);
    ExportNamesCount(img.exports);
    UnresNamesCount(img.unres);
    forall i | 0 <= i < |img.exports| ensures ExportNames(img.exports)[i] == img.exports[i].name {
      ExportNameAt(img.exports, i);
    }
    forall i | 0 <= i < |img.unres| ensures UnresNames(img.unres)[i] == img.unres[i].name {
      UnresNameAt(img.unres, i);
    }
  }
}
