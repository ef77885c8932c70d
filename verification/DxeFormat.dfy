/** The DXE3 file: what write_dxe lays out (src/dxe/dxe3gen.c, lines 1079-1116,
    1182-1189 and 1241-1289), what dlopen reads back (src/libc/dxe/dlopen.c, lines
    223-349), and what the resolver reads (src/dxe/dxe3res.c, lines 211-236 and
    333-337). The header's own layout, declared in sys/dxe.h, is not part of this
    model: a file is a header record followed by a body, `hs` bytes into the file. */
module DxeFormat {
  import opened Bits
  import opened DxeImage

  datatype Header = Header(
    nExpSyms: nat, expTable: nat, expSize: nat,
    nDeps: nat, depTable: nat, depSize: nat,
    nUnresSyms: nat, unresTable: nat, unresSize: nat,
    nrelocs: nat, relocTable: nat,
    secSize: nat, secFSize: nat, symbolOffset: nat,
    init: int, fini: int)

  datatype File = File(header: Header, body: seq<Byte>)

  /** The rest of a table after an item, or a table too short to hold one. */
  datatype Parsed<+T> = Short | Got(value: T, rest: seq<Byte>)

  // ------------------------------------------------------------------ writing

  /** A name the C tables can carry: bytes other than NUL. */
  predicate CName(s: string) { forall i | 0 <= i < |s| :: 0 < s[i] as int < 256 }

  function Chars(s: string): (b: seq<Byte>)
    ensures |b| == |s|
  {
    seq(|s|, i requires 0 <= i < |s| => s[i] as int % 256)
  }

  function NameBytes(s: string): seq<Byte> { Chars(s) + [0] }

  function Le16(v: int): seq<Byte> { [Byte0(v), Byte1(v)] }

  function Le32(v: int): seq<Byte> { [Byte0(v), Byte1(v), Byte2(v), Byte3(v)] }

  function Longs(vs: seq<Word>): (b: seq<Byte>)
    ensures |b| == 4 * |vs|
  {
    if vs == [] then [] else Le32(vs[0]) + Longs(vs[1..])
  }

  function ExportTable(es: seq<Export>): seq<Byte> {
    if es == [] then [] else Le32(es[0].offset) + NameBytes(es[0].name) + ExportTable(es[1..])
  }

  function NameTable(names: seq<string>): seq<Byte> {
    if names == [] then [] else NameBytes(names[0]) + NameTable(names[1..])
  }

  function UnresEntry(u: Unresolved): seq<Byte> {
    Le16(|u.rel|) + Le16(|u.abs|) + NameBytes(u.name) + Longs(u.rel) + Longs(u.abs)
  }

  function UnresTable(us: seq<Unresolved>): seq<Byte> {
    if us == [] then [] else UnresEntry(us[0]) + UnresTable(us[1..])
  }

  /** The next multiple of 16 (line 1252). */
  function Align16(n: nat): (a: nat)
    ensures a % 16 == 0 && n <= a < n + 16
  {
    (n + 15) / 16 * 16
  }

  function HeaderOf(img: Image, hs: nat): Header {
    var symbolOffset := Align16(hs + |ExportTable(img.exports)|);
    var depTable := symbolOffset + |img.data|;
    var unresTable := depTable + |NameTable(img.deps)|;
    var relocTable := unresTable + |UnresTable(img.unres)|;
    Header(
      |img.exports|, hs, |ExportTable(img.exports)|,
      |img.deps|, depTable, |NameTable(img.deps)|,
      |img.unres|, unresTable, |UnresTable(img.unres)|,
      |img.relocs|, relocTable,
      img.size, |img.data|, symbolOffset,
      img.init, img.fini)
  }

  function Zeros(n: nat): (b: seq<Byte>)
    ensures |b| == n
  {
    seq(n, _ => 0)
  }

  /** The fill up to the section (line 1266). */
  function Pad(img: Image, hs: nat): seq<Byte> {
    Zeros(Align16(hs + |ExportTable(img.exports)|) - (hs + |ExportTable(img.exports)|))
  }

  /** The order in which the parts are written (lines 1262-1289). */
  function Body(e: seq<Byte>, pad: seq<Byte>, s: seq<Byte>, d: seq<Byte>, u: seq<Byte>, r: seq<Byte>,
                x: seq<Byte>): (b: seq<Byte>)
    ensures |b| == |e| + |pad| + |s| + |d| + |u| + |r| + |x|
  {
    e + pad + s + d + u + r + x
  }

  /** The module file; a description may follow the relocations. */
  function WriteFile(img: Image, hs: nat, description: seq<Byte>): File {
    var h := HeaderOf(img, hs);
    File(h, Body(
      ExportTable(img.exports), Pad(img, hs), img.data, NameTable(img.deps), UnresTable(img.unres), Longs(img.relocs),
      description))
  }

  // ------------------------------------------------------------------ reading

  /** The place of the first NUL, or the length without one. */
  function NulAt(b: seq<Byte>): (n: nat)
    ensures n <= |b|
  {
    if b == [] || b[0] == 0 then 0 else 1 + NulAt(b[1..])
  }

  function Name(b: seq<Byte>): (s: string)
    ensures |s| == |b|
  {
    seq(|b|, i requires 0 <= i < |b| => b[i] as char)
  }

  function GetName(b: seq<Byte>): Parsed<string> {
    var n := NulAt(b);
    if n == |b| then Short else Got(Name(b[..n]), b[n + 1..])
  }

  function Get16(b: seq<Byte>): nat
    requires |b| >= 2
  {
    b[0] as int + 0x100 * b[1] as int
  }

  function Prepend<T>(front: seq<T>, p: Parsed<seq<T>>): Parsed<seq<T>> {
    match p
    case Short => Short
    case Got(vs, rest) => Got(front + vs, rest)
  }

  function GetLongs(b: seq<Byte>, n: nat): Parsed<seq<Word>>
    decreases n
  {
    if n == 0 then Got([], b)
    else if |b| < 4 then Short
    else Prepend([Get32(b, 0)], GetLongs(b[4..], n - 1))
  }

  function GetNames(b: seq<Byte>, n: nat): Parsed<seq<string>>
    decreases n
  {
    if n == 0 then Got([], b)
    else match GetName(b)
      case Short => Short
      case Got(name, rest) => Prepend([name], GetNames(rest, n - 1))
  }

  function GetExports(b: seq<Byte>, n: nat): Parsed<seq<Export>>
    decreases n
  {
    if n == 0 then Got([], b)
    else if |b| < 4 then Short
    else match GetName(b[4..])
      case Short => Short
      case Got(name, rest) => Prepend([Export(name, Get32(b, 0))], GetExports(rest, n - 1))
  }

  function GetUnres(b: seq<Byte>): Parsed<Unresolved> {
    if |b| < 4 then Short
    else match GetName(b[4..])
      case Short => Short
      case Got(name, rest) =>
        match GetLongs(rest, Get16(b))
        case Short => Short
        case Got(rel, rest') =>
          match GetLongs(rest', Get16(b[2..]))
          case Short => Short
          case Got(abs, last) => Got(Unresolved(name, rel, abs), last)
  }

  function GetUnresolved(b: seq<Byte>, n: nat): Parsed<seq<Unresolved>>
    decreases n
  {
    if n == 0 then Got([], b)
    else match GetUnres(b)
      case Short => Short
      case Got(u, rest) => Prepend([u], GetUnresolved(rest, n - 1))
  }

  // ----------------------------------------------------- items read back as written

  lemma {:induction false} NulAfter(b: seq<Byte>, rest: seq<Byte>)
    requires forall i | 0 <= i < |b| :: b[i] != 0
    ensures NulAt(b + [0] + rest) == |b|
  {
    if b != [] {
      assert (b + [0] + rest)[1..] == b[1..] + [0] + rest;
      NulAfter(b[1..], rest);
    }
  }

  lemma NameBack(s: string, rest: seq<Byte>)
    requires CName(s)
    ensures GetName(NameBytes(s) + rest) == Got(s, rest)
  {
    NulAfter(Chars(s), rest);
    var b := NameBytes(s) + rest;
    assert b[..|s|] == Chars(s) && b[|s| + 1..] == rest;
    assert Name(Chars(s)) == s;
  }

  lemma LongBack(v: Word, rest: seq<Byte>)
    ensures Get32(Le32(v) + rest, 0) == v && (Le32(v) + rest)[4..] == rest
  {
    WordOfBytes(v);
  }

  lemma {:induction false} LongsBack(vs: seq<Word>, rest: seq<Byte>)
    ensures GetLongs(Longs(vs) + rest, |vs|) == Got(vs, rest)
  {
    if vs == [] {
      assert Longs(vs) + rest == rest;
    } else {
      var tail := Longs(vs[1..]) + rest;
      assert Longs(vs) + rest == Le32(vs[0]) + tail;
      LongBack(vs[0], tail);
      LongsBack(vs[1..], rest);
      assert [vs[0]] + vs[1..] == vs;
    }
  }

  lemma {:induction false} NamesBack(names: seq<string>, rest: seq<Byte>)
    requires forall i | 0 <= i < |names| :: CName(names[i])
    ensures GetNames(NameTable(names) + rest, |names|) == Got(names, rest)
  {
    if names == [] {
      assert NameTable(names) + rest == rest;
    } else {
      var tail := NameTable(names[1..]) + rest;
      assert NameTable(names) + rest == NameBytes(names[0]) + tail;
      NameBack(names[0], tail);
      NamesBack(names[1..], rest);
      assert [names[0]] + names[1..] == names;
    }
  }

  lemma MoveBracket<T>(a: seq<T>, b: seq<T>, c: seq<T>)
    ensures (a + b) + c == a + (b + c)
  {
  }

  lemma OneExport(b: seq<Byte>, es: seq<Export>, tail: seq<Byte>, rest: seq<Byte>)
    requires es != [] && |b| >= 4 && Get32(b, 0) == es[0].offset
    requires GetName(b[4..]) == Got(es[0].name, tail) && GetExports(tail, |es| - 1) == Got(es[1..], rest)
    ensures GetExports(b, |es|) == Got(es, rest)
  {
    assert [es[0]] + es[1..] == es;
  }

  lemma {:induction false} ExportsBack(es: seq<Export>, rest: seq<Byte>)
    requires forall i | 0 <= i < |es| :: CName(es[i].name)
    ensures GetExports(ExportTable(es) + rest, |es|) == Got(es, rest)
  {
    if es == [] {
      assert ExportTable(es) + rest == rest;
    } else {
      var offset, name, tail := Le32(es[0].offset), NameBytes(es[0].name), ExportTable(es[1..]) + rest;
      MoveBracket(offset + name, ExportTable(es[1..]), rest);
      MoveBracket(offset, name, tail);
      LongBack(es[0].offset, name + tail);
      NameBack(es[0].name, tail);
      ExportsBack(es[1..], rest);
      OneExport(offset + (name + tail), es, tail, rest);
    }
  }

  /** An entry whose counts fit their 16 bits. */
  predicate Storable(u: Unresolved) { CName(u.name) && |u.rel| <= 0xffff && |u.abs| <= 0xffff }

  lemma CountsBack(u: Unresolved, rest: seq<Byte>)
    requires Storable(u)
    ensures var b := Le16(|u.rel|) + Le16(|u.abs|) + rest;
      Get16(b) == |u.rel| && Get16(b[2..]) == |u.abs| && b[4..] == rest
  {
  }

  lemma UnresBack(u: Unresolved, rest: seq<Byte>)
    requires Storable(u)
    ensures GetUnres(UnresEntry(u) + rest) == Got(u, rest)
  {
    var tail := Longs(u.rel) + (Longs(u.abs) + rest);
    assert UnresEntry(u) + rest == Le16(|u.rel|) + Le16(|u.abs|) + (NameBytes(u.name) + tail);
    CountsBack(u, NameBytes(u.name) + tail);
    NameBack(u.name, tail);
    LongsBack(u.rel, Longs(u.abs) + rest);
    LongsBack(u.abs, rest);
  }

  lemma OneUnres(b: seq<Byte>, us: seq<Unresolved>, tail: seq<Byte>, rest: seq<Byte>)
    requires us != [] && GetUnres(b) == Got(us[0], tail) && GetUnresolved(tail, |us| - 1) == Got(us[1..], rest)
    ensures GetUnresolved(b, |us|) == Got(us, rest)
  {
    assert [us[0]] + us[1..] == us;
  }

  lemma {:induction false} UnresolvedBack(us: seq<Unresolved>, rest: seq<Byte>)
    requires forall i | 0 <= i < |us| :: Storable(us[i])
    ensures GetUnresolved(UnresTable(us) + rest, |us|) == Got(us, rest)
  {
    if us == [] {
      assert UnresTable(us) + rest == rest;
    } else {
      MoveBracket(UnresEntry(us[0]), UnresTable(us[1..]), rest);
      UnresBack(us[0], UnresTable(us[1..]) + rest);
      UnresolvedBack(us[1..], rest);
      OneUnres(UnresTable(us) + rest, us, UnresTable(us[1..]) + rest, rest);
    }
  }

  // ----------------------------------------------------------------- the loader's view

  /** The resident header with the stored section, then the discardable tables, as
      the two reads of lines 242-243 deliver them; nothing when they come up short. */
  function Regions(f: File, hs: nat): Parsed<(nat, seq<Byte>, seq<Byte>)> {
    var h := f.header;
    if h.symbolOffset < hs then Short
    else
      var resident := h.symbolOffset - hs + h.secFSize;
      var discard := h.depSize + h.unresSize + 4 * h.nrelocs;
      if |f.body| < resident + discard then Short
      else Got((h.symbolOffset - hs, f.body[..resident], f.body[resident..resident + discard]), [])
  }

  /** The discardable tables: dependencies, unresolved symbols, relocations. */
  function GetTables(h: Header, discard: seq<Byte>): Parsed<(seq<string>, seq<Unresolved>, seq<Word>)> {
    match GetNames(discard, h.nDeps)
    case Short => Short
    case Got(deps, b1) =>
      match GetUnresolved(b1, h.nUnresSyms)
      case Short => Short
      case Got(unres, b2) =>
        match GetLongs(b2, h.nrelocs)
        case Short => Short
        case Got(relocs, b3) => Got((deps, unres, relocs), b3)
  }

  /** The module the regions describe. */
  function Assemble(h: Header, hdrsize: nat, resident: seq<Byte>, discard: seq<Byte>): Parsed<Image>
    requires hdrsize <= |resident|
  {
    match GetTables(h, discard)
    case Short => Short
    case Got((deps, unres, relocs), _) =>
      match GetExports(resident, h.nExpSyms)
      case Short => Short
      case Got(exports, _) =>
        Got(Image(exports, resident[hdrsize..], h.secSize, deps, unres, relocs, h.init, h.fini), [])
  }

  /** What dlopen makes of a file. */
  function Load(f: File, hs: nat): Parsed<Image> {
    match Regions(f, hs)
    case Short => Short
    case Got((hdrsize, resident, discard), _) => Assemble(f.header, hdrsize, resident, discard)
  }

  /** Names without NUL and counts of 16 bits, as write_dxe produces them. */
  ghost predicate Writable(img: Image) {
    && (forall i | 0 <= i < |img.exports| :: CName(img.exports[i].name))
    && (forall i | 0 <= i < |img.deps| :: CName(img.deps[i]))
    && (forall i | 0 <= i < |img.unres| :: Storable(img.unres[i]))
  }

  /** The regions of a written file are contiguous and disjoint, fill it up to the
      description, and the section starts at a multiple of 16. */
  lemma Layout(img: Image, hs: nat, description: seq<Byte>)
    ensures var f := WriteFile(img, hs, description);
      var h := f.header;
      && h.symbolOffset % 16 == 0
      && h.expTable == hs && h.expTable + h.expSize <= h.symbolOffset < h.expTable + h.expSize + 16
      && h.depTable == h.symbolOffset + h.secFSize && h.unresTable == h.depTable + h.depSize
      && h.relocTable == h.unresTable + h.unresSize
      && hs + |f.body| == h.relocTable + 4 * h.nrelocs + |description|
  {
  }

  /** The parts of a body lie where a header says. */
  ghost predicate Locates(h: Header, hs: nat, e: seq<Byte>, p: seq<Byte>, s: seq<Byte>, d: seq<Byte>, u: seq<Byte>,
                          r: seq<Byte>) {
    && h.expTable == hs && h.expSize == |e|
    && h.symbolOffset == hs + |e| + |p| && h.secFSize == |s|
    && h.depTable == h.symbolOffset + |s| && h.depSize == |d|
    && h.unresTable == h.depTable + |d| && h.unresSize == |u|
    && h.relocTable == h.unresTable + |u| && 4 * h.nrelocs == |r|
  }

  lemma HeaderLocates(img: Image, hs: nat)
    ensures Locates(HeaderOf(img, hs), hs, ExportTable(img.exports), Pad(img, hs), img.data,
                    NameTable(img.deps), UnresTable(img.unres), Longs(img.relocs))
  {
  }

  /** The two reads deliver the resident header with the section, and the tables. */
  lemma RegionsOf(h: Header, hs: nat, e: seq<Byte>, p: seq<Byte>, s: seq<Byte>, d: seq<Byte>, u: seq<Byte>,
                  r: seq<Byte>, x: seq<Byte>)
    requires Locates(h, hs, e, p, s, d, u, r)
    ensures Regions(File(h, Body(e, p, s, d, u, r, x)), hs) == Got((|e| + |p|, e + (p + s), d + (u + r)), [])
  {
    var b := Body(e, p, s, d, u, r, x);
    var n := |e| + |p| + |s|;
    assert b[..n] == e + (p + s);
    assert b[n..n + |d| + |u| + |r|] == d + (u + r);
  }

  lemma Middle(a: seq<Byte>, m: seq<Byte>, c: seq<Byte>, b: seq<Byte>)
    requires b == a + m + c
    ensures b[|a|..|a| + |m|] == m
  {
  }

  lemma Regroup(e: seq<Byte>, p: seq<Byte>, s: seq<Byte>, d: seq<Byte>, u: seq<Byte>, r: seq<Byte>, x: seq<Byte>)
    ensures var b := Body(e, p, s, d, u, r, x);
      && b == [] + e + (p + (s + (d + (u + (r + x)))))
      && b == (e + p + s) + d + (u + (r + x))
      && b == (e + p + s + d) + u + (r + x)
  {
    MoveBracket(e + p + s + d + u, r, x);
    MoveBracket(e + p + s + d, u, r + x);
    MoveBracket(e + p + s, d, u + (r + x));
    MoveBracket(e + p, s, d + (u + (r + x)));
    MoveBracket(e, p, s + (d + (u + (r + x))));
    assert [] + e == e;
  }

  /** And the resolver's three reads its three tables. */
  lemma TablesOf(h: Header, hs: nat, e: seq<Byte>, p: seq<Byte>, s: seq<Byte>, d: seq<Byte>, u: seq<Byte>, r: seq<Byte>,
                 x: seq<Byte>)
    requires Locates(h, hs, e, p, s, d, u, r)
    ensures Tables(File(h, Body(e, p, s, d, u, r, x)), hs) == Got(e + u + d, [])
  {
    var b := Body(e, p, s, d, u, r, x);
    var n := |e| + |p| + |s|;
    Regroup(e, p, s, d, u, r, x);
    Middle([], e, p + (s + (d + (u + (r + x)))), b);
    Middle(e + p + s, d, u + (r + x), b);
    Middle(e + p + s + d, u, r + x, b);
  }

  lemma GetTablesBack(img: Image, h: Header, d: seq<Byte>, u: seq<Byte>, r: seq<Byte>)
    requires Writable(img) && h.nDeps == |img.deps| && h.nUnresSyms == |img.unres| && h.nrelocs == |img.relocs|
    requires d == NameTable(img.deps) && u == UnresTable(img.unres) && r == Longs(img.relocs)
    ensures GetTables(h, d + (u + r)) == Got((img.deps, img.unres, img.relocs), [])
  {
    NamesBack(img.deps, u + r);
    UnresolvedBack(img.unres, r);
    LongsBack(img.relocs, []);
    assert r + [] == r;
  }

  lemma GetExportsBack(img: Image, e: seq<Byte>, rest: seq<Byte>)
    requires Writable(img) && e == ExportTable(img.exports)
    ensures GetExports(e + rest, |img.exports|) == Got(img.exports, rest)
  {
    ExportsBack(img.exports, rest);
  }

  lemma SectionBack(e: seq<Byte>, pad: seq<Byte>, data: seq<Byte>, n: nat)
    requires n == |e| + |pad|
    ensures (e + (pad + data))[n..] == data
  {
  }

  lemma AssembleParts(h: Header, hdrsize: nat, resident: seq<Byte>, discard: seq<Byte>, img: Image, rest: seq<Byte>)
    requires hdrsize <= |resident| && resident[hdrsize..] == img.data
    requires GetTables(h, discard) == Got((img.deps, img.unres, img.relocs), [])
    requires GetExports(resident, h.nExpSyms) == Got(img.exports, rest)
    requires h.secSize == img.size && h.init == img.init && h.fini == img.fini
    ensures Assemble(h, hdrsize, resident, discard) == Got(img, [])
  {
  }

  /** The counts and the other fields that are not places in the file. */
  ghost predicate Describes(h: Header, img: Image) {
    && h.nExpSyms == |img.exports| && h.nDeps == |img.deps| && h.nUnresSyms == |img.unres| && h.nrelocs == |img.relocs|
    && h.secSize == img.size && h.init == img.init && h.fini == img.fini
  }

  lemma HeaderDescribes(img: Image, hs: nat)
    ensures Describes(HeaderOf(img, hs), img)
  {
  }

  lemma AssembleBack(img: Image, h: Header, e: seq<Byte>, pad: seq<Byte>, d: seq<Byte>, u: seq<Byte>, r: seq<Byte>,
                     at: nat, resident: seq<Byte>, discard: seq<Byte>)
    requires Writable(img) && Describes(h, img) && e == ExportTable(img.exports)
    requires d == NameTable(img.deps) && u == UnresTable(img.unres) && r == Longs(img.relocs)
    requires at == |e| + |pad| && resident == e + (pad + img.data) && discard == d + (u + r)
    ensures Assemble(h, at, resident, discard) == Got(img, [])
  {
    GetTablesBack(img, h, d, u, r);
    GetExportsBack(img, e, pad + img.data);
    SectionBack(e, pad, img.data, at);
    AssembleParts(h, at, resident, discard, img, pad + img.data);
  }

  lemma LoadParts(h: Header, hs: nat, e: seq<Byte>, p: seq<Byte>, s: seq<Byte>, d: seq<Byte>, u: seq<Byte>,
                  r: seq<Byte>, x: seq<Byte>, img: Image, at: nat, resident: seq<Byte>, discard: seq<Byte>, f: File)
    requires Locates(h, hs, e, p, s, d, u, r) && f == File(h, Body(e, p, s, d, u, r, x))
    requires at == |e| + |p| && resident == e + (p + s) && discard == d + (u + r)
    requires Assemble(h, at, resident, discard) == Got(img, [])
    ensures Load(f, hs) == Got(img, [])
  {
    RegionsOf(h, hs, e, p, s, d, u, r, x);
  }

  /** Loading a written module gives back the module. */
  lemma LoadBack(img: Image, hs: nat, description: seq<Byte>)
    requires Writable(img)
    ensures Load(WriteFile(img, hs, description), hs) == Got(img, [])
  {
    var h, e, p := HeaderOf(img, hs), ExportTable(img.exports), Pad(img, hs);
    var d, u, r := NameTable(img.deps), UnresTable(img.unres), Longs(img.relocs);
    var at, resident, discard := |e| + |p|, e + (p + img.data), d + (u + r);
    HeaderLocates(img, hs);
    HeaderDescribes(img, hs);
    AssembleBack(img, h, e, p, d, u, r, at, resident, discard);
    LoadParts(h, hs, e, p, img.data, d, u, r, description, img, at, resident, discard,
              WriteFile(img, hs, description));
  }

  lemma PrependStep<T>(front: seq<T>, x: T, p: Parsed<seq<T>>)
    ensures Prepend(front, Prepend([x], p)) == Prepend(front + [x], p)
  {
    if p.Got? { assert front + ([x] + p.value) == front + [x] + p.value; }
  }

  lemma PrependEnds<T>(vs: seq<T>, p: Parsed<seq<T>>, rest: seq<Byte>)
    ensures Prepend([], p) == p
    ensures Prepend(vs, Got([], rest)) == Got(vs, rest)
  {
    if p.Got? { assert [] + p.value == p.value; }
    assert vs + [] == vs;
  }

  /** The name a pointer is at and the pointer after its NUL, strchr(scan, 0) + 1.
      A pointer into a table is modelled by the bytes from it to the table's end. */
  method ScanName(scan: seq<Byte>) returns (ok: bool, name: string, next: seq<Byte>)
    ensures GetName(scan) == if ok then Got(name, next) else Short
  {
    var end := 0;
    assert scan[0..] == scan;
    while end < |scan| && scan[end] != 0
      invariant 0 <= end <= |scan| && NulAt(scan) == end + NulAt(scan[end..])
    {
      assert scan[end..][1..] == scan[end + 1..];
      end := end + 1;
    }
    if end == |scan| { return false, "", scan; }
    return true, Name(scan[..end]), scan[end + 1..];
  }

  /** Lines 257-297 without the loading: the dependency names. */
  method ReadNames(b: seq<Byte>, n: nat) returns (ok: bool, names: seq<string>, scan: seq<Byte>)
    ensures GetNames(b, n) == if ok then Got(names, scan) else Short
  {
    names, scan, ok := [], b, true;
    var i := 0;
    PrependEnds(names, GetNames(b, n), []);
    while i < n
      invariant 0 <= i <= n && GetNames(b, n) == Prepend(names, GetNames(scan, n - i))
    {
      var name, next;
      ok, name, next := ScanName(scan);
      if !ok { return; }
      PrependStep(names, name, GetNames(next, n - i - 1));
      names, scan, i := names + [name], next, i + 1;
    }
    PrependEnds(names, Short, scan);
  }

  /** A run of relocation sites. */
  method ReadLongs(b: seq<Byte>, n: nat) returns (ok: bool, vs: seq<Word>, scan: seq<Byte>)
    ensures GetLongs(b, n) == if ok then Got(vs, scan) else Short
  {
    vs, scan, ok := [], b, true;
    var j := 0;
    PrependEnds(vs, GetLongs(b, n), []);
    while j < n
      invariant 0 <= j <= n && GetLongs(b, n) == Prepend(vs, GetLongs(scan, n - j))
    {
      if |scan| < 4 { return false, vs, scan; }
      PrependStep(vs, Get32(scan, 0), GetLongs(scan[4..], n - j - 1));
      vs, scan, j := vs + [Get32(scan, 0)], scan[4..], j + 1;
    }
    PrependEnds(vs, Short, scan);
  }

  /** One entry of the unresolved table (lines 304-324). */
  method ReadUnres(b: seq<Byte>) returns (ok: bool, u: Unresolved, scan: seq<Byte>)
    ensures GetUnres(b) == if ok then Got(u, scan) else Short
  {
    u, scan := Unresolved("", [], []), b;
    if |b| < 4 { return false, u, scan; }
    var nRel, nAbs := Get16(b), Get16(b[2..]);
    var name, rel, abs;
    ok, name, scan := ScanName(b[4..]);
    if !ok { return; }
    ok, rel, scan := ReadLongs(scan, nRel);
    if !ok { return; }
    ok, abs, scan := ReadLongs(scan, nAbs);
    u := Unresolved(name, rel, abs);
  }

  method ReadUnresolved(b: seq<Byte>, n: nat) returns (ok: bool, us: seq<Unresolved>, scan: seq<Byte>)
    ensures GetUnresolved(b, n) == if ok then Got(us, scan) else Short
  {
    us, scan, ok := [], b, true;
    var i := 0;
    PrependEnds(us, GetUnresolved(b, n), []);
    while i < n && ok
      invariant 0 <= i <= n && GetUnresolved(b, n) == if ok then Prepend(us, GetUnresolved(scan, n - i)) else Short
      decreases n - i, ok
    {
      var u, next;
      ok, u, next := ReadUnres(scan);
      if ok {
        PrependStep(us, u, GetUnresolved(next, n - i - 1));
        us, scan, i := us + [u], next, i + 1;
      }
    }
    PrependEnds(us, Short, scan);
  }

  /** Lines 339-349: the export table of the resident header. */
  method ReadExports(b: seq<Byte>, n: nat) returns (ok: bool, es: seq<Export>, scan: seq<Byte>)
    ensures GetExports(b, n) == if ok then Got(es, scan) else Short
  {
    es, scan, ok := [], b, true;
    var i := 0;
    PrependEnds(es, GetExports(b, n), []);
    while i < n
      invariant 0 <= i <= n && GetExports(b, n) == Prepend(es, GetExports(scan, n - i))
    {
      if |scan| < 4 { return false, es, scan; }
      var name, next;
      ok, name, next := ScanName(scan[4..]);
      if !ok { return; }
      var e := Export(name, Get32(scan, 0));
      PrependStep(es, e, GetExports(next, n - i - 1));
      es, scan, i := es + [e], next, i + 1;
    }
    PrependEnds(es, Short, scan);
  }

  /** dlopen's reading of a module file. */
  method LoadFile(f: File, hs: nat) returns (ok: bool, img: Image)
    ensures Load(f, hs) == if ok then Got(img, []) else Short
  {
    var h := f.header;
    img := Image([], [], 0, [], [], [], -1, -1);
    match Regions(f, hs) {
      case Short => return false, img;
      case Got((hdrsize, resident, discard), _) =>
        var deps, unres, relocs, exports, scan;
        ok, deps, scan := ReadNames(discard, h.nDeps);
        if !ok { return; }
        ok, unres, scan := ReadUnresolved(scan, h.nUnresSyms);
        if !ok { return; }
        ok, relocs, scan := ReadLongs(scan, h.nrelocs);
        if !ok { return; }
        ok, exports, scan := ReadExports(resident, h.nExpSyms);
        if !ok { return; }
        img := Image(exports, resident[hdrsize..], h.secSize, deps, unres, relocs, h.init, h.fini);
    }
  }

  // --------------------------------------------------------------- the resolver's view

  /** gettables: the export, unresolved and dependency tables, one after the other. */
  function Tables(f: File, hs: nat): (t: Parsed<seq<Byte>>)
    ensures t.Got? ==> |t.value| == f.header.expSize + f.header.unresSize + f.header.depSize
  {
    var h, n := f.header, |f.body|;
    if h.expTable < hs || h.unresTable < hs || h.depTable < hs then Short
    else
      var e, u, d := h.expTable - hs, h.unresTable - hs, h.depTable - hs;
      if n < e + h.expSize || n < u + h.unresSize || n < d + h.depSize then Short
      else Got(f.body[e..e + h.expSize] + f.body[u..u + h.unresSize] + f.body[d..d + h.depSize], [])
  }

  function ExportNames(es: seq<Export>): seq<string> {
    if es == [] then [] else [es[0].name] + ExportNames(es[1..])
  }

  function UnresNames(us: seq<Unresolved>): seq<string> {
    if us == [] then [] else [us[0].name] + UnresNames(us[1..])
  }

  /** The names of a run of export or unresolved entries. */
  function ExportScan(b: seq<Byte>, n: nat): Parsed<seq<string>> {
    match GetExports(b, n)
    case Short => Short
    case Got(es, rest) => Got(ExportNames(es), rest)
  }

  function UnresScan(b: seq<Byte>, n: nat): Parsed<seq<string>> {
    match GetUnresolved(b, n)
    case Short => Short
    case Got(us, rest) => Got(UnresNames(us), rest)
  }

  lemma ExportStep(b: seq<Byte>, n: nat, name: string, rest: seq<Byte>)
    requires n > 0 && |b| >= 4 && GetName(b[4..]) == Got(name, rest)
    ensures ExportScan(b, n) == Prepend([name], ExportScan(rest, n - 1))
  {
    var more := GetExports(rest, n - 1);
    if more.Got? {
      var all := [Export(name, Get32(b, 0))] + more.value;
      assert all[1..] == more.value;
    }
  }

  lemma UnresStep(b: seq<Byte>, n: nat)
    requires n > 0
    ensures UnresScan(b, n) == match GetUnres(b)
      case Short => Short
      case Got(u, rest) => Prepend([u.name], UnresScan(rest, n - 1))
  {
    if GetUnres(b).Got? {
      var more := GetUnresolved(GetUnres(b).rest, n - 1);
      if more.Got? {
        var all := [GetUnres(b).value] + more.value;
        assert all[1..] == more.value;
      }
    }
  }

  /** An entry ends where its counts say, whatever its sites are. */
  lemma UnresSkips(scan: seq<Byte>, name: string, sites: seq<Byte>)
    requires |scan| >= 4 && GetName(scan[4..]) == Got(name, sites)
    ensures var n := 4 * (Get16(scan) + Get16(scan[2..]));
      && (GetUnres(scan).Got? <==> |sites| >= n)
      && (|sites| >= n ==> GetUnres(scan).value.name == name && GetUnres(scan).rest == sites[n..])
  {
    SkipLongs(sites, Get16(scan), Get16(scan[2..]));
  }

  /** The export names, lines 218-223. */
  method ParseExports(table: seq<Byte>, n: nat) returns (ok: bool, e: seq<string>, scan: seq<Byte>)
    ensures ExportScan(table, n) == if ok then Got(e, scan) else Short
  {
    e, scan, ok := [], table, true;
    var i: nat := 0;
    PrependEnds(e, ExportScan(table, n), []);
    while i < n
      invariant 0 <= i <= n && ExportScan(table, n) == Prepend(e, ExportScan(scan, n - i))
    {
      if |scan| < 4 { return false, e, scan; }
      var name, next;
      ok, name, next := ScanName(scan[4..]);
      if !ok { return; }
      ExportStep(scan, n - i, name, next);
      PrependStep(e, name, ExportScan(next, n - i - 1));
      e, scan, i := e + [name], next, i + 1;
    }
    PrependEnds(e, Short, scan);
  }

  /** Lines 230-233: the sites of an entry are skipped without being looked at. */
  method SkipUnres(scan: seq<Byte>) returns (ok: bool, name: string, next: seq<Byte>)
    ensures ok <==> GetUnres(scan).Got?
    ensures ok ==> GetUnres(scan).value.name == name && GetUnres(scan).rest == next
  {
    ok, name, next := false, "", scan;
    if |scan| >= 4 {
      var nRel, nAbs := Get16(scan), Get16(scan[2..]);
      ok, name, next := ScanName(scan[4..]);
      if ok {
        UnresSkips(scan, name, next);
        ok := |next| >= 4 * (nRel + nAbs);
        if ok { next := next[4 * (nRel + nAbs)..]; }
      }
    }
  }

  /** The unresolved names, lines 228-233. */
  method ParseUnres(table: seq<Byte>, n: nat) returns (ok: bool, u: seq<string>, scan: seq<Byte>)
    ensures UnresScan(table, n) == if ok then Got(u, scan) else Short
  {
    u, scan, ok := [], table, true;
    var i: nat := 0;
    PrependEnds(u, UnresScan(table, n), []);
    while i < n && ok
      invariant 0 <= i <= n && UnresScan(table, n) == if ok then Prepend(u, UnresScan(scan, n - i)) else Short
      decreases n - i, ok
    {
      var name, next;
      ok, name, next := SkipUnres(scan);
      UnresStep(scan, n - i);
      if ok {
        PrependStep(u, name, UnresScan(next, n - i - 1));
        u, scan, i := u + [name], next, i + 1;
      }
    }
    PrependEnds(u, Short, scan);
  }

  /** parse: the names a table exports and leaves unresolved. */
  method Parse(h: Header, table: seq<Byte>) returns (ok: bool, e: seq<string>, u: seq<string>)
    ensures ok <==>
      ExportScan(table, h.nExpSyms).Got? && UnresScan(ExportScan(table, h.nExpSyms).rest, h.nUnresSyms).Got?
    ensures ok ==> e == ExportScan(table, h.nExpSyms).value
    ensures ok ==> u == UnresScan(ExportScan(table, h.nExpSyms).rest, h.nUnresSyms).value
  {
    u := [];
    var scan;
    ok, e, scan := ParseExports(table, h.nExpSyms);
    if ok { ok, u, scan := ParseUnres(scan, h.nUnresSyms); }
  }

  /** Two runs of sites take four bytes a site. */
  lemma SkipLongs(b: seq<Byte>, n: nat, m: nat)
    ensures GetLongs(b, n).Got? <==> |b| >= 4 * n
    ensures |b| >= 4 * n ==> GetLongs(b, n).rest == b[4 * n..]
    ensures |b| >= 4 * n ==> (GetLongs(b[4 * n..], m).Got? <==> |b| >= 4 * (n + m))
    ensures |b| >= 4 * (n + m) ==> GetLongs(b[4 * n..], m).rest == b[4 * (n + m)..]
  {
    LongsLength(b, n);
    if |b| >= 4 * n {
      LongsLength(b[4 * n..], m);
      if |b| >= 4 * (n + m) { assert b[4 * n..][4 * m..] == b[4 * (n + m)..]; }
    }
  }

  lemma {:induction false} LongsLength(b: seq<Byte>, n: nat)
    ensures GetLongs(b, n).Got? <==> |b| >= 4 * n
    ensures |b| >= 4 * n ==> GetLongs(b, n).rest == b[4 * n..]
    decreases n
  {
    if n > 0 && |b| >= 4 {
      LongsLength(b[4..], n - 1);
      if |b| >= 4 * n { assert b[4..][4 * (n - 1)..] == b[4 * n..]; }
    }
  }

  lemma ThreeTables(e: seq<Byte>, u: seq<Byte>, d: seq<Byte>)
    ensures e + u + d == e + (u + d) && (e + u + d)[|e| + |u|..] == d && d + [] == d
  {
  }

  /** The resolver recovers the names a written module exports, leaves unresolved
      and depends on. */
  lemma TablesBack(img: Image, hs: nat, description: seq<Byte>)
    requires Writable(img)
    ensures var f := WriteFile(img, hs, description);
      && Tables(f, hs).Got?
      && ExportScan(Tables(f, hs).value, f.header.nExpSyms).Got?
      && var e := ExportScan(Tables(f, hs).value, f.header.nExpSyms);
         && e.value == ExportNames(img.exports)
         && UnresScan(e.rest, f.header.nUnresSyms) == Got(UnresNames(img.unres), NameTable(img.deps))
    ensures var f := WriteFile(img, hs, description);
      GetNames(Tables(f, hs).value[f.header.expSize + f.header.unresSize..], f.header.nDeps) == Got(img.deps, [])
  {
    HeaderLocates(img, hs);
    TablesOf(HeaderOf(img, hs), hs, ExportTable(img.exports), Pad(img, hs), img.data,
             NameTable(img.deps), UnresTable(img.unres), Longs(img.relocs), description);
    var e, u, d := ExportTable(img.exports), UnresTable(img.unres), NameTable(img.deps);
    ThreeTables(e, u, d);
    ExportsBack(img.exports, u + d);
    UnresolvedBack(img.unres, d);
    NamesBack(img.deps, []);
  }

  /** The names a module exports, leaves unresolved and depends on. */
  datatype Lists = Lists(exports: seq<string>, unres: seq<string>, deps: seq<string>)

  function NamesOf(img: Image): Lists { Lists(ExportNames(img.exports), UnresNames(img.unres), img.deps) }

  /** As the resolver finds them in a file. */
  function ListsOf(f: File, hs: nat): Parsed<Lists> {
    match Tables(f, hs)
    case Short => Short
    case Got(table, _) =>
      match ExportScan(table, f.header.nExpSyms)
      case Short => Short
      case Got(exports, b1) =>
        match UnresScan(b1, f.header.nUnresSyms)
        case Short => Short
        case Got(unres, _) =>
          WithDeps(exports, unres, GetNames(table[f.header.expSize + f.header.unresSize..], f.header.nDeps))
  }

  function WithDeps(exports: seq<string>, unres: seq<string>, deps: Parsed<seq<string>>): Parsed<Lists> {
    match deps
    case Short => Short
    case Got(names, _) => Got(Lists(exports, unres, names), [])
  }

  /** gettables, parse, and the scan over the dependencies in process. */
  method ReadLists(f: File, hs: nat) returns (ok: bool, lists: Lists)
    ensures ListsOf(f, hs) == if ok then Got(lists, []) else Short
  {
    lists := Lists([], [], []);
    match Tables(f, hs) {
      case Short => ok := false;
      case Got(table, _) =>
        var e, u, d, scan;
        ok, e, u := Parse(f.header, table);
        if !ok { return; }
        ok, d, scan := ReadNames(table[f.header.expSize + f.header.unresSize..], f.header.nDeps);
        lists := Lists(e, u, d);
    }
  }

  lemma ListsBack(img: Image, hs: nat, description: seq<Byte>)
    requires Writable(img)
    ensures ListsOf(WriteFile(img, hs, description), hs) == Got(NamesOf(img), [])
  {
    TablesBack(img, hs, description);
  }
}
