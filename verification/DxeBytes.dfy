/** The bytes of a DXE3 file's tables, place by place (src/dxe/dxe3gen.c, lines 1079-1116,
    1182-1189 and 1262-1289). */
module DxeBytes {
  import opened Bits
  import opened DxeImage
  import opened DxeFormat

  /** A name with its NUL, from place i on. */
  ghost predicate NameAt(b: seq<Byte>, i: nat, name: string) {
    && i + |name| < |b| && b[i + |name|] == 0
    && forall k | 0 <= k < |name| :: b[i + k] == name[k] as int
  }

  /** Numbers of four bytes, from place i on. */
  ghost predicate LongsAt(b: seq<Byte>, i: int, vs: seq<Word>)
    decreases |vs|
  {
    vs == [] || (0 <= i && i + 4 <= |b| && Number(b, i) == vs[0] && LongsAt(b, i + 4, vs[1..]))
  }

  /** An entry of the export table: the offset, and the name. */
  ghost predicate ExportAt(b: seq<Byte>, i: nat, e: Export) {
    i + 4 <= |b| && Number(b, i) == e.offset && NameAt(b, i + 4, e.name)
  }

  /** An entry of the unresolved table: how many relative and absolute references there
      are, the name, and their sites. */
  ghost predicate UnresAt(b: seq<Byte>, i: nat, u: Unresolved) {
    && i + 4 <= |b|
    && b[i] as int + 0x100 * b[i + 1] as int == |u.rel| && b[i + 2] as int + 0x100 * b[i + 3] as int == |u.abs|
    && NameAt(b, i + 4, u.name)
    && LongsAt(b, i + 5 + |u.name|, u.rel) && LongsAt(b, i + 5 + |u.name| + 4 * |u.rel|, u.abs)
  }

  lemma Shifted(front: seq<Byte>, first: seq<Byte>, more: seq<Byte>, rest: seq<Byte>)
    ensures front + (first + more + rest) == front + (first + (more + rest)) == front + first + (more + rest)
  {
  }

  lemma NumberOf(v: Word, b: seq<Byte>, i: nat)
    requires i + 4 <= |b| && b[i..i + 4] == Le32(v)
    ensures Number(b, i) == v
  {
    WordOfBytes(v);
    assert b[i] == b[i..i + 4][0] && b[i + 1] == b[i..i + 4][1];
    assert b[i + 2] == b[i..i + 4][2] && b[i + 3] == b[i..i + 4][3];
  }

  lemma NamePut(front: seq<Byte>, name: string, rest: seq<Byte>)
    requires CName(name)
    ensures NameAt(front + (NameBytes(name) + rest), |front|, name)
  {
    var b := front + (NameBytes(name) + rest);
    forall k | 0 <= k < |name| ensures b[|front| + k] == name[k] as int {
      assert b[|front| + k] == Chars(name)[k];
    }
  }

  lemma {:induction false} LongsPut(b: seq<Byte>, front: seq<Byte>, vs: seq<Word>, rest: seq<Byte>, at: int)
    requires at == |front| && b == front + (Longs(vs) + rest)
    ensures LongsAt(b, at, vs)
    decreases |vs|
  {
    if vs != [] {
      Shifted(front, Le32(vs[0]), Longs(vs[1..]), rest);
      LongPut(front, vs[0], Longs(vs[1..]) + rest);
      LongsPut(b, front + Le32(vs[0]), vs[1..], rest, at + 4);
    }
  }

  lemma LongPut(front: seq<Byte>, v: Word, rest: seq<Byte>)
    ensures Number(front + (Le32(v) + rest), |front|) == v
  {
    var b := front + (Le32(v) + rest);
    assert b[|front|..|front| + 4] == Le32(v);
    NumberOf(v, b, |front|);
  }

  lemma ExportPut(front: seq<Byte>, e: Export, rest: seq<Byte>)
    requires CName(e.name)
    ensures ExportAt(front + (Le32(e.offset) + NameBytes(e.name) + rest), |front|, e)
  {
    Shifted(front, Le32(e.offset), NameBytes(e.name), rest);
    LongPut(front, e.offset, NameBytes(e.name) + rest);
    NamePut(front + Le32(e.offset), e.name, rest);
  }

  lemma CountPut(n: nat)
    requires n <= 0xffff
    ensures Byte0(n) as int + 0x100 * Byte1(n) as int == n
  {
  }

  lemma UnresHead(front: seq<Byte>, u: Unresolved, rest: seq<Byte>)
    requires Storable(u)
    ensures var b, i := front + (UnresEntry(u) + rest), |front|;
      && b[i] as int + 0x100 * b[i + 1] as int == |u.rel| && b[i + 2] as int + 0x100 * b[i + 3] as int == |u.abs|
      && NameAt(b, i + 4, u.name)
  {
    var b, f1 := front + (UnresEntry(u) + rest), front + (Le16(|u.rel|) + Le16(|u.abs|));
    EntryParts(front, u, rest);
    assert b[|front|..|front| + 4] == Le16(|u.rel|) + Le16(|u.abs|);
    CountsAt(b, |front|, |u.rel|, |u.abs|);
    NamePut(f1, u.name, Longs(u.rel) + (Longs(u.abs) + rest));
  }

  lemma UnresSites(front: seq<Byte>, u: Unresolved, rest: seq<Byte>)
    requires Storable(u)
    ensures var b, i := front + (UnresEntry(u) + rest), |front|;
      && LongsAt(b, i + 5 + |u.name|, u.rel) && LongsAt(b, i + 5 + |u.name| + 4 * |u.rel|, u.abs)
  {
    var b, f2 := front + (UnresEntry(u) + rest), front + (Le16(|u.rel|) + Le16(|u.abs|)) + NameBytes(u.name);
    EntryParts(front, u, rest);
    LongsPut(b, f2, u.rel, Longs(u.abs) + rest, |front| + 5 + |u.name|);
    LongsPut(b, f2 + Longs(u.rel), u.abs, rest, |front| + 5 + |u.name| + 4 * |u.rel|);
  }

  lemma UnresPut(front: seq<Byte>, u: Unresolved, rest: seq<Byte>)
    requires Storable(u)
    ensures UnresAt(front + (UnresEntry(u) + rest), |front|, u)
  {
    UnresHead(front, u, rest);
    UnresSites(front, u, rest);
  }

  lemma EntryParts(front: seq<Byte>, u: Unresolved, rest: seq<Byte>)
    ensures var b, f1 := front + (UnresEntry(u) + rest), front + (Le16(|u.rel|) + Le16(|u.abs|));
      var f2, rel, abs := f1 + NameBytes(u.name), Longs(u.rel), Longs(u.abs);
      && b == f1 + (NameBytes(u.name) + (rel + (abs + rest)))
      && b == f2 + (rel + (abs + rest)) && b == f2 + rel + (abs + rest)
  {
  }

  lemma CountsAt(b: seq<Byte>, i: nat, m: nat, n: nat)
    requires m <= 0xffff && n <= 0xffff && i + 4 <= |b| && b[i..i + 4] == Le16(m) + Le16(n)
    ensures b[i] as int + 0x100 * b[i + 1] as int == m && b[i + 2] as int + 0x100 * b[i + 3] as int == n
  {
    CountPut(m);
    CountPut(n);
    assert b[i] == b[i..i + 4][0] && b[i + 1] == b[i..i + 4][1];
    assert b[i + 2] == b[i..i + 4][2] && b[i + 3] == b[i..i + 4][3];
  }

  /** The entries of a table, one behind the other from place i on. */
  ghost predicate ExportsHold(b: seq<Byte>, i: int, es: seq<Export>)
    decreases |es|
  {
    es == [] || (i >= 0 && ExportAt(b, i, es[0]) && ExportsHold(b, i + 4 + |es[0].name| + 1, es[1..]))
  }

  function SizeOf(u: Unresolved): nat { 4 + |u.name| + 1 + 4 * |u.rel| + 4 * |u.abs| }

  ghost predicate UnresHold(b: seq<Byte>, i: int, us: seq<Unresolved>)
    decreases |us|
  {
    us == [] ||
    var u := us[0];
    i >= 0 && UnresAt(b, i, u) && UnresHold(b, i + SizeOf(u), us[1..])
  }

  ghost predicate NamesHold(b: seq<Byte>, i: int, names: seq<string>)
    decreases |names|
  {
    names == [] || (i >= 0 && NameAt(b, i, names[0]) && NamesHold(b, i + |names[0]| + 1, names[1..]))
  }

  ghost predicate DataHold(b: seq<Byte>, at: int, data: seq<Byte>) {
    0 <= at <= at + |data| <= |b| && b[at..at + |data|] == data
  }

  ghost predicate HeaderHolds(h: Header, img: Image) {
    && h.symbolOffset % 16 == 0 && h.nrelocs == |img.relocs|
    && h.nExpSyms == |img.exports| && h.nDeps == |img.deps| && h.nUnresSyms == |img.unres|
    && h.secSize == img.size && h.secFSize == |img.data| && h.init == img.init && h.fini == img.fini
  }

  /** Every entry of every table of a written file, at the place that the header and the
      entries before it give. */
  ghost predicate FileHolds(h: Header, b: seq<Byte>, hs: nat, img: Image) {
    && HeaderHolds(h, img)
    && FrontHolds(b, h.expTable - hs, h.symbolOffset - hs, h.depTable - hs, img)
    && BackHolds(b, h.unresTable - hs, h.relocTable - hs, img)
  }

  ghost predicate FrontHolds(b: seq<Byte>, exports: int, section: int, deps: int, img: Image) {
    ExportsHold(b, exports, img.exports) && DataHold(b, section, img.data) && NamesHold(b, deps, img.deps)
  }

  ghost predicate BackHolds(b: seq<Byte>, unres: int, relocs: int, img: Image) {
    UnresHold(b, unres, img.unres) && LongsAt(b, relocs, img.relocs)
  }

  lemma {:induction false} ExportsPut(b: seq<Byte>, front: seq<Byte>, es: seq<Export>, rest: seq<Byte>, at: int)
    requires at == |front| && b == front + (ExportTable(es) + rest) && forall k | 0 <= k < |es| :: CName(es[k].name)
    ensures ExportsHold(b, at, es)
    decreases |es|
  {
    if es != [] {
      var first, more := Le32(es[0].offset) + NameBytes(es[0].name), ExportTable(es[1..]);
      Shifted(front, first, more, rest);
      ExportPut(front, es[0], more + rest);
      assert |first| == 4 + |es[0].name| + 1;
      ExportsPut(b, front + first, es[1..], rest, at + 4 + |es[0].name| + 1);
    }
  }

  lemma UnresFirst(b: seq<Byte>, front: seq<Byte>, u: Unresolved, more: seq<Byte>, rest: seq<Byte>)
    requires Storable(u) && b == front + (UnresEntry(u) + more + rest)
    ensures UnresAt(b, |front|, u) && b == front + UnresEntry(u) + (more + rest)
    ensures |front + UnresEntry(u)| == |front| + SizeOf(u)
  {
    Shifted(front, UnresEntry(u), more, rest);
    UnresPut(front, u, more + rest);
    EntrySize(u);
  }

  lemma {:induction false} UnresolvedPut(b: seq<Byte>, front: seq<Byte>, us: seq<Unresolved>, rest: seq<Byte>, at: int)
    requires at == |front| && b == front + (UnresTable(us) + rest) && forall k | 0 <= k < |us| :: Storable(us[k])
    ensures UnresHold(b, at, us)
    decreases |us|
  {
    if us != [] {
      UnresFirst(b, front, us[0], UnresTable(us[1..]), rest);
      UnresolvedPut(b, front + UnresEntry(us[0]), us[1..], rest, at + SizeOf(us[0]));
    }
  }

  lemma EntrySize(u: Unresolved)
    ensures |UnresEntry(u)| == SizeOf(u)
  {
  }

  lemma {:induction false} NamesPut(b: seq<Byte>, front: seq<Byte>, names: seq<string>, rest: seq<Byte>, at: int)
    requires at == |front| && b == front + (NameTable(names) + rest) && forall k | 0 <= k < |names| :: CName(names[k])
    ensures NamesHold(b, at, names)
    decreases |names|
  {
    if names != [] {
      var first, more := NameBytes(names[0]), NameTable(names[1..]);
      Shifted(front, first, more, rest);
      NamePut(front, names[0], more + rest);
      NamesPut(b, front + first, names[1..], rest, at + |first|);
    }
  }

  lemma Parted(e: seq<Byte>, p: seq<Byte>, s: seq<Byte>, d: seq<Byte>, u: seq<Byte>, r: seq<Byte>, x: seq<Byte>)
    ensures var b := Body(e, p, s, d, u, r, x);
      && b == [] + (e + (p + s + d + u + r + x)) && b == e + p + (s + (d + u + r + x))
      && b == e + p + s + (d + (u + r + x)) && b == e + p + s + d + (u + (r + x)) && b == e + p + s + d + u + (r + x)
  {
  }

  lemma DataPut(b: seq<Byte>, front: seq<Byte>, s: seq<Byte>, rest: seq<Byte>, at: int)
    requires at == |front| && b == front + (s + rest)
    ensures DataHold(b, at, s)
  {
  }

  lemma BackParts(b: seq<Byte>, img: Image, e: seq<Byte>, p: seq<Byte>, d: seq<Byte>, u: seq<Byte>, r: seq<Byte>,
                  x: seq<Byte>, unres: int, relocs: int)
    requires Writable(img) && b == Body(e, p, img.data, d, u, r, x) && u == UnresTable(img.unres)
    requires r == Longs(img.relocs)
    requires unres == |e + p + img.data + d| && relocs == |e + p + img.data + d + u|
    ensures BackHolds(b, unres, relocs, img)
  {
    Parted(e, p, img.data, d, u, r, x);
    UnresolvedPut(b, e + p + img.data + d, img.unres, r + x, unres);
    LongsPut(b, e + p + img.data + d + u, img.relocs, x, relocs);
  }

  lemma FrontParts(b: seq<Byte>, img: Image, e: seq<Byte>, p: seq<Byte>, d: seq<Byte>, u: seq<Byte>, r: seq<Byte>,
                   x: seq<Byte>, section: int, deps: int)
    requires Writable(img) && b == Body(e, p, img.data, d, u, r, x) && e == ExportTable(img.exports)
    requires d == NameTable(img.deps) && section == |e + p| && deps == |e + p + img.data|
    ensures FrontHolds(b, 0, section, deps, img)
  {
    var s := img.data;
    Parted(e, p, s, d, u, r, x);
    ExportsPut(b, [], img.exports, p + s + d + u + r + x, 0);
    DataPut(b, e + p, s, d + u + r + x, section);
    NamesPut(b, e + p + s, img.deps, u + r + x, deps);
  }

  lemma Together(h: Header, b: seq<Byte>, hs: nat, img: Image, section: int, deps: int, unres: int, relocs: int)
    requires HeaderHolds(h, img) && FrontHolds(b, 0, section, deps, img) && BackHolds(b, unres, relocs, img)
    requires h.expTable == hs && h.symbolOffset == hs + section && h.depTable == hs + deps
    requires h.unresTable == hs + unres && h.relocTable == hs + relocs
    ensures FileHolds(h, b, hs, img)
  {
  }

  lemma WrittenHolds(img: Image, hs: nat, description: seq<Byte>)
    requires Writable(img)
    ensures var f := WriteFile(img, hs, description);
      FileHolds(f.header, f.body, hs, img)
  {
    var f, e, p, s := WriteFile(img, hs, description), ExportTable(img.exports), Pad(img, hs), img.data;
    var d, u, r := NameTable(img.deps), UnresTable(img.unres), Longs(img.relocs);
    var section, deps, unres, relocs := |e + p|, |e + p + s|, |e + p + s + d|, |e + p + s + d + u|;
    Places(img, hs, e, p, s, d, u);
    FrontParts(f.body, img, e, p, d, u, r, description, section, deps);
    BackParts(f.body, img, e, p, d, u, r, description, unres, relocs);
    Together(f.header, f.body, hs, img, section, deps, unres, relocs);
  }

  lemma Places(img: Image, hs: nat, e: seq<Byte>, p: seq<Byte>, s: seq<Byte>, d: seq<Byte>, u: seq<Byte>)
    requires e == ExportTable(img.exports) && p == Pad(img, hs) && s == img.data
    requires d == NameTable(img.deps) && u == UnresTable(img.unres)
    ensures var h := HeaderOf(img, hs);
      && HeaderHolds(h, img) && h.expTable == hs && h.symbolOffset - hs == |e + p|
      && h.depTable - hs == |e + p + s| && h.unresTable - hs == |e + p + s + d|
      && h.relocTable - hs == |e + p + s + d + u|
  {
  }
}
