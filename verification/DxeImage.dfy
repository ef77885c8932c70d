/** A DXE3 module as its file describes it, and the fixing of its section when it
    is placed in memory (src/libc/dxe/dlopen.c, lines 299-333). */
module DxeImage {
  import opened Bits

  datatype Export = Export(name: string, offset: Word)

  /** An unresolved symbol with the section offsets that refer to it, relative and
      absolute. */
  datatype Unresolved = Unresolved(name: string, rel: seq<Word>, abs: seq<Word>)

  /** `data` is the stored start of the section, `size` its full size in memory. */
  datatype Image = Image(
    exports: seq<Export>,
    data: seq<Byte>,
    size: nat,
    deps: seq<string>,
    unres: seq<Unresolved>,
    relocs: seq<Word>,
    init: int,
    fini: int)

  // ------------------------------------------------------------ 32-bit fields

  function Word4(a: int, b: int, c: int, d: int): int {
    a + 0x100 * b + 0x1_0000 * c + 0x100_0000 * d
  }

  function Get32(s: seq<Byte>, i: nat): Word
    requires i + 4 <= |s|
  {
    Word4(s[i], s[i + 1], s[i + 2], s[i + 3])
  }

  function Byte0(v: int): Byte { v % 0x100 }
  function Byte1(v: int): Byte { v / 0x100 % 0x100 }
  function Byte2(v: int): Byte { v / 0x1_0000 % 0x100 }
  function Byte3(v: int): Byte { v / 0x100_0000 % 0x100 }

  function Put32(s: seq<Byte>, i: nat, v: Word): (t: seq<Byte>)
    requires i + 4 <= |s|
    ensures |t| == |s|
  {
    s[i := Byte0(v)][i + 1 := Byte1(v)][i + 2 := Byte2(v)][i + 3 := Byte3(v)]
  }

  lemma WordOfBytes(v: Word)
    ensures Word4(Byte0(v), Byte1(v), Byte2(v), Byte3(v)) == v
  {
    var q := v / 0x100;
    var r := q / 0x100;
    assert v / 0x1_0000 == r && v / 0x100_0000 == r / 0x100;
    assert r / 0x100 < 0x100;
  }

  lemma BytesOfWord(a: Byte, b: Byte, c: Byte, d: Byte)
    ensures var v := Word4(a, b, c, d);
      0 <= v < 0x1_0000_0000 && Byte0(v) == a && Byte1(v) == b && Byte2(v) == c && Byte3(v) == d
  {
    var v := Word4(a, b, c, d);
    var q := b + 0x100 * c + 0x1_0000 * d;
    var r := c + 0x100 * d;
    assert v == a + 0x100 * q && q == b + 0x100 * r;
    assert v / 0x100 == q && q / 0x100 == r;
    assert v / 0x1_0000 == r && v / 0x100_0000 == d;
  }

  lemma PutGet(s: seq<Byte>, i: nat, v: Word)
    requires i + 4 <= |s|
    ensures Get32(Put32(s, i, v), i) == v
    ensures forall k: nat | k < |s| && !(i <= k < i + 4) :: Put32(s, i, v)[k] == s[k]
  {
    WordOfBytes(v);
  }

  lemma PutElsewhere(s: seq<Byte>, i: nat, v: Word, k: nat)
    requires i + 4 <= |s| && k + 4 <= |s| && (k + 4 <= i || i + 4 <= k)
    ensures Get32(Put32(s, i, v), k) == Get32(s, k)
  {
  }

  /** The number in four bytes of memory, lowest first. */
  function Number(s: seq<Byte>, i: nat): int
    requires i + 4 <= |s|
  {
    s[i] as int + 0x100 * s[i + 1] as int + 0x1_0000 * s[i + 2] as int + 0x100_0000 * s[i + 3] as int
  }

  lemma NumberIs(s: seq<Byte>, i: nat)
    requires i + 4 <= |s|
    ensures Get32(s, i) == Number(s, i)
  {
  }

  // -------------------------------------------------------------------- edits

  /** One fix of a 32-bit field: a value stored over it or added to it. */
  datatype Edit = Store(site: Word, value: Word) | Increase(site: Word, value: Word)

  function Edited(e: Edit, was: Word): Word {
    match e
    case Store(_, v) => v
    case Increase(_, v) => U32(was + v)
  }

  predicate Inside(e: Edit, size: nat) { e.site + 4 <= size }

  function Apply(e: Edit, s: seq<Byte>): (t: seq<Byte>)
    requires Inside(e, |s|)
    ensures |t| == |s|
  {
    Put32(s, e.site, Edited(e, Get32(s, e.site)))
  }

  predicate AllInside(es: seq<Edit>, size: nat) { forall i | 0 <= i < |es| :: Inside(es[i], size) }

  function ApplyAll(es: seq<Edit>, s: seq<Byte>): (t: seq<Byte>)
    requires AllInside(es, |s|)
    ensures |t| == |s|
  {
    if es == [] then s else Apply(es[|es| - 1], ApplyAll(es[..|es| - 1], s))
  }

  /** No field is fixed twice and no two fixed fields overlap. */
  ghost predicate Apart(es: multiset<Edit>) {
    && (forall e | e in es :: es[e] == 1)
    && (forall e, f | e in es && f in es && e != f :: e.site + 4 <= f.site || f.site + 4 <= e.site)
  }

  predicate Touches(e: Edit, k: nat) { e.site <= k < e.site + 4 }

  /** Each fixed field holds its edit of the original value, every other byte is
      the original one. */
  ghost predicate FixedBy(es: multiset<Edit>, s: seq<Byte>, t: seq<Byte>) {
    && |t| == |s|
    && (forall e | e in es :: Inside(e, |s|) && Get32(t, e.site) == Edited(e, Get32(s, e.site)))
    && (forall k: nat | k < |s| && (forall e | e in es :: !Touches(e, k)) :: t[k] == s[k])
  }

  /** When no two edits meet, each acts on the original value, in any order. */
  lemma {:induction false} EditsFix(es: seq<Edit>, s: seq<Byte>)
    requires AllInside(es, |s|) && Apart(multiset(es))
    ensures FixedBy(multiset(es), s, ApplyAll(es, s))
  {
    if es != [] {
      var n := |es| - 1;
      var front, e := es[..n], es[n];
      assert es == front + [e];
      FrontApart(front, e);
      EditsFix(front, s);
      LastEdit(front, e, s, ApplyAll(front, s));
    }
  }

  lemma LastEdit(front: seq<Edit>, e: Edit, s: seq<Byte>, m: seq<Byte>)
    requires Apart(multiset(front + [e])) && e !in front
    requires Inside(e, |s|) && FixedBy(multiset(front), s, m)
    ensures FixedBy(multiset(front + [e]), s, Apply(e, m))
  {
    var es := multiset(front + [e]);
    assert es == multiset(front) + multiset{e};
    var t := Apply(e, m);
    forall f | f in es ensures Inside(f, |s|) && Get32(t, f.site) == Edited(f, Get32(s, f.site)) {
      LastField(front, e, s, m, f);
    }
    forall k: nat | k < |s| && (forall f | f in es :: !Touches(f, k)) ensures t[k] == s[k] {
      LastByte(front, e, s, m, k);
    }
  }

  lemma LastByte(front: seq<Edit>, e: Edit, s: seq<Byte>, m: seq<Byte>, k: nat)
    requires Inside(e, |s|) && FixedBy(multiset(front), s, m)
    requires k < |s| && (forall f | f in multiset(front + [e]) :: !Touches(f, k))
    ensures Apply(e, m)[k] == s[k]
  {
    var es := multiset(front + [e]);
    assert es == multiset(front) + multiset{e};
    assert e in es && !Touches(e, k);
    PutGet(m, e.site, Edited(e, Get32(m, e.site)));
    assert forall f | f in multiset(front) :: f in es;
  }

  lemma LastField(front: seq<Edit>, e: Edit, s: seq<Byte>, m: seq<Byte>, f: Edit)
    requires Apart(multiset(front + [e])) && e !in front && f in multiset(front + [e])
    requires Inside(e, |s|) && FixedBy(multiset(front), s, m)
    ensures Inside(f, |s|) && Get32(Apply(e, m), f.site) == Edited(f, Get32(s, f.site))
  {
    var es := multiset(front + [e]);
    assert es == multiset(front) + multiset{e};
    var v := Edited(e, Get32(m, e.site));
    if f == e {
      UntouchedField(front, e, s, m);
      PutGet(m, e.site, v);
    } else {
      assert f in multiset(front) && e in es;
      PutElsewhere(m, e.site, v, f.site);
    }
  }

  lemma FrontApart(front: seq<Edit>, e: Edit)
    requires Apart(multiset(front + [e]))
    ensures Apart(multiset(front)) && e !in front
  {
    var m, es := multiset(front), multiset(front + [e]);
    assert es == m + multiset{e} && (e in front <==> e in m);
    forall f | f in m ensures f in es && m[f] == 1 && f != e {
      assert f in es && es[f] == 1;
      assert es[f] == m[f] + multiset{e}[f];
    }
  }

  /** The field of an edit apart from all the others is still the original one. */
  lemma UntouchedField(front: seq<Edit>, e: Edit, s: seq<Byte>, t: seq<Byte>)
    requires Apart(multiset(front + [e])) && e !in front
    requires Inside(e, |s|) && FixedBy(multiset(front), s, t)
    ensures Get32(t, e.site) == Get32(s, e.site)
  {
    UntouchedByte(front, e, s, t, e.site);
    UntouchedByte(front, e, s, t, e.site + 1);
    UntouchedByte(front, e, s, t, e.site + 2);
    UntouchedByte(front, e, s, t, e.site + 3);
  }

  lemma UntouchedByte(front: seq<Edit>, e: Edit, s: seq<Byte>, t: seq<Byte>, k: nat)
    requires Apart(multiset(front + [e])) && e !in front
    requires Inside(e, |s|) && FixedBy(multiset(front), s, t) && Touches(e, k)
    ensures t[k] == s[k]
  {
    var es := multiset(front + [e]);
    assert es == multiset(front) + multiset{e};
    forall f | f in multiset(front) ensures !Touches(f, k) {
      assert f != e && f in es && e in es;
    }
  }

  /** Nothing else satisfies that description. */
  lemma FixedUnique(es: multiset<Edit>, s: seq<Byte>, t: seq<Byte>, u: seq<Byte>)
    requires FixedBy(es, s, t) && FixedBy(es, s, u)
    ensures t == u
  {
    forall k: nat | k < |s| ensures t[k] == u[k] {
      if exists e :: e in es && Touches(e, k) {
        var e :| e in es && Touches(e, k);
        SameField(t, u, e.site, k);
      }
    }
  }

  lemma SameField(t: seq<Byte>, u: seq<Byte>, i: nat, k: nat)
    requires i + 4 <= |t| == |u| && Get32(t, i) == Get32(u, i) && i <= k < i + 4
    ensures t[k] == u[k]
  {
    BytesOfWord(t[i], t[i + 1], t[i + 2], t[i + 3]);
    BytesOfWord(u[i], u[i + 1], u[i + 2], u[i + 3]);
  }

  // ------------------------------------------------------------------ linking

  /** The section as read: the stored bytes, the rest zero (line 253). */
  function Padded(img: Image): (s: seq<Byte>)
    requires |img.data| <= img.size
    ensures |s| == img.size
  {
    img.data + seq(img.size - |img.data|, _ => 0)
  }

  ghost predicate SitesInside(sites: seq<Word>, size: nat) {
    forall i | 0 <= i < |sites| :: sites[i] + 4 <= size
  }

  /** Every field the tables name lies in the section. */
  ghost predicate WellFormed(img: Image) {
    && |img.data| <= img.size
    && SitesInside(img.relocs, img.size)
    && (forall i | 0 <= i < |img.unres| ::
          SitesInside(img.unres[i].rel, img.size) && SitesInside(img.unres[i].abs, img.size))
  }

  /** A relative field of a section at `base` becomes target - site - 4. */
  function RelEdit(site: Word, base: Word, target: Word): Edit {
    Store(site, U32(target as int - (base + site) - 4))
  }

  function RelEdits(sites: seq<Word>, base: Word, target: Word): (es: seq<Edit>)
    ensures |es| == |sites|
  {
    seq(|sites|, i requires 0 <= i < |sites| => RelEdit(sites[i], base, target))
  }

  function AddEdits(sites: seq<Word>, value: Word): (es: seq<Edit>)
    ensures |es| == |sites|
  {
    seq(|sites|, i requires 0 <= i < |sites| => Increase(sites[i], value))
  }

  /** The fixes for one unresolved symbol; none while its address is 0. */
  function SymbolEdits(u: Unresolved, base: Word, target: Word): seq<Edit> {
    if target == 0 then [] else RelEdits(u.rel, base, target) + AddEdits(u.abs, target)
  }

  function UnresEdits(us: seq<Unresolved>, base: Word, addr: string -> Word): seq<Edit> {
    if us == [] then []
    else
      var u := us[|us| - 1];
      UnresEdits(us[..|us| - 1], base, addr) + SymbolEdits(u, base, addr(u.name))
  }

  /** All the fixes of a module, in the order the loader makes them. */
  function LinkEdits(img: Image, base: Word, addr: string -> Word): seq<Edit> {
    UnresEdits(img.unres, base, addr) + AddEdits(img.relocs, base)
  }

  function Missing(us: seq<Unresolved>, addr: string -> Word): seq<string> {
    if us == [] then []
    else
      var u := us[|us| - 1];
      Missing(us[..|us| - 1], addr) + if addr(u.name) == 0 then [u.name] else []
  }

  lemma {:induction false} EditsInside(us: seq<Unresolved>, base: Word, addr: string -> Word, size: nat)
    requires forall i | 0 <= i < |us| :: SitesInside(us[i].rel, size) && SitesInside(us[i].abs, size)
    ensures AllInside(UnresEdits(us, base, addr), size)
  {
    if us != [] { EditsInside(us[..|us| - 1], base, addr, size); }
  }

  lemma LinkInside(img: Image, base: Word, addr: string -> Word)
    requires WellFormed(img)
    ensures AllInside(LinkEdits(img, base, addr), img.size)
  {
    EditsInside(img.unres, base, addr, img.size);
  }

  // ------------------------------------------------------- what the fields then hold

  /** A relative field in a section at `base`: the end of the field in memory plus the
      number in it is the target. */
  ghost predicate Reaches(s: seq<Byte>, site: Word, base: Word, target: Word) {
    site + 4 <= |s| && (base + site + 4 + Number(s, site)) % 0x1_0000_0000 == target
  }

  ghost predicate Gained(was: seq<Byte>, now: seq<Byte>, site: Word, v: Word) {
    && site + 4 <= |was| == |now|
    && Number(now, site) == (Number(was, site) + v) % 0x1_0000_0000
  }

  /** The references to one symbol. */
  ghost predicate SymbolFixed(was: seq<Byte>, now: seq<Byte>, u: Unresolved, base: Word, target: Word) {
    && (forall j | 0 <= j < |u.rel| :: Reaches(now, u.rel[j], base, target))
    && (forall j | 0 <= j < |u.abs| :: Gained(was, now, u.abs[j], target))
  }

  /** All fields of a module, in the order of its tables. */
  function FieldsOf(us: seq<Unresolved>): seq<Word> {
    if us == [] then []
    else FieldsOf(us[..|us| - 1]) + (us[|us| - 1].rel + us[|us| - 1].abs)
  }

  ghost predicate Separate(sites: seq<Word>) {
    forall i, j | 0 <= i < j < |sites| :: sites[i] as int + 4 <= sites[j] || sites[j] as int + 4 <= sites[i]
  }

  /** The fields of a linked module: every reference has its target, every field to be
      moved has moved, and no other byte has changed. */
  ghost predicate FullyLinked(img: Image, base: Word, addr: string -> Word, was: seq<Byte>, now: seq<Byte>) {
    && AllFixed(img.unres, base, addr, was, now)
    && (forall j | 0 <= j < |img.relocs| :: Gained(was, now, img.relocs[j], base))
    && OnlyIn(FieldsOf(img.unres) + img.relocs, was, now)
  }

  lemma FarTarget(base: Word, site: Word, target: Word)
    ensures (base + site + 4 + U32(target as int - (base + site) - 4)) % 0x1_0000_0000 == target
  {
  }

  lemma FieldReaches(s: seq<Byte>, site: Word, base: Word, v: Word)
    requires site + 4 <= |s| && Get32(s, site) == U32(v as int - (base + site) - 4)
    ensures Reaches(s, site, base, v)
  {
    NumberIs(s, site);
    FarTarget(base, site, v);
  }

  lemma FieldGains(was: seq<Byte>, now: seq<Byte>, site: Word, v: Word)
    requires site + 4 <= |was| == |now| && Get32(now, site) == U32(Get32(was, site) + v)
    ensures Gained(was, now, site, v)
  {
    NumberIs(was, site);
    NumberIs(now, site);
  }

  /** The edit has acted, on the value that was there first. */
  ghost predicate Acted(e: Edit, was: seq<Byte>, now: seq<Byte>) {
    Inside(e, |was|) && |was| == |now| && Get32(now, e.site) == Edited(e, Get32(was, e.site))
  }

  ghost predicate AllActed(es: seq<Edit>, was: seq<Byte>, now: seq<Byte>) {
    forall i | 0 <= i < |es| :: Acted(es[i], was, now)
  }

  lemma FixedActs(es: seq<Edit>, was: seq<Byte>)
    requires AllInside(es, |was|) && Apart(multiset(es))
    ensures AllActed(es, was, ApplyAll(es, was))
  {
    EditsFix(es, was);
    forall i | 0 <= i < |es| ensures Acted(es[i], was, ApplyAll(es, was)) { assert es[i] in multiset(es); }
  }

  lemma ActedApart(a: seq<Edit>, b: seq<Edit>, was: seq<Byte>, now: seq<Byte>)
    requires AllActed(a + b, was, now)
    ensures AllActed(a, was, now) && AllActed(b, was, now)
  {
    forall i | 0 <= i < |a| ensures Acted(a[i], was, now) { assert a[i] == (a + b)[i]; }
    forall i | 0 <= i < |b| ensures Acted(b[i], was, now) { assert b[i] == (a + b)[|a| + i]; }
  }

  lemma RelativesFixed(sites: seq<Word>, base: Word, target: Word, was: seq<Byte>, now: seq<Byte>)
    requires AllActed(RelEdits(sites, base, target), was, now)
    ensures forall j | 0 <= j < |sites| :: Reaches(now, sites[j], base, target)
  {
    forall j | 0 <= j < |sites| ensures Reaches(now, sites[j], base, target) {
      assert Acted(RelEdits(sites, base, target)[j], was, now);
      FieldReaches(now, sites[j], base, target);
    }
  }

  lemma AbsolutesFixed(sites: seq<Word>, v: Word, was: seq<Byte>, now: seq<Byte>)
    requires AllActed(AddEdits(sites, v), was, now)
    ensures forall j | 0 <= j < |sites| :: Gained(was, now, sites[j], v)
  {
    forall j | 0 <= j < |sites| ensures Gained(was, now, sites[j], v) {
      assert Acted(AddEdits(sites, v)[j], was, now);
      FieldGains(was, now, sites[j], v);
    }
  }

  lemma SymbolFields(was: seq<Byte>, now: seq<Byte>, u: Unresolved, base: Word, target: Word)
    requires target != 0 && AllActed(SymbolEdits(u, base, target), was, now)
    ensures SymbolFixed(was, now, u, base, target)
  {
    ActedApart(RelEdits(u.rel, base, target), AddEdits(u.abs, target), was, now);
    RelativesFixed(u.rel, base, target, was, now);
    AbsolutesFixed(u.abs, target, was, now);
  }

  /** The fixes are of the fields in the tables, one after the other. */
  lemma {:induction false} SitesOfEdits(us: seq<Unresolved>, base: Word, addr: string -> Word)
    requires Missing(us, addr) == []
    ensures var es := UnresEdits(us, base, addr);
      |es| == |FieldsOf(us)| && forall k | 0 <= k < |es| :: es[k].site == FieldsOf(us)[k]
  {
    if us != [] { SitesOfEdits(us[..|us| - 1], base, addr); }
  }

  lemma {:induction false} SeparateApart(es: seq<Edit>)
    requires forall i, j | 0 <= i < j < |es| :: es[i].site + 4 <= es[j].site || es[j].site + 4 <= es[i].site
    ensures Apart(multiset(es))
  {
    if es != [] {
      var n := |es| - 1;
      var front, e := es[..n], es[n];
      assert es == front + [e];
      SeparateApart(front);
      forall f: Edit | f in multiset(front) ensures f.site + 4 <= e.site || e.site + 4 <= f.site {
        var i :| 0 <= i < n && front[i] == f;
      }
      OneMoreApart(front, e);
    }
  }

  lemma OneMoreApart(es: seq<Edit>, e: Edit)
    requires Apart(multiset(es)) && forall f: Edit | f in multiset(es) :: f.site + 4 <= e.site || e.site + 4 <= f.site
    ensures Apart(multiset(es + [e]))
  {
    assert multiset(es + [e]) == multiset(es) + multiset{e};
    assert e !in multiset(es);
  }

  /** Only bytes of the fields have changed. */
  ghost predicate OnlyIn(sites: seq<Word>, was: seq<Byte>, now: seq<Byte>) {
    && |was| == |now|
    && forall k | 0 <= k < |was| && was[k] != now[k] :: exists site | site in sites :: site <= k < site + 4
  }

  lemma ChangedEdit(es: seq<Edit>, was: seq<Byte>, k: nat) returns (j: nat)
    requires AllInside(es, |was|) && Apart(multiset(es)) && k < |was| && ApplyAll(es, was)[k] != was[k]
    ensures j < |es| && Touches(es[j], k)
  {
    EditsFix(es, was);
    var e :| e in multiset(es) && Touches(e, k);
    j :| 0 <= j < |es| && es[j] == e;
  }

  lemma ChangedIn(es: seq<Edit>, was: seq<Byte>, sites: seq<Word>)
    requires AllInside(es, |was|) && Apart(multiset(es))
    requires |es| == |sites| && forall j | 0 <= j < |es| :: es[j].site == sites[j]
    ensures OnlyIn(sites, was, ApplyAll(es, was))
  {
    var now := ApplyAll(es, was);
    forall k | 0 <= k < |was| && was[k] != now[k] ensures exists site | site in sites :: site <= k < site + 4 {
      var j := ChangedEdit(es, was, k);
      assert sites[j] in sites;
    }
  }

  ghost predicate AllFixed(us: seq<Unresolved>, base: Word, addr: string -> Word, was: seq<Byte>, now: seq<Byte>) {
    forall i | 0 <= i < |us| :: SymbolFixed(was, now, us[i], base, addr(us[i].name))
  }

  lemma OneMoreFixed(us: seq<Unresolved>, n: nat, base: Word, addr: string -> Word, was: seq<Byte>, now: seq<Byte>)
    requires n + 1 == |us| && AllFixed(us[..n], base, addr, was, now)
    requires SymbolFixed(was, now, us[n], base, addr(us[n].name))
    ensures AllFixed(us, base, addr, was, now)
  {
    forall i | 0 <= i < |us| ensures SymbolFixed(was, now, us[i], base, addr(us[i].name)) {
      if i < n { assert us[..n][i] == us[i]; }
    }
  }

  lemma {:induction false} UnresFields(us: seq<Unresolved>, base: Word, addr: string -> Word, was: seq<Byte>,
                                       now: seq<Byte>)
    requires Missing(us, addr) == [] && AllActed(UnresEdits(us, base, addr), was, now)
    ensures AllFixed(us, base, addr, was, now)
  {
    if us != [] {
      var n, u := |us| - 1, us[|us| - 1];
      ActedApart(UnresEdits(us[..n], base, addr), SymbolEdits(u, base, addr(u.name)), was, now);
      UnresFields(us[..n], base, addr, was, now);
      SymbolFields(was, now, u, base, addr(u.name));
      OneMoreFixed(us, n, base, addr, was, now);
    }
  }

  lemma LinkSites(img: Image, base: Word, addr: string -> Word)
    requires Missing(img.unres, addr) == [] && Separate(FieldsOf(img.unres) + img.relocs)
    ensures var es, sites := LinkEdits(img, base, addr), FieldsOf(img.unres) + img.relocs;
      |es| == |sites| && (forall k | 0 <= k < |es| :: es[k].site == sites[k]) && Apart(multiset(es))
  {
    var es, sites := LinkEdits(img, base, addr), FieldsOf(img.unres) + img.relocs;
    SitesOfEdits(img.unres, base, addr);
    assert forall k | 0 <= k < |es| :: es[k].site == sites[k];
    SeparateApart(es);
  }

  /** A module whose fields do not meet, once all its fixes have been made. */
  lemma LinkMeans(img: Image, base: Word, addr: string -> Word)
    requires WellFormed(img) && Missing(img.unres, addr) == [] && Separate(FieldsOf(img.unres) + img.relocs)
    ensures AllInside(LinkEdits(img, base, addr), img.size)
    ensures FullyLinked(img, base, addr, Padded(img), ApplyAll(LinkEdits(img, base, addr), Padded(img)))
  {
    var es, was := LinkEdits(img, base, addr), Padded(img);
    LinkInside(img, base, addr);
    LinkSites(img, base, addr);
    FixedActs(es, was);
    ChangedIn(es, was, FieldsOf(img.unres) + img.relocs);
    ActedApart(UnresEdits(img.unres, base, addr), AddEdits(img.relocs, base), was, ApplyAll(es, was));
    UnresFields(img.unres, base, addr, was, ApplyAll(es, was));
    AbsolutesFixed(img.relocs, base, was, ApplyAll(es, was));
  }

  lemma SymbolSites(u: Unresolved, base: Word, target: Word, size: nat)
    requires target != 0 && Separate(u.rel + u.abs) && SitesInside(u.rel, size) && SitesInside(u.abs, size)
    ensures AllInside(SymbolEdits(u, base, target), size) && Apart(multiset(SymbolEdits(u, base, target)))
  {
    var es, sites := SymbolEdits(u, base, target), u.rel + u.abs;
    assert forall k | 0 <= k < |es| :: es[k].site == sites[k];
    SeparateApart(es);
  }

  /** One symbol on its own. */
  lemma SymbolMeans(u: Unresolved, base: Word, target: Word, was: seq<Byte>)
    requires target != 0 && Separate(u.rel + u.abs) && SitesInside(u.rel, |was|) && SitesInside(u.abs, |was|)
    ensures AllInside(SymbolEdits(u, base, target), |was|)
    ensures SymbolFixed(was, ApplyAll(SymbolEdits(u, base, target), was), u, base, target)
  {
    SymbolSites(u, base, target, |was|);
    FixedActs(SymbolEdits(u, base, target), was);
    SymbolFields(was, ApplyAll(SymbolEdits(u, base, target), was), u, base, target);
  }

  /** One assignment through a section pointer. */
  method Fix(a: array<Byte>, e: Edit)
    requires Inside(e, a.Length)
    modifies a
    ensures a[..] == Apply(e, old(a[..]))
  {
    var i := e.site;
    var v := Edited(e, Word4(a[i], a[i + 1], a[i + 2], a[i + 3]));
    a[i] := Byte0(v);
    a[i + 1] := Byte1(v);
    a[i + 2] := Byte2(v);
    a[i + 3] := Byte3(v);
  }

  lemma ApplyLast(front: seq<Edit>, e: Edit, next: seq<Edit>, s: seq<Byte>)
    requires AllInside(front, |s|) && Inside(e, |s|) && next == front + [e]
    ensures AllInside(next, |s|)
    ensures ApplyAll(next, s) == Apply(e, ApplyAll(front, s))
  {
    assert next[..|front|] == front;
  }

  lemma NextPrefix(done: seq<Edit>, es: seq<Edit>, j: nat)
    requires j < |es|
    ensures done + es[..j + 1] == done + es[..j] + [es[j]]
  {
  }

  /** The loops of lines 311-315, 316-317 and 332-333: one field after the other. */
  method FixFields(a: array<Byte>, es: seq<Edit>, ghost s: seq<Byte>, ghost done: seq<Edit>)
    requires AllInside(es, a.Length) && |s| == a.Length
    requires AllInside(done, |s|) && a[..] == ApplyAll(done, s)
    modifies a
    ensures AllInside(done + es, |s|) && a[..] == ApplyAll(done + es, s)
  {
    var j := 0;
    ghost var so := done;
    assert done + es[..0] == done;
    while j < |es|
      invariant 0 <= j <= |es| && so == done + es[..j]
      invariant AllInside(so, |s|) && a[..] == ApplyAll(so, s)
    {
      ApplyLast(so, es[j], so + [es[j]], s);
      Fix(a, es[j]);
      NextPrefix(done, es, j);
      so := so + [es[j]];
      j := j + 1;
    }
    assert es[..|es|] == es;
  }

  lemma SymbolInside(u: Unresolved, base: Word, offset: Word, size: nat, done: seq<Edit>)
    requires SitesInside(u.rel, size) && SitesInside(u.abs, size)
    ensures AllInside(RelEdits(u.rel, base, offset), size) && AllInside(AddEdits(u.abs, offset), size)
    ensures offset != 0 ==>
      done + SymbolEdits(u, base, offset) == done + RelEdits(u.rel, base, offset) + AddEdits(u.abs, offset)
    ensures offset == 0 ==> done + SymbolEdits(u, base, offset) == done
  {
  }

  /** Lines 307-319: the references to one symbol. */
  method FixSymbol(a: array<Byte>, u: Unresolved, base: Word, offset: Word,
                   ghost s: seq<Byte>, ghost done: seq<Edit>)
    requires SitesInside(u.rel, a.Length) && SitesInside(u.abs, a.Length) && |s| == a.Length
    requires AllInside(done, |s|) && a[..] == ApplyAll(done, s)
    modifies a
    ensures AllInside(done + SymbolEdits(u, base, offset), |s|)
    ensures a[..] == ApplyAll(done + SymbolEdits(u, base, offset), s)
  {
    SymbolInside(u, base, offset, |s|, done);
    if offset != 0 {
      var rel, abs := RelEdits(u.rel, base, offset), AddEdits(u.abs, offset);
      FixFields(a, rel, s, done);
      FixFields(a, abs, s, done + rel);
    }
  }

  /** Lines 300-333: resolve the symbols; with all of them known, relocate. */
  method Link(img: Image, base: Word, addr: string -> Word) returns (a: array<Byte>, missing: seq<string>)
    requires WellFormed(img)
    ensures fresh(a) && missing == Missing(img.unres, addr)
    ensures AllInside(LinkEdits(img, base, addr), img.size)
    ensures missing == [] ==> a[..] == ApplyAll(LinkEdits(img, base, addr), Padded(img))
    ensures missing == [] && Separate(FieldsOf(img.unres) + img.relocs) ==>
      FullyLinked(img, base, addr, Padded(img), a[..])
  {
    a, missing := LinkFields(img, base, addr);
    if missing == [] && Separate(FieldsOf(img.unres) + img.relocs) { LinkMeans(img, base, addr); }
  }

  method LinkFields(img: Image, base: Word, addr: string -> Word) returns (a: array<Byte>, missing: seq<string>)
    requires WellFormed(img)
    ensures fresh(a) && missing == Missing(img.unres, addr)
    ensures AllInside(LinkEdits(img, base, addr), img.size)
    ensures missing == [] ==> a[..] == ApplyAll(LinkEdits(img, base, addr), Padded(img))
  {
    ghost var s := Padded(img);
    a := new Byte[img.size](i => if 0 <= i < |img.data| then img.data[i] else 0);
    assert a[..] == s;
    missing := [];
    LinkInside(img, base, addr);
    var i := 0;
    while i < |img.unres|
      invariant 0 <= i <= |img.unres|
      invariant missing == Missing(img.unres[..i], addr)
      invariant AllInside(UnresEdits(img.unres[..i], base, addr), img.size)
      invariant a[..] == ApplyAll(UnresEdits(img.unres[..i], base, addr), s)
    {
      var ute := img.unres[i];
      assert img.unres[..i + 1][..i] == img.unres[..i];
      var offset := addr(ute.name);
      FixSymbol(a, ute, base, offset, s, UnresEdits(img.unres[..i], base, addr));
      if offset == 0 { missing := missing + [ute.name]; }
      i := i + 1;
    }
    assert img.unres[..i] == img.unres;
    if missing == [] {
      FixFields(a, AddEdits(img.relocs, base), s, UnresEdits(img.unres, base, addr));
    }
  }

  /** The finished section as a value. */
  method LinkSection(img: Image, base: Word, addr: string -> Word) returns (section: seq<Byte>, missing: seq<string>)
    requires WellFormed(img)
    ensures missing == Missing(img.unres, addr)
    ensures AllInside(LinkEdits(img, base, addr), img.size)
    ensures missing == [] ==> section == ApplyAll(LinkEdits(img, base, addr), Padded(img))
  {
    var a;
    a, missing := Link(img, base, addr);
    section := a[..];
  }
}
