/** djasm's symbol table and output (src/djasm/djasm.c, lines 5458-5479, 5618-5750,
    5771-5862 and 6280-6300): symbols, patch lists, temporary and local labels. */
module DjasmSymbols {
  import opened Bits
  import opened DjasmCode

  datatype Patch = Patch(location: nat, rel: Rel)

  predicate Digit(c: char) { '0' <= c <= '9' }

  /** @fN and @bN (lines 6280-6294). */
  predicate IsTemp(name: string, which: char) {
    |name| == 3 && name[0] == '@' && name[1] == which && Digit(name[2])
  }

  predicate Temporary(name: string) { IsTemp(name, 'f') || IsTemp(name, 'b') }

  predicate Local(name: string) { name != "" && name[0] == '?' }

  predicate Ordinary(name: string) { !Local(name) && !Temporary(name) }

  class Symbol {
    const name: string
    var value: int
    var defined: bool
    var patches: seq<Patch>

    constructor (name: string)
      ensures this.name == name && !defined && patches == []
    {
      this.name := name;
      value, defined, patches := 0, false, [];
    }
  }

  ghost predicate Has(tab: seq<Symbol>, name: string) {
    exists i :: 0 <= i < |tab| && tab[i].name == name
  }

  ghost predicate Unique(tab: seq<Symbol>) {
    forall i, j | 0 <= i < j < |tab| :: tab[i].name != tab[j].name
  }

  /** The table without its local symbols. */
  function Kept(tab: seq<Symbol>): seq<Symbol> {
    if tab == [] then []
    else if Local(tab[0].name) then Kept(tab[1..]) else [tab[0]] + Kept(tab[1..])
  }

  lemma {:induction false} KeptAt(tab: seq<Symbol>, i: nat) returns (j: nat)
    requires i < |Kept(tab)|
    ensures j < |tab| && tab[j] == Kept(tab)[i] && !Local(tab[j].name)
  {
    if !Local(tab[0].name) && i == 0 {
      j := 0;
    } else {
      j := KeptAt(tab[1..], if Local(tab[0].name) then i else i - 1);
      j := j + 1;
    }
  }

  lemma {:induction false} KeptPlace(tab: seq<Symbol>, j: nat) returns (i: nat)
    requires j < |tab| && !Local(tab[j].name)
    ensures i < |Kept(tab)| && Kept(tab)[i] == tab[j]
  {
    if j == 0 {
      i := 0;
    } else {
      i := KeptPlace(tab[1..], j - 1);
      if !Local(tab[0].name) { i := i + 1; }
    }
  }

  lemma {:induction false} KeptUnique(tab: seq<Symbol>)
    requires Unique(tab)
    ensures Unique(Kept(tab))
  {
    if tab != [] {
      var rest := Kept(tab[1..]);
      KeptUnique(tab[1..]);
      forall i | 0 <= i < |rest| ensures rest[i].name != tab[0].name {
        var j := KeptAt(tab[1..], i);
        assert tab[j + 1] == rest[i];
      }
    }
  }

  /** A symbol, local or any, that is referred to but not defined. */
  ghost predicate IsLost(s: Symbol, all: bool)
    reads s
  {
    (all || Local(s.name)) && !s.defined && s.patches != []
  }

  ghost function Lost(tab: seq<Symbol>, all: bool): nat
    reads tab
  {
    if tab == [] then 0 else (if IsLost(tab[0], all) then 1 else 0) + Lost(tab[1..], all)
  }

  // ------------------------------------------------------------------- patching

  ghost predicate Fits(out: seq<Byte>, ps: seq<Patch>) {
    forall i | 0 <= i < |ps| :: ps[i].location + Width(ps[i].rel) <= |out|
  }

  /** One turn of the loop of lines 5628-5688. */
  function PatchOne(out: seq<Byte>, p: Patch, value: int): (r: seq<Byte>)
    requires p.location + Width(p.rel) <= |out|
    ensures |r| == |out|
  {
    var n, i := Width(p.rel), p.location;
    out[..i] + Patched(out[i..i + n], Distance(p.rel, value, i)) + out[i + n..]
  }

  function PatchAll(out: seq<Byte>, ps: seq<Patch>, value: int): (r: seq<Byte>)
    requires Fits(out, ps)
    ensures |r| == |out|
    decreases |ps|
  {
    if ps == [] then out else PatchAll(PatchOne(out, ps[0], value), ps[1..], value)
  }

  predicate TooFar(rel: Rel, o: int) { rel == Rel8 && !Small(o) }

  /** The complaints of that loop (lines 5674-5683). */
  function PatchErrors(out: seq<Byte>, ps: seq<Patch>, value: int): nat
    requires Fits(out, ps)
    decreases |ps|
  {
    if ps == [] then 0
    else
      var p := ps[0];
      var o := S32(Found(out[p.location..p.location + Width(p.rel)]) + Distance(p.rel, value, p.location));
      (if TooFar(p.rel, o) then 1 else 0) + PatchErrors(PatchOne(out, p, value), ps[1..], value)
  }

  class Assembler {
    /** outbin up to pc, symtab, total_errors and undefs. */
    var out: seq<Byte>
    var symtab: seq<Symbol>
    var errors: nat
    var undefs: nat

    constructor ()
      ensures out == [] && symtab == [] && errors == 0 && undefs == 0
    {
      out, symtab, errors, undefs := [], [], 0, 0;
    }

    /** get_symbol with create: the symbol of that name, a new one if there is none. */
    method GetSymbol(name: string) returns (s: Symbol)
      requires Unique(symtab)
      modifies this`symtab
      ensures s in symtab && s.name == name && Unique(symtab)
      ensures Has(old(symtab), name) ==> symtab == old(symtab)
      ensures !Has(old(symtab), name) ==> fresh(s) && symtab == [s] + old(symtab) && !s.defined && s.patches == []
    {
      var i := 0;
      while i < |symtab| && symtab[i].name != name
        invariant 0 <= i <= |symtab| && forall j | 0 <= j < i :: symtab[j].name != name
      {
        i := i + 1;
      }
      if i < |symtab| { return symtab[i]; }
      s := new Symbol(name);
      symtab := [s] + symtab;
    }

    /** destroy_locals (lines 5723-5750). */
    method DestroyLocals()
      modifies this`symtab, this`undefs
      ensures symtab == Kept(old(symtab))
      ensures undefs == old(undefs) + old(Lost(symtab, false))
    {
      var i := 0;
      var tab := [];
      assert symtab[0..] == symtab;
      while i < |symtab|
        invariant 0 <= i <= |symtab| && symtab == old(symtab)
        invariant Kept(symtab) == tab + Kept(symtab[i..])
        invariant undefs + Lost(symtab[i..], false) == old(undefs) + Lost(symtab, false)
      {
        var s := symtab[i];
        assert symtab[i..][0] == s && symtab[i..][1..] == symtab[i + 1..];
        if Local(s.name) {
          if !s.defined && s.patches != [] { undefs := undefs + 1; }
        } else {
          tab := tab + [s];
        }
        i := i + 1;
      }
      symtab := tab;
    }

    /** emits (lines 5801-5862). */
    method Emits(s: Symbol, offset: int, rel: Rel)
      requires rel == Abs8 ==> s.defined
      modifies this`out, this`errors, s`patches
      ensures s.patches == if old(s.defined) then old(s.patches) else [Patch(|old(out)|, rel)] + old(s.patches)
      ensures var x := if old(s.defined) then S32(offset + Distance(rel, s.value, |old(out)|)) else offset;
        && out == old(out) + Bytes(Width(rel), x)
        && errors == old(errors) + if TooFar(rel, x) then 1 else 0
    {
      var pc := |out|;
      if s.defined {
        var v;
        match rel {
          case Rel16 =>
            v := S32(s.value - pc - 2 + offset);
            WrapAdd(s.value - pc - 2, offset);
          case Rel8 =>
            v := S32(s.value - pc - 1 + offset);
            WrapAdd(s.value - pc - 1, offset);
            if !Small(v) { errors := errors + 1; }
          case _ =>
            v := S32(s.value + offset);
        }
        out := out + Bytes(Width(rel), v);
      } else {
        s.patches := [Patch(pc, rel)] + s.patches;
        if rel == Rel8 && !Small(offset) { errors := errors + 1; }
        out := out + Bytes(Width(rel), offset);
      }
    }

    /** One turn of the loop in set_symbol. */
    method Fix(p: Patch, value: int)
      requires p.location + Width(p.rel) <= |out|
      modifies this`out, this`errors
      ensures out == PatchOne(old(out), p, value)
      ensures errors == old(errors) + PatchErrors(old(out), [p], value)
    {
      var n, i := Width(p.rel), p.location;
      var v := Distance(p.rel, value, i);
      var o := S32(Found(out[i..i + n]) + v);
      if p.rel == Rel8 && (o > 127 || o < -128) { errors := errors + 1; }
      SameWrapped(n, Found(out[i..i + n]) + v);
      assert PatchErrors(PatchOne(out, p, value), [p][1..], value) == 0;
      out := out[..i] + Bytes(n, o) + out[i + n..];
    }

    /** The patches of a symbol, lines 5628-5688. */
    method FixAll(s: Symbol, value: int)
      requires Fits(out, s.patches)
      modifies this`out, this`errors, s`patches
      ensures out == PatchAll(old(out), old(s.patches), value) && s.patches == []
      ensures errors == old(errors) + PatchErrors(old(out), old(s.patches), value)
    {
      while s.patches != []
        invariant Fits(out, s.patches)
        invariant PatchAll(out, s.patches, value) == PatchAll(old(out), old(s.patches), value)
        invariant errors + PatchErrors(out, s.patches, value) ==
          old(errors) + PatchErrors(old(out), old(s.patches), value)
        decreases |s.patches|
      {
        var p := s.patches[0];
        SplitErrors(out, s.patches, value);
        s.patches := s.patches[1..];
        Fix(p, value);
      }
    }

    /** set_symbol (lines 5618-5692). */
    method SetSymbol(s: Symbol, value: int)
      requires Fits(out, s.patches)
      modifies this, s
      ensures symtab == if Ordinary(s.name) then Kept(old(symtab)) else old(symtab)
      ensures undefs == old(undefs) + if Ordinary(s.name) then old(Lost(symtab, false)) else 0
      ensures out == PatchAll(old(out), old(s.patches), value)
      ensures errors == old(errors) + PatchErrors(old(out), old(s.patches), value)
      ensures s.patches == [] && s.value == value && s.defined == !IsTemp(s.name, 'f')
    {
      if !Local(s.name) && !Temporary(s.name) { DestroyLocals(); }
      if IsTemp(s.name, 'b') { s.defined := false; }
      s.value, s.defined := value, true;
      FixAll(s, value);
      if IsTemp(s.name, 'f') { s.defined := false; }
    }

    /** The end of main (lines 5149-5159): what is still referred to and not defined. */
    method Conclude()
      modifies this`undefs
      ensures undefs == old(undefs) + Lost(symtab, true)
    {
      var i := 0;
      assert symtab[0..] == symtab;
      while i < |symtab|
        invariant 0 <= i <= |symtab|
        invariant undefs + Lost(symtab[i..], true) == old(undefs) + Lost(symtab, true)
      {
        assert symtab[i..][0] == symtab[i] && symtab[i..][1..] == symtab[i + 1..];
        if !symtab[i].defined && symtab[i].patches != [] { undefs := undefs + 1; }
        i := i + 1;
      }
    }
  }

  /** A patch makes a field say what it was put out for. */
  lemma PatchSays(out: seq<Byte>, p: Patch, value: int, offset: int)
    requires p.location + Width(p.rel) <= |out|
    requires out[p.location..p.location + Width(p.rel)] == Bytes(Width(p.rel), offset)
    ensures var now := PatchOne(out, p, value);
      && Says(now[p.location..p.location + Width(p.rel)], p.rel, p.location, value + offset)
      && forall k | 0 <= k < |out| && !(p.location <= k < p.location + Width(p.rel)) :: now[k] == out[k]
  {
    LaterIsNow(Width(p.rel), offset, Distance(p.rel, value, p.location));
    FieldMeans(p.rel, p.location, value, offset);
    var i, n, now := p.location, Width(p.rel), PatchOne(out, p, value);
    assert now[i..i + n] == Patched(out[i..i + n], Distance(p.rel, value, i));
  }

  lemma WrapAdd(a: int, b: int)
    ensures S32(S32(a) + b) == S32(a + b)
  {
  }

  lemma SplitErrors(out: seq<Byte>, ps: seq<Patch>, value: int)
    requires ps != [] && Fits(out, ps)
    ensures PatchErrors(out, ps, value) ==
      PatchErrors(out, [ps[0]], value) + PatchErrors(PatchOne(out, ps[0], value), ps[1..], value)
  {
    assert [ps[0]][1..] == [];
  }
}
