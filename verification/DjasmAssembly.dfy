/** The single pass over a whole assembly, proved to leave the pieces that
    DjasmBinding describes, and what their bindings are in the terms of the source
    text: the nearest definition that counts. */
module DjasmAssembly {
  import opened Bits
  import opened DjasmCode
  import opened DjasmSymbols
  import opened DjasmBinding

  // ------------------------------------------------------------- the pass itself

  ghost predicate Describes(s: Symbol, acts: seq<Act>, k: nat)
    requires k <= |acts|
    reads s
  {
    && Current(acts, k, s.name) == (if s.defined then Value(s.value) else Unknown)
    && s.patches == PatchesAt(acts, Open(acts, k, s.name))
  }

  ghost predicate Quiet(acts: seq<Act>, k: nat, name: string)
    requires k <= |acts|
  {
    Current(acts, k, name).Unknown? && Open(acts, k, name) == []
  }

  /** The names, local or any, with references still pending. */
  ghost function Awaited(acts: seq<Act>, k: nat, all: bool): set<string>
    requires k <= |acts|
  {
    set i: nat | i < k && acts[i].Ref? && (all || Local(acts[i].name)) && FateOf(acts, i, k).Pending? :: acts[i].name
  }

  /** The local ones that each ordinary definition so far has found awaited. */
  ghost function Undefs(acts: seq<Act>, k: nat): nat
    requires k <= |acts|
  {
    if k == 0 then 0
    else
      var ends := acts[k - 1].Define? && Ordinary(acts[k - 1].name);
      Undefs(acts, k - 1) + if ends then |Awaited(acts, k - 1, false)| else 0
  }

  ghost predicate TableTracks(tab: seq<Symbol>, acts: seq<Act>, k: nat)
    requires k <= |acts|
    reads tab
  {
    && Unique(tab)
    && (forall i | 0 <= i < |tab| :: Describes(tab[i], acts, k))
    && (forall name: string :: Has(tab, name) || Quiet(acts, k, name))
  }

  ghost predicate Tracks(asm: Assembler, acts: seq<Act>, k: nat)
    requires k <= |acts|
    reads asm, asm.symtab
  {
    && asm.out == Join(Pieces(acts, k)) && asm.errors == Faults(acts, k, k) && asm.undefs == Undefs(acts, k)
    && TableTracks(asm.symtab, acts, k)
  }

  lemma {:induction false} FaultsSame(acts: seq<Act>, m: nat, k: nat)
    requires m <= k < |acts| && !acts[k].Define?
    ensures Faults(acts, m, k + 1) == Faults(acts, m, k)
  {
    if m > 0 { FaultsSame(acts, m - 1, k); }
  }

  /** Bytes and references append a piece. */
  lemma Appends(acts: seq<Act>, k: nat)
    requires k < |acts| && !acts[k].Define?
    ensures Join(Pieces(acts, k + 1)) == Join(Pieces(acts, k)) + Piece(acts, k, k + 1)
    ensures Faults(acts, k + 1, k + 1) == Faults(acts, k, k) + Fault(acts, k, k + 1)
    ensures |Join(Pieces(acts, k))| == Loc(acts, k)
  {
    forall i | 0 <= i < k ensures Piece(acts, i, k + 1) == Piece(acts, i, k) {
    }
    assert Pieces(acts, k + 1) == Pieces(acts, k) + [Piece(acts, k, k + 1)];
    LastPiece(Pieces(acts, k), Piece(acts, k, k + 1));
    FaultsSame(acts, k, k);
    JoinLength(acts, Pieces(acts, k));
  }

  method StepRaw(asm: Assembler, bytes: seq<Byte>, ghost acts: seq<Act>, ghost k: nat)
    requires k < |acts| && acts[k] == Raw(bytes) && Tracks(asm, acts, k)
    modifies asm`out
    ensures Tracks(asm, acts, k + 1)
  {
    Appends(acts, k);
    asm.out := asm.out + bytes;
    forall name: string ensures Has(asm.symtab, name) || Quiet(acts, k + 1, name) {
      assert Has(asm.symtab, name) || Quiet(acts, k, name);
    }
  }

  /** What a reference puts out and costs, and what it leaves open. */
  lemma RefAdds(acts: seq<Act>, k: nat)
    requires k < |acts| && acts[k].Ref?
    ensures var a := acts[k];
      match Current(acts, k, a.name)
      case Value(v) =>
        var x := S32(a.offset + Distance(a.rel, v, Loc(acts, k)));
        Piece(acts, k, k + 1) == Bytes(Width(a.rel), x) && Fault(acts, k, k + 1) == One(TooFar(a.rel, x))
        && Open(acts, k + 1, a.name) == Open(acts, k, a.name)
      case Unknown =>
        Piece(acts, k, k + 1) == Bytes(Width(a.rel), a.offset) && Fault(acts, k, k + 1) == One(TooFar(a.rel, a.offset))
        && PatchesAt(acts, Open(acts, k + 1, a.name)) ==
          [Patch(Loc(acts, k), a.rel)] + PatchesAt(acts, Open(acts, k, a.name))
  {
    var a := acts[k];
    match Current(acts, k, a.name)
    case Value(v) => SameWrapped(Width(a.rel), a.offset + Distance(a.rel, v, Loc(acts, k)));
    case Unknown =>
      var l := Open(acts, k + 1, a.name);
      assert l[0] == k && l[1..] == Open(acts, k, a.name);
  }

  /** The symbol of a name, which may be new. */
  method Lookup(asm: Assembler, name: string, ghost acts: seq<Act>, ghost k: nat) returns (s: Symbol)
    requires k <= |acts| && Tracks(asm, acts, k)
    modifies asm`symtab
    ensures Tracks(asm, acts, k) && s in asm.symtab && s.name == name && Describes(s, acts, k)
    ensures forall i | 0 <= i < |asm.symtab| :: asm.symtab[i] in old(asm.symtab) || fresh(asm.symtab[i])
  {
    ghost var tab := asm.symtab;
    assert Has(tab, name) || Quiet(acts, k, name);
    s := asm.GetSymbol(name);
    assert Describes(s, acts, k) by {
      if Has(tab, name) {
        var i :| 0 <= i < |tab| && tab[i] == s;
      }
    }
    forall i | 0 <= i < |asm.symtab| ensures Describes(asm.symtab[i], acts, k) {
      if asm.symtab != tab && i > 0 { assert asm.symtab[i] == tab[i - 1]; }
    }
    forall n: string ensures Has(asm.symtab, n) || Quiet(acts, k, n) {
      assert Has(tab, n) || Quiet(acts, k, n);
      if Has(tab, n) {
        var i :| 0 <= i < |tab| && tab[i].name == n;
        assert asm.symtab[|asm.symtab| - |tab| + i] == tab[i];
      }
    }
  }

  lemma OtherNames(acts: seq<Act>, k: nat, name: string)
    requires k < |acts| && !acts[k].Define?
    ensures Current(acts, k + 1, name) == Current(acts, k, name)
    ensures !Refers(acts[k], name) ==> Open(acts, k + 1, name) == Open(acts, k, name)
  {
  }

  /** The same in terms of the symbol referred to. */
  lemma RefMeans(acts: seq<Act>, k: nat, defined: bool, value: int, patches: seq<Patch>)
    requires k < |acts| && acts[k].Ref?
    requires Current(acts, k, acts[k].name) == if defined then Value(value) else Unknown
    requires patches == PatchesAt(acts, Open(acts, k, acts[k].name))
    ensures var a, location := acts[k], |Join(Pieces(acts, k))|;
      var x := if defined then S32(a.offset + Distance(a.rel, value, location)) else a.offset;
      && Join(Pieces(acts, k + 1)) == Join(Pieces(acts, k)) + Bytes(Width(a.rel), x)
      && Faults(acts, k + 1, k + 1) == Faults(acts, k, k) + One(TooFar(a.rel, x))
      && Current(acts, k + 1, a.name) == Current(acts, k, a.name)
      && PatchesAt(acts, Open(acts, k + 1, a.name)) == (if defined then [] else [Patch(location, a.rel)]) + patches
  {
    Appends(acts, k);
    RefAdds(acts, k);
    OtherNames(acts, k, acts[k].name);
  }

  method EmitRef(asm: Assembler, s: Symbol, offset: int, rel: Rel, ghost acts: seq<Act>, ghost k: nat)
    requires k < |acts| && acts[k] == Ref(s.name, offset, rel)
    requires asm.out == Join(Pieces(acts, k)) && asm.errors == Faults(acts, k, k) && Describes(s, acts, k)
    requires rel == Abs8 ==> s.defined
    modifies asm`out, asm`errors, s`patches
    ensures asm.out == Join(Pieces(acts, k + 1)) && asm.errors == Faults(acts, k + 1, k + 1)
    ensures Describes(s, acts, k + 1)
  {
    RefMeans(acts, k, s.defined, s.value, s.patches);
    asm.Emits(s, offset, rel);
  }

  method StepRef(asm: Assembler, name: string, offset: int, rel: Rel, ghost acts: seq<Act>, ghost k: nat)
    requires k < |acts| && acts[k] == Ref(name, offset, rel) && Tracks(asm, acts, k)
    requires rel == Abs8 ==> Current(acts, k, name).Value?
    modifies asm, asm.symtab
    ensures Tracks(asm, acts, k + 1)
    ensures forall i | 0 <= i < |asm.symtab| :: asm.symtab[i] in old(asm.symtab) || fresh(asm.symtab[i])
  {
    var s := Lookup(asm, name, acts, k);
    label looked:
    EmitRef(asm, s, offset, rel, acts, k);
    forall i | 0 <= i < |asm.symtab| ensures Describes(asm.symtab[i], acts, k + 1) {
      var t := asm.symtab[i];
      assert old@looked(Describes(t, acts, k));
      OtherNames(acts, k, t.name);
      if t.name == name { SameSymbol(asm.symtab, s, t); }
    }
    forall n: string ensures Has(asm.symtab, n) || Quiet(acts, k + 1, n) {
      assert Has(asm.symtab, n) || Quiet(acts, k, n);
      OtherNames(acts, k, n);
      assert Has(asm.symtab, name);
    }
  }

  /** What a definition does to a name. */
  lemma DefineNames(acts: seq<Act>, k: nat, name: string)
    requires k < |acts| && acts[k].Define?
    ensures name == acts[k].name ==> Open(acts, k + 1, name) == []
    ensures name == acts[k].name ==>
      Current(acts, k + 1, name) == if IsTemp(name, 'f') then Unknown else Value(acts[k].value)
    ensures name != acts[k].name && Local(name) && Ordinary(acts[k].name) ==> Quiet(acts, k + 1, name)
    ensures name != acts[k].name && !(Local(name) && Ordinary(acts[k].name)) ==>
      Open(acts, k + 1, name) == Open(acts, k, name) && Current(acts, k + 1, name) == Current(acts, k, name)
  {
  }

  /** A symbol after a definition, when it is that of the name or not dropped. */
  lemma TableAfter(tab: seq<Symbol>, after: seq<Symbol>, ordinary: bool, name: string)
    requires Unique(tab) && after == if ordinary then Kept(tab) else tab
    requires Has(tab, name) && (ordinary ==> !Local(name))
    ensures Unique(after) && Has(after, name)
    ensures forall t | t in after :: t in tab && !(ordinary && Local(t.name))
    ensures forall n: string | Has(tab, n) && !(ordinary && Local(n)) :: Has(after, n)
  {
    if ordinary {
      KeptUnique(tab);
      forall t | t in after ensures t in tab && !Local(t.name) {
        var i :| 0 <= i < |after| && after[i] == t;
        var j := KeptAt(tab, i);
      }
      forall n: string | Has(tab, n) && !Local(n) ensures Has(after, n) {
        var j :| 0 <= j < |tab| && tab[j].name == n;
        var i := KeptPlace(tab, j);
      }
    }
  }

  lemma SameSymbol(tab: seq<Symbol>, s: Symbol, t: Symbol)
    requires Unique(tab) && s in tab && t in tab && s.name == t.name
    ensures s == t
  {
    var i :| 0 <= i < |tab| && tab[i] == s;
    var j :| 0 <= j < |tab| && tab[j] == t;
    assert i == j;
  }

  // --------------------------------------------------- locals that stay undefined

  lemma {:induction false} OpenUnknown(acts: seq<Act>, k: nat, name: string)
    requires k <= |acts| && Open(acts, k, name) != []
    ensures Current(acts, k, name).Unknown?
  {
    if Open(acts, k - 1, name) != [] { OpenUnknown(acts, k - 1, name); }
  }

  lemma AwaitedOpen(acts: seq<Act>, k: nat, name: string, all: bool)
    requires k <= |acts|
    ensures name in Awaited(acts, k, all) <==> (all || Local(name)) && Open(acts, k, name) != []
  {
    OpenListed(acts, k, name);
    var l := Open(acts, k, name);
    if (all || Local(name)) && l != [] {
      OpenPending(acts, k, name, l[0]);
      assert acts[l[0]].name in Awaited(acts, k, all);
    }
    if name in Awaited(acts, k, all) {
      var i: nat :| i < k && acts[i].Ref? && FateOf(acts, i, k).Pending? && acts[i].name == name;
      OpenPending(acts, k, name, i);
    }
  }

  ghost function LostNames(tab: seq<Symbol>, all: bool): set<string>
    reads tab
  {
    if tab == [] then {} else (if IsLost(tab[0], all) then {tab[0].name} else {}) + LostNames(tab[1..], all)
  }

  ghost predicate HasLost(tab: seq<Symbol>, name: string, all: bool)
    reads tab
  {
    exists i :: 0 <= i < |tab| && tab[i].name == name && IsLost(tab[i], all)
  }

  lemma {:induction false} LostAt(tab: seq<Symbol>, name: string, all: bool)
    ensures name in LostNames(tab, all) <==> HasLost(tab, name, all)
  {
    if tab != [] {
      LostAt(tab[1..], name, all);
      if HasLost(tab[1..], name, all) {
        var i :| 0 <= i < |tab[1..]| && tab[1..][i].name == name && IsLost(tab[1..][i], all);
        assert tab[i + 1].name == name;
      }
      if HasLost(tab, name, all) {
        var i :| 0 <= i < |tab| && tab[i].name == name && IsLost(tab[i], all);
        if i > 0 { assert tab[1..][i - 1].name == name; }
      }
    }
  }

  lemma {:induction false} LostCount(tab: seq<Symbol>, all: bool)
    requires Unique(tab)
    ensures Lost(tab, all) == |LostNames(tab, all)|
  {
    if tab != [] {
      LostAt(tab[1..], tab[0].name, all);
      assert forall i | 0 <= i < |tab[1..]| :: tab[1..][i] == tab[i + 1];
      LostCount(tab[1..], all);
    }
  }

  lemma LostIs(tab: seq<Symbol>, acts: seq<Act>, k: nat, name: string, all: bool)
    requires k <= |acts| && TableTracks(tab, acts, k)
    ensures HasLost(tab, name, all) <==> name in Awaited(acts, k, all)
  {
    AwaitedOpen(acts, k, name, all);
    assert Has(tab, name) || Quiet(acts, k, name);
    if Has(tab, name) {
      var i :| 0 <= i < |tab| && tab[i].name == name;
      assert Describes(tab[i], acts, k);
      if Open(acts, k, name) != [] { OpenUnknown(acts, k, name); }
      assert IsLost(tab[i], all) <==> name in Awaited(acts, k, all);
    }
  }

  /** The symbols that destroy_locals finds undefined are those still awaited. */
  lemma LostAwaited(tab: seq<Symbol>, acts: seq<Act>, k: nat, all: bool)
    requires k <= |acts| && TableTracks(tab, acts, k)
    ensures Lost(tab, all) == |Awaited(acts, k, all)|
  {
    LostCount(tab, all);
    forall name ensures name in LostNames(tab, all) <==> name in Awaited(acts, k, all) {
      LostAt(tab, name, all);
      LostIs(tab, acts, k, name, all);
    }
    assert LostNames(tab, all) == Awaited(acts, k, all);
  }

  method DefineSymbol(asm: Assembler, s: Symbol, value: int, ghost acts: seq<Act>, ghost k: nat)
    requires k < |acts| && acts[k] == Define(s.name, value)
    requires asm.out == Join(Pieces(acts, k)) && asm.errors == Faults(acts, k, k) && Describes(s, acts, k)
    requires asm.undefs == Undefs(acts, k) && Lost(asm.symtab, false) == |Awaited(acts, k, false)|
    modifies asm, s
    ensures asm.out == Join(Pieces(acts, k + 1)) && asm.errors == Faults(acts, k + 1, k + 1)
    ensures Describes(s, acts, k + 1)
    ensures asm.undefs == Undefs(acts, k + 1)
    ensures asm.symtab == if Ordinary(s.name) then Kept(old(asm.symtab)) else old(asm.symtab)
  {
    DefineFaults(acts, k);
    DefineNames(acts, k, s.name);
    asm.SetSymbol(s, value);
  }

  /** All symbols but s are as before, s is as defined, and locals may have been dropped. */
  lemma TableStep(tab: seq<Symbol>, after: seq<Symbol>, s: Symbol, acts: seq<Act>, k: nat)
    requires k < |acts| && acts[k].Define? && acts[k].name == s.name
    requires Unique(tab) && s in tab && after == if Ordinary(s.name) then Kept(tab) else tab
    requires forall i | 0 <= i < |tab| && tab[i] != s :: Describes(tab[i], acts, k)
    requires Describes(s, acts, k + 1)
    requires forall n: string :: Has(tab, n) || Quiet(acts, k, n)
    ensures TableTracks(after, acts, k + 1)
  {
    assert Has(tab, s.name) by { var i :| 0 <= i < |tab| && tab[i] == s; }
    TableAfter(tab, after, Ordinary(s.name), s.name);
    forall i | 0 <= i < |after| ensures Describes(after[i], acts, k + 1) {
      var t := after[i];
      DescribesOn(tab, s, t, acts, k);
    }
    forall n: string ensures Has(after, n) || Quiet(acts, k + 1, n) {
      assert Has(tab, n) || Quiet(acts, k, n);
      DefineNames(acts, k, n);
    }
  }

  lemma DescribesOn(tab: seq<Symbol>, s: Symbol, t: Symbol, acts: seq<Act>, k: nat)
    requires k < |acts| && acts[k].Define? && acts[k].name == s.name
    requires Unique(tab) && s in tab && t in tab && !(Ordinary(s.name) && Local(t.name))
    requires forall i | 0 <= i < |tab| && tab[i] != s :: Describes(tab[i], acts, k)
    requires Describes(s, acts, k + 1)
    ensures Describes(t, acts, k + 1)
  {
    DefineNames(acts, k, t.name);
    if t.name == s.name { SameSymbol(tab, s, t); }
  }

  method StepDefine(asm: Assembler, name: string, value: int, ghost acts: seq<Act>, ghost k: nat)
    requires k < |acts| && acts[k] == Define(name, value) && Tracks(asm, acts, k)
    modifies asm, asm.symtab
    ensures Tracks(asm, acts, k + 1)
    ensures forall i | 0 <= i < |asm.symtab| :: asm.symtab[i] in old(asm.symtab) || fresh(asm.symtab[i])
  {
    var s := Lookup(asm, name, acts, k);
    ghost var tab := asm.symtab;
    LostAwaited(tab, acts, k, false);
    DefineSymbol(asm, s, value, acts, k);
    TableStep(tab, asm.symtab, s, acts, k);
    KeptOf(tab);
  }

  lemma KeptOf(tab: seq<Symbol>)
    ensures forall i | 0 <= i < |Kept(tab)| :: Kept(tab)[i] in tab
  {
    forall i | 0 <= i < |Kept(tab)| ensures Kept(tab)[i] in tab { var j := KeptAt(tab, i); }
  }

  // ------------------------------------------------- bindings in the source's terms

  predicate Defines(a: Act, name: string) { a.Define? && a.name == name }

  /** Local names do not outlive the next ordinary definition. */
  predicate Ends(a: Act, name: string) { Local(name) && a.Define? && Ordinary(a.name) }

  ghost predicate Clear(acts: seq<Act>, name: string, a: nat, b: nat)
    requires b <= |acts|
  {
    forall j | a <= j < b :: !Defines(acts[j], name) && !Ends(acts[j], name)
  }

  /** Act j is the latest definition before k, with no end of its region since. */
  ghost predicate Latest(acts: seq<Act>, k: nat, name: string, j: nat)
    requires k <= |acts|
  {
    j < k && Defines(acts[j], name) && Clear(acts, name, j + 1, k)
  }

  /** Act j is the first definition after i, in the same region. */
  ghost predicate First(acts: seq<Act>, i: nat, name: string, j: nat) {
    i < j < |acts| && Defines(acts[j], name) && Clear(acts, name, i + 1, j)
  }

  ghost predicate DefinedBefore(acts: seq<Act>, i: nat, name: string)
    requires i <= |acts|
  {
    !IsTemp(name, 'f') && exists j: nat :: Latest(acts, i, name, j)
  }

  /** The reference at i means the definition at j: the latest earlier one, except for
      @fN, or else the first later one. */
  ghost predicate Means(acts: seq<Act>, i: nat, j: nat)
    requires i < |acts| && acts[i].Ref?
  {
    var name := acts[i].name;
    if DefinedBefore(acts, i, name) then Latest(acts, i, name, j) else First(acts, i, name, j)
  }

  lemma SameClear(acts: seq<Act>, name: string, a: nat, k: nat)
    requires 0 < k <= |acts| && !Defines(acts[k - 1], name) && !Ends(acts[k - 1], name)
    ensures Clear(acts, name, a, k) <==> Clear(acts, name, a, k - 1)
  {
  }

  lemma {:induction false} CurrentValue(acts: seq<Act>, k: nat, name: string) returns (j: nat)
    requires k <= |acts| && Current(acts, k, name).Value?
    ensures !IsTemp(name, 'f') && Latest(acts, k, name, j) && Current(acts, k, name) == Value(acts[j].value)
  {
    if Defines(acts[k - 1], name) {
      j := k - 1;
    } else {
      j := CurrentValue(acts, k - 1, name);
      SameClear(acts, name, j + 1, k);
    }
  }

  lemma {:induction false} LatestValue(acts: seq<Act>, k: nat, name: string, j: nat)
    requires k <= |acts| && Latest(acts, k, name, j) && !IsTemp(name, 'f')
    ensures Current(acts, k, name) == Value(acts[j].value)
  {
    if j < k - 1 {
      SameClear(acts, name, j + 1, k);
      LatestValue(acts, k - 1, name, j);
    }
  }

  lemma CurrentIsLatest(acts: seq<Act>, k: nat, name: string)
    requires k <= |acts|
    ensures Current(acts, k, name).Value? <==> DefinedBefore(acts, k, name)
  {
    if Current(acts, k, name).Value? { var j := CurrentValue(acts, k, name); }
    if DefinedBefore(acts, k, name) {
      var j: nat :| Latest(acts, k, name, j);
      LatestValue(acts, k, name, j);
    }
  }

  /** A reference keeps the value it gets when it is put out. */
  lemma {:induction false} BoundAtOnce(acts: seq<Act>, i: nat, k: nat)
    requires i < k <= |acts| && acts[i].Ref? && Current(acts, i, acts[i].name).Value?
    ensures FateOf(acts, i, k) == Bound(Current(acts, i, acts[i].name).v)
    decreases k
  {
    if k > i + 1 { BoundAtOnce(acts, i, k - 1); }
  }

  lemma {:induction false} PendingIsClear(acts: seq<Act>, i: nat, k: nat)
    requires i < k <= |acts| && acts[i].Ref? && Current(acts, i, acts[i].name).Unknown?
    ensures FateOf(acts, i, k).Pending? <==> Clear(acts, acts[i].name, i + 1, k)
    decreases k
  {
    if k > i + 1 {
      PendingIsClear(acts, i, k - 1);
      var a, name := acts[k - 1], acts[i].name;
      if !Defines(a, name) && !Ends(a, name) { SameClear(acts, name, i + 1, k); }
    }
  }

  lemma {:induction false} FirstBinds(acts: seq<Act>, i: nat, j: nat, k: nat)
    requires i < k <= |acts| && acts[i].Ref? && Current(acts, i, acts[i].name).Unknown?
    requires First(acts, i, acts[i].name, j) && j < k
    ensures FateOf(acts, i, k) == Bound(acts[j].value)
    decreases k
  {
    if j == k - 1 { PendingIsClear(acts, i, j); } else { FirstBinds(acts, i, j, k - 1); }
  }

  lemma {:induction false} BoundLater(acts: seq<Act>, i: nat, k: nat) returns (j: nat)
    requires i < k <= |acts| && acts[i].Ref? && Current(acts, i, acts[i].name).Unknown?
    requires FateOf(acts, i, k).Bound?
    ensures j < k && First(acts, i, acts[i].name, j)
    decreases k
  {
    if FateOf(acts, i, k - 1).Pending? {
      j := k - 1;
      PendingIsClear(acts, i, j);
    } else {
      j := BoundLater(acts, i, k - 1);
    }
  }

  /** A reference has the value of the definition it means once that is reached, and
      no value if it means none. */
  lemma FateIsMeaning(acts: seq<Act>, i: nat, k: nat)
    requires i < k <= |acts| && acts[i].Ref?
    ensures forall j: nat | j < k && Means(acts, i, j) :: FateOf(acts, i, k) == Bound(acts[j].value)
    ensures FateOf(acts, i, k).Bound? <==> exists j: nat :: j < k && Means(acts, i, j)
  {
    var name := acts[i].name;
    CurrentIsLatest(acts, i, name);
    if DefinedBefore(acts, i, name) {
      BoundAtOnce(acts, i, k);
      forall j: nat | Means(acts, i, j) ensures FateOf(acts, i, k) == Bound(acts[j].value) {
        LatestValue(acts, i, name, j);
      }
      var j := CurrentValue(acts, i, name);
      assert Means(acts, i, j);
    } else {
      forall j: nat | j < k && Means(acts, i, j) ensures FateOf(acts, i, k) == Bound(acts[j].value) {
        FirstBinds(acts, i, j, k);
      }
      if FateOf(acts, i, k).Bound? {
        var j := BoundLater(acts, i, k);
        assert Means(acts, i, j);
      }
    }
  }

  /** A reference means at most one definition. */
  lemma MeansOne(acts: seq<Act>, i: nat, j: nat, m: nat)
    requires i < |acts| && acts[i].Ref? && Means(acts, i, j) && Means(acts, i, m)
    ensures j == m
  {
  }

  /** No definition of the name strictly between two acts. */
  ghost predicate NoneBetween(acts: seq<Act>, name: string, a: int, b: int) {
    forall m | a < m < b && 0 <= m < |acts| :: !(acts[m].Define? && acts[m].name == name)
  }

  /** Names whose definitions do not end a region: ?name, @fN and @bN. */
  predicate Passing(name: string) {
    name != "" && (name[0] == '?' ||
      (|name| == 3 && name[0] == '@' && (name[1] == 'f' || name[1] == 'b') && '0' <= name[2] <= '9'))
  }

  /** @fN means the first later definition, whatever comes between; @bN the latest
      earlier one, once there is one; between a local name and its definition there is no
      ordinary definition; and any other name has its latest earlier definition, or else
      the first later one. */
  lemma Labels(acts: seq<Act>, i: nat, j: nat, d: char)
    requires i < |acts| && acts[i].Ref? && j < |acts| && acts[j].Define? && acts[j].name == acts[i].name
    requires '0' <= d <= '9'
    ensures acts[i].name == ['@', 'f', d] ==> (Means(acts, i, j) <==> i < j && NoneBetween(acts, acts[i].name, i, j))
    ensures acts[i].name == ['@', 'b', d] && j < i ==> (Means(acts, i, j) <==> NoneBetween(acts, acts[i].name, j, i))
    ensures acts[i].name != "" && acts[i].name[0] == '?' && Means(acts, i, j) ==>
      forall m | (i < m < j || j < m < i) && acts[m].Define? :: Passing(acts[m].name)
    ensures acts[i].name == "" || (acts[i].name[0] != '?' && acts[i].name[0] != '@') ==>
      (Means(acts, i, j) <==>
        if exists m :: 0 <= m < i && acts[m].Define? && acts[m].name == acts[i].name
        then j < i && NoneBetween(acts, acts[i].name, j, i) else NoneBetween(acts, acts[i].name, i, j))
  {
    var name := acts[i].name;
    if j < i && !Local(name) && NoneBetween(acts, name, j, i) { assert Latest(acts, i, name, j); }
    if !Local(name) && !Temporary(name) { OrdinaryLabel(acts, i, j); }
  }

  lemma OrdinaryLabel(acts: seq<Act>, i: nat, j: nat)
    requires i < |acts| && acts[i].Ref? && j < |acts| && acts[j].Define? && acts[j].name == acts[i].name
    requires !Local(acts[i].name) && !Temporary(acts[i].name)
    ensures Means(acts, i, j) <==>
      if exists m :: 0 <= m < i && acts[m].Define? && acts[m].name == acts[i].name
      then j < i && NoneBetween(acts, acts[i].name, j, i) else NoneBetween(acts, acts[i].name, i, j)
  {
    var name := acts[i].name;
    if exists m :: 0 <= m < i && acts[m].Define? && acts[m].name == name {
      var k := LastBefore(acts, i, name);
      assert Latest(acts, i, name, k);
    }
  }

  lemma {:induction false} LastBefore(acts: seq<Act>, i: nat, name: string) returns (k: nat)
    requires i <= |acts| && exists m :: 0 <= m < i && acts[m].Define? && acts[m].name == name
    ensures k < i && acts[k].Define? && acts[k].name == name && NoneBetween(acts, name, k, i)
  {
    if acts[i - 1].Define? && acts[i - 1].name == name { k := i - 1; } else { k := LastBefore(acts, i - 1, name); }
  }

  /** Act i is in the region that ends before act k: no ordinary definition since. */
  ghost predicate SameRegion(acts: seq<Act>, i: nat, k: nat)
    requires k <= |acts|
  {
    i < k && forall j | i < j < k :: !(acts[j].Define? && Ordinary(acts[j].name))
  }

  lemma {:induction false} DefinedInRegion(acts: seq<Act>, i: nat, name: string, j: nat)
    requires j < i <= |acts| && Local(name) && Defines(acts[j], name) && SameRegion(acts, j, i)
    ensures Current(acts, i, name).Value?
    decreases i
  {
    if j < i - 1 && !Defines(acts[i - 1], name) { DefinedInRegion(acts, i - 1, name, j); }
  }

  /** The count in the terms of the source text: a local name counts at the end of a
      region if it is referred to in the region and defined nowhere in it. */
  lemma AwaitedMeans(acts: seq<Act>, k: nat, name: string)
    requires k <= |acts| && Local(name)
    ensures name in Awaited(acts, k, false) <==>
      && (exists i: nat :: SameRegion(acts, i, k) && Refers(acts[i], name))
      && (forall j: nat | SameRegion(acts, j, k) :: !Defines(acts[j], name))
  {
    if name in Awaited(acts, k, false) {
      var i: nat :| i < k && acts[i].Ref? && FateOf(acts, i, k).Pending? && acts[i].name == name;
      PendingKnown(acts, i, k);
      assert SameRegion(acts, i, k) && Refers(acts[i], name);
      forall j: nat | SameRegion(acts, j, k) ensures !Defines(acts[j], name) {
        if Defines(acts[j], name) && j < i { DefinedInRegion(acts, i, name, j); }
      }
    }
    if (exists i: nat :: SameRegion(acts, i, k) && Refers(acts[i], name)) &&
       (forall j: nat | SameRegion(acts, j, k) :: !Defines(acts[j], name))
    {
      var i: nat :| SameRegion(acts, i, k) && Refers(acts[i], name);
      if Current(acts, i, name).Value? {
        var j := CurrentValue(acts, i, name);
        RegionExtends(acts, j, i, k, name);
      }
      PendingIsClear(acts, i, k);
      assert acts[i].name in Awaited(acts, k, false);
    }
  }

  lemma RegionExtends(acts: seq<Act>, j: nat, i: nat, k: nat, name: string)
    requires k <= |acts| && j < i && SameRegion(acts, i, k) && acts[i].Ref? && Local(name)
    requires Clear(acts, name, j + 1, i)
    ensures SameRegion(acts, j, k)
  {
    forall m | j < m < k ensures !(acts[m].Define? && Ordinary(acts[m].name)) {
      if m < i { assert !Ends(acts[m], name); }
    }
  }

  lemma PendingKnown(acts: seq<Act>, i: nat, k: nat)
    requires i < k <= |acts| && acts[i].Ref? && FateOf(acts, i, k).Pending?
    ensures Current(acts, i, acts[i].name).Unknown? && Clear(acts, acts[i].name, i + 1, k)
  {
    if Current(acts, i, acts[i].name).Value? { BoundAtOnce(acts, i, k); } else { PendingIsClear(acts, i, k); }
  }

  /** A reference is counted exactly if it is never bound: its local name has been
      dropped, or it still waits at the end. */
  lemma {:induction false} DroppedCounts(acts: seq<Act>, k: nat)
    requires k <= |acts|
    ensures Undefs(acts, k) == 0 <==> forall i: nat | i < k && acts[i].Ref? :: !FateOf(acts, i, k).Dropped?
  {
    if k > 0 {
      DroppedCounts(acts, k - 1);
      var a := acts[k - 1];
      var ends := a.Define? && Ordinary(a.name);
      if ends && Awaited(acts, k - 1, false) != {} {
        var name :| name in Awaited(acts, k - 1, false);
        var i: nat :|
          i < k - 1 && acts[i].Ref? && Local(acts[i].name) && FateOf(acts, i, k - 1).Pending? && acts[i].name == name;
        assert FateOf(acts, i, k).Dropped?;
      }
      forall i: nat | i < k - 1 && acts[i].Ref? && FateOf(acts, i, k - 1).Pending? && FateOf(acts, i, k).Dropped?
        ensures acts[i].name in Awaited(acts, k - 1, false) && ends
      {
      }
    }
  }

  /** The assembler reports nothing undefined exactly if every reference means a
      definition. */
  lemma NothingUndefined(acts: seq<Act>)
    ensures Undefs(acts, |acts|) + |Awaited(acts, |acts|, true)| == 0 <==>
      forall i: nat | i < |acts| && acts[i].Ref? :: exists j: nat :: j < |acts| && Means(acts, i, j)
  {
    var n := |acts|;
    DroppedCounts(acts, n);
    forall i: nat | i < n && acts[i].Ref?
      ensures FateOf(acts, i, n).Bound? <==> exists j: nat :: j < n && Means(acts, i, j)
      ensures FateOf(acts, i, n).Pending? ==> acts[i].name in Awaited(acts, n, true)
    {
      FateIsMeaning(acts, i, n);
    }
    if Awaited(acts, n, true) != {} {
      var name :| name in Awaited(acts, n, true);
      var i: nat :| i < n && acts[i].Ref? && FateOf(acts, i, n).Pending? && acts[i].name == name;
      assert !FateOf(acts, i, n).Bound?;
    }
  }

  // ---------------------------------------------------------- errors of either way

  /** The errors of a reference emitted with its value known. */
  function DirectFault(acts: seq<Act>, i: nat): nat
    requires i < |acts|
  {
    match acts[i]
    case Raw(_) => 0
    case Define(_, _) => 0
    case Ref(_, offset, rel) =>
      match FateOf(acts, i, |acts|)
      case Bound(v) => One(TooFar(rel, S32(offset + Distance(rel, v, Loc(acts, i)))))
      case _ => One(TooFar(rel, offset))
  }

  function DirectFaults(acts: seq<Act>, m: nat): nat
    requires m <= |acts|
  {
    if m == 0 then 0 else DirectFaults(acts, m - 1) + DirectFault(acts, m - 1)
  }

  /** A patched byte costs what a direct one does exactly if its offset alone fits, or
      is never bound, or wraps around into a sum that fits where the true one does not. */
  ghost predicate CostsTheSame(acts: seq<Act>, i: nat)
    requires i < |acts|
  {
    acts[i].Ref? && acts[i].rel == Rel8 && Current(acts, i, acts[i].name).Unknown? ==>
      var a, fate := acts[i], FateOf(acts, i, |acts|);
      || Small(a.offset)
      || !fate.Bound?
      || (var d := Distance(Rel8, fate.value, Loc(acts, i));
          !Small(S32(a.offset + d)) && Small(S32(Found(Bytes(1, a.offset)) + d)))
  }

  lemma OneCost(acts: seq<Act>, i: nat)
    requires i < |acts|
    ensures Fault(acts, i, |acts|) >= DirectFault(acts, i)
    ensures Fault(acts, i, |acts|) == DirectFault(acts, i) <==> CostsTheSame(acts, i)
  {
    if acts[i].Ref? {
      if Current(acts, i, acts[i].name).Value? {
        BoundAtOnce(acts, i, |acts|);
      } else if acts[i].rel == Rel8 {
        SmallStays(acts[i].offset);
      }
    }
  }

  /** The pass never counts fewer range errors than direct emission would, and as many
      exactly if every patched byte costs the same. */
  lemma {:induction false} ErrorsAgree(acts: seq<Act>, m: nat)
    requires m <= |acts|
    ensures Faults(acts, m, |acts|) >= DirectFaults(acts, m)
    ensures Faults(acts, m, |acts|) == DirectFaults(acts, m) <==> forall i: nat | i < m :: CostsTheSame(acts, i)
  {
    if m > 0 {
      ErrorsAgree(acts, m - 1);
      OneCost(acts, m - 1);
      assert (forall i: nat | i < m :: CostsTheSame(acts, i)) <==>
        (forall i: nat | i < m - 1 :: CostsTheSame(acts, i)) && CostsTheSame(acts, m - 1);
    }
  }

  /** An offset of 200 that the value takes back to 0 costs two errors when patched and
      none when direct. */
  lemma FarOffsetDiffers()
    ensures var acts := [Ref("x", 200, Rel8), Define("x", -199)];
      Assemblable(acts) && Faults(acts, 2, 2) == 2 && DirectFaults(acts, 2) == 0
  {
    var acts := [Ref("x", 200, Rel8), Define("x", -199)];
    assert Current(acts, 0, "x").Unknown? && Loc(acts, 0) == 0;
    assert FateOf(acts, 0, 1).Pending? && FateOf(acts, 0, 2) == Bound(-199);
    FoundByte(200);
    assert Fault(acts, 0, 2) == 2 && Fault(acts, 1, 2) == 0;
    assert Faults(acts, 0, 2) == 0 && Faults(acts, 1, 2) == 2;
    assert DirectFault(acts, 0) == 0 && DirectFault(acts, 1) == 0;
    assert DirectFaults(acts, 0) == 0 && DirectFaults(acts, 1) == 0;
  }

  // ------------------------------------------------------------- the main theorem

  /** The bytes of one act as an assembler that looks ahead puts them out. */
  ghost predicate Informed(acts: seq<Act>, i: nat, b: seq<Byte>)
    requires i < |acts|
  {
    match acts[i]
    case Raw(bytes) => b == bytes
    case Define(_, _) => b == []
    case Ref(_, offset, rel) =>
      && (forall j: nat | Means(acts, i, j) :: b == Direct(acts[i], Loc(acts, i), acts[j].value))
      && ((forall j: nat :: !Means(acts, i, j)) ==> b == Bytes(Width(rel), offset))
  }

  lemma PiecesInformed(acts: seq<Act>, i: nat)
    requires i < |acts|
    ensures Informed(acts, i, Piece(acts, i, |acts|))
  {
    if acts[i].Ref? { FateIsMeaning(acts, i, |acts|); }
  }

  /** Single bytes are only asked of symbols that have a value. */
  ghost predicate Assemblable(acts: seq<Act>) {
    forall k | 0 <= k < |acts| && acts[k].Ref? && acts[k].rel == Abs8 :: Current(acts, k, acts[k].name).Value?
  }

  /** Where a piece starts. */
  lemma PiecePlace(acts: seq<Act>, i: nat)
    requires i < |acts|
    ensures |Join(Pieces(acts, |acts|)[..i])| == Loc(acts, i)
  {
    JoinLength(acts, Pieces(acts, |acts|)[..i]);
  }

  lemma PieceDirect(acts: seq<Act>, i: nat, j: nat)
    requires i < |acts| && acts[i].Ref? && j < |acts| && Means(acts, i, j)
    ensures Piece(acts, i, |acts|) == Direct(acts[i], Loc(acts, i), acts[j].value)
  {
    PiecesInformed(acts, i);
  }

  /** What a reference's bytes say, at the place where they are. */
  lemma PieceSays(acts: seq<Act>, i: nat, j: nat)
    requires i < |acts| && acts[i].Ref? && j < |acts| && Means(acts, i, j)
    ensures var p := Pieces(acts, |acts|);
      Says(p[i], acts[i].rel, |Join(p[..i])|, acts[j].value + acts[i].offset)
  {
    PiecePlace(acts, i);
    PieceDirect(acts, i, j);
    FieldMeans(acts[i].rel, Loc(acts, i), acts[j].value, acts[i].offset);
  }

  lemma AllInformed(acts: seq<Act>)
    ensures forall i | 0 <= i < |acts| :: Informed(acts, i, Pieces(acts, |acts|)[i])
  {
    forall i | 0 <= i < |acts| ensures Informed(acts, i, Pieces(acts, |acts|)[i]) { PiecesInformed(acts, i); }
  }

  lemma AllSay(acts: seq<Act>)
    ensures var p := Pieces(acts, |acts|);
      forall i: nat, j: nat | i < |acts| && acts[i].Ref? && j < |acts| && Means(acts, i, j) ::
        Says(p[i], acts[i].rel, |Join(p[..i])|, acts[j].value + acts[i].offset)
  {
    var p := Pieces(acts, |acts|);
    forall i: nat, j: nat | i < |acts| && acts[i].Ref? && j < |acts| && Means(acts, i, j)
      ensures Says(p[i], acts[i].rel, |Join(p[..i])|, acts[j].value + acts[i].offset)
    {
      PieceSays(acts, i, j);
    }
  }

  method Step(asm: Assembler, acts: seq<Act>, k: nat)
    requires Assemblable(acts) && k < |acts| && Tracks(asm, acts, k)
    modifies asm, asm.symtab
    ensures Tracks(asm, acts, k + 1)
    ensures forall i | 0 <= i < |asm.symtab| :: asm.symtab[i] in old(asm.symtab) || fresh(asm.symtab[i])
  {
    match acts[k] {
      case Raw(bytes) => StepRaw(asm, bytes, acts, k);
      case Ref(name, offset, rel) => StepRef(asm, name, offset, rel, acts, k);
      case Define(name, value) => StepDefine(asm, name, value, acts, k);
    }
  }

  /** The single pass. Its output is that of an assembler that knows in advance what
      every reference means. */
  method Assemble(acts: seq<Act>) returns (asm: Assembler, ghost pieces: seq<seq<Byte>>)
    requires Assemblable(acts)
    ensures |pieces| == |acts| && asm.out == Join(pieces)
    ensures forall i | 0 <= i < |acts| :: Informed(acts, i, pieces[i])
    ensures forall i: nat, j: nat | i < |acts| && acts[i].Ref? && j < |acts| && Means(acts, i, j) ::
      Says(pieces[i], acts[i].rel, |Join(pieces[..i])|, acts[j].value + acts[i].offset)
    ensures asm.errors == Faults(acts, |acts|, |acts|)
    ensures asm.undefs == Undefs(acts, |acts|) + |Awaited(acts, |acts|, true)|
    ensures asm.undefs == 0 <==> forall i: nat | i < |acts| && acts[i].Ref? ::
      exists j: nat :: j < |acts| && Means(acts, i, j)
  {
    asm := new Assembler();
    var k := 0;
    while k < |acts|
      invariant 0 <= k <= |acts| && fresh(asm) && Tracks(asm, acts, k)
      invariant forall i | 0 <= i < |asm.symtab| :: fresh(asm.symtab[i])
    {
      Step(asm, acts, k);
      k := k + 1;
    }
    LostAwaited(asm.symtab, acts, k, true);
    NothingUndefined(acts);
    asm.Conclude();
    pieces := Pieces(acts, k);
    AllInformed(acts);
    AllSay(acts);
  }
}
