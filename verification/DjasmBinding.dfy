/** Whole assemblies: what each symbol reference of a source program is bound to,
    and the proof that djasm's single pass leaves the bytes, and counts the errors,
    of an assembler that knew all bindings in advance (src/djasm/djasm.c, lines
    5618-5750 and 5801-5862). */
module DjasmBinding {
  import opened Bits
  import opened DjasmCode
  import opened DjasmSymbols

  /** What the parser asks for: bytes, a reference to a symbol, a definition. */
  datatype Act = Raw(bytes: seq<Byte>) | Ref(name: string, offset: int, rel: Rel) | Define(name: string, value: int)

  function Size(a: Act): nat {
    match a
    case Raw(b) => |b|
    case Ref(_, _, rel) => Width(rel)
    case Define(_, _) => 0
  }

  /** The program counter before act k. */
  function Loc(acts: seq<Act>, k: nat): nat
    requires k <= |acts|
  {
    if k == 0 then 0 else Loc(acts, k - 1) + Size(acts[k - 1])
  }

  datatype Known = Unknown | Value(v: int)

  /** What the first k acts leave the name defined as. */
  function Current(acts: seq<Act>, k: nat, name: string): Known
    requires k <= |acts|
  {
    if k == 0 then Unknown
    else
      var a := acts[k - 1];
      if !a.Define? then Current(acts, k - 1, name)
      else if a.name == name then (if IsTemp(name, 'f') then Unknown else Value(a.value))
      else if Local(name) && Ordinary(a.name) then Unknown
      else Current(acts, k - 1, name)
  }

  /** A reference waits for a definition, has a value, or has lost its local symbol. */
  datatype Fate = Pending | Bound(value: int) | Dropped

  function FateOf(acts: seq<Act>, i: nat, k: nat): Fate
    requires i < k <= |acts| && acts[i].Ref?
    decreases k
  {
    var name := acts[i].name;
    if k == i + 1 then
      match Current(acts, i, name)
      case Value(v) => Bound(v)
      case Unknown => Pending
    else
      var before, a := FateOf(acts, i, k - 1), acts[k - 1];
      if !before.Pending? || !a.Define? then before
      else if a.name == name then Bound(a.value)
      else if Local(name) && Ordinary(a.name) then Dropped
      else Pending
  }

  /** A reference as emitted with the value known. */
  function Direct(a: Act, location: nat, value: int): seq<Byte>
    requires a.Ref?
  {
    Bytes(Width(a.rel), a.offset + Distance(a.rel, value, location))
  }

  function Piece(acts: seq<Act>, i: nat, k: nat): (b: seq<Byte>)
    requires i < k <= |acts|
    ensures |b| == Size(acts[i])
  {
    match acts[i]
    case Raw(b) => b
    case Define(_, _) => []
    case Ref(_, offset, rel) =>
      match FateOf(acts, i, k)
      case Bound(v) => Direct(acts[i], Loc(acts, i), v)
      case _ => Bytes(Width(rel), offset)
  }

  function Pieces(acts: seq<Act>, k: nat): (p: seq<seq<Byte>>)
    requires k <= |acts|
    ensures |p| == k
  {
    seq(k, i requires 0 <= i < k => Piece(acts, i, k))
  }

  function Join(p: seq<seq<Byte>>): seq<Byte> {
    if p == [] then [] else Join(p[..|p| - 1]) + p[|p| - 1]
  }

  // --------------------------------------------------------------- joined pieces

  lemma {:induction false} JoinSplit(p: seq<seq<Byte>>, i: nat)
    requires i < |p|
    ensures Join(p) == Join(p[..i]) + p[i] + Join(p[i + 1..])
  {
    var n := |p| - 1;
    if i == n {
      assert p[i + 1..] == [] && p[..n] == p[..i];
    } else {
      JoinSplit(p[..n], i);
      assert p[..n][..i] == p[..i];
      var t := p[i + 1..];
      assert t[..|t| - 1] == p[..n][i + 1..];
    }
  }

  ghost predicate Sized(acts: seq<Act>, p: seq<seq<Byte>>) {
    |p| <= |acts| && forall i | 0 <= i < |p| :: |p[i]| == Size(acts[i])
  }

  lemma {:induction false} JoinLength(acts: seq<Act>, p: seq<seq<Byte>>)
    requires Sized(acts, p)
    ensures |Join(p)| == Loc(acts, |p|)
  {
    if p != [] { JoinLength(acts, p[..|p| - 1]); }
  }

  /** The patch of the reference at i. */
  function PatchAt(acts: seq<Act>, i: nat): Patch {
    if i < |acts| && acts[i].Ref? then Patch(Loc(acts, i), acts[i].rel) else Patch(0, Abs)
  }

  lemma PatchMiddle(s: seq<Byte>, a: seq<Byte>, b: seq<Byte>, c: seq<Byte>, d: seq<Byte>, p: Patch, v: int)
    requires s == a + b + c && |a| == p.location && |b| == Width(p.rel)
    requires d == Patched(b, Distance(p.rel, v, p.location))
    ensures s[p.location..p.location + Width(p.rel)] == b && PatchOne(s, p, v) == a + d + c
  {
    assert s[..|a|] == a && s[|a|..|a| + |b|] == b && s[|a| + |b|..] == c;
  }

  lemma JoinUpdate(p: seq<seq<Byte>>, i: nat, b: seq<Byte>)
    requires i < |p|
    ensures Join(p[i := b]) == Join(p[..i]) + b + Join(p[i + 1..])
  {
    var q := p[i := b];
    JoinSplit(q, i);
    assert q[..i] == p[..i] && q[i + 1..] == p[i + 1..];
  }

  /** Patching the field of a reference rewrites its piece. */
  lemma PatchPiece(acts: seq<Act>, p: seq<seq<Byte>>, i: nat, v: int)
    requires Sized(acts, p) && i < |p| && acts[i].Ref? && p[i] == Bytes(Width(acts[i].rel), acts[i].offset)
    ensures Loc(acts, i) + Width(acts[i].rel) <= |Join(p)|
    ensures Join(p)[Loc(acts, i)..Loc(acts, i) + Width(acts[i].rel)] == p[i]
    ensures PatchOne(Join(p), PatchAt(acts, i), v) == Join(p[i := Direct(acts[i], Loc(acts, i), v)])
  {
    var d := Direct(acts[i], Loc(acts, i), v);
    JoinSplit(p, i);
    JoinUpdate(p, i, d);
    JoinLength(acts, p[..i]);
    LaterIsNow(Width(acts[i].rel), acts[i].offset, Distance(acts[i].rel, v, Loc(acts, i)));
    PatchMiddle(Join(p), Join(p[..i]), p[i], Join(p[i + 1..]), d, PatchAt(acts, i), v);
  }

  // -------------------------------------------------------- references still open

  predicate Refers(a: Act, name: string) { a.Ref? && a.name == name }

  /** The pending references to the name, newest first. */
  function Open(acts: seq<Act>, k: nat, name: string): seq<nat>
    requires k <= |acts|
  {
    if k == 0 then []
    else
      var a := acts[k - 1];
      if Refers(a, name) && Current(acts, k - 1, name).Unknown? then [k - 1] + Open(acts, k - 1, name)
      else if a.Define? && (a.name == name || (Local(name) && Ordinary(a.name))) then []
      else Open(acts, k - 1, name)
  }

  ghost predicate Listed(acts: seq<Act>, k: nat, name: string, l: seq<nat>) {
    && k <= |acts|
    && (forall j | 0 <= j < |l| :: l[j] < k && Refers(acts[l[j]], name))
    && (forall i, j | 0 <= i < j < |l| :: l[j] < l[i])
  }

  lemma {:induction false} OpenListed(acts: seq<Act>, k: nat, name: string)
    requires k <= |acts|
    ensures Listed(acts, k, name, Open(acts, k, name))
  {
    if k > 0 { OpenListed(acts, k - 1, name); }
  }

  lemma {:induction false} OpenPending(acts: seq<Act>, k: nat, name: string, i: nat)
    requires i < k <= |acts| && Refers(acts[i], name)
    ensures i in Open(acts, k, name) <==> FateOf(acts, i, k).Pending?
  {
    OpenListed(acts, k - 1, name);
    if i < k - 1 { OpenPending(acts, k - 1, name, i); }
  }

  function PatchesAt(acts: seq<Act>, l: seq<nat>): (ps: seq<Patch>)
    ensures |ps| == |l|
  {
    if l == [] then [] else [PatchAt(acts, l[0])] + PatchesAt(acts, l[1..])
  }

  /** The pieces with the listed references given the value. */
  function Rewritten(acts: seq<Act>, p: seq<seq<Byte>>, l: seq<nat>, v: int): (q: seq<seq<Byte>>)
    requires |p| <= |acts| && forall j | 0 <= j < |l| :: l[j] < |p| && acts[l[j]].Ref?
    ensures |q| == |p|
    decreases |l|
  {
    if l == [] then p else Rewritten(acts, p[l[0] := Direct(acts[l[0]], Loc(acts, l[0]), v)], l[1..], v)
  }

  lemma {:induction false} RewrittenAt(acts: seq<Act>, p: seq<seq<Byte>>, l: seq<nat>, v: int, i: nat)
    requires |p| <= |acts| && forall j | 0 <= j < |l| :: l[j] < |p| && acts[l[j]].Ref?
    requires i < |p|
    ensures Rewritten(acts, p, l, v)[i] == if i in l then Direct(acts[i], Loc(acts, i), v) else p[i]
    decreases |l|
  {
    if l != [] {
      RewrittenAt(acts, p[l[0] := Direct(acts[l[0]], Loc(acts, l[0]), v)], l[1..], v, i);
      assert l == [l[0]] + l[1..];
    }
  }

  ghost predicate Raws(acts: seq<Act>, p: seq<seq<Byte>>, l: seq<nat>) {
    forall j | 0 <= j < |l| ::
      l[j] < |p| <= |acts| && acts[l[j]].Ref? && p[l[j]] == Bytes(Width(acts[l[j]].rel), acts[l[j]].offset)
  }

  lemma NextRaws(acts: seq<Act>, p: seq<seq<Byte>>, l: seq<nat>, name: string, b: seq<Byte>)
    requires Raws(acts, p, l) && Listed(acts, |p|, name, l) && l != []
    ensures Raws(acts, p[l[0] := b], l[1..]) && Listed(acts, |p|, name, l[1..])
  {
    assert forall j | 0 <= j < |l[1..]| :: l[1..][j] == l[j + 1];
  }

  lemma {:induction false} PatchPieces(acts: seq<Act>, p: seq<seq<Byte>>, l: seq<nat>, name: string, v: int)
    requires Sized(acts, p) && Listed(acts, |p|, name, l) && Raws(acts, p, l)
    ensures Fits(Join(p), PatchesAt(acts, l))
    ensures PatchAll(Join(p), PatchesAt(acts, l), v) == Join(Rewritten(acts, p, l, v))
    decreases |l|
  {
    if l != [] {
      var i := l[0];
      var q := p[i := Direct(acts[i], Loc(acts, i), v)];
      PatchPiece(acts, p, i, v);
      NextRaws(acts, p, l, name, q[i]);
      PatchPieces(acts, q, l[1..], name, v);
      var ps := PatchesAt(acts, l);
      assert ps[1..] == PatchesAt(acts, l[1..]);
      forall j | 0 <= j < |ps| ensures ps[j].location + Width(ps[j].rel) <= |Join(p)| {
        if j > 0 { assert ps[j] == ps[1..][j - 1]; }
      }
    }
  }

  /** A definition gives its value to all pending references, and nothing else changes. */
  lemma DefineRewrites(acts: seq<Act>, k: nat)
    requires k < |acts| && acts[k].Define?
    ensures var l := Open(acts, k, acts[k].name);
      Listed(acts, k, acts[k].name, l) &&
      Pieces(acts, k + 1) == Rewritten(acts, Pieces(acts, k), l, acts[k].value) + [[]]
  {
    var name, v := acts[k].name, acts[k].value;
    var l := Open(acts, k, name);
    OpenListed(acts, k, name);
    var q := Rewritten(acts, Pieces(acts, k), l, v);
    forall i | 0 <= i < k ensures Piece(acts, i, k + 1) == q[i] {
      RewrittenAt(acts, Pieces(acts, k), l, v, i);
      if Refers(acts[i], name) { OpenPending(acts, k, name, i); }
    }
    assert Piece(acts, k, k + 1) == [];
  }

  // --------------------------------------------------------------- errors counted

  function One(b: bool): nat { if b then 1 else 0 }

  /** The errors a one-byte field has cost after k acts: a direct one is checked with
      its value, a patched one when it is emitted and again when it is patched. */
  function Fault(acts: seq<Act>, i: nat, k: nat): nat
    requires i < k <= |acts|
  {
    match acts[i]
    case Raw(_) => 0
    case Define(_, _) => 0
    case Ref(name, offset, rel) =>
      match Current(acts, i, name)
      case Value(v) => One(TooFar(rel, S32(offset + Distance(rel, v, Loc(acts, i)))))
      case Unknown => One(TooFar(rel, offset)) + PatchFault(acts[i], Loc(acts, i), FateOf(acts, i, k))
  }

  function PatchFault(a: Act, location: nat, fate: Fate): nat
    requires a.Ref?
  {
    if fate.Bound?
    then One(TooFar(a.rel, S32(Found(Bytes(Width(a.rel), a.offset)) + Distance(a.rel, fate.value, location))))
    else 0
  }

  function Faults(acts: seq<Act>, m: nat, k: nat): nat
    requires m <= k <= |acts|
  {
    if m == 0 then 0 else Faults(acts, m - 1, k) + Fault(acts, m - 1, k)
  }

  ghost predicate OpenBelow(acts: seq<Act>, k: nat, name: string, m: nat, l: seq<nat>) {
    && m <= k <= |acts| && Listed(acts, k, name, l)
    && (forall j | 0 <= j < |l| :: l[j] < m)
    && (forall i | 0 <= i < m :: i in l <==> Refers(acts[i], name) && FateOf(acts, i, k).Pending?)
  }

  lemma FirstHighest(acts: seq<Act>, k: nat, name: string, l: seq<nat>, j: nat)
    requires Listed(acts, k, name, l) && j < |l|
    ensures l[0] >= l[j] && (l[0] == l[j] ==> j == 0)
  {
  }

  lemma TailBelow(acts: seq<Act>, k: nat, name: string, m: nat, l: seq<nat>)
    requires OpenBelow(acts, k, name, m, l) && m > 0
    ensures if m - 1 in l then l != [] && l[0] == m - 1 && OpenBelow(acts, k, name, m - 1, l[1..])
            else OpenBelow(acts, k, name, m - 1, l)
  {
    if m - 1 in l {
      var j :| 0 <= j < |l| && l[j] == m - 1;
      FirstHighest(acts, k, name, l, j);
      assert l == [l[0]] + l[1..];
      assert forall j | 0 <= j < |l[1..]| :: l[1..][j] == l[j + 1];
    }
  }

  /** A definition costs a pending reference its patch, and other references nothing. */
  lemma FaultStep(acts: seq<Act>, i: nat, k: nat)
    requires i < k < |acts| && acts[k].Define?
    ensures Fault(acts, i, k + 1) == Fault(acts, i, k) +
      if Refers(acts[i], acts[k].name) && FateOf(acts, i, k).Pending?
      then PatchFault(acts[i], Loc(acts, i), Bound(acts[k].value)) else 0
  {
    if Refers(acts[i], acts[k].name) && FateOf(acts, i, k).Pending? { PendingUnknown(acts, i, k); }
  }

  lemma FirstPatch(acts: seq<Act>, p: seq<seq<Byte>>, l: seq<nat>, name: string, v: int)
    requires Sized(acts, p) && Listed(acts, |p|, name, l) && Raws(acts, p, l) && l != []
    ensures var q := p[l[0] := Direct(acts[l[0]], Loc(acts, l[0]), v)];
      Fits(Join(p), PatchesAt(acts, l)) && Fits(Join(q), PatchesAt(acts, l[1..])) &&
      PatchErrors(Join(p), PatchesAt(acts, l), v) ==
        PatchFault(acts[l[0]], Loc(acts, l[0]), Bound(v)) + PatchErrors(Join(q), PatchesAt(acts, l[1..]), v)
  {
    var i := l[0];
    var q := p[i := Direct(acts[i], Loc(acts, i), v)];
    PatchPieces(acts, p, l, name, v);
    PatchPiece(acts, p, i, v);
    var ps := PatchesAt(acts, l);
    assert ps[0] == PatchAt(acts, i) && ps[1..] == PatchesAt(acts, l[1..]);
    ErrorsHead(Join(p), ps, v, p[i], Join(q));
  }

  lemma ErrorsHead(out: seq<Byte>, ps: seq<Patch>, v: int, field: seq<Byte>, next: seq<Byte>)
    requires ps != [] && Fits(out, ps)
    requires out[ps[0].location..ps[0].location + Width(ps[0].rel)] == field && PatchOne(out, ps[0], v) == next
    ensures Fits(next, ps[1..])
    ensures PatchErrors(out, ps, v) == PatchErrors(next, ps[1..], v) +
      One(TooFar(ps[0].rel, S32(Found(field) + Distance(ps[0].rel, v, ps[0].location))))
  {
  }

  ghost predicate Counting(acts: seq<Act>, k: nat, m: nat, p: seq<seq<Byte>>, l: seq<nat>) {
    && k < |acts| && acts[k].Define? && OpenBelow(acts, k, acts[k].name, m, l)
    && Sized(acts, p) && |p| == k && Raws(acts, p, l)
  }

  lemma CountingStep(acts: seq<Act>, k: nat, m: nat, p: seq<seq<Byte>>, l: seq<nat>) returns (hit: bool)
    requires Counting(acts, k, m, p, l) && m > 0
    ensures hit == (Refers(acts[m - 1], acts[k].name) && FateOf(acts, m - 1, k).Pending?)
    ensures if hit
      then l != [] && l[0] == m - 1
        && Counting(acts, k, m - 1, p[m - 1 := Direct(acts[m - 1], Loc(acts, m - 1), acts[k].value)], l[1..])
      else Counting(acts, k, m - 1, p, l)
  {
    hit := m - 1 in l;
    TailBelow(acts, k, acts[k].name, m, l);
    if hit { NextRaws(acts, p, l, acts[k].name, Direct(acts[m - 1], Loc(acts, m - 1), acts[k].value)); }
  }

  lemma {:induction false} PatchesCount(acts: seq<Act>, k: nat, m: nat, p: seq<seq<Byte>>, l: seq<nat>)
    requires Counting(acts, k, m, p, l)
    ensures Fits(Join(p), PatchesAt(acts, l))
    ensures Faults(acts, m, k + 1) == Faults(acts, m, k) + PatchErrors(Join(p), PatchesAt(acts, l), acts[k].value)
    decreases m
  {
    PatchPieces(acts, p, l, acts[k].name, acts[k].value);
    if m > 0 {
      var i := m - 1;
      var hit := CountingStep(acts, k, m, p, l);
      FaultStep(acts, i, k);
      if hit {
        FirstPatch(acts, p, l, acts[k].name, acts[k].value);
        PatchesCount(acts, k, i, p[i := Direct(acts[i], Loc(acts, i), acts[k].value)], l[1..]);
      } else {
        PatchesCount(acts, k, i, p, l);
      }
    }
  }

  lemma {:induction false} PendingUnknown(acts: seq<Act>, i: nat, k: nat)
    requires i < k <= |acts| && acts[i].Ref? && FateOf(acts, i, k).Pending?
    ensures Current(acts, i, acts[i].name).Unknown?
    decreases k
  {
    if k > i + 1 { PendingUnknown(acts, i, k - 1); }
  }

  lemma OpenCounting(acts: seq<Act>, k: nat)
    requires k < |acts| && acts[k].Define?
    ensures Counting(acts, k, k, Pieces(acts, k), Open(acts, k, acts[k].name))
  {
    var name, l := acts[k].name, Open(acts, k, acts[k].name);
    OpenListed(acts, k, name);
    forall i | 0 <= i < k ensures i in l <==> Refers(acts[i], name) && FateOf(acts, i, k).Pending? {
      if Refers(acts[i], name) { OpenPending(acts, k, name, i); }
    }
    assert forall j | 0 <= j < |l| :: l[j] in l;
  }

  /** A definition patches exactly the fields of the references it is for, and adds
      the errors of those patches. */
  lemma DefineFaults(acts: seq<Act>, k: nat)
    requires k < |acts| && acts[k].Define?
    ensures var ps := PatchesAt(acts, Open(acts, k, acts[k].name));
      Fits(Join(Pieces(acts, k)), ps) &&
      PatchAll(Join(Pieces(acts, k)), ps, acts[k].value) == Join(Pieces(acts, k + 1)) &&
      Faults(acts, k + 1, k + 1) == Faults(acts, k, k) + PatchErrors(Join(Pieces(acts, k)), ps, acts[k].value)
  {
    var name, l, p := acts[k].name, Open(acts, k, acts[k].name), Pieces(acts, k);
    OpenCounting(acts, k);
    PatchesCount(acts, k, k, p, l);
    PatchPieces(acts, p, l, name, acts[k].value);
    DefineRewrites(acts, k);
    LastPiece(Rewritten(acts, p, l, acts[k].value), []);
  }

  lemma LastPiece(p: seq<seq<Byte>>, b: seq<Byte>)
    ensures Join(p + [b]) == Join(p) + b
  {
    assert (p + [b])[..|p + [b]| - 1] == p;
  }
}
