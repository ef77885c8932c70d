/** Memory operands of symbols that are defined later (src/djasm/djasm.c, lines 5618-5692,
    5801-5862 and 5977-5995): whatever code, references and definitions follow an operand,
    it is read with the sum of all that is known of its symbols by then. */
module DjasmLater {
  import opened Bits
  import opened DjasmBits
  import opened DjasmCode
  import opened DjasmSymbols
  import opened DjasmModrm
  import opened DjasmOperand

  // -------------------------------------------------- the patches that touch a place

  /** A field outside from..to. */
  predicate Away(q: Patch, from: nat, to: nat) { q.location + Width(q.rel) <= from || to <= q.location }

  /** Of the fields ps, none but p touches from..to. */
  ghost predicate OnlyTouches(ps: seq<Patch>, p: Patch, from: nat, to: nat) {
    forall i | 0 <= i < |ps| :: ps[i] == p || Away(ps[i], from, to)
  }

  function CountOf(ps: seq<Patch>, p: Patch): nat {
    if ps == [] then 0 else (if ps[0] == p then 1 else 0) + CountOf(ps[1..], p)
  }

  /** v added n times. */
  function Repeat(n: nat, v: int): int { if n == 0 then 0 else v + Repeat(n - 1, v) }

  /** An operand's bytes from `start` on, the displacement d last. If it awaits symbols,
      p is the field of its displacement, and else a field that nobody patches. */
  datatype Spot = Spot(start: nat, b: seq<Byte>, d: seq<Byte>, open: bool, p: Patch) {
    function At(): nat { start + |b| }

    function End(): nat { start + |b| + |d| }

    predicate Good() {
      && b != [] && start <= p.location < End()
      && (open ==> p.location == At() && |d| == Width(p.rel) && |d| in {2, 4} && p.rel in {Abs, Abs32})
    }

    /** The displacement for the sum x. */
    function Field(x: int): seq<Byte> { if open then Bytes(|d|, x) else d }

    ghost predicate In(out: seq<Byte>, x: int) {
      && End() <= |out| && out[start..At()] == b && out[At()..End()] == Field(x)
    }
  }

  lemma PatchElsewhere(out: seq<Byte>, q: Patch, value: int, from: nat, to: nat)
    requires q.location + Width(q.rel) <= |out| && from <= to <= |out| && Away(q, from, to)
    ensures PatchOne(out, q, value)[from..to] == out[from..to]
  {
  }

  lemma PatchHere(out: seq<Byte>, spot: Spot, x: int, value: int)
    requires spot.Good() && spot.open && spot.In(out, x)
    ensures spot.In(PatchOne(out, spot.p, value), x + value)
  {
    LaterIsNow(|spot.d|, x, value);
  }

  lemma PatchStep(out: seq<Byte>, q: Patch, value: int, spot: Spot, x: int, y: int)
    requires q.location + Width(q.rel) <= |out| && spot.Good() && spot.In(out, x)
    requires if q == spot.p then spot.open && y == x + value else Away(q, spot.start, spot.End()) && y == x
    ensures spot.In(PatchOne(out, q, value), y)
  {
    if q == spot.p {
      PatchHere(out, spot, x, value);
    } else {
      PatchElsewhere(out, q, value, spot.start, spot.At());
      PatchElsewhere(out, q, value, spot.At(), spot.End());
    }
  }

  /** set_symbol's patches add the value once for each that is the operand's, and leave
      the operand alone otherwise. */
  lemma {:induction false} PatchesHere(out: seq<Byte>, ps: seq<Patch>, value: int, spot: Spot, x: int, y: int)
    requires Fits(out, ps) && spot.Good() && spot.In(out, x) && y == x + Repeat(CountOf(ps, spot.p), value)
    requires OnlyTouches(ps, spot.p, spot.start, spot.End()) && (CountOf(ps, spot.p) > 0 ==> spot.open)
    ensures spot.In(PatchAll(out, ps, value), y)
    decreases |ps|
  {
    if ps != [] {
      var x' := if ps[0] == spot.p then x + value else x;
      PatchStep(out, ps[0], value, spot, x, x');
      PatchesHere(PatchOne(out, ps[0], value), ps[1..], value, spot, x', y);
    }
  }

  // ------------------------------------------------------------- what comes later

  /** What follows an operand in the source text. Single bytes of a symbol are only asked
      for once it is defined, and are bytes like others then. */
  datatype Event = Put(bytes: seq<Byte>) | Refer(s: Symbol, offset: int, rel: Rel) | Set(s: Symbol, value: int)

  predicate Allowed(events: seq<Event>) {
    forall i | 0 <= i < |events| && events[i].Refer? :: events[i].rel != Abs8
  }

  function SymbolOf(e: Event): seq<Symbol> { if e.Put? then [] else [e.s] }

  function Involved(events: seq<Event>): seq<Symbol> {
    if events == [] then [] else Involved(events[..|events| - 1]) + SymbolOf(events[|events| - 1])
  }

  /** The values an operand gets for its symbols: those it finds defined, and of the others
      the first they are given. */
  function Learn(known: map<Symbol, int>, e: Event): map<Symbol, int> {
    if e.Set? && e.s !in known then known[e.s := e.value] else known
  }

  function KnownAfter(known: map<Symbol, int>, events: seq<Event>): map<Symbol, int> {
    if events == [] then known else Learn(KnownAfter(known, events[..|events| - 1]), events[|events| - 1])
  }

  ghost function KnownNow(names: seq<Symbol>): map<Symbol, int>
    reads names
  {
    map s | s in names && s.defined :: s.value
  }

  /** The sum of the values of the first n names, as far as they are known. */
  function KnownSum(names: seq<Symbol>, n: nat, known: map<Symbol, int>): int
    requires n <= |names|
  {
    if n == 0 then 0 else KnownSum(names, n - 1, known) + if names[n - 1] in known then known[names[n - 1]] else 0
  }

  lemma RepeatMore(n: nat, v: int)
    ensures Repeat(n + 1, v) == Repeat(n, v) + v
  {
  }

  lemma {:induction false} SumLearns(names: seq<Symbol>, n: nat, known: map<Symbol, int>, s: Symbol, v: int)
    requires n <= |names| && s !in known
    ensures KnownSum(names, n, known[s := v]) == KnownSum(names, n, known) + Repeat(Occurs(names, n, s), v)
  {
    if n > 0 {
      SumLearns(names, n - 1, known, s, v);
      RepeatMore(Occurs(names, n - 1, s), v);
    }
  }

  lemma {:induction false} SumKnown(names: seq<Symbol>, n: nat, known: map<Symbol, int>, more: map<Symbol, int>)
    requires n <= |names|
    requires forall i | 0 <= i < n ::
      names[i] in known && names[i] in more && known[names[i]] == more[names[i]]
    ensures KnownSum(names, n, known) == KnownSum(names, n, more)
  {
    if n > 0 { SumKnown(names, n - 1, known, more); }
  }

  /** The sum that the loop over the symbols has collected. */
  lemma {:induction false} SumFound(names: seq<Symbol>, n: nat, offset: int)
    requires n <= |names|
    ensures SumTo(names, n, S32(offset)) == S32(offset + KnownSum(names, n, KnownNow(names)))
  {
    if n > 0 {
      SumFound(names, n - 1, offset);
      WrapAdd(offset + KnownSum(names, n - 1, KnownNow(names)), names[n - 1].value);
    }
  }

  lemma {:induction false} AllDefined(names: seq<Symbol>, n: nat)
    requires n <= |names| && !UndefinedTo(names, n)
    ensures forall i | 0 <= i < n :: names[i] in KnownNow(names)
  {
    if n > 0 { AllDefined(names, n - 1); }
  }

  /** A symbol has as many patches of the operand's field as the operand names it, until
      its value is known, and no other that touches the operand. */
  ghost predicate Waiting(out: seq<Byte>, ps: seq<Patch>, n: nat, spot: Spot) {
    && Fits(out, ps) && OnlyTouches(ps, spot.p, spot.start, spot.End()) && CountOf(ps, spot.p) == n
    && (n > 0 ==> spot.open)
  }

  function Missing(names: seq<Symbol>, known: map<Symbol, int>, s: Symbol): nat {
    if s in known then 0 else Occurs(names, |names|, s)
  }

  /** The operand's bytes hold what is known of its sum, */
  ghost predicate Shows(out: seq<Byte>, names: seq<Symbol>, known: map<Symbol, int>, spot: Spot, rest: int) {
    spot.Good() && spot.In(out, rest + KnownSum(names, |names|, known))
  }

  ghost predicate WaitsAt(s: Symbol, out: seq<Byte>, names: seq<Symbol>, known: map<Symbol, int>, spot: Spot)
    reads s
  {
    Waiting(out, s.patches, Missing(names, known, s), spot)
  }

  /** and all symbols wait as they should. */
  ghost predicate Standing(asm: Assembler, names: seq<Symbol>, known: map<Symbol, int>, spot: Spot, rest: int,
                           all: seq<Symbol>)
    reads asm, all
  {
    && Shows(asm.out, names, known, spot, rest)
    && forall i | 0 <= i < |all| :: WaitsAt(all[i], asm.out, names, known, spot)
  }

  lemma {:induction false} CountNone(ps: seq<Patch>, p: Patch)
    requires forall i | 0 <= i < |ps| :: ps[i] != p
    ensures CountOf(ps, p) == 0
  {
    if ps != [] { CountNone(ps[1..], p); }
  }

  lemma {:induction false} CountCopies(p: Patch, n: nat, was: seq<Patch>)
    ensures CountOf(Copies(p, n) + was, p) == n + CountOf(was, p)
    ensures forall i | 0 <= i < |Copies(p, n)| :: Copies(p, n)[i] == p
  {
    if n > 0 {
      CountCopies(p, n - 1, was);
      assert (Copies(p, n) + was)[1..] == Copies(p, n - 1) + was;
    } else {
      assert Copies(p, n) + was == was;
    }
  }

  /** The patches of a symbol that the operand has just named n times. */
  lemma WaitingNow(before: seq<Byte>, out: seq<Byte>, was: seq<Patch>, ps: seq<Patch>, n: nat, spot: Spot)
    requires Fits(before, was) && |before| <= spot.start && spot.Good() && spot.End() <= |out|
    requires ps == Copies(spot.p, n) + was && (n > 0 ==> spot.open)
    ensures Waiting(out, ps, n, spot)
  {
    CountNone(was, spot.p);
    CountCopies(spot.p, n, was);
  }

  lemma Waits(before: seq<Byte>, out: seq<Byte>, was: seq<Patch>, s: Symbol, names: seq<Symbol>,
              known: map<Symbol, int>, spot: Spot)
    requires Fits(before, was) && |before| <= spot.start && spot.Good() && spot.End() <= |out|
    requires if spot.open then s.patches == Copies(spot.p, Missing(names, known, s)) + was
      else s.patches == was && Missing(names, known, s) == 0
    ensures WaitsAt(s, out, names, known, spot)
  {
    var n := Missing(names, known, s);
    if !spot.open { assert was == Copies(spot.p, 0) + was; }
    WaitingNow(before, out, was, s.patches, n, spot);
  }

  /** Code put behind the operand. */
  lemma InMore(out: seq<Byte>, more: seq<Byte>, spot: Spot, x: int)
    requires spot.In(out, x)
    ensures spot.In(out + more, x)
  {
  }

  lemma WaitingMore(out: seq<Byte>, more: seq<Byte>, ps: seq<Patch>, n: nat, spot: Spot)
    requires Waiting(out, ps, n, spot)
    ensures Waiting(out + more, ps, n, spot)
  {
  }

  lemma WaitingPatch(out: seq<Byte>, q: Patch, ps: seq<Patch>, n: nat, spot: Spot)
    requires Waiting(out, ps, n, spot) && spot.p.location < spot.End() <= q.location
    requires q.location + Width(q.rel) <= |out|
    ensures Waiting(out, [q] + ps, n, spot)
  {
    assert ([q] + ps)[1..] == ps;
  }

  /** One event. */
  method Handle(asm: Assembler, e: Event, ghost names: seq<Symbol>, ghost known: map<Symbol, int>, ghost spot: Spot,
                ghost rest: int, ghost all: seq<Symbol>)
    requires Standing(asm, names, known, spot, rest, all) && (e.Refer? ==> e.rel != Abs8) && (e.Put? || e.s in all)
    modifies asm, SymbolOf(e)
    ensures Standing(asm, names, Learn(known, e), spot, rest, all)
  {
    assert !e.Put? ==> SymbolOf(e)[0] == e.s;
    match e {
      case Put(bytes) => PutBytes(asm, bytes, names, known, spot, rest, all);
      case Refer(s, offset, rel) => ReferTo(asm, s, offset, rel, names, known, spot, rest, all);
      case Set(s, value) => Define(asm, s, value, names, known, spot, rest, all);
    }
  }

  method PutBytes(asm: Assembler, bytes: seq<Byte>, ghost names: seq<Symbol>, ghost known: map<Symbol, int>,
                  ghost spot: Spot, ghost rest: int, ghost all: seq<Symbol>)
    requires Standing(asm, names, known, spot, rest, all)
    modifies asm`out
    ensures Standing(asm, names, known, spot, rest, all)
  {
    ghost var was := asm.out;
    InMore(was, bytes, spot, rest + KnownSum(names, |names|, known));
    forall i | 0 <= i < |all| ensures Waiting(was + bytes, all[i].patches, Missing(names, known, all[i]), spot) {
      assert WaitsAt(all[i], was, names, known, spot);
      WaitingMore(was, bytes, all[i].patches, Missing(names, known, all[i]), spot);
    }
    asm.out := asm.out + bytes;
  }

  method ReferTo(asm: Assembler, s: Symbol, offset: int, rel: Rel, ghost names: seq<Symbol>,
                 ghost known: map<Symbol, int>, ghost spot: Spot, ghost rest: int, ghost all: seq<Symbol>)
    requires Standing(asm, names, known, spot, rest, all) && rel != Abs8 && s in all
    modifies asm, s`patches
    ensures Standing(asm, names, known, spot, rest, all)
  {
    ghost var was := asm.out;
    ghost var was0 := seq(|all|, i requires 0 <= i < |all| reads all => all[i].patches);
    assert forall i | 0 <= i < |all| :: WaitsAt(all[i], was, names, known, spot);
    assert forall i | 0 <= i < |all| :: Waiting(was, was0[i], Missing(names, known, all[i]), spot);
    asm.Emits(s, offset, rel);
    ghost var more := asm.out[|was|..];
    assert asm.out == was + more && |more| == Width(rel);
    InMore(was, more, spot, rest + KnownSum(names, |names|, known));
    forall i | 0 <= i < |all| ensures WaitsAt(all[i], asm.out, names, known, spot) {
      WaitingMore(was, more, was0[i], Missing(names, known, all[i]), spot);
      if all[i] == s && !s.defined {
        WaitingPatch(asm.out, Patch(|was|, rel), was0[i], Missing(names, known, s), spot);
      }
    }
  }

  lemma LearnsSum(names: seq<Symbol>, known: map<Symbol, int>, s: Symbol, value: int)
    ensures KnownSum(names, |names|, Learn(known, Set(s, value))) ==
      KnownSum(names, |names|, known) + Repeat(Missing(names, known, s), value)
  {
    if s !in known { SumLearns(names, |names|, known, s, value); }
  }

  /** A definition of a symbol that waits as it should. */
  lemma DefinedShows(out: seq<Byte>, ps: seq<Patch>, s: Symbol, value: int, names: seq<Symbol>,
                     known: map<Symbol, int>, spot: Spot, rest: int)
    requires Shows(out, names, known, spot, rest) && Waiting(out, ps, Missing(names, known, s), spot)
    ensures Shows(PatchAll(out, ps, value), names, Learn(known, Set(s, value)), spot, rest)
  {
    LearnsSum(names, known, s, value);
    PatchesHere(out, ps, value, spot, rest + KnownSum(names, |names|, known),
                rest + KnownSum(names, |names|, Learn(known, Set(s, value))));
  }

  lemma WaitingStill(out: seq<Byte>, now: seq<Byte>, ps: seq<Patch>, n: nat, spot: Spot)
    requires Waiting(out, ps, n, spot) && |out| == |now|
    ensures Waiting(now, ps, n, spot) && Waiting(now, [], 0, spot)
  {
  }

  lemma MissingAfter(names: seq<Symbol>, known: map<Symbol, int>, s: Symbol, value: int, t: Symbol)
    ensures Missing(names, Learn(known, Set(s, value)), t) == if t == s then 0 else Missing(names, known, t)
  {
  }

  method Define(asm: Assembler, s: Symbol, value: int, ghost names: seq<Symbol>, ghost known: map<Symbol, int>,
                ghost spot: Spot, ghost rest: int, ghost all: seq<Symbol>)
    requires Standing(asm, names, known, spot, rest, all) && s in all
    modifies asm, s
    ensures Standing(asm, names, Learn(known, Set(s, value)), spot, rest, all)
  {
    ghost var was, next := asm.out, Learn(known, Set(s, value));
    ghost var now := seq(|all|, i requires 0 <= i < |all| reads all => all[i].patches);
    assert forall i | 0 <= i < |all| :: WaitsAt(all[i], was, names, known, spot);
    assert forall i | 0 <= i < |all| :: Waiting(was, now[i], Missing(names, known, all[i]), spot);
    ghost var j :| 0 <= j < |all| && all[j] == s;
    assert WaitsAt(all[j], was, names, known, spot);
    DefinedShows(was, s.patches, s, value, names, known, spot, rest);
    asm.SetSymbol(s, value);
    forall i | 0 <= i < |all| ensures WaitsAt(all[i], asm.out, names, next, spot) {
      WaitingStill(was, asm.out, now[i], Missing(names, known, all[i]), spot);
      MissingAfter(names, known, s, value, all[i]);
    }
  }

  lemma InvolvedAt(events: seq<Event>, i: nat)
    requires i < |events| && !events[i].Put?
    ensures events[i].s in Involved(events)
  {
    if i < |events| - 1 { InvolvedAt(events[..|events| - 1], i); }
  }

  /** All that follows. */
  method Follow(asm: Assembler, events: seq<Event>, ghost names: seq<Symbol>, ghost known: map<Symbol, int>,
                ghost spot: Spot, ghost rest: int, ghost all: seq<Symbol>)
    requires Standing(asm, names, known, spot, rest, all) && Allowed(events)
    requires forall s | s in Involved(events) :: s in all
    modifies asm, Involved(events)
    ensures Standing(asm, names, KnownAfter(known, events), spot, rest, all)
  {
    var i := 0;
    ghost var now := known;
    while i < |events|
      invariant 0 <= i <= |events| && now == KnownAfter(known, events[..i])
      invariant Standing(asm, names, now, spot, rest, all)
    {
      assert events[..i + 1][..i] == events[..i];
      if !events[i].Put? { InvolvedAt(events, i); }
      Handle(asm, events[i], names, now, spot, rest, all);
      now := Learn(now, events[i]);
      i := i + 1;
    }
    assert events[..i] == events;
  }

  // ------------------------------------------------------------------ the operand

  /** Only the low bits of a sum are put out. */
  lemma SumsModulo(terms: seq<Term>, which: Three, v: int, w: int, b: seq<Byte>)
    requires S32(v) == S32(w)
    ensures Sums(terms, which, v, b) <==> Sums(terms, which, w, b)
  {
    Congruent(v, w);
  }

  lemma Congruent(v: int, w: int)
    requires S32(v) == S32(w)
    ensures U32(v) == U32(w) && v % 0x1_0000 == w % 0x1_0000
  {
    SameLow(v, S32(v));
    SameLow(w, S32(w));
  }

  lemma SameLow(v: int, s: int)
    requires s == S32(v)
    ensures U32(v) == U32(s) && v % 0x1_0000 == s % 0x1_0000
  {
    var k := (v + 0x8000_0000) / 0x1_0000_0000;
    ModShift(s, 0x1_0000_0000, k);
    ModShift(s, 0x1_0000, 0x1_0000 * k);
    assert v == 0x1_0000_0000 * k + s == 0x1_0000 * (0x1_0000 * k) + s;
  }

  lemma SumsOther(terms: seq<Term>, which: Three, v: int, w: int, b: seq<Byte>, n: nat)
    requires b != [] && n == if UsesWide(terms) then 4 else 2
    requires Sums(terms, which, v, b + Bytes(n, v))
    ensures Sums(terms, which, w, b + Bytes(n, w))
  {
    if n == 4 { OtherValue32(b, v, w); } else { OtherValue16(b, v, w); }
  }

  /** The operand with the displacement x is right exactly if it was with v. */
  lemma SumsAlike(terms: seq<Term>, which: Three, v: int, x: int, b: seq<Byte>, n: nat)
    requires b != [] && n == if UsesWide(terms) then 4 else 2
    ensures Sums(terms, which, v, b + Bytes(n, v)) <==> Sums(terms, which, x, b + Bytes(n, x))
  {
    if Sums(terms, which, v, b + Bytes(n, v)) { SumsOther(terms, which, v, x, b, n); }
    if Sums(terms, which, x, b + Bytes(n, x)) { SumsOther(terms, which, x, v, b, n); }
  }

  lemma SameRest(a: int, v: int, k0: int, k: int)
    requires v == S32(a + k0)
    ensures S32(v - k0 + k) == S32(a + k)
  {
    WrapAdd(a + k0, k - k0);
  }

  lemma SpotReads(out: seq<Byte>, spot: Spot, x: int)
    requires spot.In(out, x)
    ensures out[spot.start..spot.End()] == spot.b + spot.Field(x)
  {
    assert out[spot.start..spot.End()] == out[spot.start..spot.At()] + out[spot.At()..spot.End()];
  }

  lemma {:induction false} KnownStays(known: map<Symbol, int>, events: seq<Event>)
    ensures forall s | s in known :: s in KnownAfter(known, events) && KnownAfter(known, events)[s] == known[s]
  {
    if events != [] { KnownStays(known, events[..|events| - 1]); }
  }

  /** What the terms sum up to when these values are known. */
  function SumOf(terms: seq<Term>, known: map<Symbol, int>): int {
    S32(Numbers(terms) + KnownSum(Names(terms), |Names(terms)|, known))
  }

  /** The operand when all events are over: if its symbols were all known at once, */
  lemma ReadsKnown(terms: seq<Term>, which: Three, known: map<Symbol, int>, after: map<Symbol, int>, out: seq<Byte>,
                   spot: Spot, x: int)
    requires spot.In(out, x) && !spot.open
    requires forall s | s in Names(terms) :: s in known && s in after && known[s] == after[s]
    requires Sums(terms, which, SumOf(terms, known), spot.b + spot.d) <==> ComesOut(terms, SumOf(terms, known), false)
    ensures spot.End() <= |out|
    ensures Sums(terms, which, SumOf(terms, after), out[spot.start..spot.End()]) <==>
      ComesOut(terms, SumOf(terms, after), false)
  {
    SpotReads(out, spot, x);
    SumKnown(Names(terms), |Names(terms)|, known, after);
  }

  /** or if they were not. */
  lemma ReadsLater(terms: seq<Term>, which: Three, v: int, w: int, out: seq<Byte>, spot: Spot, x: int)
    requires spot.In(out, x) && spot.open && spot.b != [] && S32(x) == S32(w)
    requires spot.d == Bytes(if UsesWide(terms) then 4 else 2, v)
    requires Sums(terms, which, v, spot.b + spot.d) <==> ComesOut(terms, v, true)
    ensures spot.End() <= |out|
    ensures Sums(terms, which, w, out[spot.start..spot.End()]) <==> ComesOut(terms, w, true)
  {
    SpotReads(out, spot, x);
    SumsAlike(terms, which, v, x, spot.b, |spot.d|);
    SumsModulo(terms, which, x, w, spot.b + Bytes(|spot.d|, x));
  }

  /** An operand just put out, as the rest of this module looks at it. */
  function SpotOf(start: nat, b: seq<Byte>, d: seq<Byte>, any: bool, rel: Rel): Spot {
    Spot(start, b, d, any, Patch(if any then start + |b| else start, if any then rel else Abs8))
  }

  lemma SpotIn(before: seq<Byte>, b: seq<Byte>, d: seq<Byte>, any: bool, rel: Rel, v: int)
    requires b != [] && (any ==> rel in {Abs, Abs32} && d == Bytes(Width(rel), v))
    ensures var spot := SpotOf(|before|, b, d, any, rel);
      spot.Good() && spot.In(before + (b + d), v)
  {
  }

  lemma FirstShows(before: seq<Byte>, b: seq<Byte>, d: seq<Byte>, any: bool, rel: Rel, v: int, names: seq<Symbol>,
                   known: map<Symbol, int>, rest: int)
    requires b != [] && (any ==> rel in {Abs, Abs32} && d == Bytes(Width(rel), v))
    requires v == rest + KnownSum(names, |names|, known)
    ensures Shows(before + (b + d), names, known, SpotOf(|before|, b, d, any, rel), rest)
  {
    SpotIn(before, b, d, any, rel, v);
  }

  /** What an operand is worth when it has been put out, v being the sum so far. */
  ghost predicate Fresh(terms: seq<Term>, which: Three, v: int, any: bool, spot: Spot) {
    && spot.open == any && (any ==> spot.d == Bytes(if UsesWide(terms) then 4 else 2, v))
    && (Sums(terms, which, v, spot.b + spot.d) <==> ComesOut(terms, v, any))
  }

  /** And later on. */
  ghost predicate Reads(terms: seq<Term>, which: Three, v: int, any: bool, out: seq<Byte>, spot: Spot) {
    && spot.End() <= |out|
    && (Sums(terms, which, v, out[spot.start..spot.End()]) <==> ComesOut(terms, v, any))
  }

  /** The end of an operand's story. */
  lemma Settled(terms: seq<Term>, which: Three, known: map<Symbol, int>, events: seq<Event>, out: seq<Byte>, spot: Spot,
                v: int, rest: int)
    requires var names := Names(terms);
      && v == SumOf(terms, known) && v == rest + KnownSum(names, |names|, known)
      && Shows(out, names, KnownAfter(known, events), spot, rest)
      && (!spot.open ==> forall s | s in names :: s in known)
    requires Fresh(terms, which, v, spot.open, spot)
    ensures Reads(terms, which, SumOf(terms, KnownAfter(known, events)), spot.open, out, spot)
  {
    var names, after := Names(terms), KnownAfter(known, events);
    var k0, k := KnownSum(names, |names|, known), KnownSum(names, |names|, after);
    if spot.open {
      SameRest(Numbers(terms), v, k0, k);
      WrapAdd(Numbers(terms) + k, 0);
      ReadsLater(terms, which, v, SumOf(terms, after), out, spot, rest + k);
    } else {
      KnownStays(known, events);
      ReadsKnown(terms, which, known, after, out, spot, rest + k);
    }
  }

  lemma {:induction false} OccursNone(names: seq<Symbol>, n: nat, s: Symbol)
    requires n <= |names| && s !in names
    ensures Occurs(names, n, s) == 0
  {
    if n > 0 { OccursNone(names, n - 1, s); }
  }

  /** The patches that a symbol, named or not, has after the operand. */
  ghost predicate Gained(s: Symbol, names: seq<Symbol>, known: map<Symbol, int>, q: Patch, was: seq<Patch>)
    reads s
  {
    s.patches == if s in names && s !in known then Copies(q, Occurs(names, |names|, s)) + was else was
  }

  lemma OneWaits(before: seq<Byte>, out: seq<Byte>, was: seq<Patch>, s: Symbol, names: seq<Symbol>,
                 known: map<Symbol, int>, spot: Spot, q: Patch)
    requires Fits(before, was) && |before| <= spot.start && spot.Good() && spot.End() <= |out|
    requires Gained(s, names, known, q, was)
    requires if spot.open then q == spot.p else s in names ==> s in known
    ensures WaitsAt(s, out, names, known, spot)
  {
    if s !in names { OccursNone(names, |names|, s); }
    assert Copies(spot.p, 0) + was == was;
    Waits(before, out, was, s, names, known, spot);
  }

  lemma AllWait(before: seq<Byte>, out: seq<Byte>, was: seq<seq<Patch>>, all: seq<Symbol>, names: seq<Symbol>,
                known: map<Symbol, int>, spot: Spot, q: Patch)
    requires |was| == |all| && |before| <= spot.start && spot.Good() && spot.End() <= |out|
    requires forall i | 0 <= i < |all| :: Fits(before, was[i]) && Gained(all[i], names, known, q, was[i])
    requires if spot.open then q == spot.p else forall s | s in names :: s in known
    ensures forall i | 0 <= i < |all| :: WaitsAt(all[i], out, names, known, spot)
  {
    forall i | 0 <= i < |all| ensures WaitsAt(all[i], out, names, known, spot) {
      OneWaits(before, out, was[i], all[i], names, known, spot, q);
    }
  }

  /** Where an operand starts. */
  ghost function StartOf(asm: Assembler, terms: seq<Term>, opcode: seq<Byte>): nat
    reads asm
  {
    |asm.out| + |Prefix(PlanOf(terms))| + |opcode|
  }

  function RelOf(terms: seq<Term>): Rel { if UsesWide(terms) then Abs32 else Abs }

  /** The operand is put out. */
  method PutOut(op: Operand, asm: Assembler, terms: seq<Term>, opcode: seq<Byte>, which: Three, ghost v: int,
                ghost any: bool)
    returns (ok: bool, ghost b: seq<Byte>, ghost d: seq<Byte>, ghost q: Patch)
    requires op.Valid() && op.Empty() && op.movacc == 0 && WellScaled(terms)
    requires v == Total(Names(terms), S32(Numbers(terms))) && any == AnyUndefined(Names(terms))
    modifies op, asm`out, asm`errors, Names(terms)`patches
    ensures ok <==> Encodable(PlanOf(terms))
    ensures ok ==> b != [] && asm.out == old(asm.out) + Prefix(PlanOf(terms)) + opcode + (b + d)
    ensures ok && any ==> d == Bytes(Width(RelOf(terms)), v)
    ensures ok ==> (Sums(terms, which, v, b + d) <==> ComesOut(terms, v, any))
    ensures ok ==> q == Patch(old(StartOf(asm, terms, opcode)) + |b|, RelOf(terms))
    ensures ok ==> Awaited(Names(terms), q)
  {
    var errors := asm.errors;
    ghost var at;
    b, d, at := Encode(op, asm, terms, opcode, which);
    ok := asm.errors == errors;
    q := Patch(at, Abs);
    if ok {
      PlanMeans(terms);
      q := Patch(at, if PlanOf(terms).form != NO_REGS then Abs32 else Abs);
    }
  }

  /** What the symbols gain by that. */
  method Gain(op: Operand, asm: Assembler, terms: seq<Term>, opcode: seq<Byte>, which: Three, ghost v: int,
              ghost any: bool, ghost known: map<Symbol, int>, ghost all: seq<Symbol>, ghost was: seq<seq<Patch>>)
    returns (ok: bool, ghost b: seq<Byte>, ghost d: seq<Byte>, ghost q: Patch)
    requires op.Valid() && op.Empty() && op.movacc == 0 && WellScaled(terms)
    requires v == Total(Names(terms), S32(Numbers(terms))) && any == AnyUndefined(Names(terms))
    requires forall j | 0 <= j < |Names(terms)| :: Names(terms)[j] in known <==> Names(terms)[j].defined
    requires |was| == |all| && forall i | 0 <= i < |all| :: was[i] == all[i].patches
    modifies op, asm`out, asm`errors, Names(terms)`patches
    ensures ok <==> Encodable(PlanOf(terms))
    ensures ok ==> b != [] && asm.out == old(asm.out) + Prefix(PlanOf(terms)) + opcode + (b + d)
    ensures ok && any ==> d == Bytes(Width(RelOf(terms)), v)
    ensures ok ==> (Sums(terms, which, v, b + d) <==> ComesOut(terms, v, any))
    ensures ok ==> q == Patch(old(StartOf(asm, terms, opcode)) + |b|, RelOf(terms))
    ensures ok ==> forall i | 0 <= i < |all| :: Gained(all[i], Names(terms), known, q, was[i])
  {
    ghost var names := Names(terms);
    ok, b, d, q := PutOut(op, asm, terms, opcode, which, v, any);
    if ok {
      forall i | 0 <= i < |all| ensures Gained(all[i], names, known, q, was[i]) {
        if all[i] in names {
          var j :| 0 <= j < |names| && names[j] == all[i];
          assert names[j].defined == old(names[j].defined);
          assert [] + was[i] == was[i];
          assert names[j].patches == Due(q, names, |names|, names[j], was[i]);
        }
      }
    }
  }

  /** And they wait. */
  method Begin(op: Operand, asm: Assembler, terms: seq<Term>, opcode: seq<Byte>, which: Three,
               ghost known: map<Symbol, int>, ghost v: int, ghost rest: int, ghost any: bool, ghost all: seq<Symbol>)
    returns (ok: bool, ghost spot: Spot)
    requires op.Valid() && op.Empty() && op.movacc == 0 && WellScaled(terms)
    requires v == Total(Names(terms), S32(Numbers(terms))) && any == AnyUndefined(Names(terms))
    requires v == rest + KnownSum(Names(terms), |Names(terms)|, known)
    requires forall j | 0 <= j < |Names(terms)| :: Names(terms)[j] in known <==> Names(terms)[j].defined
    requires !any ==> forall s | s in Names(terms) :: s in known
    requires forall i | 0 <= i < |all| :: Fits(asm.out, all[i].patches)
    modifies op, asm`out, asm`errors, Names(terms)`patches
    ensures ok <==> Encodable(PlanOf(terms))
    ensures ok ==> spot.start == old(StartOf(asm, terms, opcode))
    ensures ok ==> Fresh(terms, which, v, any, spot)
    ensures ok ==> Standing(asm, Names(terms), known, spot, rest, all)
  {
    ghost var names, before, rel := Names(terms), asm.out, RelOf(terms);
    ghost var head := before + Prefix(PlanOf(terms)) + opcode;
    ghost var was := seq(|all|, i requires 0 <= i < |all| reads all => all[i].patches);
    assert forall i | 0 <= i < |all| :: Fits(before, was[i]);
    ghost var b, d, q;
    ok, b, d, q := Gain(op, asm, terms, opcode, which, v, any, known, all, was);
    spot := SpotOf(|head|, b, d, any, rel);
    if ok {
      FirstShows(head, b, d, any, rel, v, names, known, rest);
      assert |head| == old(StartOf(asm, terms, opcode));
      AllWait(before, asm.out, was, all, names, known, spot, q);
    }
  }

  /** An operand and whatever follows it: once it is accepted, its bytes are read with its
      registers and the sum of its numbers and of all values that are known by then, unless
      it is one of those that do not come out. */
  method EncodeAndFollow(op: Operand, asm: Assembler, terms: seq<Term>, opcode: seq<Byte>, which: Three,
                         events: seq<Event>)
    returns (ok: bool, ghost spot: Spot)
    requires op.Valid() && op.Empty() && op.movacc == 0 && WellScaled(terms) && Allowed(events)
    requires forall s | s in Names(terms) + Involved(events) :: Fits(asm.out, s.patches)
    modifies op, asm, Names(terms), Involved(events)
    ensures ok <==> Encodable(PlanOf(terms))
    ensures ok ==> spot.start == old(StartOf(asm, terms, opcode))
    ensures ok ==>
      Reads(terms, which, SumOf(terms, KnownAfter(old(KnownNow(Names(terms))), events)),
            old(AnyUndefined(Names(terms))), asm.out, spot)
  {
    ghost var known, any := KnownNow(Names(terms)), AnyUndefined(Names(terms));
    ghost var v := SumOf(terms, known);
    ghost var rest := v - KnownSum(Names(terms), |Names(terms)|, known);
    AtFirst(terms);
    ok, spot := Begin(op, asm, terms, opcode, which, known, v, rest, any, Names(terms) + Involved(events));
    if ok { GoOn(asm, events, terms, which, known, spot, v, rest, Names(terms) + Involved(events)); }
  }

  /** What is known of an operand before it is put out. */
  lemma AtFirst(terms: seq<Term>)
    ensures Total(Names(terms), S32(Numbers(terms))) == SumOf(terms, KnownNow(Names(terms)))
    ensures !AnyUndefined(Names(terms)) ==> forall s | s in Names(terms) :: s in KnownNow(Names(terms))
  {
    SumFound(Names(terms), |Names(terms)|, Numbers(terms));
    if !AnyUndefined(Names(terms)) { AllDefined(Names(terms), |Names(terms)|); }
  }

  method GoOn(asm: Assembler, events: seq<Event>, ghost terms: seq<Term>, ghost which: Three,
              ghost known: map<Symbol, int>, ghost spot: Spot, ghost v: int, ghost rest: int, ghost all: seq<Symbol>)
    requires Standing(asm, Names(terms), known, spot, rest, all) && Allowed(events)
    requires forall s | s in Involved(events) :: s in all
    requires v == SumOf(terms, known) && v == rest + KnownSum(Names(terms), |Names(terms)|, known)
    requires Fresh(terms, which, v, spot.open, spot) && (!spot.open ==> forall s | s in Names(terms) :: s in known)
    modifies asm, Involved(events)
    ensures Reads(terms, which, SumOf(terms, KnownAfter(known, events)), spot.open, asm.out, spot)
  {
    Follow(asm, events, Names(terms), known, spot, rest, all);
    Settled(terms, which, known, events, asm.out, spot, v, rest);
  }
}
