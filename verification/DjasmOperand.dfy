/** A whole memory operand (src/djasm/djasm.c, lines 4624-4664 and 5869-6056): from the
    terms of the source text to bytes that the processor reads as their sum. */
module DjasmOperand {
  import opened Bits
  import opened DjasmBits
  import opened DjasmCode
  import opened DjasmSymbols
  import opened DjasmModrm

  /** A 32-bit register c times, a 16-bit register, a number, or a symbol. */
  datatype Term = Wide(r: Three, c: nat) | Short(r: Three) | Number(n: int) | Name(s: Symbol)

  predicate WellScaled(terms: seq<Term>) {
    forall i | 0 <= i < |terms| && terms[i].Wide? :: terms[i].c in {1, 2, 4, 8}
  }

  // -------------------------------------------------------------- what is asked for

  /** How often the terms ask for a register, of 32 bits or of 16. */
  function Asked(terms: seq<Term>, wide: bool, q: Three): nat {
    if terms == [] then 0
    else
      var t := terms[|terms| - 1];
      Asked(terms[..|terms| - 1], wide, q) +
        if wide && t.Wide? && t.r == q then t.c else if !wide && t.Short? && t.r == q then 1 else 0
  }

  /** Some 32-bit register is asked for, and some unscaled. */
  predicate UsesWide(terms: seq<Term>) {
    terms != [] && (terms[|terms| - 1].Wide? || UsesWide(terms[..|terms| - 1]))
  }

  predicate UsesPlain(terms: seq<Term>) {
    terms != [] &&
      ((terms[|terms| - 1].Wide? && terms[|terms| - 1].c == 1) || UsesPlain(terms[..|terms| - 1]))
  }

  function Numbers(terms: seq<Term>): int {
    if terms == [] then 0
    else
      var t := terms[|terms| - 1];
      Numbers(terms[..|terms| - 1]) + if t.Number? then t.n else 0
  }

  function Names(terms: seq<Term>): seq<Symbol> {
    if terms == [] then []
    else
      var t := terms[|terms| - 1];
      Names(terms[..|terms| - 1]) + if t.Name? then [t.s] else []
  }

  // ------------------------------------------------------- what the actions collect

  datatype Plan = Refusal | Plan(form: Regs, regs: nat, offset: int, syms: seq<Symbol>)

  const NOTHING: Plan := Plan(NO_REGS, 0, 0, [])

  /** One more term; registers of both sizes do not mix. */
  function Next(p: Plan, t: Term): Plan {
    if p.Refusal? then Refusal
    else
      match t
      case Wide(r, c) => if p.regs != 0 || Refused(p.form, r, c) then Refusal else p.(form := AfterJoin(p.form, r, c))
      case Short(r) => if p.form != NO_REGS then Refusal else p.(regs := Or(p.regs, BitOf(r)))
      case Number(n) => p.(offset := S32(p.offset + n))
      case Name(s) => p.(syms := p.syms + [s])
  }

  function PlanOf(terms: seq<Term>): Plan {
    if terms == [] then NOTHING else Next(PlanOf(terms[..|terms| - 1]), terms[|terms| - 1])
  }

  lemma JoinAdds(a: Regs, r: Three, c: nat)
    requires a.Shape() && c in {1, 2, 4, 8} && !Refused(a, r, c)
    ensures Joined(a, r, c, AfterJoin(a, r, c))
  {
  }

  lemma BitSet(regs: nat, r: Three)
    ensures Or(regs, BitOf(r)) != 0
  {
    OrIsZero(regs, BitOf(r));
  }

  /** The 16-bit registers of a plan: each that is asked for, however often. */
  ghost predicate ShortsOf(regs: nat, terms: seq<Term>) {
    forall q: Three :: Bit(regs, q) <==> Asked(terms, false, q) > 0
  }

  lemma BitOfPower(r: Three)
    ensures BitOf(r) == Pow2(r)
  {
  }

  lemma OneMoreShort(regs: nat, terms: seq<Term>)
    requires terms != [] && terms[|terms| - 1].Short? && ShortsOf(regs, terms[..|terms| - 1])
    ensures ShortsOf(Or(regs, BitOf(terms[|terms| - 1].r)), terms)
  {
    var r := terms[|terms| - 1].r;
    BitOfPower(r);
    forall q: Three ensures Bit(Or(regs, BitOf(r)), q) <==> Asked(terms, false, q) > 0 {
      BitOr(regs, BitOf(r), q);
      BitPower(r, q);
    }
  }

  lemma NoShorts()
    ensures ShortsOf(0, [])
  {
    forall q: Three ensures !Bit(0, q) { BitZero(q); }
  }

  /** A plan is for the terms: their 32-bit registers as often as asked, or the set of
      their 16-bit registers. */
  ghost predicate PlanFor(p: Plan, terms: seq<Term>) {
    && p.Plan? && p.form.Shape() && (forall q: Three :: p.form.Coefficient(q) == Asked(terms, true, q))
    && ShortsOf(p.regs, terms) && p.offset == S32(Numbers(terms)) && p.syms == Names(terms)
    && (p.form != NO_REGS <==> UsesWide(terms)) && (p.form.base >= 0 <==> UsesPlain(terms))
    && (p.regs != 0 ==> p.form == NO_REGS)
  }

  lemma NextFor(p: Plan, terms: seq<Term>)
    requires terms != [] && PlanFor(p, terms[..|terms| - 1]) && Next(p, terms[|terms| - 1]).Plan?
    requires WellScaled(terms)
    ensures PlanFor(Next(p, terms[|terms| - 1]), terms)
  {
    match terms[|terms| - 1]
    case Wide(r, c) => JoinAdds(p.form, r, c);
    case Short(r) => OneMoreShort(p.regs, terms);
    case Number(k) => WrapAdd(Numbers(terms[..|terms| - 1]), k);
    case Name(_) =>
  }

  /** What the actions collect is a plan for the terms. */
  lemma {:induction false} PlanMeans(terms: seq<Term>)
    requires WellScaled(terms) && PlanOf(terms).Plan?
    ensures PlanFor(PlanOf(terms), terms)
  {
    if terms != [] {
      PlanMeans(terms[..|terms| - 1]);
      NextFor(PlanOf(terms[..|terms| - 1]), terms);
    } else {
      NoShorts();
    }
  }

  // --------------------------------------------------------------- what is refused

  function Count(terms: seq<Term>, of: Term -> bool): nat {
    if terms == [] then 0
    else Count(terms[..|terms| - 1], of) + if of(terms[|terms| - 1]) then 1 else 0
  }

  const WIDE: Term -> bool := (t: Term) => t.Wide?
  const SHORT: Term -> bool := (t: Term) => t.Short?
  const SCALED: Term -> bool := (t: Term) => t.Wide? && t.c != 1
  const SCALED_ESP: Term -> bool := (t: Term) => t.Wide? && t.c != 1 && t.r == 4
  const PLAIN_ESP: Term -> bool := (t: Term) => t.Wide? && t.c == 1 && t.r == 4

  /** At most two 32-bit registers, one of them scaled, but not esp, and not both esp; or
      16-bit registers, and not both kinds. */
  predicate Acceptable(terms: seq<Term>) {
    && Count(terms, WIDE) <= 2 && Count(terms, SCALED) <= 1
    && Count(terms, SCALED_ESP) == 0 && Count(terms, PLAIN_ESP) <= 1
    && (Count(terms, WIDE) == 0 || Count(terms, SHORT) == 0)
  }

  /** How many registers of each sort the plan holds. */
  ghost predicate Holding(p: Plan, terms: seq<Term>) {
    && p.Plan? && p.form.Shape()
    && Count(terms, WIDE) == (if p.form.base >= 0 then 1 else 0) + (if p.form.index >= 0 then 1 else 0)
    && (p.form.index < 0 ==> Count(terms, SCALED) == 0)
    && (p.form.base < 0 ==> Count(terms, SCALED) == Count(terms, WIDE))
    && (p.form.index < 0 ==> Count(terms, PLAIN_ESP) == if p.form.base == 4 then 1 else 0)
    && (p.form.base < 0 ==> Count(terms, PLAIN_ESP) == 0)
    && (p.regs != 0 <==> Count(terms, SHORT) > 0) && (p.regs != 0 ==> p.form == NO_REGS)
  }

  lemma AcceptNext(p: Plan, terms: seq<Term>)
    requires terms != [] && Acceptable(terms[..|terms| - 1]) && Holding(p, terms[..|terms| - 1])
    requires WellScaled(terms)
    ensures Next(p, terms[|terms| - 1]).Plan? <==> Acceptable(terms)
    ensures Next(p, terms[|terms| - 1]).Plan? ==> Holding(Next(p, terms[|terms| - 1]), terms)
  {
    var t := terms[|terms| - 1];
    if t.Short? { BitSet(p.regs, t.r); }
    if t.Wide? { assert t.c in {1, 2, 4, 8}; }
  }

  /** Exactly the operands that are acceptable are accepted. */
  lemma {:induction false} AcceptedExactly(terms: seq<Term>)
    requires WellScaled(terms)
    ensures PlanOf(terms).Plan? <==> Acceptable(terms)
    ensures PlanOf(terms).Plan? ==> Holding(PlanOf(terms), terms)
  {
    if terms != [] {
      AcceptedExactly(terms[..|terms| - 1]);
      if PlanOf(terms[..|terms| - 1]).Plan? { AcceptNext(PlanOf(terms[..|terms| - 1]), terms); }
    }
  }

  // ------------------------------------------------------------------- the actions

  /** The operand holds what the plan says. */
  ghost predicate Holds(op: Operand, p: Plan)
    reads op
  {
    && p.Plan? && op.Valid() && op.form == p.form
    && (op.addr16 <==> p.regs != 0) && op.regs == (if op.addr32 != 0 then -1 else p.regs)
    && op.offset == p.offset && op.syms == p.syms
  }

  function Prefix(p: Plan): seq<Byte> { if p.Plan? && p.form != NO_REGS then [0x67] else [] }

  /** The action of one term. What is collected after an error is of no use. */
  method TakeTerm(op: Operand, asm: Assembler, t: Term, ghost p: Plan)
    requires op.Valid() && (op.addr32 == 0 ==> op.regs >= 0) && (t.Wide? ==> t.c in {1, 2, 4, 8})
    modifies op, asm`out, asm`errors
    ensures op.Valid() && (op.addr32 == 0 ==> op.regs >= 0) && op.movacc == old(op.movacc)
    ensures asm.errors >= old(asm.errors)
    ensures forall s | s in op.syms :: s in old(op.syms) || t == Name(s)
    ensures old(Holds(op, p)) && Next(p, t).Plan? ==>
      && Holds(op, Next(p, t)) && asm.errors == old(asm.errors)
      && (p.form == NO_REGS ==> asm.out == old(asm.out) + Prefix(Next(p, t)))
      && (p.form != NO_REGS ==> asm.out == old(asm.out))
    ensures old(Holds(op, p)) && Next(p, t).Refusal? ==> asm.errors > old(asm.errors)
  {
    match t {
      case Wide(r, c) =>
        op.Addr32(asm, BitOf(r) + 0x100 * c, r, c);
      case Short(r) =>
        if op.addr32 != 0 {
          op.Reset();
          asm.errors := asm.errors + 1;
        } else {
          BitSet(if p.Plan? then p.regs else 0, r);
          op.regs := Or(op.regs, BitOf(r));
          op.addr16 := true;
        }
      case Number(n) =>
        op.offset := S32(op.offset + n);
      case Name(s) =>
        op.syms := op.syms + [s];
    }
  }

  lemma NamesSplit(terms: seq<Term>, i: nat)
    requires i < |terms|
    ensures PlanOf(terms[..i + 1]) == Next(PlanOf(terms[..i]), terms[i])
    ensures Names(terms[..i + 1]) == Names(terms[..i]) + if terms[i].Name? then [terms[i].s] else []
  {
    assert terms[..i + 1][..i] == terms[..i];
  }

  /** All terms: the plan is collected, or errors are reported if there is none. */
  method Gather(op: Operand, asm: Assembler, terms: seq<Term>)
    requires op.Valid() && op.Empty() && WellScaled(terms)
    modifies op, asm`out, asm`errors
    ensures op.Valid() && op.movacc == old(op.movacc) && forall s | s in op.syms :: s in Names(terms)
    ensures PlanOf(terms).Plan? ==>
      Holds(op, PlanOf(terms)) && asm.errors == old(asm.errors) && asm.out == old(asm.out) + Prefix(PlanOf(terms))
    ensures PlanOf(terms).Refusal? ==> asm.errors > old(asm.errors)
  {
    var i := 0;
    while i < |terms|
      invariant 0 <= i <= |terms| && op.Valid() && (op.addr32 == 0 ==> op.regs >= 0) && op.movacc == old(op.movacc)
      invariant forall s | s in op.syms :: s in Names(terms[..i])
      invariant PlanOf(terms[..i]).Plan? ==>
        && Holds(op, PlanOf(terms[..i])) && asm.errors == old(asm.errors)
        && asm.out == old(asm.out) + Prefix(PlanOf(terms[..i]))
      invariant PlanOf(terms[..i]).Refusal? ==> asm.errors > old(asm.errors)
    {
      NamesSplit(terms, i);
      TakeTerm(op, asm, terms[i], PlanOf(terms[..i]));
      i := i + 1;
    }
    assert terms[..i] == terms;
  }

  // --------------------------------------------------------------- what it means

  /** The manual reads b as the sum of the terms, v being that of the numbers and the
      symbols: every register counts as often as it is asked for. */
  ghost predicate Sums(terms: seq<Term>, which: Three, v: int, b: seq<Byte>) {
    if UsesWide(terms) then
      var a := Decode32(b);
      && a.Address? && a.reg == which && a.disp == U32(v)
      && forall q: Three :: Regs(a.base, a.index, a.scale).Coefficient(q) == Asked(terms, true, q)
    else
      var a := Decode16(b);
      && a.Address16? && a.reg == which && a.disp == v % 0x1_0000
      && forall q: Three :: (if Bit(a.regs, q) then 1 else 0) == Asked(terms, false, q)
  }

  /** The operands that come out right: not a scaled register alone with a displacement
      that is known and small, and no 16-bit register twice. */
  ghost predicate ComesOut(terms: seq<Term>, v: int, any: bool) {
    if UsesWide(terms) then UsesPlain(terms) || any || !Small(v)
    else forall q: Three :: Asked(terms, false, q) <= 1
  }

  /** The plan is one of 32-bit registers, or of 16-bit ones that go together. */
  predicate Encodable(p: Plan) { p.Plan? && (p.form != NO_REGS || p.regs == 0 || Together(p.regs)) }

  lemma MeansSums(terms: seq<Term>, which: Three, v: int, any: bool, b: seq<Byte>, d: seq<Byte>)
    requires WellScaled(terms) && Encodable(PlanOf(terms))
    requires var p := PlanOf(terms);
      Means(which, p.form != NO_REGS, if p.form != NO_REGS then -1 else p.regs, p.form, 0, v, any, b, d)
    ensures Sums(terms, which, v, b + d) <==> ComesOut(terms, v, any)
    ensures !UsesWide(terms) ==> Decode16(b + d) == Address16(which, PlanOf(terms).regs, v % 0x1_0000)
  {
    PlanMeans(terms);
    var regs := PlanOf(terms).regs;
    if !UsesWide(terms) {
      forall q: Three
        ensures (if Bit(regs, q) then 1 else 0) == Asked(terms, false, q) <==> Asked(terms, false, q) <= 1
      {
      }
    }
  }

  /** [bx+bx] is put out as [bx], without complaint. */
  lemma TwiceFails(once: seq<Term>, twice: seq<Term>, which: Three, b: seq<Byte>)
    requires once == [Short(3)] && twice == [Short(3), Short(3)] && b == [8 * which + 7]
    ensures PlanOf(twice) == PlanOf(once) == Plan(NO_REGS, BX, 0, []) && Encodable(PlanOf(twice))
    ensures Decode16(b) == Address16(which, BX, 0) && Sums(once, which, 0, b) && !Sums(twice, which, 0, b)
  {
    assert once[..0] == [] && twice[..1] == once;
    ZeroOr(8);
    OrSame(8);
    assert Registers16(7) == BX;
    assert Decode16(b) == Address16(which, BX, 0) by {
      assert b[1..] == [];
      ModrmBack(0, which, 7);
    }
    NoShorts();
    OneMoreShort(0, once);
    TwiceAsked(once, twice);
  }

  lemma TwiceAsked(once: seq<Term>, twice: seq<Term>)
    requires once == [Short(3)] && twice == [Short(3), Short(3)]
    ensures Asked(twice, false, 3) == 2 && !UsesWide(once) && !UsesWide(twice)
    ensures forall q: Three :: Asked(once, false, q) <= 1
  {
    assert once[..0] == [] && twice[..1] == once;
    assert Asked(once, false, 3) == 1;
  }

  /** The operand of an instruction, its opcode put out after the terms have been read:
      either errors, or a prefix, the opcode, and bytes that mean the terms' sum. */
  method Encode(op: Operand, asm: Assembler, terms: seq<Term>, opcode: seq<Byte>, which: Three)
    returns (ghost b: seq<Byte>, ghost d: seq<Byte>, ghost at: nat)
    requires op.Valid() && op.Empty() && op.movacc == 0 && WellScaled(terms)
    modifies op, asm`out, asm`errors, Names(terms)`patches
    ensures op.Valid() && op.Empty()
    ensures PlanOf(terms).Refusal? ==> asm.errors > old(asm.errors)
    ensures PlanOf(terms).Plan? ==>
      b != [] && asm.out == old(asm.out) + Prefix(PlanOf(terms)) + opcode + (b + d)
    ensures PlanOf(terms).Plan? ==>
      asm.errors == old(asm.errors) + if Encodable(PlanOf(terms)) then 0 else 1
    ensures Encodable(PlanOf(terms)) ==>
      (Sums(terms, which, old(Total(Names(terms), S32(Numbers(terms)))), b + d) <==>
        ComesOut(terms, old(Total(Names(terms), S32(Numbers(terms)))), old(AnyUndefined(Names(terms)))))
    ensures PlanOf(terms).Plan? && old(AnyUndefined(Names(terms))) ==>
      d == Bytes(if PlanOf(terms).form != NO_REGS then 4 else 2, old(Total(Names(terms), S32(Numbers(terms)))))
    ensures PlanOf(terms).Plan? ==> at + |d| == |asm.out|
    ensures PlanOf(terms).Plan? ==>
      Awaited(Names(terms), Patch(at, if PlanOf(terms).form != NO_REGS then Abs32 else Abs))
  {
    Gather(op, asm, terms);
    asm.out := asm.out + opcode;
    ghost var p := PlanOf(terms);
    if p.Plan? { PlanMeans(terms); }
    assert p.Plan? ==> op.syms == Names(terms) && op.offset == S32(Numbers(terms));
    forall i | 0 <= i < |op.syms| ensures exists j :: 0 <= j < |Names(terms)| && Names(terms)[j] == op.syms[i] {
      assert op.syms[i] in op.syms;
    }
    ghost var v, any := Total(Names(terms), S32(Numbers(terms))), AnyUndefined(Names(terms));
    assert v == old(Total(Names(terms), S32(Numbers(terms)))) && any == old(AnyUndefined(Names(terms)));
    b, d, at := op.Reg(asm, which);
    if Encodable(p) { MeansSums(terms, which, v, any, b, d); }
  }
}
