/** Memory operands (src/djasm/djasm.c, lines 5869-6056): the registers, numbers and
    symbols of an address are collected and encoded as ModR/M, SIB and displacement.
    The encoding is read back by sections 2.1.3 and 2.1.5 of the Intel 64 and IA-32
    Architectures Software Developer's Manual, volume 2A. */
module DjasmModrm {
  import opened Bits
  import opened DjasmBits
  import opened DjasmCode
  import opened DjasmSymbols

  // ------------------------------------------------------ the manual's decoding

  /** A memory operand of 32-bit addressing: base and index are -1 when absent, and the
      scale is 0 without an index. */
  datatype Address = NotMemory | Address(reg: nat, base: int, index: int, scale: nat, disp: Word)

  /** What the ModR/M and SIB bytes say; `size` is that of the displacement. */
  datatype Form = RegisterForm | Form(reg: nat, base: int, index: int, scale: nat, size: nat)

  function DispSize(mod: nat, full: nat): nat { if mod == 0 then 0 else if mod == 1 then 1 else full }

  function ScaleOf(ss: nat): nat { if ss == 0 then 1 else if ss == 1 then 2 else if ss == 2 then 4 else 8 }

  predicate HasSib(m: Byte) { m / 0x40 != 3 && m % 8 == 4 }

  /** Tables 2-2 and 2-3. */
  function Form32(m: Byte, sib: Byte): Form {
    var mod, reg, rm := m / 0x40, m / 8 % 8, m % 8;
    if mod == 3 then RegisterForm
    else if rm == 4 then
      var base, index, ss := sib % 8, sib / 8 % 8, sib / 0x40;
      Form(reg, if base == 5 && mod == 0 then -1 else base,
           if index == 4 then -1 else index, if index == 4 then 0 else ScaleOf(ss),
           if base == 5 && mod == 0 then 4 else DispSize(mod, 4))
    else if rm == 5 && mod == 0 then Form(reg, -1, -1, 0, 4)
    else Form(reg, rm, -1, 0, DispSize(mod, 4))
  }

  /** A whole operand and nothing behind it. */
  function Decode32(b: seq<Byte>): Address {
    if |b| == 0 then NotMemory
    else
      var n := if HasSib(b[0]) then 2 else 1;
      if |b| < n then NotMemory
      else
        match Form32(b[0], if n == 2 then b[1] else 0)
        case RegisterForm => NotMemory
        case Form(reg, base, index, scale, size) =>
          if |b| != n + size then NotMemory else Address(reg, base, index, scale, U32(Found(b[n..])))
  }

  const BX: nat := 0x08
  const BP: nat := 0x20
  const SI: nat := 0x40
  const DI: nat := 0x80

  /** A memory operand of 16-bit addressing, its registers as a set of bits. */
  datatype Address16 = NotMemory16 | Address16(reg: nat, regs: nat, disp: nat)

  /** Table 2-1: the registers of each rm value. */
  function Registers16(rm: nat): nat {
    if rm == 0 then BX + SI
    else if rm == 1 then BX + DI
    else if rm == 2 then BP + SI
    else if rm == 3 then BP + DI
    else if rm == 4 then SI
    else if rm == 5 then DI
    else if rm == 6 then BP
    else BX
  }

  function Decode16(b: seq<Byte>): Address16 {
    if |b| == 0 || b[0] / 0x40 == 3 then NotMemory16
    else
      var mod, reg, rm := b[0] / 0x40, b[0] / 8 % 8, b[0] % 8;
      var size := if mod == 0 && rm == 6 then 2 else DispSize(mod, 2);
      if |b| != 1 + size then NotMemory16
      else Address16(reg, if mod == 0 && rm == 6 then 0 else Registers16(rm), Found(b[1..]) % 0x1_0000)
  }

  // ------------------------------------------------------------ registers as bits

  function BitOf(r: Three): (b: Byte)
    ensures RegBit(b)
  {
    if r == 0 then 1 else if r == 1 then 2 else if r == 2 then 4 else if r == 3 then 8
    else if r == 4 then 0x10 else if r == 5 then 0x20 else if r == 6 then 0x40 else 0x80
  }

  function BitOrNone(r: int): Byte { if 0 <= r < 8 then BitOf(r) else 0 }

  function Length(n: nat): nat { if n == 0 then 0 else 1 + Length(n / 2) }

  lemma LengthOfBit(r: Three)
    ensures Length(BitOf(r)) == r + 1
  {
    match r {
      case 0 => assert Length(1) == 1;
      case 1 => assert Length(2) == 2;
      case 2 => assert Length(4) == 3;
      case 3 => assert Length(8) == 4;
      case 4 => assert Length(0x10) == 5;
      case 5 => assert Length(0x20) == 6;
      case 6 => assert Length(0x40) == 7;
      case 7 => assert Length(0x80) == 8;
    }
  }

  /** findreg (lines 5869-5877): the register of a bit, and 4 without one. */
  method FindReg(regbits: nat) returns (r: nat)
    ensures regbits == 0 ==> r == 4
    ensures forall q: Three :: regbits == BitOf(q) ==> r == q
  {
    var i, n := 0, regbits;
    while n != 0
      invariant i + Length(n) == Length(regbits)
    {
      n := n / 2;
      i := i + 1;
    }
    forall q: Three | regbits == BitOf(q) ensures i == q + 1 { LengthOfBit(q); }
    r := if i != 0 then i - 1 else 4;
  }

  /** findscl (lines 5879-5883). */
  function FindScale(bits: nat): nat
    requires bits <= 8
  {
    [0, 0, 1, 0, 2, 0, 0, 0, 3][bits]
  }

  /** The registers of an address: -1 for none, and scale 0 without an index. */
  datatype Regs = Regs(base: int, index: int, scale: nat) {
    predicate Shape() {
      && -1 <= base < 8 && -1 <= index < 8 && index != 4
      && (index == -1 ==> scale == 0) && (index >= 0 ==> scale in {1, 2, 4, 8})
    }

    /** As _modrm.addr32 holds them. */
    function Packed(): nat
      requires Shape()
    {
      Fields(BitOrNone(base), BitOrNone(index), scale, 1)
    }

    /** How often a register counts in the address. */
    function Coefficient(r: Three): nat {
      (if base == r then 1 else 0) + (if index == r then scale else 0)
    }
  }

  const NO_REGS: Regs := Regs(-1, -1, 0)

  /** The term c * r cannot join the registers: esp cannot be scaled, nor added twice,
      and a second index is not tried. */
  predicate Refused(a: Regs, r: Three, c: nat) {
    || (c > 1 && (r == 4 || a.index >= 0))
    || (c == 1 && a.base >= 0 && (a.index >= 0 || (r == 4 && a.base == 4)))
  }

  /** The registers with a term that is not refused: as base, as scaled index, or, when
      there is a base already, as index; esp becomes the base and the base the index. */
  function AfterJoin(a: Regs, r: Three, c: nat): Regs {
    if c > 1 then Regs(a.base, r, c)
    else if a.base < 0 then Regs(r, a.index, a.scale)
    else if r == 4 then Regs(4, a.base, 1)
    else Regs(a.base, r, 1)
  }

  /** The registers of d are those of a and the term c * r. */
  ghost predicate Joined(a: Regs, r: Three, c: nat, d: Regs) {
    && d.Shape() && d != NO_REGS
    && forall q: Three :: d.Coefficient(q) == a.Coefficient(q) + if q == r then c else 0
  }

  // The parts of a register term and of the word, and the changes to the word.

  method TermBit(sib: nat, ghost r: Three, ghost c: nat) returns (n: nat)
    requires c in {1, 2, 4, 8} && sib == BitOf(r) + 0x100 * c
    ensures n == 0x10 <==> r == 4
  {
    SibParts(BitOf(r), c);
    n := And(sib, 0xff);
  }

  method TermScale(sib: nat, ghost r: Three, ghost c: nat) returns (n: nat)
    requires c in {1, 2, 4, 8} && sib == BitOf(r) + 0x100 * c
    ensures n == 0x100 * c
  {
    SibParts(BitOf(r), c);
    n := And(sib, 0xf00);
  }

  method BaseBits(word: nat, ghost a: Regs) returns (n: nat)
    requires a.Shape() && word == a.Packed()
    ensures n == BitOrNone(a.base)
  {
    TakeFields(BitOrNone(a.base), BitOrNone(a.index), a.scale, 1);
    n := And(word, 0xff);
  }

  method IndexBits(word: nat, ghost a: Regs) returns (n: nat)
    requires a.Shape() && word == a.Packed()
    ensures n == 0x100 * BitOrNone(a.index)
  {
    IndexField(BitOrNone(a.base), BitOrNone(a.index), a.scale);
    n := And(word, 0xff00);
  }

  method PutIndex(word: nat, sib: nat, ghost a: Regs, ghost r: Three, ghost c: nat) returns (w: nat)
    requires a.Shape() && word == a.Packed() && a.index == -1
    requires c in {1, 2, 4, 8} && sib == BitOf(r) + 0x100 * c && r != 4
    ensures w == Regs(a.base, r, c).Packed() && Joined(a, r, c, Regs(a.base, r, c))
  {
    AddIndex(BitOrNone(a.base), BitOf(r), c);
    w := Or(word, Shl(sib, 8));
  }

  method PutBase(word: nat, sib: nat, ghost a: Regs, ghost r: Three) returns (w: nat)
    requires a.Shape() && word == a.Packed() && a.base == -1 && sib == BitOf(r) + 0x100
    ensures w == Regs(r, a.index, a.scale).Packed() && Joined(a, r, 1, Regs(r, a.index, a.scale))
  {
    AddBase(BitOrNone(a.index), a.scale, BitOf(r), 1);
    w := Or(word, Or(And(sib, 0xff), 0x100_0000));
  }

  method PutEsp(word: nat, sib: nat, ghost a: Regs) returns (w: nat)
    requires a.Shape() && word == a.Packed() && a.base >= 0 && a.base != 4 && a.index == -1 && sib == 0x110
    ensures w == Regs(4, a.base, 1).Packed() && Joined(a, 4, 1, Regs(4, a.base, 1))
  {
    SwapBase(BitOf(a.base), sib);
    EspJoins(a);
    w := Shl(And(word, 0xff), 8);
    w := Or(w, Or(And(sib, 0xff), 0x101_0000));
  }

  lemma EspJoins(a: Regs)
    requires a.Shape() && a.base >= 0 && a.base != 4 && a.index == -1
    ensures Joined(a, 4, 1, Regs(4, a.base, 1))
    ensures a.Packed() == Fields(BitOf(a.base), 0, 0, 1)
    ensures Regs(4, a.base, 1).Packed() == Fields(0x10, BitOf(a.base), 1, 1)
  {
  }

  method Mark(word: nat, ghost a: Regs) returns (w: nat)
    requires a.Shape() && (word == a.Packed() || (word == 0 && a == NO_REGS))
    ensures w == a.Packed()
  {
    if word == 0 { FirstMark(word, 0x100_0000); } else { SetMark(BitOrNone(a.base), BitOrNone(a.index), a.scale); }
    w := Or(word, 0x100_0000);
  }

  // ------------------------------------------------------------- composing bytes

  /** The SIB byte and rm field that name the registers; without a base the byte has 5
      in its place, without an index 4. */
  ghost predicate NamedBy(a: Regs, sib: Byte, rm: Three) {
    && a.Shape() && a != NO_REGS
    && (if rm == 4
        then sib == Sib(if a.base < 0 then 5 else a.base, RegOr4(a.index), FindScale(a.scale))
        else rm == a.base && a.index == -1 && sib == 0)
  }

  lemma SibBack(base: Three, index: Three, ss: nat)
    requires ss < 4
    ensures Sib(base, index, ss) < 0x100
    ensures Sib(base, index, ss) % 8 == base && Sib(base, index, ss) / 8 % 8 == index
    ensures Sib(base, index, ss) / 0x40 == ss
  {
  }

  lemma ModrmBack(mod: nat, reg: Three, rm: Three)
    requires mod < 4
    ensures var m := 0x40 * mod + 8 * reg + rm;
      m < 0x100 && m % 8 == rm && m / 8 % 8 == reg && m / 0x40 == mod
  {
  }

  /** The manual's reading of those bytes. */
  lemma FormOf(a: Regs, sib: Byte, mod: nat, reg: Three, rm: Three)
    requires NamedBy(a, sib, rm) && mod < 4
    ensures 0x40 * mod + 8 * reg + rm < 0x100
    ensures mod == 3 ==> Form32(0x40 * mod + 8 * reg + rm, sib) == RegisterForm
    ensures mod != 3 ==> (HasSib(0x40 * mod + 8 * reg + rm) <==> rm == 4)
    ensures a.base >= 0 && mod < 3 && (mod == 0 ==> a.base != 5) ==>
      Form32(0x40 * mod + 8 * reg + rm, sib) == Form(reg, a.base, a.index, a.scale, DispSize(mod, 4))
    ensures a.base < 0 && mod == 0 ==> Form32(8 * reg + rm, sib) == Form(reg, -1, a.index, a.scale, 4)
  {
    ModrmBack(mod, reg, rm);
    if rm == 4 {
      SibBack(if a.base < 0 then 5 else a.base, RegOr4(a.index), FindScale(a.scale));
    }
  }

  function RegOr4(r: int): Three { if 0 <= r < 8 then r else 4 }

  method Number(bits: nat, ghost r: int) returns (n: nat)
    requires -1 <= r < 8 && bits == BitOrNone(r)
    ensures n == RegOr4(r)
  {
    n := FindReg(bits);
    assert r >= 0 ==> bits == BitOf(r);
  }

  method BaseNumber(word: nat, ghost a: Regs) returns (n: nat)
    requires a.Shape() && word == a.Packed()
    ensures n == RegOr4(a.base)
  {
    var bits := BaseBits(word, a);
    n := Number(bits, a.base);
  }

  method IndexNumber(word: nat, ghost a: Regs) returns (n: nat)
    requires a.Shape() && word == a.Packed()
    ensures n == RegOr4(a.index)
  {
    TakeFields(BitOrNone(a.base), BitOrNone(a.index), a.scale, 1);
    n := Number(And(Shr(word, 8), 0xff), a.index);
  }

  method ScaleNumber(word: nat, ghost a: Regs) returns (ss: nat)
    requires a.Shape() && word == a.Packed()
    ensures ss == FindScale(a.scale)
  {
    TakeFields(BitOrNone(a.base), BitOrNone(a.index), a.scale, 1);
    ss := FindScale(And(Shr(word, 16), 0xf));
  }

  method JoinSib(base: Three, index: Three, ss: nat) returns (sib: nat)
    requires ss < 4
    ensures sib == Sib(base, index, ss) < 0x100
  {
    SibJoined(base, index, ss);
    sib := Or(Or(base, Shl(index, 3)), Shl(ss, 6));
  }

  /** Lines 5921-5923. */
  method SibOf(word: nat, ghost a: Regs) returns (sib: nat)
    requires a.Shape() && word == a.Packed()
    ensures sib == Sib(RegOr4(a.base), RegOr4(a.index), FindScale(a.scale)) < 0x100
  {
    var b := BaseNumber(word, a);
    var x := IndexNumber(word, a);
    var ss := ScaleNumber(word, a);
    sib := JoinSib(b, x, ss);
  }

  /** Lines 5949-5951: without a base. */
  method SibWithoutBase(word: nat, ghost a: Regs) returns (sib: nat)
    requires a.Shape() && word == a.Packed()
    ensures sib == Sib(5, RegOr4(a.index), FindScale(a.scale)) < 0x100
  {
    var x := IndexNumber(word, a);
    var ss := ScaleNumber(word, a);
    sib := JoinSib(5, x, ss);
  }

  method SibTests(sib: nat, ghost base: Three, ghost index: Three, ghost ss: nat) returns (noIndex: bool, ebp: bool)
    requires ss < 4 && sib == Sib(base, index, ss)
    ensures noIndex <==> index == 4
    ensures ebp <==> base == 5
  {
    SibIndex(base, index, ss);
    SibBase(base, index, ss);
    noIndex, ebp := And(sib, 0x38) == 0x20, And(sib, 7) == 5;
  }

  method PlainRm(mbyte: nat, sib: nat, ghost reg: Three, ghost base: Three, ghost ss: nat) returns (m: nat)
    requires mbyte == 8 * reg && ss < 4 && sib == Sib(base, 4, ss)
    ensures m == Modrm(0, 0, reg, base)
  {
    SibBase(base, 4, ss);
    WithRm(reg, base);
    m := Or(mbyte, And(sib, 7));
  }

  method OverSib(mbyte: nat, sib: nat, ghost reg: Three) returns (m: nat)
    requires mbyte == 8 * reg && sib < 0x100
    ensures m == Modrm(sib, 0, reg, 4)
  {
    WithSib(reg, sib);
    m := Or(mbyte, Or(Shl(sib, 8), 4));
  }

  method EbpZero(mbyte: nat, ghost reg: Three) returns (m: nat)
    requires mbyte == 8 * reg
    ensures m == Modrm(0x25, 1, reg, 4)
  {
    EbpForm(reg);
    m := Or(Or(mbyte, 0x44), Shl(0x25, 8));
  }

  method BpZero(mbyte: nat, ghost reg: Three) returns (m: nat)
    requires mbyte == 8 * reg
    ensures m == Modrm(0, 1, reg, 6)
  {
    BpForm(reg);
    m := Or(mbyte, 0x46);
  }

  method WithMod(mbyte: nat, mod: nat, ghost sib: Byte, ghost reg: Three, ghost rm: Three) returns (m: nat)
    requires mbyte == Modrm(sib, 0, reg, rm) && (mod == 1 || mod == 2)
    ensures m == Modrm(sib, mod, reg, rm)
  {
    SetOne(sib, reg, rm);
    SetTwo(sib, reg, rm);
    m := if mod == 1 then Or(mbyte, 0x40) else Or(mbyte, 0x80);
  }

  method Flipped(mbyte: nat, ghost sib: Byte, ghost mod: nat, ghost reg: Three, ghost rm: Three) returns (m: nat)
    requires mbyte == Modrm(sib, mod, reg, rm) && (mod == 0 || mod == 2)
    ensures m == Modrm(sib, if mod == 2 then 1 else 3, reg, rm)
  {
    FlipMod(sib, mod, reg, rm);
    m := Xor(mbyte, 0xc0);
  }

  function Head(sib: Byte, mod: nat, reg: Three, rm: Three, needsib: bool): (b: seq<Byte>)
    requires mod < 4
  {
    ModrmBack(mod, reg, rm);
    [0x40 * mod + 8 * reg + rm] + if needsib then [sib] else []
  }

  /** Lines 5888-5890, 5997-5999 and 6002-6004. */
  method HeadBytes(mbyte: nat, needsib: bool, ghost sib: Byte, ghost mod: nat, ghost reg: Three, ghost rm: Three)
    returns (b: seq<Byte>)
    requires mod < 4 && mbyte == Modrm(sib, mod, reg, rm)
    ensures b == Head(sib, mod, reg, rm, needsib)
  {
    ModrmBytes(sib, mod, reg, rm);
    b := [mbyte % 0x100];
    if needsib { b := b + [Shr(mbyte, 8) % 0x100]; }
  }

  method TakesByte(mbyte: nat, ghost sib: Byte, ghost mod: nat, ghost reg: Three, ghost rm: Three) returns (byte: bool)
    requires mod < 2 && mbyte == Modrm(sib, mod, reg, rm)
    ensures byte <==> mod == 1
  {
    TestMod(sib, mod, reg, rm);
    byte := And(mbyte, 0x40) != 0;
  }

  lemma Decoded32(a: Regs, sib: Byte, mod: nat, reg: Three, rm: Three, d: seq<Byte>)
    requires NamedBy(a, sib, rm) && mod < 3
    requires if a.base < 0 then mod == 0 && |d| == 4 else (mod == 0 ==> a.base != 5) && |d| == DispSize(mod, 4)
    ensures Decode32(Head(sib, mod, reg, rm, rm == 4) + d) == Address(reg, a.base, a.index, a.scale, U32(Found(d)))
  {
    FormOf(a, sib, mod, reg, rm);
    var h := Head(sib, mod, reg, rm, rm == 4);
    assert (h + d)[0] == h[0] && (h + d)[|h|..] == d;
    assert rm == 4 ==> (h + d)[1] == h[1];
  }

  /** A scaled index alone, put out with no displacement or as mod 3. */
  lemma NotDecoded32(a: Regs, sib: Byte, mod: nat, reg: Three, d: seq<Byte>)
    requires NamedBy(a, sib, 4) && a.base < 0 && ((mod == 0 && d == []) || mod == 3)
    ensures Decode32(Head(sib, mod, reg, 4, true) + d) == NotMemory
  {
    FormOf(a, sib, mod, reg, 4);
    var h := Head(sib, mod, reg, 4, true);
    assert (h + d)[0] == h[0] && (h + d)[1] == h[1];
  }

  lemma ZeroByte(a: Regs, sib: Byte, reg: Three, rm: Three)
    requires NamedBy(a, sib, rm) && a.base >= 0
    ensures Decode32(Head(sib, 1, reg, rm, rm == 4) + [0]) == Address(reg, a.base, a.index, a.scale, 0)
  {
    Decoded32(a, sib, 1, reg, rm, [0]);
    FoundShort(0);
    OneZero();
  }

  lemma OneZero()
    ensures Bytes(1, 0) == [0]
  {
    assert Bytes(0, 0) == [];
  }

  lemma FoundLong(v: int)
    ensures U32(Found(Bytes(4, v))) == U32(v)
  {
    UnsignedLong(v);
  }

  lemma FoundWord(v: int)
    ensures Found(Bytes(2, v)) % 0x1_0000 == v % 0x1_0000
  {
    UnsignedWord(v);
  }

  lemma Decoded16(mod: nat, reg: Three, rm: Three, d: seq<Byte>)
    requires mod < 3 && (mod == 0 && rm == 6 ==> |d| == 2) && (!(mod == 0 && rm == 6) ==> |d| == DispSize(mod, 2))
    ensures Decode16(Head(0, mod, reg, rm, false) + d)
      == Address16(reg, if mod == 0 && rm == 6 then 0 else Registers16(rm), Found(d) % 0x1_0000)
  {
    ModrmBack(mod, reg, rm);
    var h := Head(0, mod, reg, rm, false);
    assert (h + d)[0] == h[0] && (h + d)[|h|..] == d;
  }

  /** Some rm value stands for exactly these registers. */
  predicate Together(regs: int) { exists i: Three :: Registers16(i) == regs }

  const REG_TO_MBYTE: seq<nat> := [0x48, 0x88, 0x60, 0xa0, 0x40, 0x80, 0x20, 0x08]

  /** The search of lines 5960-5965 in the table of line 5899. */
  method FindPair(regs: int) returns (i: nat)
    ensures i <= 8 && (i < 8 <==> Together(regs))
    ensures i < 8 ==> Registers16(i) == regs
  {
    i := 0;
    while i < 8
      invariant i <= 8 && forall j: Three | j < i :: Registers16(j) != regs
    {
      if REG_TO_MBYTE[i] == regs {
        assert Registers16(i) == regs;
        return;
      }
      i := i + 1;
    }
  }

  method WithField(mbyte: nat, rm: Three, ghost reg: Three) returns (m: nat)
    requires mbyte == 8 * reg
    ensures m == Modrm(0, 0, reg, rm)
  {
    WithRm(reg, rm);
    m := Or(mbyte, rm);
  }

  method RegOnly(mbyte: nat, ghost reg: Three) returns (m: nat)
    requires mbyte == 8 * reg
    ensures m == 8 * reg
  {
    OnlyReg(reg);
    m := And(mbyte, 0x38);
  }

  lemma FoundShort(v: int)
    requires Small(v)
    ensures Found(Bytes(1, v)) == v
  {
    SmallStays(v);
  }

  lemma FoundNone()
    ensures Found([]) == 0
  {
  }

  // --------------------------------------------------------- symbols of an operand

  /** The offset and the values of those of the first n symbols that are defined. */
  ghost function SumTo(syms: seq<Symbol>, n: nat, offset: int): int
    requires n <= |syms|
    reads syms
  {
    if n == 0 then offset
    else if syms[n - 1].defined then S32(SumTo(syms, n - 1, offset) + syms[n - 1].value)
    else SumTo(syms, n - 1, offset)
  }

  ghost function Total(syms: seq<Symbol>, offset: int): int
    reads syms
  {
    SumTo(syms, |syms|, offset)
  }

  ghost predicate UndefinedTo(syms: seq<Symbol>, n: nat)
    requires n <= |syms|
    reads syms
  {
    n > 0 && (!syms[n - 1].defined || UndefinedTo(syms, n - 1))
  }

  ghost predicate AnyUndefined(syms: seq<Symbol>)
    reads syms
  {
    UndefinedTo(syms, |syms|)
  }

  /** How often a symbol is among the first n. */
  function Occurs(syms: seq<Symbol>, n: nat, s: Symbol): nat
    requires n <= |syms|
  {
    if n == 0 then 0 else Occurs(syms, n - 1, s) + if syms[n - 1] == s then 1 else 0
  }

  function Copies(p: Patch, n: nat): seq<Patch> { if n == 0 then [] else [p] + Copies(p, n - 1) }

  class Operand {
    /** The fields of _modrm, and movacc. */
    var regs: int
    var offset: int
    var syms: seq<Symbol>
    var addr32: nat
    var addr16: bool
    var movacc: Byte

    /** What addr32 holds. */
    ghost var form: Regs

    ghost predicate Valid()
      reads this
    {
      if addr32 == 0 then form == NO_REGS
      else form.Shape() && form != NO_REGS && addr32 == form.Packed() && regs == -1 && !addr16
    }

    ghost predicate Empty()
      reads this
    {
      regs == 0 && offset == 0 && syms == [] && addr32 == 0 && !addr16
    }

    constructor ()
      ensures Valid() && Empty() && movacc == 0
    {
      regs, offset, syms, addr32, addr16, movacc := 0, 0, [], 0, false, 0;
      form := NO_REGS;
    }

    method Reset()
      modifies this
      ensures Valid() && Empty() && movacc == old(movacc)
    {
      regs, offset, syms, addr32, addr16 := 0, 0, [], 0, false;
      form := NO_REGS;
    }

    /** Lines 6022-6048: a register, with c > 1 scaled, joins the address. */
    method Join(sib: nat, ghost r: Three, ghost c: nat) returns (err: bool)
      requires form.Shape() && addr32 == form.Packed() && c in {1, 2, 4, 8} && sib == BitOf(r) + 0x100 * c
      modifies this`addr32, this`form
      ensures err <==> Refused(old(form), r, c)
      ensures !err ==> Joined(old(form), r, c, form) && addr32 == form.Packed()
      ensures !err ==> form == AfterJoin(old(form), r, c)
    {
      var bit := TermBit(sib, r, c);
      var scale := TermScale(sib, r, c);
      var base := BaseBits(addr32, form);
      var index := IndexBits(addr32, form);
      err := false;
      if scale > 0x100 {
        if bit == 0x10 {
          err := true;
        } else if index != 0 {
          err := true;
        } else {
          addr32 := PutIndex(addr32, sib, form, r, c);
          form := Regs(form.base, r, c);
        }
      } else if base == 0 {
        addr32 := PutBase(addr32, sib, form, r);
        form := Regs(r, form.index, form.scale);
      } else if index == 0 {
        if bit == 0x10 {
          if base == 0x10 {
            err := true;
          } else {
            addr32 := PutEsp(addr32, sib, form);
            form := Regs(4, form.base, 1);
          }
        } else {
          addr32 := PutIndex(addr32, sib, form, r, 1);
          form := Regs(form.base, r, 1);
        }
      } else {
        err := true;
      }
    }

    /** addr32 (lines 6014-6056). */
    method Addr32(asm: Assembler, sib: nat, ghost r: Three, ghost c: nat)
      requires Valid() && c in {1, 2, 4, 8} && sib == BitOf(r) + 0x100 * c
      modifies this, asm`out, asm`errors
      ensures Valid() && movacc == old(movacc)
      ensures asm.out == old(asm.out) + if old(addr32) == 0 && !old(addr16) then [0x67] else []
      ensures var refused := old(addr16) || Refused(old(form), r, c);
        && asm.errors == old(asm.errors) + (if refused then 1 else 0)
        && (if refused then Empty() else
              addr32 != 0 && offset == old(offset) && syms == old(syms) && Joined(old(form), r, c, form)
              && form == AfterJoin(old(form), r, c))
    {
      var err := false;
      if addr16 {
        err := true;
      } else {
        if addr32 == 0 { asm.out := asm.out + [0x67]; }
        addr32 := Mark(addr32, form);
        err := Join(sib, r, c);
      }
      if err {
        asm.errors := asm.errors + 1;
        Reset();
      } else {
        regs := -1;
      }
    }
  
    predicate Zero()
      reads this
    {
      offset == 0 && syms == []
    }

    /** nooffset (lines 5885-5897): without displacement and symbols the operand ends
        here; mod 1 takes a zero byte. */
    method NoOffset(asm: Assembler, mbyte: nat, needsib: bool, ghost sib: Byte, ghost mod: nat, ghost reg: Three,
                    ghost rm: Three)
      returns (done: bool)
      requires Valid() && mbyte == Modrm(sib, mod, reg, rm) && mod < 2
      modifies this, asm`out
      ensures Valid() && done == old(Zero()) && movacc == old(movacc)
      ensures done ==>
        Empty() && asm.out == old(asm.out) + Head(sib, mod, reg, rm, needsib) + if mod == 1 then [0] else []
      ensures !done ==>
        asm.out == old(asm.out) && Same(old(regs), old(offset), old(syms), old(addr32), old(addr16), old(form))
    {
      done := offset == 0 && syms == [];
      if done {
        var b := HeadBytes(mbyte, needsib, sib, mod, reg, rm);
        var byte := TakesByte(mbyte, sib, mod, reg, rm);
        if byte { b := b + [0]; }
        asm.out := asm.out + b;
        Reset();
      }
    }

    ghost predicate Same(regs0: int, offset0: int, syms0: seq<Symbol>, word: nat, short: bool, form0: Regs)
      reads this
    {
      regs == regs0 && offset == offset0 && syms == syms0 && addr32 == word && addr16 == short && form == form0
    }
  
    /** One symbol of the loop below. */
    method CollectOne(s: Symbol, v: int, p: Patch) returns (sum: int)
      modifies this`regs, s`patches
      ensures sum == (if s.defined then S32(v + s.value) else v) && regs == (if s.defined then old(regs) else 0)
      ensures s.patches == (if s.defined then [] else [p]) + old(s.patches)
    {
      sum := v;
      if s.defined {
        sum := S32(v + s.value);
      } else {
        s.patches := [p] + s.patches;
        regs := 0;
      }
    }

    /** One turn of the loop below, for the symbol at i. */
    method CollectNext(i: nat, v: int, p: Patch, ghost was: seq<seq<Patch>>) returns (sum: int)
      requires i < |syms| && AwaitedBy(syms, i, p, was)
      modifies this`regs, syms`patches
      ensures sum == (if syms[i].defined then S32(v + syms[i].value) else v)
      ensures regs == (if syms[i].defined then old(regs) else 0)
      ensures AwaitedBy(syms, i + 1, p, was)
    {
      ghost var before := seq(|syms|, j requires 0 <= j < |syms| reads this, syms => syms[j].patches);
      sum := CollectOne(syms[i], v, p);
      forall j | 0 <= j < |syms| ensures syms[j].patches == Due(p, syms, i + 1, syms[j], was[j]) {
        assert before[j] == Due(p, syms, i, syms[j], was[j]);
        DueStep(p, syms, i, syms[j], was[j]);
      }
    }

    /** The loop of lines 5978-5995. */
    method CollectAll(p: Patch, ghost was: seq<seq<Patch>>) returns (v: int)
      requires AwaitedBy(syms, 0, p, was)
      modifies this`regs, syms`patches
      ensures v == old(Total(syms, offset)) && regs == if old(AnyUndefined(syms)) then 0 else old(regs)
      ensures AwaitedBy(syms, |syms|, p, was)
    {
      v := offset;
      var i := 0;
      while i < |syms|
        invariant 0 <= i <= |syms| && v == old(SumTo(syms, i, offset))
        invariant regs == if old(UndefinedTo(syms, i)) then 0 else old(regs)
        invariant AwaitedBy(syms, i, p, was)
      {
        assert old(SumTo(syms, i + 1, offset)) == if syms[i].defined then S32(v + syms[i].value) else v;
        assert old(UndefinedTo(syms, i + 1)) <==> !syms[i].defined || old(UndefinedTo(syms, i));
        v := CollectNext(i, v, p, was);
        i := i + 1;
      }
    }

    /** Lines 5977-5995: the displacement as far as it is known, and a patch for each
        symbol that is not; one such symbol forces a field of full size. */
    method Collect(p: Patch) returns (v: int)
      modifies this`regs, syms`patches
      ensures v == old(Total(syms, offset)) && regs == if old(AnyUndefined(syms)) then 0 else old(regs)
      ensures Awaited(syms, p)
    {
      ghost var was := seq(|syms|, j requires 0 <= j < |syms| reads this, syms => syms[j].patches);
      AwaitedStart(syms, p, was);
      v := CollectAll(p, was);
      forall j | 0 <= j < |syms| ensures syms[j].patches == Due(p, syms, |syms|, syms[j], old(syms[j].patches)) {
        assert was[j] == old(syms[j].patches);
      }
    }

    /** Lines 5977-6011: the bytes of a ModR/M operand with its displacement d; a mod of
        2 (or, without a base, 0) is flipped for a displacement of one byte. */
    method Displace(asm: Assembler, mbyte: nat, needsib: bool, ghost sib: Byte, ghost mod: nat, ghost reg: Three,
                    ghost rm: Three, ghost v: int, ghost any: bool)
      returns (ghost mod': nat, ghost d: seq<Byte>, ghost at: nat)
      requires Valid() && mbyte == Modrm(sib, mod, reg, rm) && (mod == 0 || mod == 2)
      requires v == Total(syms, offset) && any == AnyUndefined(syms)
      modifies this, asm`out, syms`patches
      ensures Valid() && Empty() && movacc == old(movacc)
      ensures mod' < 4 && asm.out == old(asm.out) + (Head(sib, mod', reg, rm, needsib) + d)
      ensures if old(regs) != 0 && !any && Small(v) then mod' == (if mod == 2 then 1 else 3) && d == Bytes(1, v)
        else mod' == mod && d == Bytes(if old(addr32) != 0 then 4 else 2, v)
      ensures at + |d| == |asm.out| && Awaited(old(syms), Patch(at, if old(addr32) != 0 then Abs32 else Abs))
    {
      var wide := addr32 != 0;
      at := |asm.out| + 1 + if needsib then 1 else 0;
      var sum := Collect(Patch(|asm.out| + 1 + (if needsib then 1 else 0), if wide then Abs32 else Abs));
      var b, field;
      if regs != 0 && -128 <= sum <= 127 {
        var flipped := Flipped(mbyte, sib, mod, reg, rm);
        mod' := if mod == 2 then 1 else 3;
        b := HeadBytes(flipped, needsib, sib, mod', reg, rm);
        field := Bytes(1, sum);
      } else {
        mod' := mod;
        b := HeadBytes(mbyte, needsib, sib, mod', reg, rm);
        field := Bytes(if wide then 4 else 2, sum);
      }
      d := field;
      asm.out := asm.out + (b + field);
      Reset();
    }

    /** Lines 5920-5947, a base and perhaps an index: either the whole operand b is put
        out, or its bytes but for the displacement are returned, with mod 2. */
    method ComposeBase(asm: Assembler, which: Three)
      returns (done: bool, mbyte: nat, needsib: bool, ghost sib: Byte, ghost rm: Three, ghost b: seq<Byte>,
               ghost d: seq<Byte>)
      requires Valid() && addr32 != 0 && form.base >= 0
      modifies this, asm`out
      ensures Valid() && done == old(Zero()) && movacc == old(movacc)
      ensures done ==> Empty() && b != [] && asm.out == old(asm.out) + (b + d)
      ensures done ==> Decode32(b + d) == Address(which, old(form).base, old(form).index, old(form).scale, 0)
      ensures !done ==>
        asm.out == old(asm.out) && Same(old(regs), old(offset), old(syms), old(addr32), old(addr16), old(form))
      ensures !done ==> mbyte == Modrm(sib, 2, which, rm) && needsib == (rm == 4) && NamedBy(form, sib, rm)
    {
      ghost var a := form;
      mbyte := 8 * which;
      needsib, done := false, false;
      var s := SibOf(addr32, a);
      sib, rm := s, 4;
      var noIndex, ebp := SibTests(s, RegOr4(a.base), RegOr4(a.index), FindScale(a.scale));
      FoundNone();
      if s == 0x25 && offset == 0 && syms == [] {
        mbyte := EbpZero(mbyte, which);
        done := NoOffset(asm, mbyte, true, sib, 1, which, 4);
      } else if s == 0x24 {
        mbyte := OverSib(mbyte, s, which);
        needsib := true;
      } else if noIndex {
        mbyte := PlainRm(mbyte, s, which, RegOr4(a.base), FindScale(a.scale));
        sib, rm := 0, RegOr4(a.base);
      } else {
        mbyte := OverSib(mbyte, s, which);
        needsib := true;
        if ebp {
          var one := WithMod(mbyte, 1, sib, which, rm);
          done := NoOffset(asm, one, true, sib, 1, which, rm);
        }
      }
      if done {
        b, d := Head(sib, 1, which, rm, rm == 4), [0];
        ZeroByte(a, sib, which, rm);
      } else {
        done := NoOffset(asm, mbyte, needsib, sib, 0, which, rm);
        b, d := Head(sib, 0, which, rm, rm == 4), [];
        if done {
          Decoded32(a, sib, 0, which, rm, d);
          assert b + d == b;
        } else {
          mbyte := WithMod(mbyte, 2, sib, which, rm);
        }
      }
    }

    /** 32-bit addressing with a base. */
    method EncodeBase(asm: Assembler, which: Three, ghost v: int, ghost any: bool)
      returns (ghost b: seq<Byte>, ghost d: seq<Byte>, ghost at: nat)
      requires Valid() && addr32 != 0 && form.base >= 0
      requires v == Total(syms, offset) && any == AnyUndefined(syms)
      modifies this, asm`out, syms`patches
      ensures Valid() && Empty() && movacc == old(movacc) && b != [] && asm.out == old(asm.out) + (b + d)
      ensures Decode32(b + d) == Address(which, old(form).base, old(form).index, old(form).scale, U32(v))
      ensures any ==> d == Bytes(4, v)
      ensures at + |d| == |asm.out| && Awaited(old(syms), Patch(at, Abs32))
    {
      ghost var a := form;
      var done, mbyte, needsib, sib, rm, b0, d0 := ComposeBase(asm, which);
      b, d := b0, d0;
      if done {
        at := |asm.out| - |d|;
      } else {
        ghost var mod';
        mod', d, at := Displace(asm, mbyte, needsib, sib, 2, which, rm, v, any);
        b := Head(sib, mod', which, rm, needsib);
        Decoded32(a, sib, mod', which, rm, d);
        if |d| == 1 { FoundShort(v); } else { FoundLong(v); }
      }
    }

    /** Lines 5948-5957, a scaled index alone: mod 0 means a displacement of full size,
        which is not put out when it is 0 or small. */
    method EncodeIndex(asm: Assembler, which: Three, ghost v: int, ghost any: bool)
      returns (ghost b: seq<Byte>, ghost d: seq<Byte>, ghost at: nat)
      requires Valid() && addr32 != 0 && form.base < 0
      requires v == Total(syms, offset) && any == AnyUndefined(syms)
      modifies this, asm`out, syms`patches
      ensures Valid() && Empty() && movacc == old(movacc) && b != [] && asm.out == old(asm.out) + (b + d)
      ensures Decode32(b + d) ==
        if any || !Small(v) then Address(which, -1, old(form).index, old(form).scale, U32(v)) else NotMemory
      ensures any ==> d == Bytes(4, v)
      ensures at + |d| == |asm.out| && Awaited(old(syms), Patch(at, Abs32))
    {
      ghost var a := form;
      var sib := SibWithoutBase(addr32, a);
      var mbyte := RegOnly(8 * which, which);
      mbyte := OverSib(mbyte, sib, which);
      var done := NoOffset(asm, mbyte, true, sib, 0, which, 4);
      if done {
        b, d, at := Head(sib, 0, which, 4, true), [], |asm.out|;
        NotDecoded32(a, sib, 0, which, d);
        assert b + d == b;
      } else {
        ghost var mod';
        mod', d, at := Displace(asm, mbyte, true, sib, 0, which, 4, v, any);
        b := Head(sib, mod', which, 4, true);
        if mod' == 3 {
          NotDecoded32(a, sib, 3, which, d);
        } else {
          Decoded32(a, sib, 0, which, 4, d);
          FoundLong(v);
        }
      }
    }

    /** Lines 5958-5974, 16-bit addressing; registers that do not go together are an
        error. */
    method Encode16(asm: Assembler, which: Three, ghost v: int, ghost any: bool)
      returns (ghost b: seq<Byte>, ghost d: seq<Byte>, ghost at: nat)
      requires Valid() && addr32 == 0 && regs != 0 && !(regs == 0x20 && Zero())
      requires v == Total(syms, offset) && any == AnyUndefined(syms)
      modifies this, asm`out, asm`errors, syms`patches
      ensures Valid() && Empty() && movacc == old(movacc) && b != [] && asm.out == old(asm.out) + (b + d)
      ensures asm.errors == old(asm.errors) + if Together(old(regs)) then 0 else 1
      ensures Together(old(regs)) ==> Decode16(b + d) == Address16(which, old(regs), v % 0x1_0000)
      ensures any ==> d == Bytes(2, v)
      ensures at + |d| == |asm.out| && Awaited(old(syms), Patch(at, Abs))
    {
      ghost var regs0 := regs;
      var mbyte := 8 * which;
      var i := FindPair(regs);
      ghost var rm: Three := 0;
      if i < 8 {
        mbyte := WithField(mbyte, i, which);
        rm := i;
      } else {
        asm.errors := asm.errors + 1;
      }
      var done := NoOffset(asm, mbyte, false, 0, 0, which, rm);
      ghost var mod' := 0;
      if done {
        d, at := [], |asm.out|;
      } else {
        mbyte := WithMod(mbyte, 2, 0, which, rm);
        mod', d, at := Displace(asm, mbyte, false, 0, 2, which, rm, v, any);
      }
      b := Head(0, mod', which, rm, false);
      assert d == [] ==> b + d == b;
      FoundNone();
      if |d| == 1 { FoundShort(v); } else { FoundWord(v); }
      if Together(regs0) { Decoded16(mod', which, rm, d); }
    }

    /** Lines 5908-5913, no registers: mod 0 with rm 6, or the accumulator form that
        movacc asks for, and a displacement of two bytes. */
    method EncodeNone(asm: Assembler, which: Three, ghost v: int, ghost any: bool)
      returns (ghost b: seq<Byte>, ghost d: seq<Byte>, ghost at: nat)
      requires Valid() && addr32 == 0 && regs == 0 && (movacc == 0 || 0xa0 <= movacc <= 0xa3)
      requires v == Total(syms, offset) && any == AnyUndefined(syms)
      modifies this, asm`out, syms`patches
      ensures Valid() && Empty() && movacc == 0 && b != [] && asm.out == old(asm.out) + (b + d)
      ensures if old(movacc) != 0 then b == [old(movacc)] else Decode16(b + d) == Address16(which, 0, v % 0x1_0000)
      ensures d == Bytes(2, v)
      ensures at + |d| == |asm.out| && Awaited(old(syms), Patch(at, Abs))
    {
      var mbyte: nat := if movacc != 0 then movacc else 8 * which + if addr32 != 0 then 5 else 6;
      ghost var acc := movacc;
      movacc := 0;
      ghost var mod, reg := if acc != 0 then 2 else 0, if acc != 0 then 4 else which;
      ghost var rm := if acc != 0 then acc - 0xa0 else 6;
      ghost var mod';
      mod', d, at := Displace(asm, mbyte, false, 0, mod, reg, rm, v, any);
      b := Head(0, mod, reg, rm, false);
      if acc == 0 {
        Decoded16(0, which, 6, d);
        FoundWord(v);
      }
    }

    /** Lines 5914-5917: [bp] takes a zero byte displacement. */
    method EncodeBp(asm: Assembler, which: Three) returns (ghost b: seq<Byte>)
      requires Valid() && regs == 0x20 && Zero()
      modifies this, asm`out
      ensures Valid() && Empty() && movacc == old(movacc) && b != [] && asm.out == old(asm.out) + b
      ensures Decode16(b) == Address16(which, BP, 0)
    {
      var mbyte := BpZero(8 * which, which);
      var done := NoOffset(asm, mbyte, false, 0, 1, which, 6);
      b := Head(0, 1, which, 6, false) + [0];
      Decoded16(1, which, 6, [0]);
      FoundShort(0);
      OneZero();
    }

    /** reg (lines 5901-6012): the operand is put out as b with displacement d, and is
        read back as what was asked for. */
    method Reg(asm: Assembler, which: Three) returns (ghost b: seq<Byte>, ghost d: seq<Byte>, ghost at: nat)
      requires Valid() && (movacc == 0 || (regs == 0 && 0xa0 <= movacc <= 0xa3))
      modifies this, asm`out, asm`errors, syms`patches
      ensures Valid() && Empty() && movacc == 0 && b != [] && asm.out == old(asm.out) + (b + d)
      ensures asm.errors == old(asm.errors) +
        if old(addr32) == 0 && old(regs) != 0 && !Together(old(regs)) then 1 else 0
      ensures Means(which, old(addr32) != 0, old(regs), old(form), old(movacc), old(Total(syms, offset)),
                    old(AnyUndefined(syms)), b, d)
      ensures at + |d| == |asm.out|
      ensures Awaited(old(syms), Patch(at, if old(addr32) != 0 then Abs32 else Abs))
    {
      ghost var v, any := Total(syms, offset), AnyUndefined(syms);
      if regs == 0 {
        b, d, at := EncodeNone(asm, which, v, any);
      } else if regs == 0x20 && offset == 0 && syms == [] {
        assert Registers16(6) == 0x20;
        b := EncodeBp(asm, which);
        d, at := [], |asm.out|;
        assert b + d == b;
      } else if addr32 != 0 {
        var base := BaseBits(addr32, form);
        if base != 0 {
          b, d, at := EncodeBase(asm, which, v, any);
        } else {
          b, d, at := EncodeIndex(asm, which, v, any);
        }
      } else {
        b, d, at := Encode16(asm, which, v, any);
      }
    }
  }

  /** The manual reads b + d as the operand asked for. It fails to for a scaled index
      without a base whose displacement is known and small, and for 16-bit registers
      that do not go together. An unknown symbol has a field of full size. */
  ghost predicate Means(which: Three, wide: bool, regs: int, form: Regs, movacc: Byte, v: int, any: bool, b: seq<Byte>,
                        d: seq<Byte>) {
    if regs == 0 then
      d == Bytes(2, v) && (if movacc != 0 then b == [movacc] else Decode16(b + d) == Address16(which, 0, v % 0x1_0000))
    else if wide then
      && (any ==> d == Bytes(4, v))
      && Decode32(b + d) == if form.base >= 0 || any || !Small(v)
           then Address(which, form.base, form.index, form.scale, U32(v)) else NotMemory
    else
      && (any ==> d == Bytes(2, v))
      && (Together(regs) ==> Decode16(b + d) == Address16(which, regs, v % 0x1_0000))
  }

  /** [eax*2], put out as the two bytes of its ModR/M and SIB, is not an operand: the
      four bytes of its displacement are missing. */
  lemma ScaledAloneFails(a: Regs, sib: Byte, zero: int)
    requires a == Regs(-1, 0, 2) && sib == 0x45 && zero == 0
    ensures NamedBy(a, sib, 4) && Decode32(Head(sib, 0, 0, 4, true) + []) == NotMemory
    ensures Decode32(Head(sib, 0, 0, 4, true) + Bytes(4, zero)) == Address(0, -1, 0, 2, U32(zero))
  {
    NotDecoded32(a, sib, 0, 0, []);
    Decoded32(a, sib, 0, 0, 4, Bytes(4, zero));
    FoundLong(zero);
  }

  // ---------------------------------------------------- symbols that come later

  /** A field of full size read with another value in it. */
  lemma OtherValue32(b: seq<Byte>, v: int, w: int)
    requires Decode32(b + Bytes(4, v)).Address?
    ensures Decode32(b + Bytes(4, w)) == Decode32(b + Bytes(4, v)).(disp := U32(w))
  {
    var x, y := b + Bytes(4, v), b + Bytes(4, w);
    assert b != [] ==> x[0] == b[0] == y[0];
    assert |b| > 1 ==> x[1] == b[1] == y[1];
    assert |b| == if HasSib(x[0]) then 2 else 1;
    assert x[|b|..] == Bytes(4, v) && y[|b|..] == Bytes(4, w);
    FoundLong(w);
  }

  lemma OtherValue16(b: seq<Byte>, v: int, w: int)
    requires b != [] && Decode16(b + Bytes(2, v)).Address16?
    ensures Decode16(b + Bytes(2, w)) == Decode16(b + Bytes(2, v)).(disp := w % 0x1_0000)
  {
    var x, y := b + Bytes(2, v), b + Bytes(2, w);
    assert x[0] == b[0] == y[0];
    assert |b| == 1;
    assert x[1..] == Bytes(2, v) && y[1..] == Bytes(2, w);
    FoundWord(w);
  }

  /** The patches due to a symbol that had `was`, after the first n have been seen. */
  ghost function Due(p: Patch, syms: seq<Symbol>, n: nat, s: Symbol, was: seq<Patch>): seq<Patch>
    requires n <= |syms|
    reads s
  {
    (if s.defined then [] else Copies(p, Occurs(syms, n, s))) + was
  }

  ghost predicate AwaitedBy(syms: seq<Symbol>, n: nat, p: Patch, was: seq<seq<Patch>>)
    requires n <= |syms|
    reads syms
  {
    |was| == |syms| && forall i {:trigger syms[i].patches} | 0 <= i < |syms| ::
      syms[i].patches == Due(p, syms, n, syms[i], was[i])
  }

  /** Every undefined symbol has gained a patch for each time it occurs. */
  twostate predicate Awaited(syms: seq<Symbol>, p: Patch)
    reads syms
  {
    forall i {:trigger syms[i].patches} | 0 <= i < |syms| ::
      syms[i].patches == Due(p, syms, |syms|, syms[i], old(syms[i].patches))
  }

  lemma AwaitedStart(syms: seq<Symbol>, p: Patch, was: seq<seq<Patch>>)
    requires |was| == |syms| && forall i {:trigger syms[i].patches} | 0 <= i < |syms| :: was[i] == syms[i].patches
    ensures AwaitedBy(syms, 0, p, was)
  {
    forall i | 0 <= i < |syms| ensures syms[i].patches == Due(p, syms, 0, syms[i], was[i]) {
      assert Copies(p, 0) + was[i] == was[i] && [] + was[i] == was[i];
    }
  }

  lemma DueStep(p: Patch, syms: seq<Symbol>, i: nat, s: Symbol, was: seq<Patch>)
    requires i < |syms|
    ensures Due(p, syms, i + 1, s, was) == (if s == syms[i] && !s.defined then [p] else []) + Due(p, syms, i, s, was)
  {
    MoreCopies(p, Occurs(syms, i, s), was);
  }

  lemma MoreCopies(p: Patch, n: nat, rest: seq<Patch>)
    ensures Copies(p, n + 1) + rest == [p] + (Copies(p, n) + rest)
  {
  }
}
