/** The fields djasm leaves in its output for symbol values, and how a value
    arrives in one: at once, or by a later patch (src/djasm/djasm.c, lines
    5618-5692 and 5783-5862). */
module DjasmCode {
  import opened Bits

  datatype Rel = Abs | Abs32 | Abs8 | Rel16 | Rel8

  function Width(rel: Rel): (n: nat)
    ensures n == 1 || n == 2 || n == 4
  {
    match rel
    case Abs32 => 4
    case Abs => 2
    case Rel16 => 2
    case Abs8 => 1
    case Rel8 => 1
  }

  /** What emitb, emitw and emitd put out: n bytes, lowest first (lines 5783-5799). */
  function Bytes(n: nat, v: int): (b: seq<Byte>)
    ensures |b| == n
  {
    if n == 0 then [] else [v % 0x100] + Bytes(n - 1, v / 0x100)
  }

  /** An unsigned number of one, two or four bytes as a signed one. */
  function Signed(n: nat, u: int): int {
    if n == 1 then (if u < 0x80 then u else u - 0x100)
    else if n == 2 then (if u < 0x8000 then u else u - 0x1_0000)
    else (if u < 0x8000_0000 then u else u - 0x1_0000_0000)
  }

  function Unsigned(b: seq<Byte>): nat {
    if b == [] then 0 else b[0] + 0x100 * Unsigned(b[1..])
  }

  /** The number a patch finds in its field (lines 5647-5660). */
  function Found(b: seq<Byte>): int { Signed(|b|, Unsigned(b)) }

  /** The field with a value added. */
  function Patched(b: seq<Byte>, t: int): (r: seq<Byte>)
    ensures |r| == |b|
  {
    Bytes(|b|, Found(b) + t)
  }

  /** What a symbol's value means for a field: itself, or its distance from the end
      of the field. */
  function Distance(rel: Rel, value: int, location: nat): int {
    match rel
    case Rel16 => S32(value - location - 2)
    case Rel8 => S32(value - location - 1)
    case _ => value
  }

  predicate Small(v: int) { -128 <= v <= 127 }

  // ------------------------------------------------- only the low bits are written

  lemma SameByte(a: int, k: int)
    ensures Bytes(1, a + 0x100 * k) == Bytes(1, a)
  {
    assert Bytes(0, (a + 0x100 * k) / 0x100) == Bytes(0, a / 0x100);
    assert (a + 0x100 * k) % 0x100 == a % 0x100;
  }

  lemma SameWord(a: int, k: int)
    ensures Bytes(2, a + 0x1_0000 * k) == Bytes(2, a)
  {
    assert (a + 0x1_0000 * k) / 0x100 == a / 0x100 + 0x100 * k;
    SameByte(a / 0x100, k);
  }

  lemma SameLong(a: int, k: int)
    ensures Bytes(4, a + 0x1_0000_0000 * k) == Bytes(4, a)
  {
    assert (a + 0x1_0000_0000 * k) / 0x100 == a / 0x100 + 0x100_0000 * k;
    var b := a / 0x100;
    assert (b + 0x100_0000 * k) / 0x100 == b / 0x100 + 0x1_0000 * k;
    SameWord(b / 0x100, k);
    assert Bytes(3, b + 0x100_0000 * k) == Bytes(3, b);
  }

  /** An int that has wrapped around leaves the same bytes. */
  lemma SameWrapped(n: nat, a: int)
    requires n == 1 || n == 2 || n == 4
    ensures Bytes(n, S32(a)) == Bytes(n, a)
  {
    var k := (a + 0x8000_0000) / 0x1_0000_0000;
    assert a == S32(a) + 0x1_0000_0000 * k;
    if n == 1 {
      SameByte(S32(a), 0x100_0000 * k);
    } else if n == 2 {
      SameWord(S32(a), 0x1_0000 * k);
    } else {
      SameLong(S32(a), k);
    }
  }

  // --------------------------------------------------------- what a patch finds

  lemma FoundByte(x: int)
    ensures Found(Bytes(1, x)) == Signed(1, x % 0x100)
  {
    var b := Bytes(1, x);
    assert b[1..] == [] && b[0] == x % 0x100 && Unsigned([]) == 0;
    assert Unsigned(b) == x % 0x100;
  }

  lemma UnsignedWord(x: int)
    ensures Unsigned(Bytes(2, x)) == x % 0x1_0000
  {
    var b, y := Bytes(2, x), x / 0x100;
    assert b[1..] == Bytes(1, y) && Bytes(1, y)[1..] == [] && Unsigned([]) == 0;
    assert Unsigned(Bytes(1, y)) == y % 0x100;
  }

  lemma Whole(x: int, y: int, z: int, w: int, a: int, b: int, c: int)
    requires x == a + 0x100 * y && y == b + 0x100 * z && z == c + 0x1_0000 * w
    requires 0 <= a < 0x100 && 0 <= b < 0x100 && 0 <= c < 0x1_0000
    ensures x % 0x1_0000_0000 == a + 0x100 * (b + 0x100 * c)
  {
    var r := a + 0x100 * (b + 0x100 * c);
    assert x == 0x1_0000_0000 * w + r && 0 <= r < 0x1_0000_0000;
    ModUnique(x, 0x1_0000_0000, w, r);
  }

  lemma LongParts(x: int, y: int, z: int)
    requires y == x / 0x100 && z == y / 0x100
    ensures x % 0x100 + 0x100 * (y % 0x100 + 0x100 * (z % 0x1_0000)) == x % 0x1_0000_0000
  {
    var a, b, c, w := x % 0x100, y % 0x100, z % 0x1_0000, z / 0x1_0000;
    Whole(x, y, z, w, a, b, c);
  }

  lemma UnsignedLong(x: int)
    ensures Unsigned(Bytes(4, x)) == x % 0x1_0000_0000
  {
    var y := x / 0x100;
    var z := y / 0x100;
    UnsignedWord(z);
    assert Bytes(4, x)[1..] == Bytes(3, y) && Bytes(3, y)[1..] == Bytes(2, z);
    assert Unsigned(Bytes(3, y)) == y % 0x100 + 0x100 * (z % 0x1_0000);
    assert Unsigned(Bytes(4, x)) == x % 0x100 + 0x100 * Unsigned(Bytes(3, y));
    LongParts(x, y, z);
  }

  lemma FoundModulo(n: nat, x: int) returns (k: int)
    requires n == 1 || n == 2 || n == 4
    ensures Found(Bytes(n, x)) == x + (if n == 1 then 0x100 else if n == 2 then 0x1_0000 else 0x1_0000_0000) * k
  {
    if n == 1 {
      FoundByte(x);
      k := if x % 0x100 < 0x80 then -(x / 0x100) else -(x / 0x100) - 1;
    } else if n == 2 {
      UnsignedWord(x);
      k := if x % 0x1_0000 < 0x8000 then -(x / 0x1_0000) else -(x / 0x1_0000) - 1;
    } else {
      UnsignedLong(x);
      k := if x % 0x1_0000_0000 < 0x8000_0000 then -(x / 0x1_0000_0000) else -(x / 0x1_0000_0000) - 1;
    }
  }

  /** Adding to a field later is adding before it is written. */
  lemma LaterIsNow(n: nat, x: int, t: int)
    requires n == 1 || n == 2 || n == 4
    ensures Patched(Bytes(n, x), t) == Bytes(n, x + t)
  {
    var k := FoundModulo(n, x);
    if n == 1 {
      SameByte(x + t, k);
    } else if n == 2 {
      SameWord(x + t, k);
    } else {
      SameLong(x + t, k);
    }
  }

  /** A field of one byte holds what was meant exactly if that fits. */
  lemma SmallStays(x: int)
    ensures Small(x) <==> Found(Bytes(1, x)) == x
  {
    FoundByte(x);
  }

  // ----------------------------------------------------------- what a field means

  /** A number as it lies in memory, lowest byte first. */
  function Number(a: int, b: int, c: int, d: int): int { a + 0x100 * b + 0x1_0000 * c + 0x100_0000 * d }

  /** What a field at `location` says to the processor when v is meant: the sum itself,
      or the way from the end of the field to it, in as many bytes as there are. */
  ghost predicate Says(b: seq<Byte>, rel: Rel, location: nat, v: int) {
    match rel
    case Abs32 =>
      && |b| == 4
      && Number(b[0], b[1], b[2], b[3]) == v % 0x1_0000_0000
    case Abs => |b| == 2 && Number(b[0], b[1], 0, 0) == v % 0x1_0000
    case Abs8 => |b| == 1 && b[0] == v % 0x100
    case Rel16 => |b| == 2 && (location + 2 + Number(b[0], b[1], 0, 0)) % 0x1_0000 == v % 0x1_0000
    case Rel8 => |b| == 1 && (location + 1 + b[0] as int) % 0x100 == v % 0x100
  }

  lemma ByteIs(x: int)
    ensures |Bytes(1, x)| == 1 && Bytes(1, x)[0] == x % 0x100
  {
  }

  lemma WordIs(x: int)
    ensures var b := Bytes(2, x); Number(b[0], b[1], 0, 0) == x % 0x1_0000
  {
    var b := Bytes(2, x);
    UnsignedWord(x);
    assert b[1..][1..] == [];
    assert Unsigned(b[1..]) == b[1];
  }

  lemma LongIs(x: int)
    ensures var b := Bytes(4, x);
      Number(b[0], b[1], b[2], b[3]) == x % 0x1_0000_0000
  {
    var b := Bytes(4, x);
    UnsignedLong(x);
    assert b[1..][1..] == b[2..] && b[2..][1..] == b[3..] && b[3..][1..] == [];
    assert Unsigned(b[3..]) == b[3];
    assert Unsigned(b[2..]) == Number(b[2], b[3], 0, 0);
    assert Unsigned(b[1..]) == Number(b[1], b[2], b[3], 0);
  }

  /** From the end of a field to a value, when the distance has wrapped around as an int. */
  lemma FarModulo(end: int, value: int, offset: int, m: nat)
    requires m == 0x100 || m == 0x1_0000
    ensures (end + (offset + S32(value - end)) % m) % m == (value + offset) % m
  {
    var d := value - end;
    var q := (d + 0x8000_0000) / 0x1_0000_0000;
    var x := offset + S32(d);
    assert end + x == (value + offset) - 0x1_0000_0000 * q;
    ModShift(end + x, m, -(x / m));
    if m == 0x100 {
      ModShift(value + offset, m, -0x100_0000 * q);
    } else {
      ModShift(value + offset, m, -0x1_0000 * q);
    }
  }

  lemma FieldMeans(rel: Rel, location: nat, value: int, offset: int)
    ensures Says(Bytes(Width(rel), offset + Distance(rel, value, location)), rel, location, value + offset)
  {
    var x := offset + Distance(rel, value, location);
    match rel
    case Abs32 => LongIs(x);
    case Abs => WordIs(x);
    case Abs8 => ByteIs(x);
    case Rel16 =>
      WordIs(x);
      FarModulo(location + 2, value, offset, 0x1_0000);
    case Rel8 =>
      ByteIs(x);
      FarModulo(location + 1, value, offset, 0x100);
  }
}
