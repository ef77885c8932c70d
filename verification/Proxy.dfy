/** Handing an argument list to a program through DOS memory: the writer
    (src/stub/go32-v2.c, lines 312-374) and the reader (src/libc/crt0/c1args.c, lines
    36-44 and 400-486). */
module Proxy {
  import opened Bits
  import opened CommandLine

  // ------------------------------------------------------------- the command line

  /** "!proxy". */
  const PROXY: Text := [33, 112, 114, 111, 120, 121]

  /** What sprintf puts into the command line (line 369). */
  function CommandText(argc: nat, seg: nat): (t: Text)
    requires argc < 0x1_0000 && seg < 0x1_0000
    ensures |t| == 22
  {
    Joined(PROXY, Hex4(argc), Hex4(seg), ZEROS)
  }

  lemma HexWord(v: nat)
    requires v < 0x1_0000
    ensures PlainWord(Hex4(v))
  {
  }

  function Joined(a: Text, b: Text, c: Text, d: Text): (t: Text)
    ensures |t| == |a| + |b| + |c| + |d| + 4
  {
    [BLANK] + (a + [BLANK] + (b + [BLANK] + (c + [BLANK] + d)))
  }

  lemma FourWords(a: Text, b: Text, c: Text, d: Text, unquote: bool)
    requires PlainWord(a) && PlainWord(b) && PlainWord(c) && PlainWord(d)
    ensures Args(Joined(a, b, c, d), unquote) == [a] + ([b] + ([c] + [d]))
  {
    var r3 := c + [BLANK] + d;
    var r2 := b + [BLANK] + r3;
    FirstWord(d, [], unquote);
    FirstWord(c, d, unquote);
    FirstWord(b, r3, unquote);
    FirstWord(a, r2, unquote);
    assert Joined(a, b, c, d)[1..] == a + [BLANK] + r2;
  }

  const ZEROS: Text := [48, 48, 48, 48]

  lemma CommandWords(argc: nat, seg: nat, unquote: bool)
    requires argc < 0x1_0000 && seg < 0x1_0000
    ensures Args(CommandText(argc, seg), unquote) == [PROXY, Hex4(argc), Hex4(seg), ZEROS]
  {
    HexWord(argc);
    HexWord(seg);
    FourWords(PROXY, Hex4(argc), Hex4(seg), ZEROS, unquote);
  }

  /** The bytes of a C string. */
  function Ascii(s: string): (t: Text)
    ensures |t| == |s|
  {
    seq(|s|, i requires 0 <= i < |s| => s[i] as int % 256)
  }

  const DIGITS: string := "0123456789abcdef"

  /** Four hexadecimal digits, lower case and filled with zeros. */
  lemma HexIs(v: nat)
    requires v < 0x1_0000
    ensures Hex4(v)[0] == DIGITS[v / 0x1000] as int && Hex4(v)[1] == DIGITS[v / 0x100 % 16] as int
    ensures Hex4(v)[2] == DIGITS[v / 0x10 % 16] as int && Hex4(v)[3] == DIGITS[v % 16] as int
  {
    DigitIs(v / 0x1000);
    DigitIs(v / 0x100 % 16);
    DigitIs(v / 0x10 % 16);
    DigitIs(v % 16);
  }

  lemma DigitIs(v: nat)
    requires v < 16
    ensures DIGITS[v] as int == HexDigit(v)
  {
  }

  /** The command line: a blank, "!proxy", the two numbers, and "0000". */
  lemma CommandIs(argc: nat, seg: nat)
    requires argc < 0x1_0000 && seg < 0x1_0000
    ensures CommandText(argc, seg) == Ascii(" !proxy ") + Hex4(argc) + Ascii(" ") + Hex4(seg) + Ascii(" 0000")
  {
    assert Ascii(" !proxy ") == [BLANK] + PROXY + [BLANK];
    assert Ascii(" ") == [BLANK];
    assert Ascii(" 0000") == [BLANK] + ZEROS;
  }

  // ----------------------------------------------------------- the argument block

  /** The strings one after the other, each with its NUL. */
  function Strings(args: seq<Text>): Text {
    if args == [] then [] else Strings(args[..|args| - 1]) + (args[|args| - 1] + [0])
  }

  /** Where the strings of an argument list of n start. */
  function TableSize(n: nat): nat { 2 * (n + 1) }

  /** The place of argument i in the block. */
  function Offset(args: seq<Text>, i: nat): nat
    requires i <= |args|
  {
    TableSize(|args|) + |Strings(args[..i])|
  }

  /** cmdlen as lines 342-343 add it up. */
  function Needed(args: seq<Text>): nat {
    if args == [] then 2 else Needed(args[..|args| - 1]) + |args[|args| - 1]| + 1 + 2
  }

  function BlockSize(args: seq<Text>): nat { TableSize(|args|) + |Strings(args)| }

  /** The bytes asked for are exactly those of the block. */
  lemma {:induction false} FitsExactly(args: seq<Text>)
    ensures Needed(args) == BlockSize(args)
  {
    if args != [] { FitsExactly(args[..|args| - 1]); }
  }

  lemma {:induction false} StringsSplit(args: seq<Text>, i: nat)
    requires i <= |args|
    ensures |Strings(args[..i])| <= |Strings(args)| && Strings(args)[..|Strings(args[..i])|] == Strings(args[..i])
    ensures i < |args| ==> Strings(args[..i + 1]) == Strings(args[..i]) + (args[i] + [0])
    decreases |args| - i
  {
    if i < |args| {
      assert args[..i + 1][..i] == args[..i];
      StringsSplit(args, i + 1);
    } else {
      assert args[..i] == args;
    }
  }

  /** An unsigned short in memory. */
  function Short(mem: Text, k: nat): nat
    requires k + 2 <= |mem|
  {
    mem[k] as int + 0x100 * mem[k + 1] as int
  }

  function ShortBytes(vs: seq<nat>): (b: Text)
    ensures |b| == 2 * |vs|
  {
    if vs == [] then [] else ShortBytes(vs[..|vs| - 1]) + [vs[|vs| - 1] % 0x100, vs[|vs| - 1] / 0x100 % 0x100]
  }

  lemma {:induction false} ShortBack(vs: seq<nat>, i: nat)
    requires i < |vs| && vs[i] < 0x1_0000
    ensures Short(ShortBytes(vs), 2 * i) == vs[i]
  {
    if i < |vs| - 1 { ShortBack(vs[..|vs| - 1], i); }
  }

  /** The block: a table of offsets that ends with 0, and the strings. */
  ghost predicate Block(b: Text, args: seq<Text>) {
    && |b| == BlockSize(args)
    && (forall i | 0 <= i < |args| :: Short(b, 2 * i) == Offset(args, i))
    && Short(b, 2 * |args|) == 0
    && b[TableSize(|args|)..] == Strings(args)
  }

  /** The block at a segment. */
  ghost predicate BlockAt(mem: Text, seg: nat, args: seq<Text>) {
    && 16 * seg + BlockSize(args) <= |mem|
    && Block(mem[16 * seg..16 * seg + BlockSize(args)], args)
  }

  method DosMemPut(mem: array<Byte>, src: Text, q: nat)
    requires q + |src| <= mem.Length
    modifies mem
    ensures mem[..] == old(mem[..q]) + src + old(mem[q + |src|..])
  {
    var j := 0;
    while j < |src|
      invariant 0 <= j <= |src|
      invariant forall k | 0 <= k < mem.Length :: mem[k] == if q <= k < q + j then src[k - q] else old(mem[k])
    {
      mem[q + j] := src[j];
      j := j + 1;
    }
  }

  /** Lines 342-343. */
  method CmdLen(args: seq<Text>) returns (cmdlen: nat)
    ensures cmdlen == Needed(args)
  {
    cmdlen := 2;
    var i := 0;
    while i < |args|
      invariant 0 <= i <= |args| && cmdlen == Needed(args[..i])
    {
      assert args[..i + 1][..i] == args[..i];
      cmdlen := cmdlen + (|args[i]| + 1 + 2);
      i := i + 1;
    }
    assert args[..i] == args;
  }

  /** One string into the block (lines 361-364): from `base` on, `done` is there already. */
  method PutString(mem: array<Byte>, arg: Text, base: nat, ghost done: Text, q: nat, ghost was: Text)
    requires base + |done| == q && q + |arg| + 1 <= mem.Length == |was|
    requires mem[..] == was[..base] + done + was[q..]
    modifies mem
    ensures mem[..] == was[..base] + (done + (arg + [0])) + was[q + |arg| + 1..]
  {
    DosMemPut(mem, arg + [0], q);
    ghost var n := q + |arg| + 1;
    PutMiddle(was, base, done, arg + [0], q);
  }

  lemma PutMiddle(was: Text, base: nat, done: Text, more: Text, q: nat)
    requires base + |done| == q && q + |more| <= |was|
    ensures var s := was[..base] + done + was[q..];
      s[..q] + more + s[q + |more|..] == was[..base] + (done + more) + was[q + |more|..]
  {
  }

  /** The first offsets of the table. */
  ghost predicate Offsets(args: seq<Text>, table: seq<nat>) {
    |table| <= |args| && forall j | 0 <= j < |table| :: table[j] == Offset(args, j) < 0x1_0000
  }

  /** All of them, and the 0 at the end. */
  ghost predicate Table(args: seq<Text>, table: seq<nat>) {
    |table| == |args| + 1 && table[|args|] == 0 && Offsets(args, table[..|args|])
  }

  lemma NextOffset(args: seq<Text>, i: nat, table: seq<nat>)
    requires i < |args| && BlockSize(args) <= 0x1_0000 && |table| == i && Offsets(args, table)
    ensures Offset(args, i) < Offset(args, i) + |args[i]| + 1 == Offset(args, i + 1) <= BlockSize(args)
    ensures Offsets(args, table + [Offset(args, i)])
    ensures Strings(args[..i + 1]) == Strings(args[..i]) + (args[i] + [0])
  {
    StringsSplit(args, i);
    StringsSplit(args, i + 1);
  }

  /** Lines 356-366: the strings, and the offsets for the table. */
  method PutStrings(args: seq<Text>, la: nat, mem: array<Byte>) returns (table: seq<nat>)
    requires BlockSize(args) <= 0x1_0000 && la + BlockSize(args) <= mem.Length
    modifies mem
    ensures Table(args, table)
    ensures mem[..] == old(mem[..la + TableSize(|args|)]) + Strings(args) + old(mem[la + BlockSize(args)..])
  {
    var base := la + TableSize(|args|);
    var q := base;
    ghost var was := mem[..];
    table := [];
    assert mem[..] == was[..base] + [] + was[base..];
    while |table| < |args|
      invariant Offsets(args, table) && q == la + Offset(args, |table|) <= la + BlockSize(args)
      invariant mem[..] == was[..base] + Strings(args[..|table|]) + was[q..]
    {
      var arg := args[|table|];
      NextOffset(args, |table|, table);
      PutString(mem, arg, base, Strings(args[..|table|]), q, was);
      assert (q - la) % 0x1_0000 == Offset(args, |table|);
      table := table + [(q - la) % 0x1_0000];
      q := q + |arg| + 1;
    }
    assert args[..|table|] == args;
    table := table + [0];
  }

  /** Lines 368-373: a length byte, the text, and a line feed. */
  method WriteCommand(argc: nat, tbuf: nat) returns (cmd: array<Byte>)
    requires argc < 0x1_0000 && tbuf < 0x1_0000
    ensures fresh(cmd) && cmd[..] == [22] + CommandText(argc, tbuf) + [10]
  {
    var text := CommandText(argc, tbuf);
    cmd := new Byte[24](i requires 0 <= i < 24 => if i == 0 then 22 else if i < 23 then text[i - 1] else 10);
    assert cmd[..] == [22] + text + [10];
  }

  /** run_v2_coff, lines 342-373, with what __dpmi_allocate_dos_memory returns for the
      paragraphs asked for, -1 if there are not as many. The block fills exactly the
      bytes that were counted, at the segment `tbuf`, and the command line says where it
      is. */
  method RunV2Coff(args: seq<Text>, tbuf: int, mem: array<Byte>) returns (rv: int, paragraphs: nat, cmd: array<Byte>)
    requires |args| < 0x1_0000 && BlockSize(args) <= 0x1_0000
    requires tbuf == -1 || (0 <= tbuf < 0x1_0000 && 16 * (tbuf + Paragraphs(args)) <= mem.Length)
    modifies mem
    ensures paragraphs == Paragraphs(args) && fresh(cmd)
    ensures rv == if tbuf == -1 then -1 else 0
    ensures tbuf == -1 ==> mem[..] == old(mem[..])
    ensures tbuf != -1 ==> BlockAt(mem[..], tbuf, args) && cmd[..] == [22] + CommandText(|args|, tbuf) + [10]
    ensures tbuf != -1 ==> mem[..16 * tbuf] == old(mem[..16 * tbuf])
    ensures tbuf != -1 ==> mem[16 * tbuf + BlockSize(args)..] == old(mem[16 * tbuf + BlockSize(args)..])
  {
    var cmdlen := CmdLen(args);
    paragraphs := (cmdlen + 15) / 16;
    if tbuf == -1 {
      cmd := new Byte[0];
      return -1, paragraphs, cmd;
    }
    FitsExactly(args);
    var la := 16 * tbuf;
    ghost var was := mem[..];
    var table := PutStrings(args, la, mem);
    ghost var mid := mem[..];
    DosMemPut(mem, ShortBytes(table), la);
    ghost var b := Finished(was, mid, mem[..], la, args, table);
    InPlace(mem[..], was, la, b);
    cmd := WriteCommand(|args|, tbuf);
    rv := 0;
  }

  /** The paragraphs of 16 bytes that hold the counted bytes. */
  function Paragraphs(args: seq<Text>): nat { (Needed(args) + 15) / 16 }

  lemma TableOver(was: Text, mid: Text, s: Text, la: nat, t: Text, strings: Text, n: nat)
    requires n == |t| + |strings| && la + n <= |was|
    requires mid == was[..la + |t|] + strings + was[la + n..]
    requires s == mid[..la] + t + mid[la + |t|..]
    ensures s == was[..la] + (t + strings) + was[la + n..]
  {
    assert mid[..la] == was[..la] && mid[la + |t|..] == strings + was[la + n..];
  }

  lemma TableReads(args: seq<Text>, table: seq<nat>)
    requires Table(args, table)
    ensures Block(ShortBytes(table) + Strings(args), args)
  {
    var t := ShortBytes(table);
    var b := t + Strings(args);
    forall i | 0 <= i <= |args| ensures Short(b, 2 * i) == table[i] {
      ShortBack(table, i);
      assert b[2 * i] == t[2 * i] && b[2 * i + 1] == t[2 * i + 1];
    }
  }

  /** A block put in place of as many bytes. */
  lemma InPlace(s: Text, was: Text, la: nat, b: Text)
    requires la + |b| <= |was| && s == was[..la] + b + was[la + |b|..]
    ensures |s| == |was| && s[la..la + |b|] == b && s[..la] == was[..la] && s[la + |b|..] == was[la + |b|..]
  {
  }

  lemma Finished(was: Text, mid: Text, s: Text, la: nat, args: seq<Text>, table: seq<nat>) returns (b: Text)
    requires Table(args, table)
    requires la + BlockSize(args) <= |was|
    requires mid == was[..la + TableSize(|args|)] + Strings(args) + was[la + BlockSize(args)..]
    requires s == mid[..la] + ShortBytes(table) + mid[la + TableSize(|args|)..]
    ensures Block(b, args) && |b| == BlockSize(args) && s == was[..la] + b + was[la + BlockSize(args)..]
  {
    b := ShortBytes(table) + Strings(args);
    assert |ShortBytes(table)| == TableSize(|args|);
    TableOver(was, mid, s, la, ShortBytes(table), Strings(args), BlockSize(args));
    TableReads(args, table);
  }

  // ------------------------------------------------------------------- the reader

  lemma StringAt(args: seq<Text>, i: nat)
    requires i < |args|
    ensures var s, n := Strings(args), |Strings(args[..i])|;
      n + |args[i]| < |s| && s[n..n + |args[i]|] == args[i] && s[n + |args[i]|] == 0
  {
    StringsSplit(args, i);
    StringsSplit(args, i + 1);
    var s, n := Strings(args), |Strings(args[..i])|;
    var m := n + |args[i]| + 1;
    assert s[..m] == Strings(args[..i]) + (args[i] + [0]);
    assert s[..m][n..n + |args[i]|] == args[i] && s[..m][m - 1] == 0;
  }

  /** Where argument i is found in memory. */
  lemma ArgAt(mem: Text, la: nat, args: seq<Text>, i: nat) returns (at: nat)
    requires la + BlockSize(args) <= |mem| && Block(mem[la..la + BlockSize(args)], args) && i < |args|
    ensures la + 2 * i + 2 <= |mem| && la + Short(mem, la + 2 * i) == at
    ensures at + |args[i]| < |mem| && mem[at..at + |args[i]|] == args[i] && mem[at + |args[i]|] == 0
  {
    var b := mem[la..la + BlockSize(args)];
    StringAt(args, i);
    assert Short(b, 2 * i) == Offset(args, i);
    BlockString(mem, la, b, args, i);
    at := la + Offset(args, i);
  }

  lemma BlockString(mem: Text, la: nat, b: Text, args: seq<Text>, i: nat)
    requires i < |args| && la + |b| <= |mem| && b == mem[la..la + |b|] && |b| == BlockSize(args)
    requires b[TableSize(|args|)..] == Strings(args)
    requires var s, n := Strings(args), |Strings(args[..i])|;
      n + |args[i]| < |s| && s[n..n + |args[i]|] == args[i] && s[n + |args[i]|] == 0
    ensures la + Offset(args, i) + |args[i]| < |mem|
    ensures mem[la + Offset(args, i)..la + Offset(args, i) + |args[i]|] == args[i]
    ensures mem[la + Offset(args, i) + |args[i]|] == 0
  {
    var t, n, m := TableSize(|args|), |Strings(args[..i])|, |args[i]|;
    assert |b[t..]| == |b| - t && t + |Strings(args)| == |b| && b[t..] == b[t..t + |Strings(args)|];
    Within(b, t, Strings(args), n, m);
    Within(mem, la, b, t + n, m);
  }

  /** A slice of a slice. */
  lemma Within(s: Text, from: nat, b: Text, n: nat, m: nat)
    requires from + |b| <= |s| && b == s[from..from + |b|] && n + m < |b|
    ensures b[n..n + m] == s[from + n..from + n + m] && b[n + m] == s[from + n + m]
  {
    var x, y := b[n..n + m], s[from + n..from + n + m];
    forall k | 0 <= k < m ensures x[k] == y[k] {
      assert x[k] == b[n + k] == s[from..from + |b|][n + k] == s[from + (n + k)];
    }
  }

  /** The length of the string at an address: up to a NUL, or the end of memory. */
  function LengthAt(mem: Text, addr: nat): (n: nat)
    ensures n == 0 || addr + n <= |mem|
    decreases |mem| - addr
  {
    if addr >= |mem| || mem[addr] == 0 then 0 else 1 + LengthAt(mem, addr + 1)
  }

  lemma {:induction false} LengthIs(mem: Text, addr: nat, a: Text)
    requires addr + |a| < |mem| && mem[addr..addr + |a|] == a && NoNul(a) && mem[addr + |a|] == 0
    ensures LengthAt(mem, addr) == |a|
    decreases |a|
  {
    if a != [] {
      assert mem[addr] == a[0];
      assert mem[addr + 1..addr + 1 + |a[1..]|] == a[1..];
      LengthIs(mem, addr + 1, a[1..]);
    }
  }

  /** far_strlen (lines 36-44), for a string that ends within memory. */
  method FarStrlen(mem: array<Byte>, addr: nat) returns (n: nat)
    requires addr + LengthAt(mem[..], addr) < mem.Length
    ensures n == LengthAt(mem[..], addr)
  {
    n := 0;
    while mem[addr + n] != 0
      invariant addr + n + LengthAt(mem[..], addr + n) < mem.Length
      invariant LengthAt(mem[..], addr) == n + LengthAt(mem[..], addr + n)
      decreases mem.Length - n
    {
      n := n + 1;
    }
  }

  /** Where argument i of the table at seg:ofs is. */
  function Pointer(mem: Text, seg: nat, ofs: nat, i: nat): nat
    requires 16 * seg + ofs + 2 * i + 2 <= |mem|
  {
    16 * seg + Short(mem, 16 * seg + ofs + 2 * i)
  }

  /** The table and the strings it points to are within memory. */
  ghost predicate Stored(mem: Text, seg: nat, ofs: nat, argc: nat) {
    && 16 * seg + ofs + 2 * argc <= |mem|
    && forall i | 0 <= i < argc ::
         Pointer(mem, seg, ofs, i) + LengthAt(mem, Pointer(mem, seg, ofs, i)) < |mem|
  }

  /** An argument as it is, or with its quotes handled. */
  function Unquoted(arg: Text, requote: bool): Text { if requote then Take(arg, 0, true).arg else arg }

  ghost function Fetched(mem: Text, seg: nat, ofs: nat, i: nat): Text
    requires 16 * seg + ofs + 2 * i + 2 <= |mem|
    requires Pointer(mem, seg, ofs, i) + LengthAt(mem, Pointer(mem, seg, ofs, i)) < |mem|
  {
    var at := Pointer(mem, seg, ofs, i);
    mem[at..at + LengthAt(mem, at)]
  }

  method ReadShort(mem: array<Byte>, k: nat) returns (v: nat)
    requires k + 2 <= mem.Length
    ensures v == Short(mem[..], k)
  {
    v := mem[k] as int + 0x100 * mem[k + 1] as int;
  }

  /** Lines 476-483: quotes are handled in a copy of the argument with its NUL. */
  method Requote(arg: Text) returns (out: Text)
    ensures out == Take(arg, 0, true).arg
  {
    var copy := new Byte[|arg| + 1](i requires 0 <= i < |arg| + 1 => if i < |arg| then arg[i] else 0);
    assert copy[0..|arg|] == arg;
    var ep, ln := ParseArg(copy, 0, |arg|, true);
    out := copy[0..ln];
  }

  /** Lines 472-483: one argument. */
  method ReadArg(mem: array<Byte>, seg: nat, ofs: nat, argc: nat, i: nat, requote: bool) returns (arg: Text)
    requires Stored(mem[..], seg, ofs, argc) && i < argc
    ensures arg == Unquoted(Fetched(mem[..], seg, ofs, i), requote)
  {
    var pointer := ReadShort(mem, 16 * seg + ofs + 2 * i);
    assert 16 * seg + pointer == Pointer(mem[..], seg, ofs, i);
    var al := FarStrlen(mem, 16 * seg + pointer);
    arg := CopyOut(mem, 16 * seg + pointer, al);
    if requote { arg := Requote(arg); }
  }

  method CopyOut(mem: array<Byte>, at: nat, n: nat) returns (out: Text)
    requires at + n <= mem.Length
    ensures out == mem[..][at..at + n]
  {
    out := mem[at..at + n];
  }

  /** The first arguments of a table. */
  ghost predicate AllFetched(mem: Text, seg: nat, ofs: nat, argc: nat, requote: bool, list: seq<Text>)
    requires Stored(mem, seg, ofs, argc)
  {
    |list| <= argc && forall i | 0 <= i < |list| :: list[i] == Unquoted(Fetched(mem, seg, ofs, i), requote)
  }

  /** Lines 460-484: the arguments of a table. */
  method ReadBlock(mem: array<Byte>, argc: nat, seg: nat, ofs: nat, requote: bool) returns (list: seq<Text>)
    requires Stored(mem[..], seg, ofs, argc)
    ensures |list| == argc && AllFetched(mem[..], seg, ofs, argc, requote, list)
  {
    list := [];
    var i := 0;
    while i < argc
      invariant 0 <= i <= argc && |list| == i && AllFetched(mem[..], seg, ofs, argc, requote, list)
    {
      var arg := ReadArg(mem, seg, ofs, argc, i, requote);
      list := list + [arg];
      i := i + 1;
    }
  }

  // ----------------------------------------------------------- which line is used

  datatype Setting = Unset | Set(value: Text)

  /** The loop over the name ends within the text. */
  predicate HasName(line: Text) { line != [] && (Quote(line[0]) || BLANK in line) }

  /** CMDLINE starts with the name of the program. After a quoted one only the opening
      quote is skipped, since the loop stops on the character it began with. */
  function AfterName(line: Text): (t: Text)
    requires HasName(line)
  {
    if Quote(line[0]) then line[1..] else Behind(line)
  }

  function Behind(line: Text): Text
    requires BLANK in line
  {
    if line[0] == BLANK then line[1..] else Behind(line[1..])
  }

  /** A line with the name of a program, in quotes or ended by a blank, and what follows. */
  function Named(name: Text, quote: Byte, rest: Text): Text {
    if quote == 0 then name + [BLANK] + rest else [quote] + name + [quote] + rest
  }

  lemma {:induction false} BehindName(name: Text, rest: Text)
    requires BLANK !in name
    ensures BLANK in name + ([BLANK] + rest) && Behind(name + ([BLANK] + rest)) == rest
  {
    var line := name + ([BLANK] + rest);
    if name != [] {
      assert line[0] == name[0] && line[1..] == name[1..] + ([BLANK] + rest);
      BehindName(name[1..], rest);
    } else {
      assert line[0] == BLANK && line[1..] == rest;
    }
  }

  /** The name of the program is skipped, and nothing else, exactly if it is not in quotes. */
  lemma NameSkipped(name: Text, quote: Byte, rest: Text)
    requires if quote == 0 then BLANK !in name && (name == [] || !Quote(name[0])) else Quote(quote)
    ensures HasName(Named(name, quote, rest))
    ensures AfterName(Named(name, quote, rest)) == rest <==> quote == 0
  {
    var line := Named(name, quote, rest);
    if quote == 0 {
      assert line == name + ([BLANK] + rest);
      BehindName(name, rest);
      assert line[0] == if name == [] then BLANK else name[0];
    } else {
      assert line[0] == quote && |line[1..]| == |name| + 1 + |rest|;
    }
  }

  /** From "a" x the program gets one argument, made of its own name and the x. */
  lemma QuotedNameStays(line: Text)
    requires line == [34, 97, 34, BLANK, 120]
    ensures HasName(line) && line == Named([97], 34, [BLANK, 120])
    ensures Args(AfterName(line), true) == [[97, BLANK, 120]]
  {
    var t: Text := [97, 34, BLANK, 120];
    assert line[1..] == t;
    QuoteReopens(t);
    ArgsStep(t, Take(t, 0, true), true);
  }

  lemma QuoteReopens(t: Text)
    requires t == [97, 34, BLANK, 120]
    ensures Take(t, 0, true) == Taken(4, [97, BLANK, 120])
  {
    var x: Text, y: Text, z: Text := [120], [BLANK, 120], [34, BLANK, 120];
    assert x[1..] == [] && y[1..] == x && z[1..] == y && t[1..] == z;
    assert Take([], 34, true) == Taken(0, []);
    assert Take(x, 34, true) == Taken(1, x);
    assert Take(y, 34, true) == Taken(2, y);
    assert Take(z, 0, true) == Taken(3, y);
  }

  /** Lines 417-426. */
  method SkipName(line: Text) returns (t: Text)
    requires HasName(line)
    ensures t == AfterName(line)
  {
    var stop := if line[0] == 34 || line[0] == 39 then line[0] else BLANK;
    var i := 0;
    while line[i] != stop
      invariant 0 <= i < |line| && (i > 0 ==> stop == BLANK)
      invariant stop == BLANK ==> BLANK in line[i..] && Behind(line) == Behind(line[i..])
      decreases |line| - i
    {
      assert line[i..][0] == line[i] && line[i..][1..] == line[i + 1..];
      i := i + 1;
    }
    t := line[i + 1..];
    assert line[i..][0] == line[i] && line[i..][1..] == line[i + 1..];
  }

  /** The line of a program: the DOS command tail, a length byte first, or the variable
      CMDLINE if the length is 127 and there is one. */
  function LineOf(doscmd: Text, cmdline: Setting): Text
    requires |doscmd| > 128
    requires doscmd[0] == 127 && cmdline.Set? ==> HasName(cmdline.value)
  {
    if doscmd[0] != 127 || cmdline.Unset? then doscmd[1..1 + doscmd[0] as int % 128] else AfterName(cmdline.value)
  }

  /** Lines 443-447: " !proxy", a blank, and the value of the variable of that name. */
  function ProxyLine(value: Text): Text { [BLANK] + PROXY + [BLANK] + value }

  /** The words that count: those of the !proxy variable if it is set. */
  function WordsOf(line: Text, proxy: Setting, unquote: bool): seq<Text> {
    match proxy
    case Unset => Args(line, unquote)
    case Set(value) => Args(ProxyLine(value), false)
  }

  predicate Proxied(words: seq<Text>) { |words| > 3 && words[0] == PROXY }

  /** parse_bytes on a copy of a text. */
  method ParseText(t: Text, unquote: bool) returns (words: seq<Text>)
    ensures words == Args(t, unquote)
  {
    var buf := new Byte[|t| + 1](i requires 0 <= i < |t| + 1 => if i < |t| then t[i] else 0);
    assert buf[0..|t|] == t;
    words := ParseBytes(buf, 0, |t|, unquote);
  }

  /** __crt0_setup_arguments up to the response files (lines 400-486). The byte behind
      `doscmd` may be looked at; the value of !proxy fits the buffer of 50 bytes. */
  method SetupArguments(mem: array<Byte>, doscmd: array<Byte>, cmdline: Setting, proxy: Setting, unquote: bool)
    returns (list: seq<Text>)
    requires doscmd.Length > 128 && mem != doscmd
    requires doscmd[0] == 127 && cmdline.Set? ==> HasName(cmdline.value)
    requires proxy.Set? ==> |proxy.value| < 42
    requires var words := WordsOf(LineOf(doscmd[..], cmdline), proxy, unquote);
      Proxied(words) ==> Stored(mem[..], HexValue(words[2]), HexValue(words[3]), HexValue(words[1]))
    modifies doscmd
    ensures var words := old(WordsOf(LineOf(doscmd[..], cmdline), proxy, unquote));
      if Proxied(words) then
        var argc, seg, ofs := HexValue(words[1]), HexValue(words[2]), HexValue(words[3]);
        |list| == argc && AllFetched(mem[..], seg, ofs, argc, proxy.Set? && unquote, list)
      else list == words
  {
    ghost var words := WordsOf(LineOf(doscmd[..], cmdline), proxy, unquote);
    list := FirstWords(doscmd, cmdline, unquote);
    if proxy.Set? { list := ParseText(ProxyLine(proxy.value), false); }
    if |list| > 3 && list[0] == PROXY {
      var argc := AtoHex(list[1]);
      var seg := AtoHex(list[2]);
      var ofs := AtoHex(list[3]);
      list := ReadBlock(mem, argc, seg, ofs, proxy.Set? && unquote);
    }
  }

  /** Lines 408-430. */
  method FirstWords(doscmd: array<Byte>, cmdline: Setting, unquote: bool) returns (words: seq<Text>)
    requires doscmd.Length > 128
    requires doscmd[0] == 127 && cmdline.Set? ==> HasName(cmdline.value)
    modifies doscmd
    ensures words == old(Args(LineOf(doscmd[..], cmdline), unquote))
  {
    if doscmd[0] != 127 || cmdline.Unset? {
      var n := doscmd[0] as int % 128;
      assert doscmd[..][1..1 + n] == doscmd[1..1 + n];
      words := ParseBytes(doscmd, 1, n, unquote);
    } else {
      var rest := SkipName(cmdline.value);
      words := ParseText(rest, unquote);
    }
  }

  /** How many bytes the first i strings take. */
  function Before(args: seq<Text>, i: nat): nat
    requires i <= |args|
  {
    if i == 0 then 0 else Before(args, i - 1) + |args[i - 1]| + 1
  }

  lemma {:induction false} BeforeIs(args: seq<Text>, i: nat)
    requires i <= |args|
    ensures |Strings(args[..i])| == Before(args, i)
  {
    if i > 0 {
      BeforeIs(args, i - 1);
      StringsSplit(args, i - 1);
    } else {
      assert args[..0] == [];
    }
  }

  /** Argument i is where its two bytes of the table say, behind the table and the strings
      before it. */
  ghost predicate PlacedAt(b: Text, args: seq<Text>, i: nat)
    requires i < |args|
  {
    var at := 2 * (|args| + 1) + Before(args, i);
    && at + |args[i]| < |b| && b[2 * i] as int + 0x100 * b[2 * i + 1] as int == at
    && b[at..at + |args[i]|] == args[i] && b[at + |args[i]|] == 0
  }

  lemma OnePlaced(b: Text, args: seq<Text>, i: nat)
    requires Block(b, args) && i < |args|
    ensures PlacedAt(b, args, i)
  {
    assert b[0..0 + BlockSize(args)] == b;
    var at := ArgAt(b, 0, args, i);
    BeforeIs(args, i);
    assert at == Offset(args, i) == 2 * (|args| + 1) + Before(args, i);
  }

  /** The bytes of a block. */
  lemma BlockBytes(b: Text, args: seq<Text>)
    requires Block(b, args)
    ensures |b| == 2 * (|args| + 1) + Before(args, |args|) && b[2 * |args|] == 0 && b[2 * |args| + 1] == 0
    ensures forall i | 0 <= i < |args| :: PlacedAt(b, args, i)
  {
    BeforeIs(args, |args|);
    assert args[..|args|] == args;
    forall i | 0 <= i < |args| ensures PlacedAt(b, args, i) { OnePlaced(b, args, i); }
  }

  // ------------------------------------------------------- from writer to reader

  /** Argument i of the table at seg:0 is within memory, and is `arg`. */
  ghost predicate Found(mem: Text, seg: nat, i: nat, arg: Text) {
    && 16 * seg + 2 * i + 2 <= |mem|
    && Pointer(mem, seg, 0, i) + LengthAt(mem, Pointer(mem, seg, 0, i)) < |mem|
    && Fetched(mem, seg, 0, i) == arg
  }

  lemma FoundAt(mem: Text, seg: nat, i: nat, la: nat, at: nat, arg: Text)
    requires la == 16 * seg && la + 2 * i + 2 <= |mem| && la + Short(mem, la + 2 * i) == at
    requires at + |arg| < |mem| && mem[at..at + |arg|] == arg && mem[at + |arg|] == 0 && NoNul(arg)
    ensures Found(mem, seg, i, arg)
  {
    LengthIs(mem, at, arg);
    assert Pointer(mem, seg, 0, i) == at;
  }

  lemma AllFound(mem: Text, seg: nat, args: seq<Text>)
    requires BlockAt(mem, seg, args) && forall i | 0 <= i < |args| :: NoNul(args[i])
    ensures forall i | 0 <= i < |args| :: Found(mem, seg, i, args[i])
  {
    var la := 16 * seg;
    forall i | 0 <= i < |args| ensures Found(mem, seg, i, args[i]) {
      var at := ArgAt(mem, la, args, i);
      FoundAt(mem, seg, i, la, at, args[i]);
    }
  }

  /** A block is read back as the arguments it was written for. */
  lemma BlockFetched(mem: Text, seg: nat, args: seq<Text>)
    requires BlockAt(mem, seg, args) && forall i | 0 <= i < |args| :: NoNul(args[i])
    ensures Stored(mem, seg, 0, |args|)
    ensures forall i | 0 <= i < |args| :: Fetched(mem, seg, 0, i) == args[i]
  {
    AllFound(mem, seg, args);
    forall i | 0 <= i < |args|
      ensures Pointer(mem, seg, 0, i) + LengthAt(mem, Pointer(mem, seg, 0, i)) < |mem|
      ensures Fetched(mem, seg, 0, i) == args[i]
    {
      assert Found(mem, seg, i, args[i]);
    }
  }

  /** The words of the command line, wherever it is found. */
  lemma HandedWords(argc: nat, seg: nat, unquote: bool)
    requires argc < 0x1_0000 && seg < 0x1_0000
    ensures var words := Args(CommandText(argc, seg), unquote);
      Proxied(words) && HexValue(words[1]) == argc && HexValue(words[2]) == seg && HexValue(words[3]) == 0
  {
    CommandWords(argc, seg, unquote);
    HexBack(argc);
    HexBack(seg);
    HexBack(0);
  }

  lemma TailIs(doscmd: Text, text: Text, cmdline: Setting)
    requires |doscmd| > 128 && |text| == 22 && doscmd[..23] == [22] + text
    ensures doscmd[0] == 22 && LineOf(doscmd, cmdline) == text
  {
    assert doscmd[..23][0] == 22 && doscmd[..23][1..] == text;
    assert doscmd[1..23] == doscmd[..23][1..];
  }

  /** From one program to the other: the arguments arrive as they were, unless there is
      no memory to pass them in. */
  method HandOver(args: seq<Text>, tbuf: int, mem: array<Byte>, cmdline: Setting, unquote: bool)
    returns (ok: bool, list: seq<Text>)
    requires |args| < 0x1_0000 && Needed(args) <= 0x1_0000
    requires tbuf == -1 || (0 <= tbuf < 0x1_0000 && 16 * (tbuf + Paragraphs(args)) <= mem.Length)
    requires forall i | 0 <= i < |args| :: NoNul(args[i])
    modifies mem
    ensures ok <==> tbuf != -1
    ensures ok ==> list == args
  {
    FitsExactly(args);
    var rv, _, cmd := RunV2Coff(args, tbuf, mem);
    ok, list := rv == 0, [];
    if ok {
      var doscmd := new Byte[129](i reads cmd requires cmd.Length == 24 => if 0 <= i < 24 then cmd[i] else 0);
      assert doscmd[..][..23] == cmd[..][..23] == [22] + CommandText(|args|, tbuf);
      TailIs(doscmd[..], CommandText(|args|, tbuf), cmdline);
      HandedWords(|args|, tbuf, unquote);
      BlockFetched(mem[..], tbuf, args);
      list := SetupArguments(mem, doscmd, cmdline, Unset, unquote);
    }
  }

  /** The same by way of the environment, the arguments being quoted in memory: exactly
      those that do not end in a backslash arrive as they were. */
  method HandOverQuoted(args: seq<Text>, tbuf: nat, mem: array<Byte>, doscmd: array<Byte>) returns (list: seq<Text>)
    requires |args| < 0x1_0000 && tbuf < 0x1_0000 && doscmd.Length > 128 && mem != doscmd && doscmd[0] != 127
    requires forall i | 0 <= i < |args| :: NoNul(args[i])
    requires BlockAt(mem[..], tbuf, QuotedAll(args))
    modifies doscmd
    ensures |list| == |args|
    ensures forall i | 0 <= i < |args| :: list[i] == args[i] <==> args[i] == [] || args[i][|args[i]| - 1] != 92
  {
    var value := CommandText(|args|, tbuf)[8..];
    assert ProxyLine(value) == CommandText(|args|, tbuf);
    HandedWords(|args|, tbuf, false);
    QuotedNoNul(args);
    BlockFetched(mem[..], tbuf, QuotedAll(args));
    list := SetupArguments(mem, doscmd, Unset, Set(value), true);
    AllRequoted(args, list);
  }

  lemma Requoted(arg: Text)
    requires NoNul(arg)
    ensures Unquoted(Quoted(arg), true) == arg <==> arg == [] || arg[|arg| - 1] != 92
  {
    assert Quoted(arg) + [] == Quoted(arg);
    if arg == [] || arg[|arg| - 1] != 92 {
      QuotedBack(arg, [], 34);
    } else {
      OpeningQuote(arg, [], 34);
      EscapedFails(arg, [], 34);
    }
  }

  lemma QuotedNoNul(args: seq<Text>)
    requires forall i | 0 <= i < |args| :: NoNul(args[i])
    ensures forall i | 0 <= i < |args| :: NoNul(QuotedAll(args)[i])
  {
    forall i | 0 <= i < |args| ensures NoNul(QuotedAll(args)[i]) { EscapedNoNul(args[i]); }
  }

  lemma AllRequoted(args: seq<Text>, list: seq<Text>)
    requires |list| == |args| && forall i | 0 <= i < |args| :: NoNul(args[i])
    requires forall i | 0 <= i < |args| :: list[i] == Unquoted(QuotedAll(args)[i], true)
    ensures forall i | 0 <= i < |args| :: list[i] == args[i] <==> args[i] == [] || args[i][|args[i]| - 1] != 92
  {
    forall i | 0 <= i < |args| ensures list[i] == args[i] <==> args[i] == [] || args[i][|args[i]| - 1] != 92 {
      Requoted(args[i]);
    }
  }

  function QuotedAll(args: seq<Text>): (q: seq<Text>)
    ensures |q| == |args|
  {
    seq(|args|, i requires 0 <= i < |args| => Quoted(args[i]))
  }

  lemma {:induction false} EscapedNoNul(s: Text)
    requires NoNul(s)
    ensures NoNul(Escaped(s))
  {
    if s != [] { EscapedNoNul(s[1..]); }
  }
}
