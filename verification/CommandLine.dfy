/** Splitting a command line into arguments (src/libc/crt0/c1args.c, lines 46-60 and
    120-192), and the quoting that this undoes. */
module CommandLine {
  import opened Bits

  type Text = seq<Byte>

  const BLANK: Byte := 32

  /** What isspace accepts. */
  predicate Space(b: Byte) { b == 32 || 9 <= b <= 13 }

  /** A C string's bytes. */
  predicate NoNul(s: Text) { forall i | 0 <= i < |s| :: s[i] != 0 }

  // ------------------------------------------------------------------- hex numbers

  function HexDigit(v: nat): Byte
    requires v < 16
  {
    if v < 10 then 48 + v else 87 + v
  }

  /** sprintf with %04x, for a number of 16 bits. */
  function Hex4(v: nat): (t: Text)
    requires v < 0x1_0000
    ensures |t| == 4
  {
    [HexDigit(v / 0x1000), HexDigit(v / 0x100 % 16), HexDigit(v / 16 % 16), HexDigit(v % 16)]
  }

  /** The value atohex gives a character; -1 & 15 is 15 in two's complement. */
  function DigitOf(b: Byte): nat {
    var v := b as int - 48;
    (if v > 9 then v - 7 else v) % 16
  }

  function HexValue(s: Text): nat {
    if s == [] then 0 else HexValue(s[..|s| - 1]) * 16 + DigitOf(s[|s| - 1])
  }

  /** atohex (lines 46-60). */
  method AtoHex(s: Text) returns (rv: nat)
    ensures rv == HexValue(s)
  {
    rv := 0;
    var i := 0;
    while i < |s|
      invariant 0 <= i <= |s| && rv == HexValue(s[..i])
    {
      assert s[..i + 1][..i] == s[..i];
      var v := s[i] as int - 48;
      if v > 9 { v := v - 7; }
      v := v % 16;
      rv := rv * 16 + v;
      i := i + 1;
    }
    assert s[..i] == s;
  }

  lemma DigitBack(v: nat)
    requires v < 16
    ensures DigitOf(HexDigit(v)) == v && !Space(HexDigit(v)) && HexDigit(v) != 0
  {
  }

  /** What atohex makes of the sixteen digits, in either case. */
  lemma DigitsRead(d: nat)
    requires d < 16
    ensures d < 10 ==> DigitOf(48 + d) == d
    ensures d >= 10 ==> DigitOf(65 + d - 10) == d && DigitOf(97 + d - 10) == d
  {
  }

  lemma FourDigits(v: nat, a: nat, b: nat, c: nat, d: nat)
    requires v < 0x1_0000 && a == v / 0x1000 && b == v / 0x100 % 16 && c == v / 16 % 16 && d == v % 16
    ensures v == 16 * (16 * (16 * a + b) + c) + d
  {
    var x := v / 16;
    var y := x / 16;
    assert v == 16 * x + d && x == 16 * y + c;
    assert y == v / 0x100 && y / 16 == a;
  }

  /** Reading a printed number gives the number. */
  lemma HexBack(v: nat)
    requires v < 0x1_0000
    ensures HexValue(Hex4(v)) == v
  {
    var t := Hex4(v);
    var a, b, c, d := v / 0x1000, v / 0x100 % 16, v / 16 % 16, v % 16;
    DigitBack(a);
    DigitBack(b);
    DigitBack(c);
    DigitBack(d);
    assert t[..3][..2] == t[..2] && t[..2][..1] == t[..1] && t[..1][..0] == [];
    assert HexValue([]) == 0;
    assert HexValue(t[..1]) == a;
    assert HexValue(t[..2]) == 16 * a + b;
    assert HexValue(t[..3]) == 16 * (16 * a + b) + c;
    FourDigits(v, a, b, c, d);
  }

  // ----------------------------------------------------------- words of a command line

  /** What parse_arg makes of the front of a line: how many bytes it looks at, and the
      argument they hold. */
  datatype Taken = Taken(used: nat, arg: Text)

  function Then(used: nat, front: Text, r: Taken): Taken { Taken(used + r.used, front + r.arg) }

  /** A single or double quote. */
  predicate Quote(b: Byte) { b == 34 || b == 39 }

  /** Inside `quote` (0 for none) blanks do not end the argument; a backslash escapes a
      quote, and, as strchr finds the end of a string too, a NUL. */
  function Take(t: Text, quote: Byte, unquote: bool): (r: Taken)
    ensures |r.arg| <= r.used <= |t|
    decreases |t|
  {
    if t == [] || (quote == 0 && Space(t[0])) then Taken(0, [])
    else if quote != 0 && t[0] == quote then Then(1, if unquote then [] else [quote], Take(t[1..], 0, unquote))
    else if quote == 0 && Quote(t[0]) then Then(1, if unquote then [] else [t[0]], Take(t[1..], t[0], unquote))
    else if t[0] == 92 && |t| > 1 && (Quote(t[1]) || t[1] == 0) then
      Then(2, (if unquote then [] else [t[0]]) + [t[1]], Take(t[2..], quote, unquote))
    else Then(1, [t[0]], Take(t[1..], quote, unquote))
  }

  /** The arguments of a line. */
  function Args(t: Text, unquote: bool): seq<Text>
    decreases |t|
  {
    if t == [] then []
    else if Space(t[0]) then Args(t[1..], unquote)
    else
      var r := Take(t, 0, unquote);
      [r.arg] + if r.used == |t| then [] else Args(t[r.used + 1..], unquote)
  }

  /** A word that needs no quoting. */
  predicate PlainWord(w: Text) { w != [] && forall i | 0 <= i < |w| :: !Space(w[i]) && !Quote(w[i]) && w[i] != 92 }

  ghost predicate EndsWord(rest: Text) { rest == [] || Space(rest[0]) }

  lemma {:induction false} TakeWord(w: Text, rest: Text, unquote: bool)
    requires (w != [] ==> PlainWord(w)) && EndsWord(rest)
    ensures Take(w + rest, 0, unquote) == Taken(|w|, w)
  {
    if w != [] {
      assert (w + rest)[1..] == w[1..] + rest;
      TakeWord(w[1..], rest, unquote);
      assert [w[0]] + w[1..] == w;
    } else {
      assert w + rest == rest;
    }
  }

  lemma FirstWord(w: Text, rest: Text, unquote: bool)
    requires PlainWord(w)
    ensures Args(w + [BLANK] + rest, unquote) == [w] + Args(rest, unquote)
    ensures Args(w, unquote) == [w]
  {
    var s := w + ([BLANK] + rest);
    assert w + [BLANK] + rest == s;
    TakeWord(w, [BLANK] + rest, unquote);
    assert s[|w| + 1..] == rest;
    assert w + [] == w;
    TakeWord(w, [], unquote);
  }

  /** A text with every quote in it escaped, alone or between quotes. This is the
      convention that parse_arg undoes; direct_exec in dosexec.c escapes double quotes
      only. */
  function Escaped(s: Text): Text {
    if s == [] then [] else (if Quote(s[0]) then [92, s[0]] else [s[0]]) + Escaped(s[1..])
  }

  function QuotedBy(q: Byte, s: Text): Text { [q] + Escaped(s) + [q] }

  function Quoted(s: Text): Text { QuotedBy(34, s) }

  /** What follows an argument cannot be escaped by a backslash at its end. */
  predicate Harmless(end: Text) { end == [] || (!Quote(end[0]) && end[0] != 0) }

  predicate Blankless(s: Text) { forall i | 0 <= i < |s| :: !Space(s[i]) }

  lemma TakeEscape(c: Byte, u: Text, quote: Byte)
    requires Quote(c) && quote != 92
    ensures Take([92, c] + u, quote, true) == Then(2, [c], Take(u, quote, true))
  {
    var t := [92, c] + u;
    assert t[0] == 92 && t[1] == c && t[2..] == u;
  }

  lemma TakeByte(c: Byte, u: Text, quote: Byte, unquote: bool)
    requires (quote != 0 ==> c != quote) && (quote == 0 ==> !Space(c) && !Quote(c)) && (c == 92 ==> Harmless(u))
    ensures Take([c] + u, quote, unquote) == Then(1, [c], Take(u, quote, unquote))
  {
    var t := [c] + u;
    assert t[0] == c && t[1..] == u;
  }

  lemma EscapedStep(s: Text, end: Text, quote: Byte)
    requires s != [] && NoNul(s) && (quote == 0 || Quote(quote)) && (quote == 0 ==> !Space(s[0]))
    requires s == [92] ==> Harmless(end)
    ensures var u := Escaped(s[1..]) + end;
      Take(Escaped(s) + end, quote, true) == Then(|Escaped(s)| - |Escaped(s[1..])|, [s[0]], Take(u, quote, true))
  {
    var v := Escaped(s[1..]);
    var u := v + end;
    if Quote(s[0]) {
      assert Escaped(s) == [92, s[0]] + v;
      assert [92, s[0]] + v + end == [92, s[0]] + u;
      TakeEscape(s[0], u, quote);
    } else {
      assert Escaped(s) == [s[0]] + v;
      assert [s[0]] + v + end == [s[0]] + u;
      if s[0] == 92 && |s| > 1 { assert u[0] == v[0] == if Quote(s[1]) then 92 else s[1]; }
      if s == [92] { assert u == end; }
      TakeByte(s[0], u, quote, true);
    }
  }

  lemma ThenRest(s: Text, n: nat, used: nat)
    requires s != []
    ensures Then(n, [s[0]], Taken(used, s[1..])) == Taken(n + used, s)
  {
    assert [s[0]] + s[1..] == s;
  }

  /** Up to an end that the argument does not go beyond. */
  lemma {:induction false} EscapedBack(s: Text, end: Text, quote: Byte, used: nat)
    requires NoNul(s) && (quote == 0 || Quote(quote)) && (quote == 0 ==> Blankless(s))
    requires s != [] && s[|s| - 1] == 92 ==> Harmless(end)
    requires Take(end, quote, true) == Taken(used, [])
    ensures Take(Escaped(s) + end, quote, true) == Taken(|Escaped(s)| + used, s)
  {
    if s == [] {
      assert [] + end == end;
    } else {
      EscapedBack(s[1..], end, quote, used);
      EscapedStep(s, end, quote);
      ThenRest(s, |Escaped(s)| - |Escaped(s[1..])|, |Escaped(s[1..])| + used);
    }
  }

  lemma ClosingQuote(q: Byte, rest: Text)
    requires Quote(q) && EndsWord(rest)
    ensures Take([q] + rest, q, true) == Taken(1, [])
  {
    assert ([q] + rest)[1..] == rest;
  }

  /** A backslash at the end escapes the closing quote. */
  lemma {:induction false} EscapedFails(s: Text, rest: Text, q: Byte)
    requires NoNul(s) && s != [] && s[|s| - 1] == 92 && Quote(q)
    ensures var r := Take(Escaped(s) + ([q] + rest), q, true);
      |r.arg| >= |s| && r.arg[|s| - 1] == q
  {
    if |s| == 1 {
      assert s[1..] == [] && Escaped([]) == [] && Escaped(s) == [92];
      assert Escaped(s) + ([q] + rest) == [92, q] + rest;
      TakeEscape(q, rest, q);
    } else {
      EscapedFails(s[1..], rest, q);
      EscapedStep(s, [q] + rest, q);
    }
  }

  lemma OpeningQuote(s: Text, rest: Text, q: Byte)
    requires Quote(q)
    ensures Take(QuotedBy(q, s) + rest, 0, true) == Then(1, [], Take(Escaped(s) + ([q] + rest), q, true))
  {
    var u := Escaped(s) + ([q] + rest);
    assert QuotedBy(q, s) + rest == [q] + u;
    Opened(u, q);
  }

  lemma Opened(u: Text, q: Byte)
    requires Quote(q)
    ensures Take([q] + u, 0, true) == Then(1, [], Take(u, q, true))
  {
    assert ([q] + u)[1..] == u;
  }

  /** A text in quotes of either kind is taken back, unless it ends in a backslash. */
  lemma QuotedBack(s: Text, rest: Text, q: Byte)
    requires NoNul(s) && EndsWord(rest) && Quote(q)
    ensures Take(QuotedBy(q, s) + rest, 0, true) == Taken(|QuotedBy(q, s)|, s) <==> s == [] || s[|s| - 1] != 92
  {
    OpeningQuote(s, rest, q);
    if s == [] || s[|s| - 1] != 92 {
      ClosingQuote(q, rest);
      EscapedBack(s, [q] + rest, q, 1);
    } else {
      EscapedFails(s, rest, q);
    }
  }

  lemma {:induction false} BlankEnds(s: Text, rest: Text)
    requires NoNul(s) && !Blankless(s)
    ensures |Take(Escaped(s) + rest, 0, true).arg| < |s|
  {
    if !Space(s[0]) {
      assert !Blankless(s[1..]) by {
        var i :| 0 <= i < |s| && Space(s[i]);
        assert s[1..][i - 1] == s[i];
      }
      assert s != [92];
      BlankEnds(s[1..], rest);
      EscapedStep(s, rest, 0);
    } else {
      assert (Escaped(s) + rest)[0] == s[0];
    }
  }

  /** A text outside quotes is taken back, unless it has a blank in it. */
  lemma BareBack(s: Text, rest: Text)
    requires NoNul(s) && EndsWord(rest)
    ensures Take(Escaped(s) + rest, 0, true) == Taken(|Escaped(s)|, s) <==> Blankless(s)
  {
    if Blankless(s) { EscapedBack(s, rest, 0, 0); } else { BlankEnds(s, rest); }
  }

  /** Between quotes the other kind of quote stands for itself, and so does a backslash
      that is not before a quote. */
  predicate Ordinary(s: Text, q: Byte) {
    NoNul(s) && q !in s && forall i | 0 <= i < |s| && s[i] == 92 :: i + 1 < |s| && !Quote(s[i + 1])
  }

  lemma {:induction false} InsideKept(s: Text, rest: Text, q: Byte)
    requires Ordinary(s, q) && Quote(q) && EndsWord(rest)
    ensures Take(s + ([q] + rest), q, true) == Taken(|s| + 1, s)
  {
    if s == [] {
      assert s + ([q] + rest) == [q] + rest;
      ClosingQuote(q, rest);
    } else {
      var u := s[1..] + ([q] + rest);
      assert s + ([q] + rest) == [s[0]] + u;
      assert Ordinary(s[1..], q) by { assert forall i | 0 <= i < |s| - 1 :: s[1..][i] == s[i + 1]; }
      InsideKept(s[1..], rest, q);
      if s[0] == 92 { assert u[0] == s[1]; }
      TakeByte(s[0], u, q, true);
      assert [s[0]] + s[1..] == s;
    }
  }

  lemma OtherQuoteKept(s: Text, rest: Text, q: Byte)
    requires Ordinary(s, q) && Quote(q) && EndsWord(rest)
    ensures Take([q] + (s + ([q] + rest)), 0, true) == Taken(|s| + 2, s)
  {
    InsideKept(s, rest, q);
    Opened(s + ([q] + rest), q);
  }

  /** One step of taking an argument, without unquoting and with it. */
  lemma TakeStep(t: Text, quote: Byte) returns (n: nat, next: Byte)
    requires t != [] && (quote != 0 || !Space(t[0]))
    ensures 0 < n <= |t| && n <= 2
    ensures Take(t, quote, false) == Then(n, t[..n], Take(t[n..], next, false))
    ensures Take(t, quote, true).used == n + Take(t[n..], next, true).used
  {
    n, next := 1, quote;
    if quote != 0 && t[0] == quote {
      next := 0;
    } else if quote == 0 && Quote(t[0]) {
      next := t[0];
    } else if t[0] == 92 && |t| > 1 && (Quote(t[1]) || t[1] == 0) {
      n := 2;
      assert t[..2] == [t[0]] + [t[1]];
    }
  }

  /** Without unquoting the argument is what was looked at; and as much is looked at. */
  lemma {:induction false} TakeKeeps(t: Text, quote: Byte)
    ensures var r := Take(t, quote, false);
      r.used <= |t| && r.arg == t[..r.used] && r.used == Take(t, quote, true).used
    decreases |t|
  {
    if t != [] && (quote != 0 || !Space(t[0])) {
      var n, next := TakeStep(t, quote);
      TakeKeeps(t[n..], next);
      KeptMore(t, n, Take(t[n..], next, false));
    }
  }

  lemma KeptMore(t: Text, n: nat, r: Taken)
    requires n <= |t| && r.used <= |t| - n && r.arg == t[n..][..r.used]
    ensures t[..n] + r.arg == t[..n + r.used]
  {
  }

  // -------------------------------------------------------------- whole lines again

  /** An argument, how it is written, and the blank behind it. */
  datatype Item = Item(text: Text, quote: Byte, blank: Byte)

  /** Any character that isspace accepts. */
  predicate Writable(it: Item) {
    && NoNul(it.text) && it.blank in {9, 10, 11, 12, 13, 32}
    && (it.quote == 0 || it.quote == 34 || it.quote == 39)
    && (it.quote != 0 ==> it.text == [] || it.text[|it.text| - 1] != 92)
    && (it.quote == 0 ==> it.text != [] && forall i | 0 <= i < |it.text| :: it.text[i] !in {9, 10, 11, 12, 13, 32})
  }

  function Written(it: Item): Text { if it.quote == 0 then Escaped(it.text) else QuotedBy(it.quote, it.text) }

  function Line(items: seq<Item>): Text {
    if items == [] then [] else Written(items[0]) + ([items[0].blank] + Line(items[1..]))
  }

  function Texts(items: seq<Item>): seq<Text> { seq(|items|, i requires 0 <= i < |items| => items[i].text) }

  lemma ItemTaken(it: Item, rest: Text)
    requires Writable(it) && EndsWord(rest)
    ensures Written(it) != [] && !Space(Written(it)[0])
    ensures Take(Written(it) + rest, 0, true) == Taken(|Written(it)|, it.text)
  {
    if it.quote == 0 { BareBack(it.text, rest); } else { QuotedBack(it.text, rest, it.quote); }
  }

  lemma TextsFirst(items: seq<Item>)
    requires items != []
    ensures Texts(items) == [items[0].text] + Texts(items[1..])
  {
  }

  lemma ItemFirst(it: Item, rest: Text)
    requires Writable(it)
    ensures Args(Written(it) + ([it.blank] + rest), true) == [it.text] + Args(rest, true)
  {
    var s := Written(it) + ([it.blank] + rest);
    ItemTaken(it, [it.blank] + rest);
    assert s[0] == Written(it)[0] && s[|Written(it)| + 1..] == rest;
    ArgsStep(s, Taken(|Written(it)|, it.text), true);
  }

  /** Arguments written in any mixture of the three ways, with blanks of any kind between
      them, are the arguments of the line. */
  lemma {:induction false} LineBack(items: seq<Item>)
    requires forall i | 0 <= i < |items| :: Writable(items[i])
    ensures Args(Line(items), true) == Texts(items)
  {
    if items != [] {
      LineBack(items[1..]);
      ItemFirst(items[0], Line(items[1..]));
      TextsFirst(items);
    }
  }

  /** Blanks in front do not matter. */
  lemma BlankSkipped(blank: Byte, t: Text, unquote: bool)
    requires blank in {9, 10, 11, 12, 13, 32}
    ensures Args([blank] + t, unquote) == Args(t, unquote)
  {
    assert ([blank] + t)[1..] == t;
  }

  /** The bytes of t, which begin at bp, up to ep have been looked at, and compacted they
      end at epp. */
  ghost predicate Parsing(buf: Text, t: Text, bp: nat, ep: nat, epp: nat, quote: Byte, unquote: bool) {
    && bp <= epp <= ep <= bp + |t| < |buf|
    && buf[ep..bp + |t|] == t[ep - bp..]
    && Take(t, 0, unquote) == Then(ep - bp, buf[bp..epp], Take(t[ep - bp..], quote, unquote))
  }

  lemma ThenTwice(m: nat, a: Text, n: nat, b: Text, r: Taken)
    ensures Then(m, a, Then(n, b, r)) == Then(m + n, a + b, r)
  {
  }

  /** parse_arg (lines 120-160), but for was_quoted: the argument at bp is compacted in
      place. */
  method ParseArg(buf: array<Byte>, bp: nat, last: nat, unquote: bool) returns (ep: nat, len: nat)
    requires bp <= last < buf.Length
    modifies buf
    ensures bp <= ep <= last && len <= ep - bp
    ensures Taken(ep - bp, buf[bp..bp + len]) == old(Take(buf[bp..last], 0, unquote))
    ensures forall k | 0 <= k < buf.Length && !(bp <= k < ep) :: buf[k] == old(buf[k])
  {
    ep := bp;
    var epp: nat := bp;
    var quote: Byte := 0;
    ghost var t := buf[bp..last];
    assert t[0..] == t;
    while ep < last && (quote != 0 || !Space(buf[ep]))
      invariant Parsing(buf[..], t, bp, ep, epp, quote, unquote) && last == bp + |t|
      invariant forall k | 0 <= k < buf.Length && !(bp <= k < ep) :: buf[k] == old(buf[k])
      decreases last - ep
    {
      ep, epp, quote := ParseStep(buf, bp, ep, epp, last, quote, unquote, t);
    }
    len := epp - bp;
    assert buf[bp..epp] + [] == buf[bp..epp];
  }

  /** What one turn of that loop looks at and keeps. */
  method Next(buf: array<Byte>, ep: nat, last: nat, quote: Byte, unquote: bool, ghost rest: Text)
    returns (n: nat, piece: Text, quote': Byte)
    requires ep < last < buf.Length && rest == buf[ep..last] && (quote != 0 || !Space(buf[ep]))
    ensures 0 < n <= |rest| && |piece| <= n && |piece| <= 2
    ensures Take(rest, quote, unquote) == Then(n, piece, Take(rest[n..], quote', unquote))
  {
    assert rest[0] == buf[ep] && (|rest| > 1 ==> rest[1] == buf[ep + 1]);
    n, piece, quote' := 1, [buf[ep]], quote;
    if quote != 0 && buf[ep] == quote {
      quote' := 0;
      if unquote { piece := []; }
    } else if quote == 0 && (buf[ep] == 39 || buf[ep] == 34) {
      quote' := buf[ep];
      if unquote { piece := []; }
    } else if buf[ep] == 92 && (buf[ep + 1] == 39 || buf[ep + 1] == 34 || buf[ep + 1] == 0) && ep < last - 1 {
      n := 2;
      piece := (if unquote then [] else piece) + [buf[ep + 1]];
    }
  }

  method PutPiece(buf: array<Byte>, epp: nat, piece: Text)
    requires epp + |piece| <= buf.Length && |piece| <= 2
    modifies buf
    ensures buf[..] == old(buf[..epp]) + piece + old(buf[epp + |piece|..])
  {
    if |piece| > 0 { buf[epp] := piece[0]; }
    if |piece| > 1 { buf[epp + 1] := piece[1]; }
  }

  lemma Advanced(was: Text, now: Text, t: Text, bp: nat, ep: nat, epp: nat, n: nat, piece: Text)
    requires bp <= epp <= ep && ep + n <= bp + |t| <= |was| && |piece| <= n
    requires was[ep..bp + |t|] == t[ep - bp..] && now == was[..epp] + piece + was[epp + |piece|..]
    ensures |now| == |was| && now[bp..epp + |piece|] == was[bp..epp] + piece
    ensures now[ep + n..bp + |t|] == t[ep + n - bp..] == t[ep - bp..][n..]
    ensures forall k | 0 <= k < |now| && !(bp <= k < ep + n) :: now[k] == was[k]
  {
    assert now[ep + n..bp + |t|] == was[ep..bp + |t|][n..];
  }

  lemma ParsedMore(was: Text, now: Text, t: Text, bp: nat, ep: nat, epp: nat, n: nat, piece: Text, quote: Byte,
                   next: Byte, unquote: bool, ep': nat, epp': nat)
    requires Parsing(was, t, bp, ep, epp, quote, unquote) && ep + n <= bp + |t| && |piece| <= n
    requires now == was[..epp] + piece + was[epp + |piece|..]
    requires Take(t[ep - bp..], quote, unquote) == Then(n, piece, Take(t[ep - bp..][n..], next, unquote))
    requires ep' == ep + n && epp' == epp + |piece|
    ensures Parsing(now, t, bp, ep', epp', next, unquote)
  {
    Advanced(was, now, t, bp, ep, epp, n, piece);
    var whole, rest, r := Take(t, 0, unquote), t[ep - bp..], Take(t[ep' - bp..], next, unquote);
    assert rest[n..] == t[ep' - bp..];
    ThenTwice(ep - bp, was[bp..epp], n, piece, r);
    assert whole == Then(ep - bp, was[bp..epp], Take(rest, quote, unquote));
    assert ep - bp + n == ep' - bp && now[bp..epp'] == was[bp..epp] + piece;
    assert whole == Then(ep' - bp, now[bp..epp'], r);
  }

  /** One turn of that loop. */
  method ParseStep(buf: array<Byte>, bp: nat, ep0: nat, epp0: nat, last: nat, quote0: Byte, unquote: bool,
                   ghost t: Text)
    returns (ep: nat, epp: nat, quote: Byte)
    requires Parsing(buf[..], t, bp, ep0, epp0, quote0, unquote) && last == bp + |t|
    requires ep0 < last && (quote0 != 0 || !Space(buf[ep0]))
    modifies buf
    ensures ep0 < ep && Parsing(buf[..], t, bp, ep, epp, quote, unquote)
    ensures forall k | 0 <= k < buf.Length && !(bp <= k < ep) :: buf[k] == old(buf[k])
  {
    ghost var was, rest := buf[..], t[ep0 - bp..];
    assert was[ep0..last] == buf[ep0..last];
    var n, piece;
    n, piece, quote := Next(buf, ep0, last, quote0, unquote, rest);
    ep, epp := ep0 + n, epp0 + |piece|;
    PutPiece(buf, epp0, piece);
    ghost var now := buf[..];
    Advanced(was, now, t, bp, ep0, epp0, n, piece);
    forall k | 0 <= k < buf.Length && !(bp <= k < ep) ensures buf[k] == old(buf[k]) {
      assert buf[k] == now[k] == was[k];
    }
    ParsedMore(was, now, t, bp, ep0, epp0, n, piece, quote0, quote, unquote, ep, epp);
  }

  /** The arguments from place i on. */
  function ArgsFrom(t: Text, i: nat, unquote: bool): seq<Text> {
    if i < |t| then Args(t[i..], unquote) else []
  }

  lemma {:induction false} SkipSpaces(t: Text, i: nat, j: nat, unquote: bool)
    requires i <= j <= |t| && forall k | i <= k < j :: Space(t[k])
    ensures ArgsFrom(t, i, unquote) == ArgsFrom(t, j, unquote)
    decreases j - i
  {
    if i < j {
      var s := t[i..];
      assert s != [] && Space(s[0]) && s[1..] == t[i + 1..];
      assert Args(s, unquote) == Args(s[1..], unquote);
      assert i + 1 == |t| ==> s[1..] == [];
      SkipSpaces(t, i + 1, j, unquote);
    }
  }

  lemma ArgsStep(s: Text, r: Taken, unquote: bool)
    requires s != [] && !Space(s[0]) && r == Take(s, 0, unquote)
    ensures r.used == |s| ==> Args(s, unquote) == [r.arg]
    ensures r.used < |s| ==> Args(s, unquote) == [r.arg] + Args(s[r.used + 1..], unquote)
  {
  }

  /** The arguments from i on are `arg` and those from `next` on. */
  ghost predicate Leads(t: Text, i: nat, arg: Text, next: nat, unquote: bool) {
    ArgsFrom(t, i, unquote) == [arg] + ArgsFrom(t, next, unquote)
  }

  lemma FirstArg(t: Text, i: nat, s: Text, used: nat, arg: Text, unquote: bool)
    requires i < |t| && s == t[i..] && !Space(s[0])
    requires Taken(used, arg) == Take(s, 0, unquote)
    ensures Leads(t, i, arg, i + used + 1, unquote)
  {
    ArgsStep(s, Taken(used, arg), unquote);
    RestFrom(t, i, s, used, unquote);
  }

  lemma RestFrom(t: Text, i: nat, s: Text, used: nat, unquote: bool)
    requires i < |t| && s == t[i..] && used <= |s|
    ensures ArgsFrom(t, i, unquote) == Args(s, unquote)
    ensures ArgsFrom(t, i + used + 1, unquote) == if used < |s| then Args(s[used + 1..], unquote) else []
  {
    var next := i + used + 1;
    if used < |s| {
      assert s[used + 1..] == t[next..];
      assert next == |t| ==> t[next..] == [];
    }
  }

  method SkipBlanks(buf: array<Byte>, from: nat, last: nat) returns (bp: nat)
    requires from <= last < buf.Length
    ensures from <= bp <= last && (bp < last ==> !Space(buf[bp]))
    ensures forall k | from <= k < bp :: Space(buf[k])
  {
    bp := from;
    while Space(buf[bp]) && bp < last
      invariant from <= bp <= last && forall k | from <= k < bp :: Space(buf[k])
    {
      bp := bp + 1;
    }
  }

  /** Lines 175-178: the blanks in front of an argument. */
  method Blanks(buf: array<Byte>, from: nat, last: nat, ghost i: nat, ghost t: Text, ghost unquote: bool)
    returns (bp: nat)
    requires from <= last < buf.Length && i <= |t| && buf[from..last] == t[i..]
    ensures from <= bp <= last && buf[bp..last] == t[i + (bp - from)..] && (bp < last ==> !Space(buf[bp]))
    ensures ArgsFrom(t, i, unquote) == ArgsFrom(t, i + (bp - from), unquote)
  {
    bp := SkipBlanks(buf, from, last);
    assert buf[bp..last] == buf[from..last][bp - from..];
    SpacesSeen(buf[from..last], t, i, i + (bp - from), unquote);
  }

  /** Lines 179-186: one argument, copied out. */
  method CopyArg(buf: array<Byte>, bp: nat, last: nat, unquote: bool) returns (arg: Text, ep: nat)
    requires bp <= last < buf.Length
    modifies buf
    ensures bp <= ep <= last && Taken(ep - bp, arg) == old(Take(buf[bp..last], 0, unquote))
    ensures forall k | 0 <= k < buf.Length && !(bp <= k < ep) :: buf[..][k] == old(buf[..])[k]
  {
    var len;
    ep, len := ParseArg(buf, bp, last, unquote);
    arg := buf[bp..bp + len];
  }

  /** The argument at bp, and where the next one may start. */
  method TakeArg(buf: array<Byte>, bp: nat, last: nat, unquote: bool, ghost i: nat, ghost t: Text)
    returns (arg: Text, next: nat)
    requires bp < last < buf.Length && i <= |t| && buf[bp..last] == t[i..] && !Space(buf[bp])
    modifies buf
    ensures bp < next <= last + 1 && (next <= last ==> buf[..][next..last] == t[i + (next - bp)..])
    ensures forall k | 0 <= k < buf.Length && !(bp <= k < last) :: buf[..][k] == old(buf[..])[k]
    ensures Leads(t, i, arg, i + (next - bp), unquote)
  {
    ghost var was, rest := buf[..], buf[bp..last];
    assert rest[0] == buf[bp] && was[bp..last] == rest;
    var ep;
    arg, ep := CopyArg(buf, bp, last, unquote);
    next := ep + 1;
    FirstArg(t, i, rest, ep - bp, arg, unquote);
    Behind(was, buf[..], bp, ep, last, t, i);
  }

  /** What follows an argument is as it was. */
  lemma Behind(was: Text, now: Text, bp: nat, ep: nat, last: nat, t: Text, i: nat)
    requires bp <= ep <= last < |was| == |now| && i <= |t| && was[bp..last] == t[i..]
    requires forall k | ep <= k < last :: now[k] == was[k]
    ensures ep < last ==> now[ep + 1..last] == t[i + (ep + 1 - bp)..]
  {
    if ep == last { return; }
    assert now[ep + 1..last] == was[ep + 1..last] == was[bp..last][ep + 1 - bp..];
  }

  /** Lines 172-187: blanks, and an argument if one follows. The line was t, at `bytes`,
      and what has not been looked at still is. */
  method NextArg(buf: array<Byte>, from: nat, last: nat, unquote: bool, ghost bytes: nat, ghost t: Text)
    returns (found: seq<Text>, next: nat)
    requires bytes <= from < last < buf.Length && |t| == last - bytes && buf[from..last] == t[from - bytes..]
    modifies buf
    ensures from < next <= last + 1 && (next <= last ==> buf[next..last] == t[next - bytes..])
    ensures forall k | 0 <= k < buf.Length && !(bytes <= k < last) :: buf[k] == old(buf[k])
    ensures ArgsFrom(t, from - bytes, unquote) == found + ArgsFrom(t, next - bytes, unquote)
  {
    ghost var i := from - bytes;
    var bp := Blanks(buf, from, last, i, t, unquote);
    found, next := [], bp;
    if bp < last {
      ghost var was := buf[..];
      var arg;
      arg, next := TakeArg(buf, bp, last, unquote, i + (bp - from), t);
      found := [arg];
      assert forall k | 0 <= k < buf.Length && !(bp <= k < last) :: buf[k] == buf[..][k] == was[k];
      assert next <= last ==> buf[next..last] == buf[..][next..last];
    }
  }

  lemma SpacesSeen(s: Text, t: Text, i: nat, j: nat, unquote: bool)
    requires i <= j <= |t| && s == t[i..] && forall k | 0 <= k < j - i :: Space(s[k])
    ensures ArgsFrom(t, i, unquote) == ArgsFrom(t, j, unquote)
  {
    assert forall k | i <= k < j :: t[k] == s[k - i];
    SkipSpaces(t, i, j, unquote);
  }

  /** parse_bytes (lines 162-192). */
  method ParseBytes(buf: array<Byte>, bytes: nat, length: nat, unquote: bool) returns (words: seq<Text>)
    requires bytes + length < buf.Length
    modifies buf
    ensures words == old(Args(buf[bytes..bytes + length], unquote))
    ensures forall k | 0 <= k < buf.Length && !(bytes <= k < bytes + length) :: buf[k] == old(buf[k])
  {
    var bp, last := bytes, bytes + length;
    words := [];
    ghost var t := buf[bytes..last];
    assert t[0..] == t;
    while bp < last
      invariant bytes <= bp <= last + 1 && (bp <= last ==> buf[bp..last] == t[bp - bytes..])
      invariant forall k | 0 <= k < buf.Length && !(bytes <= k < last) :: buf[k] == old(buf[k])
      invariant Args(t, unquote) == words + ArgsFrom(t, bp - bytes, unquote)
    {
      ghost var front := words;
      var found;
      found, bp := NextArg(buf, bp, last, unquote, bytes, t);
      words := words + found;
      assert front + (found + ArgsFrom(t, bp - bytes, unquote)) == words + ArgsFrom(t, bp - bytes, unquote);
    }
  }
}
