/** The argument list after expansion: counting it and storing it in one array
    (src/libc/crt0/c1args.c, lines 62-73 and 224-274). */
module ArgTree {
  import opened CommandLine

  /** An Arg as expansion leaves it: itself, what a wildcard stands for, or the contents
      of a response file. */
  datatype Arg = Single(arg: Text) | Globbed(names: seq<Text>) | FromFile(list: seq<Arg>)

  /** All arguments, in order. */
  function Leaves(al: seq<Arg>): seq<Text>
    decreases al, 0
  {
    if al == [] then [] else Leaves(al[..|al| - 1]) + LeavesOf(al[|al| - 1])
  }

  function LeavesOf(a: Arg): seq<Text>
    decreases a, 1
  {
    match a
    case Single(arg) => [arg]
    case Globbed(names) => names
    case FromFile(list) => Leaves(list)
  }

  lemma LeavesStep(al: seq<Arg>, i: nat)
    requires i < |al|
    ensures Leaves(al[..i + 1]) == Leaves(al[..i]) + LeavesOf(al[i])
  {
    assert al[..i + 1][..i] == al[..i];
  }

  /** The leaves of two lists are those of the first and then those of the second; and
      what one argument stands for is in the order it has there. */
  lemma {:induction false} LeavesJoin(a: seq<Arg>, b: seq<Arg>, arg: Text, names: seq<Text>)
    ensures Leaves(a + b) == Leaves(a) + Leaves(b)
    ensures Leaves([Single(arg)]) == [arg] && Leaves([Globbed(names)]) == names && Leaves([FromFile(a)]) == Leaves(a)
    decreases |b|
  {
    assert [Single(arg)][..0] == [] && [Globbed(names)][..0] == [] && [FromFile(a)][..0] == [];
    if b == [] {
      assert a + b == a;
    } else {
      var n := |b| - 1;
      assert (a + b)[..|a + b| - 1] == a + b[..n] && (a + b)[|a + b| - 1] == b[n];
      LeavesJoin(a, b[..n], arg, names);
    }
  }

  /** count_args (lines 224-246). */
  method CountArgs(al: seq<Arg>) returns (r: nat)
    ensures r == |Leaves(al)|
    decreases al
  {
    r := 0;
    var i := 0;
    while i < |al|
      invariant 0 <= i <= |al| && r == |Leaves(al[..i])|
    {
      LeavesStep(al, i);
      match al[i] {
        case Globbed(names) => r := r + |names|;
        case FromFile(list) =>
          var n := CountArgs(list);
          r := r + n;
        case Single(_) => r := r + 1;
      }
      i := i + 1;
    }
    assert al[..i] == al;
  }

  method FillNames(largv: array<Text>, at: nat, names: seq<Text>) returns (next: nat)
    requires at + |names| <= largv.Length
    modifies largv
    ensures next == at + |names| && largv[..] == old(largv[..at]) + names + old(largv[next..])
  {
    next := at;
    var j := 0;
    while j < |names|
      invariant 0 <= j <= |names| && next == at + j
      invariant forall k | 0 <= k < largv.Length ::
        largv[k] == if at <= k < at + j then names[k - at] else old(largv[k])
    {
      largv[next] := names[j];
      next, j := next + 1, j + 1;
    }
  }

  /** One turn of the loop below. */
  method FillOne(largv: array<Text>, at: nat, a: Arg) returns (next: nat)
    requires at + |LeavesOf(a)| <= largv.Length
    modifies largv
    ensures next == at + |LeavesOf(a)| && largv[..] == old(largv[..at]) + LeavesOf(a) + old(largv[next..])
    decreases a, 1
  {
    match a {
      case Globbed(names) => next := FillNames(largv, at, names);
      case FromFile(list) => next := FillArgs(largv, at, list);
      case Single(arg) => next := FillNames(largv, at, [arg]);
    }
  }

  /** fill_args (lines 248-274): exactly the counted number of pointers, in order. */
  method FillArgs(largv: array<Text>, at: nat, al: seq<Arg>) returns (next: nat)
    requires at + |Leaves(al)| <= largv.Length
    modifies largv
    ensures next == at + |Leaves(al)| && largv[..] == old(largv[..at]) + Leaves(al) + old(largv[next..])
    decreases al, 0
  {
    next := at;
    var i := 0;
    ghost var was := largv[..];
    while i < |al|
      invariant 0 <= i <= |al| && next == at + |Leaves(al[..i])| <= largv.Length
      invariant largv[..] == was[..at] + Leaves(al[..i]) + was[next..]
    {
      LeavesStep(al, i);
      LeavesPrefix(al, i + 1);
      FilledMore(was, at, Leaves(al[..i]), LeavesOf(al[i]), next);
      next := FillOne(largv, next, al[i]);
      i := i + 1;
    }
    assert al[..i] == al;
  }

  lemma {:induction false} LeavesPrefix(al: seq<Arg>, i: nat)
    requires i <= |al|
    ensures |Leaves(al[..i])| <= |Leaves(al)|
    decreases |al| - i
  {
    if i < |al| {
      LeavesStep(al, i);
      LeavesPrefix(al, i + 1);
    } else {
      assert al[..i] == al;
    }
  }

  lemma FilledMore(was: seq<Text>, at: nat, done: seq<Text>, more: seq<Text>, from: nat)
    requires at + |done| == from && from + |more| <= |was|
    ensures var s := was[..at] + done + was[from..];
      s[..from] + more + s[from + |more|..] == was[..at] + (done + more) + was[from + |more|..]
  {
  }
}
