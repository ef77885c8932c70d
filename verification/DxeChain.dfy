/** The chain of loaded modules as a value: what makes it consistent with the
    references held to it, and which part of it a set of references keeps alive
    (src/libc/dxe/dlopen.c). */
module DxeChain {
  import opened Bits
  import opened DxeImage

  /** A module handle: the address of its dxe_handle. */
  type Handle = nat

  datatype Module = Module(
    h: Handle, fname: string, inuse: int, global: bool, deps: seq<Handle>,
    exports: seq<Export>, base: Word, section: seq<Byte>)
  {
    /** Everything about a module that loading fixes for good. */
    function Bare(): Module { this.(inuse := 0) }
  }

  function BareAll(c: seq<Module>): (b: seq<Module>)
    ensures |b| == |c|
    ensures forall i | 0 <= i < |c| :: b[i] == c[i].Bare()
  {
    seq(|c|, i requires 0 <= i < |c| => c[i].Bare())
  }

  function Handles(c: seq<Module>): set<Handle> {
    if c == [] then {} else {c[0].h} + Handles(c[1..])
  }

  /** Handles and names are unique and every dependency comes later, from the head
      of the chain on. */
  ghost predicate Layered(c: seq<Module>) {
    c != [] ==>
      && c[0].h !in Handles(c[1..])
      && (forall i | 0 <= i < |c[1..]| :: c[1..][i].fname != c[0].fname)
      && (forall d | d in c[0].deps :: d in Handles(c[1..]))
      && Layered(c[1..])
  }

  /** The dependency-list entries that name h. */
  function Count(c: seq<Module>, h: Handle): nat {
    if c == [] then 0 else multiset(c[0].deps)[h] + Count(c[1..], h)
  }

  /** Each counter is the number of references to its module, held from outside or
      by dependency lists, and is positive; what is held is loaded. */
  ghost predicate Consistent(c: seq<Module>, held: multiset<Handle>) {
    && Layered(c)
    && (forall i | 0 <= i < |c| :: c[i].inuse == held[c[i].h] + Count(c, c[i].h) > 0)
    && (forall h | h in held :: h in Handles(c))
  }

  /** The part of a layered chain that the held references keep alive, directly or
      through dependencies. */
  function Live(c: seq<Module>, held: multiset<Handle>): seq<Module> {
    if c == [] then []
    else if c[0].h in held then [c[0]] + Live(c[1..], held + multiset(c[0].deps))
    else Live(c[1..], held)
  }

  function TotalUse(c: seq<Module>): int {
    if c == [] then 0 else c[0].inuse + TotalUse(c[1..])
  }

  // ------------------------------------------------------------- counting and order

  lemma {:induction false} HandleAt(c: seq<Module>, k: nat)
    requires k < |c|
    ensures c[k].h in Handles(c)
  {
    if k > 0 {
      assert c[1..][k - 1] == c[k];
      HandleAt(c[1..], k - 1);
    }
  }

  lemma {:induction false} HandleIndex(c: seq<Module>, h: Handle) returns (k: nat)
    requires h in Handles(c)
    ensures k < |c| && c[k].h == h
  {
    if c[0].h == h {
      k := 0;
    } else {
      k := HandleIndex(c[1..], h);
      assert c[1..][k] == c[k + 1];
      k := k + 1;
    }
  }

  /** Only loaded modules are named by dependency lists, and never the head. */
  lemma {:induction false} CountOutside(c: seq<Module>, h: Handle)
    requires Layered(c) && (h !in Handles(c) || (c != [] && h == c[0].h))
    ensures Count(c, h) == 0
  {
    if c != [] {
      CountOutside(c[1..], h);
      assert h !in c[0].deps;
    }
  }

  lemma {:induction false} BareSame(c: seq<Module>, b: seq<Module>, h: Handle)
    requires BareAll(c) == BareAll(b)
    ensures Count(c, h) == Count(b, h)
  {
    if c != [] {
      assert c[0].Bare() == BareAll(c)[0] == b[0].Bare();
      BareTail(c, b);
      BareSame(c[1..], b[1..], h);
    }
  }

  lemma BareTail(c: seq<Module>, b: seq<Module>)
    requires BareAll(c) == BareAll(b) && c != []
    ensures |b| == |c| && BareAll(c[1..]) == BareAll(b[1..]) && c[0].Bare() == b[0].Bare()
  {
    assert BareAll(c)[0] == BareAll(b)[0];
    assert BareAll(c[1..]) == BareAll(c)[1..] && BareAll(b[1..]) == BareAll(b)[1..];
  }

  lemma {:induction false} BareLayered(c: seq<Module>, b: seq<Module>)
    requires BareAll(c) == BareAll(b) && Layered(c)
    ensures Layered(b) && Handles(b) == Handles(c)
  {
    if c != [] {
      BareTail(c, b);
      BareLayered(c[1..], b[1..]);
      forall i | 0 <= i < |b[1..]| ensures b[1..][i].fname != b[0].fname {
        assert BareAll(b[1..])[i] == BareAll(c[1..])[i];
      }
    }
  }

  /** The counters of a consistent chain are determined by the rest of it. */
  lemma BareDetermines(c: seq<Module>, b: seq<Module>, held: multiset<Handle>)
    requires Consistent(c, held) && Consistent(b, held) && BareAll(c) == BareAll(b)
    ensures c == b
  {
    forall i | 0 <= i < |c| ensures c[i] == b[i] {
      assert BareAll(c)[i] == BareAll(b)[i];
      BareSame(c, b, c[i].h);
    }
  }

  // ----------------------------------------------------------------- what stays alive

  /** Nothing of a chain whose modules are all referenced is lost. */
  lemma {:induction false} AllLive(c: seq<Module>, held: multiset<Handle>)
    requires Layered(c)
    requires forall i | 0 <= i < |c| :: held[c[i].h] + Count(c, c[i].h) > 0
    ensures Live(c, held) == c
  {
    if c != [] {
      CountOutside(c, c[0].h);
      assert held[c[0].h] > 0;
      var more := held + multiset(c[0].deps);
      forall i | 0 <= i < |c[1..]| ensures more[c[1..][i].h] + Count(c[1..], c[1..][i].h) > 0 {
        assert c[1..][i] == c[i + 1];
      }
      AllLive(c[1..], more);
    }
  }

  lemma ConsistentLive(c: seq<Module>, held: multiset<Handle>)
    requires Consistent(c, held)
    ensures Live(BareAll(c), held) == BareAll(c)
  {
    BareIdempotent(c);
    BareLayered(c, BareAll(c));
    forall i | 0 <= i < |c| ensures held[BareAll(c)[i].h] + Count(BareAll(c), BareAll(c)[i].h) > 0 {
      BareSame(c, BareAll(c), c[i].h);
    }
    AllLive(BareAll(c), held);
  }

  lemma BareIdempotent(c: seq<Module>)
    ensures BareAll(BareAll(c)) == BareAll(c)
  {
  }

  /** Dropping references one after the other is dropping them at once. */
  lemma {:induction false} LiveLive(c: seq<Module>, e: multiset<Handle>, f: multiset<Handle>)
    requires f <= e
    ensures Live(Live(c, e), f) == Live(c, f)
  {
    if c != [] {
      if c[0].h in e {
        var l := Live(c, e);
        assert l[0] == c[0] && l[1..] == Live(c[1..], e + multiset(c[0].deps));
        if c[0].h in f {
          LiveLive(c[1..], e + multiset(c[0].deps), f + multiset(c[0].deps));
        } else {
          LiveLive(c[1..], e + multiset(c[0].deps), f);
        }
      } else {
        assert c[0].h !in f;
        LiveLive(c[1..], e, f);
      }
    }
  }

  ghost predicate Unnamed(c: seq<Module>, h: Handle) { forall i | 0 <= i < |c| :: h !in c[i].deps }

  function Without<T>(c: seq<T>, k: nat): seq<T>
    requires k < |c|
  {
    c[..k] + c[k + 1..]
  }

  /** A module nobody refers to is not live. */
  lemma {:induction false} LiveWithout(c: seq<Module>, k: nat, held: multiset<Handle>)
    requires k < |c| && c[k].h !in held && Unnamed(c, c[k].h)
    ensures Live(Without(c, k), held) == Live(c, held)
  {
    if k == 0 {
      assert Without(c, k) == c[1..];
    } else {
      assert Without(c, k)[0] == c[0] && Without(c, k)[1..] == Without(c[1..], k - 1);
      assert c[1..][k - 1] == c[k] && c[k].h !in c[0].deps;
      assert forall i | 0 <= i < |c[1..]| :: c[1..][i] == c[i + 1];
      LiveWithout(c[1..], k - 1, if c[0].h in held then held + multiset(c[0].deps) else held);
    }
  }

  /** Modules in front of a chain that nobody holds do not survive. */
  lemma {:induction false} LiveFront(front: seq<Module>, base: seq<Module>, held: multiset<Handle>)
    requires forall i | 0 <= i < |front| :: front[i].h !in held
    ensures Live(front + base, held) == Live(base, held)
  {
    if front == [] {
      assert front + base == base;
    } else {
      assert (front + base)[0] == front[0] && (front + base)[1..] == front[1..] + base;
      LiveFront(front[1..], base, held);
    }
  }

  // ------------------------------------------------------------------ single changes

  lemma {:induction false} CountZero(c: seq<Module>, h: Handle)
    requires Count(c, h) == 0
    ensures Unnamed(c, h)
  {
    if c != [] {
      CountZero(c[1..], h);
      forall i | 0 <= i < |c| ensures h !in c[i].deps {
        if i > 0 { assert c[i] == c[1..][i - 1]; }
      }
    }
  }

  lemma {:induction false} CountWithout(c: seq<Module>, k: nat, h: Handle)
    requires k < |c|
    ensures Count(c, h) == Count(Without(c, k), h) + multiset(c[k].deps)[h]
  {
    if k == 0 {
      assert Without(c, k) == c[1..];
    } else {
      assert Without(c, k)[0] == c[0] && Without(c, k)[1..] == Without(c[1..], k - 1);
      CountWithout(c[1..], k - 1, h);
    }
  }

  lemma {:induction false} LayeredWithout(c: seq<Module>, k: nat)
    requires k < |c| && Layered(c) && Unnamed(c, c[k].h)
    ensures Layered(Without(c, k)) && Handles(Without(c, k)) == Handles(c) - {c[k].h}
    ensures c[k].h in Handles(c)
  {
    if k == 0 {
      assert Without(c, k) == c[1..];
    } else {
      var w := Without(c, k);
      assert w[0] == c[0] && w[1..] == Without(c[1..], k - 1);
      assert c[1..][k - 1] == c[k];
      assert forall i | 0 <= i < |c[1..]| :: c[1..][i] == c[i + 1];
      LayeredWithout(c[1..], k - 1);
      assert c[k].h !in c[0].deps;
      forall i | 0 <= i < |w[1..]| ensures w[1..][i].fname != w[0].fname {
        assert w[1..][i] == if i < k - 1 then c[1..][i] else c[1..][i + 1];
      }
    }
  }

  lemma {:induction false} UseWithout(c: seq<Module>, k: nat)
    requires k < |c|
    ensures TotalUse(Without(c, k)) == TotalUse(c) - c[k].inuse
  {
    if k == 0 {
      assert Without(c, k) == c[1..];
    } else {
      assert Without(c, k)[0] == c[0] && Without(c, k)[1..] == Without(c[1..], k - 1);
      UseWithout(c[1..], k - 1);
    }
  }

  lemma {:induction false} UseAt(c: seq<Module>, k: nat, n: int)
    requires k < |c|
    ensures TotalUse(c[k := c[k].(inuse := n)]) == TotalUse(c) - c[k].inuse + n
  {
    var d := c[k := c[k].(inuse := n)];
    if k > 0 {
      assert d[0] == c[0] && d[1..] == c[1..][k - 1 := c[1..][k - 1].(inuse := n)];
      UseAt(c[1..], k - 1, n);
    } else {
      assert d[1..] == c[1..];
    }
  }

  lemma {:induction false} UsePositive(c: seq<Module>)
    requires forall i | 0 <= i < |c| :: c[i].inuse >= 0
    ensures TotalUse(c) >= 0
    ensures forall i | 0 <= i < |c| :: TotalUse(c) >= c[i].inuse
  {
    if c != [] {
      assert forall i | 0 <= i < |c[1..]| :: c[1..][i] == c[i + 1];
      UsePositive(c[1..]);
      forall i | 0 <= i < |c| ensures TotalUse(c) >= c[i].inuse {
        if i > 0 { assert c[i] == c[1..][i - 1]; }
      }
    }
  }

  lemma HeadUnique(c: seq<Module>, i: nat)
    requires Layered(c) && 0 < i < |c|
    ensures c[i].h != c[0].h && c[i].fname != c[0].fname
  {
    assert c[1..][i - 1] == c[i];
    HandleAt(c[1..], i - 1);
  }

  /** Different places hold different modules. */
  lemma {:induction false} Distinct(c: seq<Module>, j: nat, k: nat)
    requires Layered(c) && j < |c| && k < |c| && j != k
    ensures c[j].h != c[k].h && c[j].fname != c[k].fname
  {
    if j == 0 {
      HeadUnique(c, k);
    } else if k == 0 {
      HeadUnique(c, j);
    } else {
      assert c[1..][j - 1] == c[j] && c[1..][k - 1] == c[k];
      Distinct(c[1..], j - 1, k - 1);
    }
  }

  /** Changing a counter changes nothing else. */
  lemma SetUse(c: seq<Module>, k: nat, n: int)
    requires k < |c| && Layered(c)
    ensures var d := c[k := c[k].(inuse := n)];
      BareAll(d) == BareAll(c) && Layered(d) && Handles(d) == Handles(c)
  {
    var d := c[k := c[k].(inuse := n)];
    assert BareAll(d) == BareAll(c);
    BareLayered(c, d);
  }

  /** One more reference held, and one more counted (line 196). */
  lemma AddReference(c: seq<Module>, k: nat, held: multiset<Handle>)
    requires k < |c| && Consistent(c, held)
    ensures Consistent(c[k := c[k].(inuse := c[k].inuse + 1)], held + multiset{c[k].h})
  {
    var d := c[k := c[k].(inuse := c[k].inuse + 1)];
    SetUse(c, k, c[k].inuse + 1);
    forall i | 0 <= i < |d| ensures d[i].inuse == (held + multiset{c[k].h})[d[i].h] + Count(d, d[i].h) > 0 {
      BareSame(c, d, c[i].h);
      if i != k { Distinct(c, i, k); }
    }
    HandleAt(c, k);
  }

  /** One reference dropped while others remain (line 439). */
  lemma DropReference(c: seq<Module>, k: nat, rest: multiset<Handle>)
    requires k < |c| && Consistent(c, rest + multiset{c[k].h}) && c[k].inuse > 1
    ensures Consistent(c[k := c[k].(inuse := c[k].inuse - 1)], rest)
  {
    var d := c[k := c[k].(inuse := c[k].inuse - 1)];
    SetUse(c, k, c[k].inuse - 1);
    forall i | 0 <= i < |d| ensures d[i].inuse == rest[d[i].h] + Count(d, d[i].h) > 0 {
      BareSame(c, d, c[i].h);
      if i != k { Distinct(c, i, k); }
    }
  }

  /** The last reference dropped: the module goes and its own references are held
      instead of listed (lines 446-468). */
  lemma RemoveModule(c: seq<Module>, k: nat, rest: multiset<Handle>)
    requires k < |c| && Consistent(c, rest + multiset{c[k].h}) && c[k].inuse == 1
    ensures Unnamed(c, c[k].h) && c[k].h !in rest
    ensures Consistent(Without(c, k), rest + multiset(c[k].deps))
  {
    var w, e := Without(c, k), rest + multiset(c[k].deps);
    assert (rest + multiset{c[k].h})[c[k].h] == rest[c[k].h] + 1;
    CountZero(c, c[k].h);
    LayeredWithout(c, k);
    forall i | 0 <= i < |w| ensures w[i].inuse == e[w[i].h] + Count(w, w[i].h) > 0 {
      KeptCounter(c, k, if i < k then i else i + 1, rest);
    }
    forall h | h in e ensures h in Handles(w) { HeldKept(c, k, rest, h); }
  }

  lemma HeldKept(c: seq<Module>, k: nat, rest: multiset<Handle>, h: Handle)
    requires k < |c| && Consistent(c, rest + multiset{c[k].h}) && Unnamed(c, c[k].h) && c[k].h !in rest
    requires h in rest + multiset(c[k].deps)
    ensures h in Handles(c) - {c[k].h}
  {
    if h in c[k].deps { DepsLoaded(c, k, h); } else { assert h in rest; }
  }

  lemma KeptCounter(c: seq<Module>, k: nat, j: nat, rest: multiset<Handle>)
    requires k < |c| && j < |c| && j != k && Consistent(c, rest + multiset{c[k].h})
    ensures c[j].inuse == (rest + multiset(c[k].deps))[c[j].h] + Count(Without(c, k), c[j].h) > 0
  {
    CountWithout(c, k, c[j].h);
    Distinct(c, j, k);
  }

  lemma {:induction false} DepsLoaded(c: seq<Module>, k: nat, h: Handle)
    requires k < |c| && Layered(c) && h in c[k].deps
    ensures h in Handles(c)
  {
    if k > 0 {
      assert c[1..][k - 1] == c[k];
      DepsLoaded(c[1..], k - 1, h);
    }
  }

  /** A new module in front takes over the references to its dependencies (lines
      357-364). */
  lemma AddModule(c: seq<Module>, m: Module, held: multiset<Handle>)
    requires Consistent(c, held + multiset(m.deps)) && m.inuse == 1
    requires m.h !in Handles(c) && m.h !in held
    requires forall i | 0 <= i < |c| :: c[i].fname != m.fname
    ensures Consistent([m] + c, held + multiset{m.h})
  {
    var d, e := [m] + c, held + multiset{m.h};
    assert d[1..] == c;
    forall x | x in m.deps ensures x in Handles(c) {
      assert x in held + multiset(m.deps);
    }
    forall i | 0 <= i < |d| ensures d[i].inuse == e[d[i].h] + Count(d, d[i].h) > 0 {
      if i == 0 {
        CountOutside(c, m.h);
        assert m.h !in m.deps;
      } else {
        assert d[i] == c[i - 1];
        HandleAt(c, i - 1);
      }
    }
    forall h | h in e ensures h in Handles(d) {
      if h != m.h { assert h in held + multiset(m.deps); }
    }
  }

  // -------------------------------------------------------------------- reachability

  ghost predicate Names(c: seq<Module>, x: Handle, y: Handle) {
    exists i :: 0 <= i < |c| && c[i].h == x && y in c[i].deps
  }

  /** A walk along dependency lists that starts at a held module. */
  ghost predicate Path(c: seq<Module>, held: multiset<Handle>, p: seq<Handle>) {
    && p != [] && p[0] in held
    && forall i | 0 <= i < |p| - 1 :: Names(c, p[i], p[i + 1])
  }

  ghost predicate Reachable(c: seq<Module>, held: multiset<Handle>, h: Handle) {
    exists p :: Path(c, held, p) && p[|p| - 1] == h
  }

  lemma {:induction false} DependentsEarlier(c: seq<Module>, i: nat, k: nat)
    requires Layered(c) && i < |c| && k < |c| && c[k].h in c[i].deps
    ensures i < k
  {
    if i == 0 {
      assert c[0].h !in c[0].deps;
    } else {
      assert c[1..][i - 1] == c[i];
      if k == 0 {
        DepsLoaded(c[1..], i - 1, c[0].h);
      } else {
        assert c[1..][k - 1] == c[k];
        DependentsEarlier(c[1..], i - 1, k - 1);
      }
    }
  }

  lemma {:induction false} CountNamed(c: seq<Module>, h: Handle) returns (i: nat)
    requires Count(c, h) > 0
    ensures i < |c| && h in c[i].deps
  {
    if h in c[0].deps {
      i := 0;
    } else {
      i := CountNamed(c[1..], h);
      assert c[1..][i] == c[i + 1];
      i := i + 1;
    }
  }

  lemma {:induction false} LoadedReachable(c: seq<Module>, held: multiset<Handle>, k: nat)
    requires Consistent(c, held) && k < |c|
    ensures Reachable(c, held, c[k].h)
    decreases k
  {
    var h := c[k].h;
    if h in held {
      assert Path(c, held, [h]) && [h][0] == h;
    } else {
      var i := CountNamed(c, h);
      DependentsEarlier(c, i, k);
      LoadedReachable(c, held, i);
      var p :| Path(c, held, p) && p[|p| - 1] == c[i].h;
      var q := p + [h];
      assert Names(c, c[i].h, h);
      forall j | 0 <= j < |q| - 1 ensures Names(c, q[j], q[j + 1]) {
        if j < |p| - 1 { assert Names(c, p[j], p[j + 1]); }
      }
      assert Path(c, held, q) && q[|q| - 1] == h;
    }
  }

  lemma {:induction false} PathLoaded(c: seq<Module>, held: multiset<Handle>, p: seq<Handle>)
    requires Consistent(c, held) && Path(c, held, p)
    ensures p[|p| - 1] in Handles(c)
  {
    var n := |p| - 1;
    if n > 0 {
      assert Names(c, p[n - 1], p[n]);
      var i :| 0 <= i < |c| && c[i].h == p[n - 1] && p[n] in c[i].deps;
      DepsLoaded(c, i, p[n]);
    }
  }

  /** The loaded modules are exactly those reachable from the held ones. */
  lemma LoadedIffReachable(c: seq<Module>, held: multiset<Handle>, h: Handle)
    requires Consistent(c, held)
    ensures h in Handles(c) <==> Reachable(c, held, h)
  {
    if h in Handles(c) {
      var k := HandleIndex(c, h);
      LoadedReachable(c, held, k);
    }
    if Reachable(c, held, h) {
      var p :| Path(c, held, p) && p[|p| - 1] == h;
      PathLoaded(c, held, p);
    }
  }

  /** No walk along dependency lists comes back to where it started. */
  lemma {:induction false} Acyclic(c: seq<Module>, p: seq<nat>)
    requires Layered(c) && |p| > 1
    requires forall i | 0 <= i < |p| :: p[i] < |c|
    requires forall i | 0 <= i < |p| - 1 :: c[p[i + 1]].h in c[p[i]].deps
    ensures p[0] < p[|p| - 1]
    decreases |p|
  {
    var n := |p| - 1;
    DependentsEarlier(c, p[n - 1], p[n]);
    if n > 1 { Acyclic(c, p[..n]); }
  }
}
