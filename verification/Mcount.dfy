/** The call-edge table behind -pg (src/libc/crt0/mcount.c, lines 25-134 and 187-230):
    pages of entries, the newest in front, and a pointer to the last entry used for
    every calling function. */
module Mcount {
  import opened Bits

  datatype Entry = Entry(from: Word, to: Word, count: Word)

  const PAGE: nat := 341

  const EMPTY: Entry := Entry(0, 0, 0)

  type Pair = (Word, Word)

  function Times(log: seq<Pair>, p: Pair): nat {
    if log == [] then 0 else Times(log[..|log| - 1], p) + if log[|log| - 1] == p then 1 else 0
  }

  // ---------------------------------------------------------- the entries as values

  /** The place of a pair: a page, counted from the oldest, and a slot in it. */
  datatype Place = Place(page: nat, slot: nat)

  /** Only the newest page has free slots, and they are behind the used ones. */
  predicate InUse(pages: nat, used: nat, k: nat, i: nat) {
    k < pages && i < PAGE && (k == pages - 1 ==> i < used)
  }

  ghost predicate UsedUpTo(pages: nat, used: nat, k: nat, n: nat) {
    forall j | 0 <= j < n :: InUse(pages, used, k, j)
  }

  ghost predicate Full(grid: seq<seq<Entry>>, used: nat) {
    used <= PAGE && (grid == [] ==> used == 0) && forall k | 0 <= k < |grid| :: |grid[k]| == PAGE
  }

  /** A used slot holds a pair from the sampled range whose place it is; a free one is
      cleared. */
  ghost predicate SlotOk(grid: seq<seq<Entry>>, used: nat, places: map<Pair, Place>, low: Word, k: nat, i: nat)
    requires k < |grid| && i < |grid[k]|
  {
    var e := grid[k][i];
    if InUse(|grid|, used, k, i)
    then e.from >= low && (e.from, e.to) in places && places[(e.from, e.to)] == Place(k, i)
    else e == EMPTY
  }

  /** The entry of a pair counts its calls, as an unsigned long does. */
  ghost predicate Counted(grid: seq<seq<Entry>>, used: nat, places: map<Pair, Place>, log: seq<Pair>, p: Pair)
    requires Full(grid, used) && p in places
  {
    var k, i := places[p].page, places[p].slot;
    InUse(|grid|, used, k, i) && grid[k][i] == Entry(p.0, p.1, U32(Times(log, p)))
  }

  ghost predicate Table(grid: seq<seq<Entry>>, used: nat, places: map<Pair, Place>, low: Word, log: seq<Pair>) {
    && low > 0 && Full(grid, used)
    && (forall k, i | 0 <= k < |grid| && 0 <= i < PAGE :: SlotOk(grid, used, places, low, k, i))
    && (forall p | p in places :: Counted(grid, used, places, log, p))
    && (forall p :: p in places <==> Times(log, p) > 0)
  }

  lemma TimesMore(log: seq<Pair>, p: Pair, q: Pair)
    ensures Times(log + [p], q) == Times(log, q) + if q == p then 1 else 0
  {
    assert (log + [p])[..|log + [p]| - 1] == log;
  }

  lemma OneMore(n: nat)
    ensures U32(U32(n) + 1) == U32(n + 1)
  {
  }

  /** One more call of a known pair. */
  lemma TableBump(grid: seq<seq<Entry>>, used: nat, places: map<Pair, Place>, low: Word, log: seq<Pair>, p: Pair)
    requires Table(grid, used, places, low, log) && p in places
    ensures Counted(grid, used, places, log, p)
    ensures var k, i := places[p].page, places[p].slot;
      var e := grid[k][i];
      Table(grid[k := grid[k][i := e.(count := U32(e.count + 1))]], used, places, low, log + [p])
  {
    var k, i := places[p].page, places[p].slot;
    assert Counted(grid, used, places, log, p);
    assert SlotOk(grid, used, places, low, k, i);
    OneMore(Times(log, p));
    var next := grid[k := grid[k][i := grid[k][i].(count := U32(grid[k][i].count + 1))]];
    forall l, j | 0 <= l < |next| && 0 <= j < PAGE ensures SlotOk(next, used, places, low, l, j) {
      assert SlotOk(grid, used, places, low, l, j);
    }
    forall q | q in places ensures Counted(next, used, places, log + [p], q) {
      assert Counted(grid, used, places, log, q);
      TimesMore(log, p, q);
    }
    forall q ensures q in places <==> Times(log + [p], q) > 0 { TimesMore(log, p, q); }
  }

  lemma FillSlot(grid: seq<seq<Entry>>, used: nat, places: map<Pair, Place>, low: Word, p: Pair, l: nat, j: nat)
    requires Full(grid, used) && grid != [] && used < PAGE && p !in places && p.0 >= low
    requires l < |grid| && j < PAGE && SlotOk(grid, used, places, low, l, j)
    ensures var k := |grid| - 1;
      SlotOk(grid[k := grid[k][used := Entry(p.0, p.1, 1)]], used + 1, places[p := Place(k, used)], low, l, j)
  {
  }

  lemma FillCounted(grid: seq<seq<Entry>>, used: nat, places: map<Pair, Place>, log: seq<Pair>, p: Pair, q: Pair)
    requires Full(grid, used) && grid != [] && used < PAGE && p !in places && Times(log, p) == 0
    requires q in places[p := Place(|grid| - 1, used)]
    requires (q != p ==> q in places && Counted(grid, used, places, log, q))
    ensures var k := |grid| - 1;
      Counted(grid[k := grid[k][used := Entry(p.0, p.1, 1)]], used + 1, places[p := Place(k, used)], log + [p], q)
  {
    TimesMore(log, p, q);
  }

  /** The first call of a pair fills the next free slot. */
  lemma TableFill(grid: seq<seq<Entry>>, used: nat, places: map<Pair, Place>, low: Word, log: seq<Pair>, p: Pair)
    requires Table(grid, used, places, low, log) && p !in places && p.0 >= low
    requires grid != [] && used < PAGE
    ensures var k := |grid| - 1;
      Table(grid[k := grid[k][used := Entry(p.0, p.1, 1)]], used + 1, places[p := Place(k, used)], low, log + [p])
  {
    var k := |grid| - 1;
    var next, where, n := grid[k := grid[k][used := Entry(p.0, p.1, 1)]], places[p := Place(k, used)], used + 1;
    forall l, j | 0 <= l < |next| && 0 <= j < PAGE ensures SlotOk(next, n, where, low, l, j) {
      FillSlot(grid, used, places, low, p, l, j);
    }
    assert Times(log, p) == 0;
    forall q | q in where ensures Counted(next, n, where, log + [p], q) {
      if q != p { assert q in places && Counted(grid, used, places, log, q); }
      FillCounted(grid, used, places, log, p, q);
    }
    forall q ensures q in where <==> Times(log + [p], q) > 0 { TimesMore(log, p, q); }
  }

  /** A new page comes when all slots are used. */
  lemma TableGrows(grid: seq<seq<Entry>>, used: nat, places: map<Pair, Place>, low: Word, log: seq<Pair>,
                   page: seq<Entry>)
    requires Table(grid, used, places, low, log) && (grid == [] || used == PAGE)
    requires |page| == PAGE && forall i | 0 <= i < PAGE :: page[i] == EMPTY
    ensures Table(grid + [page], 0, places, low, log)
  {
    var next := grid + [page];
    forall l, j | 0 <= l < |next| && 0 <= j < PAGE ensures SlotOk(next, 0, places, low, l, j) {
      if l < |grid| { assert SlotOk(grid, used, places, low, l, j); }
    }
    forall q | q in places ensures Counted(next, 0, places, log, q) {
      assert Counted(grid, used, places, log, q);
    }
  }

  // ------------------------------------------------------------------- the profiler

  class Page {
    var calls: seq<Entry>
    const prev: Page?
    /** How many pages are older. */
    ghost const place: nat

    /** Lines 125-128: cleared, and in front of the others. */
    constructor (prev: Page?, ghost place: nat)
      ensures this.prev == prev && this.place == place
      ensures |calls| == PAGE && forall i | 0 <= i < PAGE :: calls[i] == EMPTY
    {
      this.prev, this.place := prev, place;
      calls := seq(PAGE, _ => EMPTY);
    }
  }

  /** A pointer to an entry. */
  datatype Ref = Nowhere | At(page: Page, i: nat)

  datatype Found = NotHere | Match(i: nat) | Empty(i: nat)

  class Profiler {
    var mtab: Page?
    const low: Word
    const high: Word
    var profiling: bool
    /** The pointers the calling functions provide. */
    var caches: map<int, Ref>

    /** The pages, oldest first, with their entries; how much of the newest is used; where
        the pairs are; and the calls that should have been counted. */
    ghost var pages: seq<Page>
    ghost var grid: seq<seq<Entry>>
    ghost var used: nat
    ghost var places: map<Pair, Place>
    ghost var log: seq<Pair>

    /** The page before place k, or none. */
    ghost function Before(k: nat): Page?
      requires k <= |pages|
      reads this
    {
      if k == 0 then null else pages[k - 1]
    }

    ghost predicate Chained()
      reads this
    {
      && mtab == Before(|pages|)
      && (forall k {:trigger pages[k].place} | 0 <= k < |pages| :: pages[k].place == k)
      && (forall k {:trigger pages[k].prev} | 0 <= k < |pages| :: pages[k].prev == Before(k))
    }

    ghost predicate Stored()
      reads this, pages
    {
      |grid| == |pages| && forall k | 0 <= k < |pages| :: pages[k].calls == grid[k]
    }

    ghost predicate RefsOk()
      reads this
    {
      forall c | c in caches && caches[c].At? ::
        caches[c].i < PAGE && caches[c].page.place < |pages| && pages[caches[c].page.place] == caches[c].page
    }

    ghost predicate Valid()
      reads this, pages
    {
      Chained() && Stored() && Table(grid, used, places, low, log) && RefsOk()
    }

    constructor (low: Word, high: Word)
      requires low > 0
      ensures Valid() && log == [] && pages == [] && this.low == low && this.high == high && profiling
    {
      this.low, this.high, profiling, caches, mtab := low, high, true, map[], null;
      pages, grid, used, places, log := [], [], 0, map[], [];
    }

    /** One page of the search: a match, a free entry, or neither. */
    method SearchPage(m: Page, from: Word, to: Word, ghost k: nat) returns (f: Found)
      requires Valid() && k < |pages| && pages[k] == m && from >= low
      ensures f.Match? <==> (from, to) in places && places[(from, to)].page == k
      ensures f.Match? ==> places[(from, to)] == Place(k, f.i)
      ensures !f.Match? ==> f == if k == |pages| - 1 && used < PAGE then Empty(used) else NotHere
    {
      assert m.calls == grid[k];
      var i := 0;
      while i < PAGE && m.calls[i].from != 0 && !(m.calls[i].from == from && m.calls[i].to == to)
        invariant 0 <= i <= PAGE
        invariant forall j | 0 <= j < i ::
          InUse(|grid|, used, k, j) && !(grid[k][j].from == from && grid[k][j].to == to)
      {
        assert m.calls[i] == grid[k][i] && SlotOk(grid, used, places, low, k, i);
        i := i + 1;
      }
      if i > 0 { assert InUse(|grid|, used, k, i - 1); }
      if (from, to) in places { assert Counted(grid, used, places, log, (from, to)); }
      if i == PAGE {
        f := NotHere;
      } else {
        assert m.calls[i] == grid[k][i] && SlotOk(grid, used, places, low, k, i);
        f := if m.calls[i].from == 0 then Empty(i) else Match(i);
      }
    }

    /** The search through all pages, newest first (lines 92-113). */
    method Search(from: Word, to: Word) returns (r: Ref, mtabi: int)
      requires Valid() && from >= low
      ensures (from, to) in places ==>
        places[(from, to)].page < |pages| && r == At(pages[places[(from, to)].page], places[(from, to)].slot)
      ensures (from, to) !in places ==> r == Nowhere && mtabi == if used < PAGE && pages != [] then used else -1
    {
      mtabi, r := -1, Nowhere;
      var m := mtab;
      ghost var k := |pages| - 1;
      if (from, to) in places { assert Counted(grid, used, places, log, (from, to)); }
      while m != null && r == Nowhere
        invariant Valid() && -1 <= k < |pages| && m == Before(k + 1)
        invariant r == Nowhere ==> mtabi == if used < PAGE && k < |pages| - 1 then used else -1
        invariant r == Nowhere && (from, to) in places ==> places[(from, to)].page <= k
        invariant r != Nowhere ==> (from, to) in places && places[(from, to)].page < |pages|
        invariant r != Nowhere ==> r == At(pages[places[(from, to)].page], places[(from, to)].slot)
        decreases k, r == Nowhere
      {
        var f := SearchPage(m, from, to, k);
        if f.Match? {
          r := At(m, f.i);
        } else {
          if f.Empty? { mtabi := f.i; }
          assert pages[k].prev == Before(k);
          m := m.prev;
          k := k - 1;
        }
      }
    }

    /** An entry is replaced. */
    method Put(m: Page, i: nat, e: Entry)
      requires Chained() && Stored() && m.place < |pages| && pages[m.place] == m && i < |m.calls|
      modifies this`grid, m`calls
      ensures Chained() && Stored() && old(grid)[m.place] == old(m.calls)
      ensures grid == old(grid)[m.place := old(m.calls)[i := e]]
    {
      assert m.calls == grid[m.place] && forall l | 0 <= l < |pages| :: pages[l].place == l;
      m.calls := m.calls[i := e];
      grid := grid[m.place := m.calls];
    }

    /** What the entries now stand for. */
    ghost method Record(used': nat, places': map<Pair, Place>, log': seq<Pair>)
      requires Chained() && Stored() && RefsOk() && Table(grid, used', places', low, log')
      modifies this`used, this`places, this`log
      ensures Valid() && used == used' && places == places' && log == log'
    {
      used, places, log := used', places', log';
    }

    /** The calling function's pointer is set. */
    method Cache(site: int, m: Page, i: nat)
      requires Valid() && i < PAGE && m.place < |pages| && pages[m.place] == m
      modifies this`caches
      ensures Valid()
    {
      caches := caches[site := At(m, i)];
    }

    /** Lines 83-89 and 103-111: one more call of a known pair. */
    method Bump(site: int, m: Page, i: nat, ghost p: Pair)
      requires Valid() && p in places && places[p] == Place(m.place, i) && m.place < |pages| && pages[m.place] == m
      requires i < |m.calls|
      modifies this`caches, this`log, this`grid, this`used, this`places, m`calls
      ensures Valid() && log == old(log) + [p]
    {
      TableBump(grid, used, places, low, log, p);
      var e := m.calls[i];
      Put(m, i, e.(count := U32(e.count + 1)));
      Record(used, places, log + [p]);
      Cache(site, m, i);
    }

    /** Lines 114-123: the next free entry. */
    method Fill(site: int, i: nat, from: Word, to: Word)
      requires Valid() && (from, to) !in places && from >= low && pages != [] && i == used < PAGE
      modifies this`caches, this`log, this`grid, this`used, this`places, mtab`calls
      ensures Valid() && log == old(log) + [(from, to)]
    {
      ghost var k := |pages| - 1;
      var m: Page := mtab;
      assert m == pages[k] && m.place == k && m.calls == grid[k];
      TableFill(grid, used, places, low, log, (from, to));
      Put(m, i, Entry(from, to, 1));
      Record(used + 1, places[(from, to) := Place(k, used)], log + [(from, to)]);
      Cache(site, m, i);
    }

    /** Lines 125-128. */
    method NewPage()
      requires Valid() && (pages == [] || used == PAGE)
      modifies this`mtab, this`pages, this`grid, this`used
      ensures Valid() && log == old(log) && places == old(places) && pages != [] && used == 0
      ensures fresh(mtab) && pages == old(pages) + [mtab]
    {
      var m := new Page(mtab, |pages|);
      TableGrows(grid, used, places, low, log, m.calls);
      ghost var was := pages;
      mtab, pages, grid, used := m, pages + [m], grid + [m.calls], 0;
      assert forall k | 0 <= k < |was| :: pages[k] == was[k];
    }

    /** Lines 114-133: a pair called for the first time. */
    method Enter(site: int, mtabi: int, from: Word, to: Word)
      requires Valid() && (from, to) !in places && from >= low
      requires mtabi == if used < PAGE && pages != [] then used else -1
      modifies this, mtab
      ensures Valid() && log == old(log) + [(from, to)] && profiling == old(profiling)
      ensures forall k | 0 <= k < |pages| :: pages[k] in old(pages) || fresh(pages[k])
    {
      if mtabi != -1 {
        Fill(site, mtabi, from, to);
      } else {
        NewPage();
        Fill(site, 0, from, to);
      }
    }

    /** mcount: a call counts exactly if profiling is on and it comes from the sampled
        range; whichever of the cache, the search, or a new entry serves it. */
    method Mcount(site: int, from: Word, to: Word)
      requires Valid()
      modifies this, pages
      ensures Valid() && profiling == old(profiling)
      ensures log == old(log) + if profiling && low <= from < high then [(from, to)] else []
      ensures forall k | 0 <= k < |pages| :: pages[k] in old(pages) || fresh(pages[k])
    {
      if !profiling || from < low || from >= high { return; }
      var cache := if site in caches then caches[site] else Nowhere;
      if cache.At? {
        ghost var k := cache.page.place;
        assert pages[k] == cache.page && cache.page.calls == grid[k] && SlotOk(grid, used, places, low, k, cache.i);
        var e := cache.page.calls[cache.i];
        if e.from == from && e.to == to {
          Bump(site, cache.page, cache.i, (from, to));
          return;
        }
      }
      var r, mtabi := Search(from, to);
      if r.At? {
        assert Counted(grid, used, places, log, (from, to));
        assert r.page.place == places[(from, to)].page && r.page.calls == grid[r.page.place];
        Bump(site, r.page, r.i, (from, to));
      } else {
        Enter(site, mtabi, from, to);
      }
    }
  
    /** mcount_write (lines 187-206): the used entries of each page, up to the first free
        one, newest page first. */
    method Write() returns (out: seq<Entry>)
      requires Valid()
      modifies this`profiling
      ensures Valid() && !profiling
      ensures forall j | 0 <= j < |out| ::
        Times(log, (out[j].from, out[j].to)) > 0 && out[j].count == U32(Times(log, (out[j].from, out[j].to)))
      ensures forall p | Times(log, p) > 0 :: Listed(out, p)
      ensures forall i, j | 0 <= i < j < |out| :: (out[i].from, out[i].to) != (out[j].from, out[j].to)
    {
      profiling := false;
      out := [];
      var m := mtab;
      ghost var k := |pages|;
      while m != null
        invariant Valid() && !profiling && 0 <= k <= |pages| && m == Before(k)
        invariant Written(out, k)
        decreases k
      {
        assert m == pages[k - 1] && m.calls == grid[k - 1];
        var i := 0;
        while i < PAGE && m.calls[i].from != 0
          invariant 0 <= i <= PAGE && UsedUpTo(|grid|, used, k - 1, i)
        {
          assert SlotOk(grid, used, places, low, k - 1, i);
          i := i + 1;
        }
        WritePage(out, k, i);
        out := out + m.calls[..i];
        assert m.prev == Before(k - 1);
        m, k := m.prev, k - 1;
      }
      AllWritten(out);
    }

    /** The pairs of the pages from k on, each once, with their counts. */
    ghost predicate Written(out: seq<Entry>, k: nat)
      requires Valid() && k <= |pages|
      reads this, pages
    {
      && (forall j | 0 <= j < |out| ::
            var p := (out[j].from, out[j].to);
            p in places && places[p].page >= k && out[j].count == U32(Times(log, p)))
      && (forall p | p in places && places[p].page >= k :: Listed(out, p))
      && (forall i, j | 0 <= i < j < |out| :: (out[i].from, out[i].to) != (out[j].from, out[j].to))
    }

    lemma WritePage(out: seq<Entry>, k: nat, n: nat)
      requires Valid() && 0 < k <= |pages| && Written(out, k) && n <= PAGE
      requires UsedUpTo(|grid|, used, k - 1, n)
      requires n < PAGE ==> grid[k - 1][n].from == 0
      ensures Written(out + grid[k - 1][..n], k - 1)
    {
      var more := grid[k - 1][..n];
      var all := out + more;
      forall j | 0 <= j < n
        ensures var p := (more[j].from, more[j].to);
          p in places && places[p] == Place(k - 1, j) && more[j].count == U32(Times(log, p))
      {
        assert SlotOk(grid, used, places, low, k - 1, j);
        assert Counted(grid, used, places, log, (more[j].from, more[j].to));
      }
      if n < PAGE { assert SlotOk(grid, used, places, low, k - 1, n); }
      forall p | p in places && places[p].page >= k - 1 ensures Listed(all, p) {
        assert Counted(grid, used, places, log, p);
        if places[p].page == k - 1 {
          assert all[|out| + places[p].slot] == grid[k - 1][places[p].slot];
        } else {
          var j :| 0 <= j < |out| && out[j].from == p.0 && out[j].to == p.1;
          assert all[j] == out[j];
        }
      }
    }

    lemma AllWritten(out: seq<Entry>)
      requires Valid() && Written(out, 0)
      ensures forall p | Times(log, p) > 0 :: Listed(out, p)
      ensures forall j | 0 <= j < |out| :: Times(log, (out[j].from, out[j].to)) > 0
    {
    }
  }

  predicate Listed(out: seq<Entry>, p: Pair) {
    exists j :: 0 <= j < |out| && out[j].from == p.0 && out[j].to == p.1
  }

  // --------------------------------------------------------------------- whole runs

  datatype Event = Call(site: int, from: Word, to: Word) | Control(on: bool)

  function ProfilingAfter(events: seq<Event>): bool {
    if events == [] then true
    else
      match events[|events| - 1]
      case Control(on) => on
      case Call(_, _, _) => ProfilingAfter(events[..|events| - 1])
  }

  /** The calls from the sampled range while profiling was on. */
  function Sampled(events: seq<Event>, low: Word, high: Word): seq<Pair> {
    if events == [] then []
    else
      var n := |events| - 1;
      Sampled(events[..n], low, high) +
      match events[n]
      case Control(_) => []
      case Call(_, from, to) => if ProfilingAfter(events[..n]) && low <= from < high then [(from, to)] else []
  }

  /** Profiling is on at event i: the last control before it says so, or there is none. */
  ghost predicate OnAt(events: seq<Event>, i: nat)
    requires i <= |events|
  {
    forall j | 0 <= j < i && events[j].Control? ::
      events[j].on || exists k | j < k < i :: events[k].Control?
  }

  /** The events that are calls of a pair, from the sampled range, while profiling is on. */
  ghost function Calls(events: seq<Event>, n: nat, low: Word, high: Word, p: Pair): set<nat>
    requires n <= |events|
  {
    set i | 0 <= i < n && events[i].Call? && (events[i].from, events[i].to) == p
      && low <= events[i].from && events[i].from < high && OnAt(events, i)
  }

  lemma {:induction false} ProfilingIs(events: seq<Event>, n: nat)
    requires n <= |events|
    ensures ProfilingAfter(events[..n]) <==> OnAt(events, n)
  {
    if n > 0 {
      assert events[..n][..n - 1] == events[..n - 1];
      ProfilingIs(events, n - 1);
      if events[n - 1].Control? { OnLast(events, n); } else { OnSame(events, n); }
    }
  }

  lemma OnLast(events: seq<Event>, n: nat)
    requires 0 < n <= |events| && events[n - 1].Control?
    ensures OnAt(events, n) <==> events[n - 1].on
  {
    if events[n - 1].on {
      forall j | 0 <= j < n && events[j].Control?
        ensures events[j].on || exists k | j < k < n :: events[k].Control?
      {
        if j < n - 1 { assert events[n - 1].Control?; }
      }
    }
  }

  lemma OnSame(events: seq<Event>, n: nat)
    requires 0 < n <= |events| && !events[n - 1].Control?
    ensures OnAt(events, n) <==> OnAt(events, n - 1)
  {
    if OnAt(events, n) {
      forall j | 0 <= j < n - 1 && events[j].Control? && !events[j].on
        ensures exists k | j < k < n - 1 :: events[k].Control?
      {
        var k :| j < k < n && events[k].Control?;
        assert k < n - 1;
      }
    }
  }

  lemma CallsMore(events: seq<Event>, n: nat, low: Word, high: Word, p: Pair)
    requires n < |events|
    ensures |Calls(events, n + 1, low, high, p)| ==
      |Calls(events, n, low, high, p)| + if n in Calls(events, n + 1, low, high, p) then 1 else 0
  {
    var calls, more := Calls(events, n, low, high, p), Calls(events, n + 1, low, high, p);
    assert more == if n in more then calls + {n} else calls;
    assert n !in calls;
  }

  lemma SampledMore(events: seq<Event>, n: nat, low: Word, high: Word, p: Pair)
    requires n < |events|
    ensures Times(Sampled(events[..n + 1], low, high), p) ==
      Times(Sampled(events[..n], low, high), p) + if n in Calls(events, n + 1, low, high, p) then 1 else 0
  {
    assert events[..n + 1][..n] == events[..n];
    ProfilingIs(events, n);
    var front := Sampled(events[..n], low, high);
    if events[n].Call? { TimesMore(front, (events[n].from, events[n].to), p); }
    assert front + [] == front;
  }

  /** What should have been counted, as a set of events. */
  lemma {:induction false} SampledCalls(events: seq<Event>, n: nat, low: Word, high: Word, p: Pair)
    requires n <= |events|
    ensures Times(Sampled(events[..n], low, high), p) == |Calls(events, n, low, high, p)|
  {
    if n > 0 {
      SampledCalls(events, n - 1, low, high, p);
      SampledMore(events, n - 1, low, high, p);
      CallsMore(events, n - 1, low, high, p);
    } else {
      assert Calls(events, 0, low, high, p) == {};
    }
  }

  /** Any run: what is written at the end is each sampled pair once, with the number of
      its calls. */
  method Profile(low: Word, high: Word, events: seq<Event>) returns (out: seq<Entry>)
    requires low > 0
    ensures forall p :: Calls(events, |events|, low, high, p) != {} <==> Listed(out, p)
    ensures forall j | 0 <= j < |out| ::
      out[j].count == |Calls(events, |events|, low, high, (out[j].from, out[j].to))| % 0x1_0000_0000
    ensures forall i, j | 0 <= i < j < |out| :: (out[i].from, out[i].to) != (out[j].from, out[j].to)
  {
    var profiler := new Profiler(low, high);
    var k := 0;
    while k < |events|
      invariant 0 <= k <= |events| && profiler.Valid() && fresh(profiler)
      invariant forall i | 0 <= i < |profiler.pages| :: fresh(profiler.pages[i])
      invariant profiler.low == low && profiler.high == high && profiler.profiling == ProfilingAfter(events[..k])
      invariant profiler.log == Sampled(events[..k], low, high)
    {
      assert events[..k + 1][..k] == events[..k];
      match events[k] {
        case Control(on) => profiler.profiling := on;
        case Call(site, from, to) => profiler.Mcount(site, from, to);
      }
      k := k + 1;
    }
    assert events[..k] == events;
    out := profiler.Write();
    forall p: Pair ensures Times(Sampled(events, low, high), p) == |Calls(events, |events|, low, high, p)| {
      SampledCalls(events, |events|, low, high, p);
    }
  }
}
