/** Sharing the three standard handles between a debugger and the program it debugs in
    the same process (src/debug/common/dbgredir.c, lines 80-141, 232-288 and 460-525). */
module Redirect {

  /** An entry of the handle table: free, or open on some file. */
  datatype Slot = Free | Open(file: nat)

  datatype Errno = Fine | BadHandle | TooMany

  /** The lowest free handle from k on, or the size of the table. */
  function LowestFree(t: seq<Slot>, k: nat): (i: nat)
    requires k <= |t|
    ensures k <= i <= |t| && (i < |t| ==> t[i].Free?)
    ensures forall j | k <= j < i :: t[j].Open?
    decreases |t| - k
  {
    if k == |t| || t[k].Free? then k else LowestFree(t, k + 1)
  }

  predicate IsOpen(t: seq<Slot>, fd: int) { 0 <= fd < |t| && t[fd].Open? }

  /** Free handles below k. */
  function FreeBelow(t: seq<Slot>, k: nat): nat
    requires k <= |t|
  {
    if k == 0 then 0 else FreeBelow(t, k - 1) + if t[k - 1].Free? then 1 else 0
  }

  /** Free handles from k on. */
  function FreeFrom(t: seq<Slot>, k: nat): nat
    requires k <= |t|
    decreases |t| - k
  {
    if k == |t| then 0 else FreeFrom(t, k + 1) + if t[k].Free? then 1 else 0
  }

  lemma {:induction false} FreeBelowSet(t: seq<Slot>, k: nat, i: nat, s: Slot)
    requires k <= |t| && i < |t|
    ensures FreeBelow(t[i := s], k) == FreeBelow(t, k) +
      if i < k && t[i].Free? && s.Open? then -1 else if i < k && t[i].Open? && s.Free? then 1 else 0
  {
    if k > 0 { FreeBelowSet(t, k - 1, i, s); }
  }

  lemma {:induction false} FreeFromSet(t: seq<Slot>, k: nat, i: nat, s: Slot)
    requires k <= |t| && i < |t|
    ensures FreeFrom(t[i := s], k) == FreeFrom(t, k) +
      if i >= k && t[i].Free? && s.Open? then -1 else if i >= k && t[i].Open? && s.Free? then 1 else 0
    decreases |t| - k
  {
    if k < |t| { FreeFromSet(t, k + 1, i, s); }
  }

  lemma {:induction false} FreeFromSome(t: seq<Slot>, k: nat)
    requires k <= |t|
    ensures FreeFrom(t, k) > 0 <==> LowestFree(t, k) < |t|
    decreases |t| - k
  {
    if k < |t| { FreeFromSome(t, k + 1); }
  }

  lemma {:induction false} LowestFrom(t: seq<Slot>, j: nat, k: nat)
    requires j <= k <= |t| && forall i | j <= i < k :: t[i].Open?
    ensures LowestFree(t, j) == LowestFree(t, k)
    decreases k - j
  {
    if j < k { LowestFrom(t, j + 1, k); }
  }

  class Process {
    var table: seq<Slot>
    var errno: Errno

    /** dup: the file on the lowest free handle. */
    method Dup(fd: int) returns (r: int)
      modifies this
      ensures if IsOpen(old(table), fd) && LowestFree(old(table), 0) < |old(table)|
        then r == LowestFree(old(table), 0) && table == old(table)[r := old(table)[fd]]
        else r == -1 && table == old(table) && errno == if IsOpen(old(table), fd) then TooMany else BadHandle
    {
      r := -1;
      if !(0 <= fd < |table| && table[fd].Open?) {
        errno := BadHandle;
      } else {
        var i := 0;
        while i < |table| && table[i].Open?
          invariant 0 <= i <= |table| && LowestFree(table, 0) == LowestFree(table, i)
        {
          i := i + 1;
        }
        if i == |table| {
          errno := TooMany;
        } else {
          r := i;
          table := table[i := table[fd]];
        }
      }
    }

    /** dup2: the target is closed first if it is open. */
    method Dup2(fd: int, target: int) returns (r: int)
      modifies this
      ensures if IsOpen(old(table), fd) && 0 <= target < |old(table)|
        then r == target && table == old(table)[target := old(table)[fd]]
        else r == -1 && table == old(table)
    {
      if 0 <= fd < |table| && table[fd].Open? && 0 <= target < |table| {
        r := target;
        table := table[target := table[fd]];
      } else {
        r := -1;
        errno := BadHandle;
      }
    }

    method Close(fd: int) returns (r: int)
      modifies this
      ensures if IsOpen(old(table), fd) then r == 0 && table == old(table)[fd := Free]
        else r == -1 && table == old(table)
    {
      if 0 <= fd < |table| && table[fd].Open? {
        r := 0;
        table := table[fd := Free];
      } else {
        r := -1;
        errno := BadHandle;
      }
    }

    /** move_fd (lines 88-106): the file goes to the lowest free handle from minFd on,
        and if there is none nothing changes. */
    method MoveFd(fd: int, minFd: nat) returns (r: int)
      requires minFd <= |table| && (fd == -1 || IsOpen(table, fd))
      modifies this
      ensures fd == -1 || fd >= minFd ==> r == fd && table == old(table)
      ensures 0 <= fd < minFd && LowestFree(old(table), minFd) < |old(table)| ==>
        r == LowestFree(old(table), minFd) && table == old(table)[r := old(table)[fd]][fd := Free]
      ensures 0 <= fd < minFd && LowestFree(old(table), minFd) == |old(table)| ==> r == -1 && table == old(table)
      decreases FreeBelow(table, minFd), if fd < minFd then 1 else 0
    {
      if fd == -1 || fd >= minFd { return fd; }
      ghost var t := table;
      var tmp := Dup(fd);
      if tmp == -1 {
        LowestAbove(t, minFd);
        return -1;
      }
      FreeBelowSet(t, minFd, tmp, t[fd]);
      LowestSame(t, tmp, t[fd], minFd);
      r := MoveFd(tmp, minFd);
      if r != -1 {
        var c := Close(fd);
      } else {
        var c := Close(tmp);
      }
    }

    /** safe_dup (lines 126-141): a duplicate on a handle from 5 on, if there is one. */
    method SafeDup(fd: int) returns (r: int)
      requires |table| >= 5
      modifies this
      ensures !IsOpen(old(table), fd) ==> r == -1 && table == old(table) && errno == BadHandle
      ensures IsOpen(old(table), fd) && LowestFree(old(table), 5) < |old(table)| ==>
        r == LowestFree(old(table), 5) && table == old(table)[r := old(table)[fd]]
      ensures IsOpen(old(table), fd) && LowestFree(old(table), 5) == |old(table)| ==>
        if LowestFree(old(table), 0) < 5 then r == LowestFree(old(table), 0) && table == old(table)[r := old(table)[fd]]
        else r == -1 && table == old(table) && errno == TooMany
    {
      ghost var t := table;
      r := Dup(fd);
      if r != -1 {
        LowestSame(t, r, t[fd], 5);
        if r < 5 {
          var safe := MoveFd(r, 5);
          if safe != -1 { r := safe; }
        }
      } else if IsOpen(t, fd) {
        LowestAbove(t, 5);
      }
      if IsOpen(t, fd) && LowestFree(t, 0) >= 5 { LowestFrom(t, 0, 5); }
    }
  }

  lemma LowestAbove(t: seq<Slot>, k: nat)
    requires k <= |t| && LowestFree(t, 0) == |t|
    ensures LowestFree(t, k) == |t|
  {
  }

  /** Filling the lowest free handle leaves those above it. */
  lemma LowestSame(t: seq<Slot>, i: nat, s: Slot, k: nat)
    requires k <= |t| && i < |t| && i == LowestFree(t, 0) && s.Open?
    ensures i < k ==> LowestFree(t[i := s], k) == LowestFree(t, k)
    ensures i >= k ==> LowestFree(t, k) == i
  {
    if i < k { LowestElsewhere(t, i, s, k); }
  }

  lemma {:induction false} LowestElsewhere(t: seq<Slot>, i: nat, s: Slot, k: nat)
    requires i < k <= |t|
    ensures LowestFree(t[i := s], k) == LowestFree(t, k)
    decreases |t| - k
  {
    if k < |t| { LowestElsewhere(t, i, s, k + 1); }
  }

  // ------------------------------------------------------------- swapping a handle

  /** Handle h keeps the slot `kept` that belongs on handle i: -1 for a free one, else a
      handle from 5 on, or i itself while both sides share it. */
  predicate Keeps(t: seq<Slot>, h: int, i: nat, kept: Slot)
    requires i < |t|
  {
    if kept.Free? then h == -1 else (h == i || 5 <= h < |t|) && t[h] == kept
  }

  function Count(h: int): nat { if h >= 5 then 1 else 0 }

  /** Where a duplicate of handle i is kept. */
  function SavedAt(t: seq<Slot>, i: nat): int
    requires 5 <= |t| && i < |t|
  {
    if t[i].Open? then LowestFree(t, 5) else -1
  }

  predicate CanSwap(t: seq<Slot>, h: int, i: nat, kept: Slot) {
    i < 5 <= |t| && Keeps(t, h, i, kept) && (t[i].Open? ==> LowestFree(t, 5) < |t|)
  }

  /** The table with the file of handle i saved and what h keeps in its place. */
  function Swapped(t: seq<Slot>, h: int, i: nat, kept: Slot): (u: seq<Slot>)
    requires CanSwap(t, h, i, kept)
    ensures |u| == |t|
  {
    var u := if t[i].Open? then t[SavedAt(t, i) := t[i]] else t;
    if h == -1 then u[i := Free] else if h == i then u else u[i := u[h]][h := Free]
  }

  lemma SwapEffect(t: seq<Slot>, h: int, i: nat, kept: Slot)
    requires CanSwap(t, h, i, kept)
    ensures var u, s := Swapped(t, h, i, kept), SavedAt(t, i);
      && u[i] == kept && Keeps(u, s, i, t[i]) && s != i
      && FreeFrom(u, 5) + Count(s) == FreeFrom(t, 5) + Count(h)
      && (forall k | 0 <= k < |t| && k != i && k != h && k != s :: u[k] == t[k])
      && (h >= 5 ==> u[h].Free? && h != s)
  {
    var s := SavedAt(t, i);
    var u := if t[i].Open? then t[s := t[i]] else t;
    if t[i].Open? { FreeFromSet(t, 5, s, t[i]); }
    if h == -1 {
      FreeFromSet(u, 5, i, Free);
    } else if h != i {
      FreeFromSet(u, 5, i, u[h]);
      FreeFromSet(u[i := u[h]], 5, h, Free);
    }
  }

  /** The handles `held` keep the slots of the side that is not in place. */
  ghost predicate Kept(t: seq<Slot>, held: seq<int>, slots: seq<Slot>) {
    && |held| == |slots| == 3 && 5 <= |t|
    && (forall i | 0 <= i < 3 :: Keeps(t, held[i], i, slots[i]))
    && (forall i, j | 0 <= i < j < 3 && held[i] == held[j] :: held[i] == -1)
  }

  function Held(held: seq<int>): nat
    requires |held| == 3
  {
    Count(held[0]) + Count(held[1]) + Count(held[2])
  }

  /** With one handle to spare from 5 on besides those that are held. */
  ghost predicate Room(t: seq<Slot>, held: seq<int>) {
    |held| == 3 && 5 <= |t| && FreeFrom(t, 5) + Held(held) >= 4
  }

  lemma RoomToSwap(t: seq<Slot>, held: seq<int>, slots: seq<Slot>, i: nat)
    requires Kept(t, held, slots) && Room(t, held) && i < 3
    ensures CanSwap(t, held[i], i, slots[i])
  {
    FreeFromSome(t, 5);
  }

  lemma KeptOther(t: seq<Slot>, h: int, i: nat, kept: Slot, g: int, j: nat, other: Slot)
    requires CanSwap(t, h, i, kept) && j < 3 && i < 3 && j != i && Keeps(t, g, j, other) && (g == h ==> g == -1)
    ensures Keeps(Swapped(t, h, i, kept), g, j, other) && (g == SavedAt(t, i) ==> g == -1)
  {
    SwapEffect(t, h, i, kept);
  }

  lemma KeptStep(t: seq<Slot>, held: seq<int>, slots: seq<Slot>, i: nat)
    requires Kept(t, held, slots) && i < 3 && CanSwap(t, held[i], i, slots[i])
    ensures Kept(Swapped(t, held[i], i, slots[i]), held[i := SavedAt(t, i)], slots[i := t[i]])
  {
    SwapEffect(t, held[i], i, slots[i]);
    forall j | 0 <= j < 3 && j != i
      ensures Keeps(Swapped(t, held[i], i, slots[i]), held[j], j, slots[j])
      ensures (held[j] == SavedAt(t, i) ==> held[j] == -1)
    {
      KeptOther(t, held[i], i, slots[i], held[j], j, slots[j]);
    }
  }

  /** One handle swapped: what is kept, the room, and all other handles. */
  lemma SwapOne(t: seq<Slot>, held: seq<int>, slots: seq<Slot>, i: nat)
    requires Kept(t, held, slots) && Room(t, held) && i < 3 && CanSwap(t, held[i], i, slots[i])
    ensures var u, s := Swapped(t, held[i], i, slots[i]), SavedAt(t, i);
      && Kept(u, held[i := s], slots[i := t[i]]) && Room(u, held[i := s])
      && FreeFrom(u, 5) + Held(held[i := s]) == FreeFrom(t, 5) + Held(held)
      && u[..3] == t[..3][i := slots[i]]
      && (forall k | 3 <= k < |t| && k != held[i] && k != s :: u[k] == t[k])
      && (held[i] >= 5 ==> u[held[i]].Free?)
  {
    SwapEffect(t, held[i], i, slots[i]);
    KeptStep(t, held, slots, i);
  }

  /** The standard handles are open, and there are handles free for the redirection. */
  ghost predicate Ready(t: seq<Slot>) {
    5 <= |t| && FreeFrom(t, 5) >= 4 && forall i | 0 <= i < 3 :: t[i].Open?
  }

  /** What struct dbg_redirect holds for handles 0 to 2, with the process they are of. */
  class Session {
    const process: Process
    var inf: seq<int>
    var our: seq<int>
    var redirected: bool

    /** redir_debug_init. */
    constructor (process: Process)
      ensures this.process == process && inf == [0, 1, 2] && !redirected
      ensures Ready(process.table) ==> Debugging(process.table[..3], process.table[..3])
    {
      this.process := process;
      inf, our, redirected := [0, 1, 2], [0, 1, 2], false;
    }

    /** redir_handle_to_child (lines 234-259). */
    method HandleToChild(fd: nat, ghost kept: Slot) returns (r: int)
      requires fd < 3 == |inf| == |our| && CanSwap(process.table, inf[fd], fd, kept)
      modifies this`inf, this`our, process
      ensures r == fd && process.table == old(Swapped(process.table, inf[fd], fd, kept))
      ensures our == old(our)[fd := old(SavedAt(process.table, fd))] && inf == old(inf)[fd := -1]
    {
      var status := 0;
      var save := process.SafeDup(fd);
      if save == -1 && process.errno != BadHandle { status := -1; }
      our := our[fd := save];
      if inf[fd] == -1 {
        if save != -1 { status := process.Close(fd); }
      } else {
        var d := process.Dup2(inf[fd], fd);
        var c := 0;
        if d != -1 && fd != inf[fd] { c := process.Close(inf[fd]); }
        if d == -1 || c == -1 {
          status := -1;
        } else {
          inf := inf[fd := -1];
        }
      }
      r := if status == -1 then -1 else fd;
    }

    /** redir_handle_to_debugger (lines 263-288). */
    method HandleToDebugger(fd: nat, ghost kept: Slot) returns (r: int)
      requires fd < 3 == |inf| == |our| && CanSwap(process.table, our[fd], fd, kept)
      modifies this`inf, this`our, process
      ensures r == fd && process.table == old(Swapped(process.table, our[fd], fd, kept))
      ensures inf == old(inf)[fd := old(SavedAt(process.table, fd))] && our == old(our)[fd := -1]
    {
      var status := 0;
      var save := process.SafeDup(fd);
      if save == -1 && process.errno != BadHandle { status := -1; }
      inf := inf[fd := save];
      if our[fd] == -1 {
        if save != -1 { status := process.Close(fd); }
      } else {
        var d := process.Dup2(our[fd], fd);
        var c := 0;
        if d != -1 && fd != our[fd] { c := process.Close(our[fd]); }
        if d == -1 || c == -1 {
          status := -1;
        } else {
          our := our[fd := -1];
        }
      }
      r := if status == -1 then -1 else fd;
    }
  
    /** The debugger's own files d are in place; the program's, c, are kept. */
    ghost predicate Debugging(d: seq<Slot>, c: seq<Slot>)
      reads this, process
    {
      && |inf| == |our| == 3 && !redirected && |d| == 3
      && Kept(process.table, inf, c) && Room(process.table, inf) && process.table[..3] == d
    }

    /** And the other way round. */
    ghost predicate Running(d: seq<Slot>, c: seq<Slot>)
      reads this, process
    {
      && |inf| == |our| == 3 && redirected && |c| == 3
      && Kept(process.table, our, d) && Room(process.table, our) && process.table[..3] == c
      && Own(our)
    }

    /** After the first i handles, counted from 0, have been switched to the program. */
    ghost predicate ChildAt(i: int, t0: seq<Slot>, inf0: seq<int>, d: seq<Slot>, c: seq<Slot>)
      reads this, process
    {
      && 0 <= i <= 3 && |inf| == |our| == |inf0| == |d| == |c| == 3 && inf[i..] == inf0[i..] && Own(our[..i])
      && Halfway(process.table, our[..i] + inf[i..], d[..i] + c[i..], c[..i] + d[i..])
      && Elsewhere(t0, inf0, process.table, our[..i] + inf[i..])
    }

    method ChildStep(i: nat, ghost t0: seq<Slot>, ghost inf0: seq<int>, ghost d: seq<Slot>, ghost c: seq<Slot>)
      returns (r: int)
      requires i < 3 && ChildAt(i, t0, inf0, d, c)
      modifies this`inf, this`our, process
      ensures r == i && ChildAt(i + 1, t0, inf0, d, c)
    {
      SwitchOne(process.table, our, inf, d, c, i, t0, inf0);
      r := HandleToChild(i, c[i]);
    }

    /** redir_to_child (lines 462-478): it succeeds, and each side's files are where they
        should be; no other handle is touched and none is left behind. */
    method RedirToChild(ghost d: seq<Slot>, ghost c: seq<Slot>) returns (r: int)
      requires Debugging(d, c) || Running(d, c)
      modifies this, process
      ensures r == 0 && Running(d, c)
      ensures old(redirected) ==> process.table == old(process.table)
      ensures !old(redirected) ==> Elsewhere(old(process.table), old(inf), process.table, our)
    {
      if redirected { return 0; }
      redirected := true;
      assert our[..0] + inf[0..] == inf && d[..0] + c[0..] == c && c[..0] + d[0..] == d;
      var i := 0;
      while i < 3
        invariant ChildAt(i, old(process.table), old(inf), d, c) && redirected
      {
        r := ChildStep(i, old(process.table), old(inf), d, c);
        if r == -1 { return -1; }
        i := i + 1;
      }
      assert our[..i] + inf[i..] == our && our[..i] == our && d[..i] + c[i..] == d && c[..i] + d[i..] == c;
      r := 0;
    }

    /** After the handles from i on have been switched back to the debugger. */
    ghost predicate DebuggerAt(i: int, t0: seq<Slot>, our0: seq<int>, d: seq<Slot>, c: seq<Slot>)
      reads this, process
    {
      && 0 <= i <= 3 && |inf| == |our| == |our0| == |d| == |c| == 3 && our[..i] == our0[..i]
      && Halfway(process.table, our[..i] + inf[i..], d[..i] + c[i..], c[..i] + d[i..])
      && Elsewhere(t0, our0, process.table, our[..i] + inf[i..])
    }

    method DebuggerStep(i: nat, ghost t0: seq<Slot>, ghost our0: seq<int>, ghost d: seq<Slot>, ghost c: seq<Slot>)
      returns (r: int)
      requires i < 3 && DebuggerAt(i + 1, t0, our0, d, c)
      modifies this`inf, this`our, process
      ensures r == i && DebuggerAt(i, t0, our0, d, c)
    {
      SwitchBack(process.table, our, inf, d, c, i, t0, our0);
      r := HandleToDebugger(i, d[i]);
    }

    /** redir_to_debugger (lines 482-498), from handle 2 down. */
    method RedirToDebugger(ghost d: seq<Slot>, ghost c: seq<Slot>) returns (r: int)
      requires Debugging(d, c) || Running(d, c)
      modifies this, process
      ensures r == 0 && Debugging(d, c)
      ensures !old(redirected) ==> process.table == old(process.table)
      ensures old(redirected) ==> Elsewhere(old(process.table), old(our), process.table, inf)
    {
      if !redirected { return 0; }
      redirected := false;
      assert our[..3] + inf[3..] == our && d[..3] + c[3..] == d && c[..3] + d[3..] == c;
      var i := 2;
      while i >= 0
        invariant -1 <= i <= 2 && DebuggerAt(i + 1, old(process.table), old(our), d, c) && !redirected
      {
        r := DebuggerStep(i, old(process.table), old(our), d, c);
        if r == -1 { return -1; }
        i := i - 1;
      }
      assert our[..0] + inf[0..] == inf && d[..0] + c[0..] == c && c[..0] + d[0..] == d;
      r := 0;
    }

    /** One stretch of the program between two of the debugger: it finds `now` on handles
        0 to 2 and leaves `left` there. */
    method Turn(left: seq<Slot>, ghost d: seq<Slot>, ghost now: seq<Slot>)
      returns (ghost child: seq<Slot>, ghost back: seq<Slot>)
      requires Debugging(d, now) && |left| == 3
      modifies this, process
      ensures Debugging(d, left) && child == now && back == d
      ensures Elsewhere(old(process.table), old(inf), process.table, inf)
    {
      ghost var t0, inf0 := process.table, inf;
      var r := RedirToChild(d, now);
      child := process.table[..3];
      ghost var t := process.table;
      ChildChanges(t, our, d, left);
      process.table := left + process.table[3..];
      SameElsewhere(t0, inf0, t, our, process.table);
      ghost var u, kept := process.table, our;
      r := RedirToDebugger(d, left);
      back := process.table[..3];
      ElsewhereTwice(t0, inf0, u, kept, process.table, inf);
    }

    /** Any number of times the program runs and does what it likes to handles 0 to 2,
        to `left[k]` the k-th time: it always finds its own files as it left them, and
        so does the debugger, and no other handle is lost. */
    method Alternate(left: seq<seq<Slot>>, ghost d: seq<Slot>, ghost c: seq<Slot>)
      returns (ghost child: seq<seq<Slot>>, ghost back: seq<seq<Slot>>)
      requires Debugging(d, c) && forall k | 0 <= k < |left| :: |left[k]| == 3
      modifies this, process
      ensures Debugging(d, if left == [] then c else left[|left| - 1])
      ensures |child| == |back| == |left|
      ensures forall k | 0 <= k < |left| :: child[k] == (if k == 0 then c else left[k - 1]) && back[k] == d
      ensures Elsewhere(old(process.table), old(inf), process.table, inf)
    {
      ghost var t0, inf0 := process.table, inf;
      var k := 0;
      child, back := [], [];
      while k < |left|
        invariant 0 <= k <= |left| && Debugging(d, if k == 0 then c else left[k - 1])
        invariant |child| == |back| == k
        invariant forall i | 0 <= i < k :: child[i] == (if i == 0 then c else left[i - 1]) && back[i] == d
        invariant Elsewhere(t0, inf0, process.table, inf)
      {
        ghost var t, held := process.table, inf;
        ghost var seen, again := Turn(left[k], d, if k == 0 then c else left[k - 1]);
        ElsewhereTwice(t0, inf0, t, held, process.table, inf);
        child, back := child + [seen], back + [again];
        k := k + 1;
      }
    }
  }

  predicate Own(held: seq<int>) { forall i | 0 <= i < |held| :: held[i] < 0 || held[i] >= 5 }

  lemma MixSet<T>(a: seq<T>, b: seq<T>, i: nat, x: T, y: T)
    requires i < |a| == |b|
    ensures a[i := x][..i + 1] + b[i := y][i + 1..] == (a[..i] + b[i..])[i := x]
  {
    assert a[i := x][..i + 1] == a[..i] + [x] && b[i := y][i + 1..] == b[i + 1..];
  }

  lemma MixMore<T>(a: seq<T>, b: seq<T>, i: nat)
    requires i < |a| == |b|
    ensures a[..i + 1] + b[i + 1..] == (a[..i] + b[i..])[i := a[i]]
  {
    assert a[..i + 1] == a[..i] + [a[i]];
  }

  lemma MixBack<T>(a: seq<T>, b: seq<T>, i: nat, x: T, y: T)
    requires i < |a| == |b|
    ensures a[i := x][..i] + b[i := y][i..] == (a[..i + 1] + b[i + 1..])[i := y]
  {
    assert a[i := x][..i] == a[..i] && b[i := y][i..] == [y] + b[i + 1..];
    assert a[..i + 1] == a[..i] + [a[i]];
  }

  lemma MixLess<T>(a: seq<T>, b: seq<T>, i: nat)
    requires i < |a| == |b|
    ensures a[..i] + b[i..] == (a[..i + 1] + b[i + 1..])[i := b[i]]
  {
    assert b[i..] == [b[i]] + b[i + 1..] && a[..i + 1] == a[..i] + [a[i]];
  }

  /** One more handle for the program: what is kept is the mixture one place on. */
  lemma SwitchOne(t: seq<Slot>, our: seq<int>, inf: seq<int>, d: seq<Slot>, c: seq<Slot>, i: nat, t0: seq<Slot>,
                  inf0: seq<int>)
    requires i < 3 == |our| == |inf| == |d| == |c| == |inf0| && inf[i..] == inf0[i..]
    requires Halfway(t, our[..i] + inf[i..], d[..i] + c[i..], c[..i] + d[i..])
    requires Elsewhere(t0, inf0, t, our[..i] + inf[i..])
    ensures CanSwap(t, inf[i], i, c[i])
    ensures var u, o, n := Swapped(t, inf[i], i, c[i]), our[i := SavedAt(t, i)], inf[i := -1];
      && Halfway(u, o[..i + 1] + n[i + 1..], d[..i + 1] + c[i + 1..], c[..i + 1] + d[i + 1..])
      && Elsewhere(t0, inf0, u, o[..i + 1] + n[i + 1..])
  {
    var held, slots, placed := our[..i] + inf[i..], d[..i] + c[i..], c[..i] + d[i..];
    var o, n := our[i := SavedAt(t, i)], inf[i := -1];
    assert t[i] == placed[i] == d[i];
    RoomToSwap(t, held, slots, i);
    SwapOne(t, held, slots, i);
    ElsewhereStep(t0, inf0, t, held, slots, i);
    MixSet(our, inf, i, SavedAt(t, i), -1);
    MixMore(d, c, i);
    MixMore(c, d, i);
  }

  /** One handle back for the debugger. */
  lemma SwitchBack(t: seq<Slot>, our: seq<int>, inf: seq<int>, d: seq<Slot>, c: seq<Slot>, i: nat, t0: seq<Slot>,
                   our0: seq<int>)
    requires i < 3 == |our| == |inf| == |d| == |c| == |our0| && our[..i + 1] == our0[..i + 1]
    requires Halfway(t, our[..i + 1] + inf[i + 1..], d[..i + 1] + c[i + 1..], c[..i + 1] + d[i + 1..])
    requires Elsewhere(t0, our0, t, our[..i + 1] + inf[i + 1..])
    ensures CanSwap(t, our[i], i, d[i])
    ensures var u, o, n := Swapped(t, our[i], i, d[i]), our[i := -1], inf[i := SavedAt(t, i)];
      && Halfway(u, o[..i] + n[i..], d[..i] + c[i..], c[..i] + d[i..])
      && Elsewhere(t0, our0, u, o[..i] + n[i..])
  {
    var held, slots, placed := our[..i + 1] + inf[i + 1..], d[..i + 1] + c[i + 1..], c[..i + 1] + d[i + 1..];
    var o, n := our[i := -1], inf[i := SavedAt(t, i)];
    assert t[i] == placed[i] == c[i];
    assert our[i] == our[..i + 1][i] == our0[..i + 1][i];
    RoomToSwap(t, held, slots, i);
    SwapOne(t, held, slots, i);
    ElsewhereStep(t0, our0, t, held, slots, i);
    MixBack(our, inf, i, -1, SavedAt(t, i));
    MixLess(d, c, i);
    MixLess(c, d, i);
  }

  /** In the middle of a switch: what is kept, and what is in place. */
  ghost predicate Halfway(t: seq<Slot>, held: seq<int>, slots: seq<Slot>, placed: seq<Slot>) {
    Kept(t, held, slots) && Room(t, held) && t[..3] == placed
  }

  /** Of the handles from 3 on that are not held now, those held before are free and all
      others are as they were; and what is newly held was free. */
  ghost predicate Elsewhere(t: seq<Slot>, before: seq<int>, u: seq<Slot>, held: seq<int>) {
    && |u| == |t|
    && (forall k | 3 <= k < |t| && k !in held :: u[k] == if k in before then Free else t[k])
    && (forall k | 3 <= k < |t| && k in held && k !in before :: t[k].Free?)
  }

  lemma SameElsewhere(t: seq<Slot>, a: seq<int>, u: seq<Slot>, b: seq<int>, v: seq<Slot>)
    requires Elsewhere(t, a, u, b) && |v| == |u| && forall k | 3 <= k < |u| :: v[k] == u[k]
    ensures Elsewhere(t, a, v, b)
  {
  }

  lemma ElsewhereTwice(t: seq<Slot>, a: seq<int>, u: seq<Slot>, b: seq<int>, v: seq<Slot>, c: seq<int>)
    requires Elsewhere(t, a, u, b) && Elsewhere(u, b, v, c)
    ensures Elsewhere(t, a, v, c)
  {
  }

  lemma ElsewhereStep(t0: seq<Slot>, before: seq<int>, t: seq<Slot>, held: seq<int>, slots: seq<Slot>, i: nat)
    requires Kept(t, held, slots) && Room(t, held) && i < 3 && CanSwap(t, held[i], i, slots[i])
    requires |before| == 3 && held[i] == before[i] && Elsewhere(t0, before, t, held)
    ensures Elsewhere(t0, before, Swapped(t, held[i], i, slots[i]), held[i := SavedAt(t, i)])
  {
    var s := SavedAt(t, i);
    var next := held[i := s];
    SwapOne(t, held, slots, i);
    forall k | 3 <= k < |t0| && k !in next
      ensures Swapped(t, held[i], i, slots[i])[k] == if k in before then Free else t0[k]
    {
      assert next[i] == s;
      if k != held[i] {
        assert forall j | 0 <= j < 3 && j != i :: next[j] == held[j];
      }
    }
    if s >= 0 {
      assert t[s].Free? && forall j | 0 <= j < 3 :: held[j] != s || j == i;
      if s !in before { assert s != held[i] && s !in held; }
    }
  }

  /** What happens to handles 0 to 2 does not affect what is kept. */
  lemma ChildChanges(t: seq<Slot>, held: seq<int>, slots: seq<Slot>, left: seq<Slot>)
    requires Kept(t, held, slots) && Room(t, held) && |left| == 3
    requires Own(held)
    ensures Kept(left + t[3..], held, slots) && Room(left + t[3..], held)
  {
    FreeFromTail(t, left + t[3..], 5);
  }

  lemma {:induction false} FreeFromTail(t: seq<Slot>, u: seq<Slot>, k: nat)
    requires |t| == |u| && k <= |t| && forall i | k <= i < |t| :: t[i] == u[i]
    ensures FreeFrom(t, k) == FreeFrom(u, k)
    decreases |t| - k
  {
    if k < |t| { FreeFromTail(t, u, k + 1); }
  }
}
