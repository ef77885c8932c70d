/** The order of strcmp. */
module Strings {

  /** -1, 0 or 1 as strcmp is negative, zero or positive. */
  function Compare(a: string, b: string): int {
    if a == "" then (if b == "" then 0 else -1)
    else if b == "" then 1
    else if a[0] < b[0] then -1
    else if a[0] > b[0] then 1
    else Compare(a[1..], b[1..])
  }

  predicate Less(a: string, b: string) { Compare(a, b) < 0 }

  lemma {:induction false} CompareEqual(a: string, b: string)
    ensures Compare(a, b) == 0 <==> a == b
  {
    if a != "" && b != "" && a[0] == b[0] {
      CompareEqual(a[1..], b[1..]);
      assert a == [a[0]] + a[1..] && b == [b[0]] + b[1..];
    }
  }

  lemma {:induction false} CompareSwap(a: string, b: string)
    ensures Compare(b, a) == -Compare(a, b)
  {
    if a != "" && b != "" && a[0] == b[0] { CompareSwap(a[1..], b[1..]); }
  }

  lemma {:induction false} LessThrough(a: string, b: string, c: string)
    requires Compare(a, b) <= 0 && Compare(b, c) <= 0
    ensures Compare(a, c) <= 0
    ensures Compare(a, c) == 0 ==> Compare(a, b) == 0 && Compare(b, c) == 0
  {
    if a != "" && b != "" && c != "" && a[0] == b[0] == c[0] { LessThrough(a[1..], b[1..], c[1..]); }
  }

  /** At place i it is decided that a comes first: a ends there, or has the smaller
      character. */
  predicate FirstAt(a: string, b: string, i: nat) {
    && i <= |a| && i < |b| && a[..i] == b[..i]
    && (i == |a| || a[i] < b[i])
  }

  lemma {:induction false} DecidedLess(a: string, b: string, i: nat)
    requires FirstAt(a, b, i)
    ensures Less(a, b)
    decreases i
  {
    if i > 0 {
      assert a[0] == a[..i][0] == b[..i][0] == b[0];
      assert a[1..][..i - 1] == a[..i][1..] && b[1..][..i - 1] == b[..i][1..];
      DecidedLess(a[1..], b[1..], i - 1);
    }
  }

  /** The order of strings: a is less exactly if some place decides it. */
  lemma {:induction false} LessExactly(a: string, b: string)
    ensures Less(a, b) <==> exists i: nat :: FirstAt(a, b, i)
  {
    if i: nat :| FirstAt(a, b, i) { DecidedLess(a, b, i); }
    if Less(a, b) {
      if a == "" || a[0] < b[0] {
        assert FirstAt(a, b, 0);
      } else {
        LessExactly(a[1..], b[1..]);
        var i: nat :| FirstAt(a[1..], b[1..], i);
        assert a[..i + 1] == [a[0]] + a[1..][..i] && b[..i + 1] == [b[0]] + b[1..][..i];
        assert FirstAt(a, b, i + 1);
      }
    }
  }

  ghost predicate Sorted(s: seq<string>) {
    forall i, j | 0 <= i < j < |s| :: Compare(s[i], s[j]) <= 0
  }
}
