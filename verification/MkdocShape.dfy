/** The shape of a binary tree over the positions 0..n of its in-order sequence: each
    position has an interval that its subtree covers and the positions of its
    children (src/mkdoc/mkdoc.cc, lines 661-682). */
module MkdocShape {

  /** -1 stands for a missing child. */
  datatype Spot = Spot(lo: nat, hi: nat, before: int, after: int)

  type Shape = seq<Spot>

  ghost predicate Spans(s: Shape, k: nat)
    requires k < |s|
  {
    s[k].lo <= k < s[k].hi <= |s|
  }

  /** The children cover what lies on either side of k. */
  ghost predicate Parted(s: Shape, k: nat)
    requires k < |s|
  {
    PartedBefore(s, k) && PartedAfter(s, k)
  }

  ghost predicate PartedBefore(s: Shape, k: nat)
    requires k < |s|
  {
    var t := s[k];
    if t.lo == k then t.before == -1
    else t.lo <= t.before < k && s[t.before].lo == t.lo && s[t.before].hi == k
  }

  ghost predicate PartedAfter(s: Shape, k: nat)
    requires k < |s|
  {
    var t := s[k];
    if t.hi == k + 1 then t.after == -1
    else k < t.after < |s| && s[t.after].lo == k + 1 && s[t.after].hi == t.hi
  }

  /** The subtree of a position in another's is part of it. */
  ghost predicate Inside(s: Shape, k: nat, m: nat)
    requires k < |s| && m < |s|
  {
    s[k].lo <= m < s[k].hi ==> s[k].lo <= s[m].lo && s[m].hi <= s[k].hi
  }

  /** Of two neighbours one is below the other. */
  ghost predicate Neighbours(s: Shape, i: nat)
    requires i + 1 < |s|
  {
    s[i].hi > i + 1 <==> s[i + 1].lo == i + 1
  }

  ghost predicate Nested(s: Shape) {
    && (forall k, m | 0 <= k < |s| && 0 <= m < |s| :: Inside(s, k, m))
    && (forall i | 0 <= i < |s| - 1 :: Neighbours(s, i))
  }

  ghost predicate WellShaped(s: Shape, root: int) {
    && (forall k | 0 <= k < |s| :: Spans(s, k))
    && (forall k | 0 <= k < |s| :: Parted(s, k))
    && Nested(s)
    && (if s == [] then root == -1 else 0 <= root < |s| && s[root].lo == 0 && s[root].hi == |s|)
  }

  /** A free place p: no child between p - 1 and p below q, its later neighbour or, when
      `last`, its earlier one. */
  ghost predicate Free(s: Shape, q: int, last: bool, p: nat) {
    && p <= |s|
    && (if s == [] then q == -1
        else 0 <= q < |s| && (if last then q + 1 == p && s[q].hi == p else q == p && s[q].lo == p))
  }

  function Up(x: int, p: nat): int { if x >= p then x + 1 else x }

  function Moved(t: Spot, p: nat): Spot {
    Spot(if t.lo > p then t.lo + 1 else t.lo, if t.hi >= p then t.hi + 1 else t.hi, Up(t.before, p), Up(t.after, p))
  }

  function SpotAt(s: Shape, q: int, last: bool, p: nat, i: nat): Spot
    requires p <= |s| && i <= |s|
  {
    if i == p then Spot(p, p + 1, -1, -1)
    else
      var k := if i < p then i else i - 1;
      var t := Moved(s[k], p);
      if k != q then t else if last then t.(after := p) else t.(before := p)
  }

  /** The shape with a leaf at p, below q. */
  function WithLeaf(s: Shape, q: int, last: bool, p: nat): (t: Shape)
    requires p <= |s|
    ensures |t| == |s| + 1
    ensures forall i | 0 <= i <= |s| :: t[i] == SpotAt(s, q, last, p, i)
  {
    seq(|s| + 1, i requires 0 <= i < |s| + 1 => SpotAt(s, q, last, p, i))
  }

  function RootWithLeaf(root: int, p: nat): int { if root == -1 then p else Up(root, p) }

  lemma LeafSpans(s: Shape, q: int, last: bool, p: nat, i: nat)
    requires p <= |s| && i <= |s| && (i != p ==> Spans(s, if i < p then i else i - 1))
    ensures Spans(WithLeaf(s, q, last, p), i)
  {
  }

  /** The place p does not touch the subtree of k from the wrong side. */
  ghost predicate Clear(s: Shape, last: bool, p: nat, k: nat)
    requires k < |s|
  {
    (last && k >= p ==> s[k].lo != p) && (!last && k < p ==> s[k].hi != p)
  }

  /** No other subtree begins, or ends, at a free place. */
  lemma OnlyPath(s: Shape, root: int, q: int, last: bool, p: nat, k: nat)
    requires WellShaped(s, root) && Free(s, q, last, p) && k < |s|
    ensures Clear(s, last, p, k)
  {
    assert Spans(s, k);
    if 0 < p < |s| {
      assert Spans(s, p) && Spans(s, p - 1) && Neighbours(s, p - 1);
      assert Inside(s, k, p) && Inside(s, k, p - 1);
    }
  }

  lemma LeafBefore(s: Shape, q: int, last: bool, p: nat, k: nat)
    requires k < |s| && Free(s, q, last, p) && Clear(s, last, p, k) && Spans(s, k) && PartedBefore(s, k)
    ensures PartedBefore(WithLeaf(s, q, last, p), if k < p then k else k + 1)
  {
    var t, i := WithLeaf(s, q, last, p), if k < p then k else k + 1;
    assert t[i] == SpotAt(s, q, last, p, i);
    assert t[p] == SpotAt(s, q, last, p, p);
    if s[k].before != -1 { assert t[Up(s[k].before, p)] == SpotAt(s, q, last, p, Up(s[k].before, p)); }
  }

  lemma LeafAfter(s: Shape, q: int, last: bool, p: nat, k: nat)
    requires k < |s| && Free(s, q, last, p) && Clear(s, last, p, k) && Spans(s, k) && PartedAfter(s, k)
    ensures PartedAfter(WithLeaf(s, q, last, p), if k < p then k else k + 1)
  {
    var t, i := WithLeaf(s, q, last, p), if k < p then k else k + 1;
    assert t[i] == SpotAt(s, q, last, p, i);
    assert t[p] == SpotAt(s, q, last, p, p);
    if s[k].after != -1 { assert t[Up(s[k].after, p)] == SpotAt(s, q, last, p, Up(s[k].after, p)); }
  }

  lemma LeafInside(s: Shape, q: int, last: bool, p: nat, k: nat, m: nat)
    requires k < |s| && m < |s| && Free(s, q, last, p) && Clear(s, last, p, k)
    requires Spans(s, k) && Spans(s, m) && Inside(s, k, m)
    ensures Inside(WithLeaf(s, q, last, p), if k < p then k else k + 1, if m < p then m else m + 1)
  {
  }

  lemma LeafIn(s: Shape, q: int, last: bool, p: nat, k: nat)
    requires k < |s| && Free(s, q, last, p) && Spans(s, k)
    ensures Inside(WithLeaf(s, q, last, p), if k < p then k else k + 1, p)
    ensures Inside(WithLeaf(s, q, last, p), p, if k < p then k else k + 1)
  {
  }

  lemma LeafNeighbours(s: Shape, q: int, last: bool, p: nat, i: nat)
    requires i < |s| && Free(s, q, last, p)
    requires Spans(s, i) && (i + 1 < |s| ==> Spans(s, i + 1) && Neighbours(s, i))
    requires i > 0 ==> Spans(s, i - 1) && Neighbours(s, i - 1)
    ensures Neighbours(WithLeaf(s, q, last, p), i)
  {
    var t := WithLeaf(s, q, last, p);
    assert t[i] == SpotAt(s, q, last, p, i) && t[i + 1] == SpotAt(s, q, last, p, i + 1);
  }

  lemma LeafAnyInside(s: Shape, root: int, q: int, last: bool, p: nat, k: nat, m: nat)
    requires WellShaped(s, root) && Free(s, q, last, p) && k <= |s| && m <= |s|
    ensures Inside(WithLeaf(s, q, last, p), k, m)
  {
    var k', m' := if k < p then k else k - 1, if m < p then m else m - 1;
    if k == p {
      if m != p { assert Spans(s, m'); LeafIn(s, q, last, p, m'); }
    } else if m == p {
      assert Spans(s, k');
      LeafIn(s, q, last, p, k');
    } else {
      assert Spans(s, k') && Spans(s, m') && Inside(s, k', m');
      OnlyPath(s, root, q, last, p, k');
      LeafInside(s, q, last, p, k', m');
    }
  }

  lemma LeafAnyNeighbours(s: Shape, root: int, q: int, last: bool, p: nat, i: nat)
    requires WellShaped(s, root) && Free(s, q, last, p) && i < |s|
    ensures Neighbours(WithLeaf(s, q, last, p), i)
  {
    assert Spans(s, i);
    if i + 1 < |s| { assert Spans(s, i + 1) && Neighbours(s, i); }
    if i > 0 { assert Spans(s, i - 1) && Neighbours(s, i - 1); }
    LeafNeighbours(s, q, last, p, i);
  }

  lemma LeafNested(s: Shape, root: int, q: int, last: bool, p: nat)
    requires WellShaped(s, root) && Free(s, q, last, p)
    ensures Nested(WithLeaf(s, q, last, p))
  {
    var t := WithLeaf(s, q, last, p);
    forall k, m | 0 <= k < |t| && 0 <= m < |t| ensures Inside(t, k, m) {
      LeafAnyInside(s, root, q, last, p, k, m);
    }
    forall i | 0 <= i < |t| - 1 ensures Neighbours(t, i) {
      LeafAnyNeighbours(s, root, q, last, p, i);
    }
  }

  /** A leaf at a free place makes a well-shaped tree again. */
  lemma LeafKeepsShape(s: Shape, root: int, q: int, last: bool, p: nat)
    requires WellShaped(s, root) && Free(s, q, last, p)
    ensures WellShaped(WithLeaf(s, q, last, p), RootWithLeaf(root, p))
  {
    var t := WithLeaf(s, q, last, p);
    forall i | 0 <= i < |t| ensures Spans(t, i) && Parted(t, i) {
      if i != p {
        var k := if i < p then i else i - 1;
        assert Spans(s, k) && Parted(s, k);
        OnlyPath(s, root, q, last, p, k);
        LeafBefore(s, q, last, p, k);
        LeafAfter(s, q, last, p, k);
      } else {
        assert t[p] == SpotAt(s, q, last, p, p);
      }
      LeafSpans(s, q, last, p, i);
    }
    LeafNested(s, root, q, last, p);
    LeafRoot(s, root, q, last, p);
  }

  lemma LeafRoot(s: Shape, root: int, q: int, last: bool, p: nat)
    requires p <= |s| && (if s == [] then root == -1 else 0 <= root < |s| && s[root].lo == 0 && s[root].hi == |s|)
    ensures var t, r := WithLeaf(s, q, last, p), RootWithLeaf(root, p);
      0 <= r < |t| && t[r].lo == 0 && t[r].hi == |t|
  {
    var t, r := WithLeaf(s, q, last, p), RootWithLeaf(root, p);
    assert t[r] == SpotAt(s, q, last, p, r);
  }
}
