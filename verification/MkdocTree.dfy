/** The threaded search tree of mkdoc (src/mkdoc/mkdoc.cc, lines 20-39, 107-131 and 604-707). */
module MkdocTree {
  import opened Strings
  import opened MkdocShape

  // --------------------------------------------------------------------- sort names

  function Lower(c: char): char {
    if 'A' <= c <= 'Z' then ((c as int) + 32) as char else c
  }

  function Stripped(name: string): string {
    if name != "" && name[0] == '_' then Stripped(name[1..]) else name
  }

  function AllLower(name: string): (s: string)
    ensures |s| == |name|
  {
    seq(|name|, i requires 0 <= i < |name| => Lower(name[i]))
  }

  /** The name without leading underscores, in lower case. */
  function SortName(name: string): string { AllLower(Stripped(name)) }

  /** The character in lower case: only the 26 letters move, by the distance between the
      cases. */
  predicate Lowered(c: char, d: char) {
    if 'A' <= c && c <= 'Z' then d as int - 'a' as int == c as int - 'A' as int else d == c
  }

  /** The sort name is what follows the underscores in front, in lower case. */
  lemma {:induction false} SortNameIs(name: string) returns (k: nat)
    ensures k <= |name| && (forall i | 0 <= i < k :: name[i] == '_') && (k < |name| ==> name[k] != '_')
    ensures |SortName(name)| == |name| - k
    ensures forall i | 0 <= i < |name| - k :: Lowered(name[k + i], SortName(name)[i])
  {
    k := 0;
    if name != "" && name[0] == '_' {
      var rest := name[1..];
      k := SortNameIs(rest);
      assert forall i | 0 <= i < |rest| :: name[i + 1] == rest[i];
      k := k + 1;
      assert forall i | 0 <= i < k :: name[i] == '_' by {
        forall i | 0 <= i < k ensures name[i] == '_' { if i > 0 { assert rest[i - 1] == '_'; } }
      }
    }
  }

  /** make_sname (lines 20-39). */
  method MakeSname(name: string) returns (sname: string)
    ensures sname == SortName(name)
  {
    var i := 0;
    while i < |name| && name[i] == '_'
      invariant 0 <= i <= |name| && Stripped(name) == Stripped(name[i..])
    {
      i := i + 1;
    }
    var p := name[i..];
    sname := [];
    var j := 0;
    while j < |p|
      invariant 0 <= j <= |p| && sname == AllLower(p)[..j]
    {
      sname := sname + [if 'A' <= p[j] <= 'Z' then ((p[j] as int) + 32) as char else p[j]];
      j := j + 1;
    }
  }

  class TreeNode {
    const sname: string
    var before: TreeNode?
    var after: TreeNode?
    var prev: TreeNode?
    var next: TreeNode?

    constructor (name: string)
      ensures sname == SortName(name) && before == null && after == null && prev == null && next == null
    {
      var s := MakeSname(name);
      sname := s;
      before, after, prev, next := null, null, null, null;
    }
  }

  /** The pointers of a node. */
  datatype Links = Links(before: TreeNode?, after: TreeNode?, prev: TreeNode?, next: TreeNode?)

  function At(order: seq<TreeNode>, i: int): TreeNode? {
    if 0 <= i < |order| then order[i] else null
  }

  /** A node's children and neighbours as the shape and the order give them. */
  function Due(order: seq<TreeNode>, s: Shape, k: nat): Links
    requires k < |s|
  {
    Links(At(order, s[k].before), At(order, s[k].after), At(order, k - 1), At(order, k + 1))
  }

  function Inserted(order: seq<TreeNode>, tn: TreeNode, p: nat): seq<TreeNode>
    requires p <= |order|
  {
    order[..p] + [tn] + order[p..]
  }

  ghost predicate InOrder(order: seq<TreeNode>) {
    && (forall i, j | 0 <= i < j < |order| :: order[i] != order[j])
    && (forall i, j | 0 <= i < j < |order| :: Compare(order[i].sname, order[j].sname) <= 0)
  }

  /** The names before position a are less than the key, those from b on are not. */
  ghost predicate Between(order: seq<TreeNode>, key: string, a: nat, b: nat) {
    && a <= b <= |order|
    && (forall i | 0 <= i < a :: Less(order[i].sname, key))
    && (forall i | b <= i < |order| :: !Less(order[i].sname, key))
  }

  lemma InsertedInOrder(order: seq<TreeNode>, tn: TreeNode, p: nat)
    requires InOrder(order) && Between(order, tn.sname, p, p) && tn !in order
    ensures InOrder(Inserted(order, tn, p))
  {
    var s := Inserted(order, tn, p);
    forall i, j | 0 <= i < j < |s| ensures s[i] != s[j] && Compare(s[i].sname, s[j].sname) <= 0 {
      if i == p {
        assert s[j] == order[j - 1];
        CompareSwap(tn.sname, order[j - 1].sname);
      }
    }
  }

  lemma AtMoved(order: seq<TreeNode>, tn: TreeNode, p: nat, i: int)
    requires p <= |order| && -1 <= i
    ensures At(Inserted(order, tn, p), Up(i, p)) == At(order, i)
    ensures At(Inserted(order, tn, p), p) == tn
  {
  }

  /** The pointers of the node at j with those to the new node. */
  function Rerouted(d: Links, j: nat, q: int, last: bool, p: nat, tn: TreeNode): Links {
    Links(if j == q && !last then tn else d.before, if j == q && last then tn else d.after,
          if j == p then tn else d.prev, if j == p - 1 then tn else d.next)
  }

  /** What a node is due after the insertion: what it was due, but for the new node. */
  lemma DueMoved(order: seq<TreeNode>, s: Shape, q: int, last: bool, p: nat, tn: TreeNode, j: nat)
    requires |s| == |order| && p <= |order| && j < |s| && s[j].before >= -1 && s[j].after >= -1
    ensures Due(Inserted(order, tn, p), WithLeaf(s, q, last, p), Up(j, p)) ==
      Rerouted(Due(order, s, j), j, q, last, p, tn)
  {
    assert WithLeaf(s, q, last, p)[Up(j, p)] == SpotAt(s, q, last, p, Up(j, p));
    AtMoved(order, tn, p, s[j].before);
    AtMoved(order, tn, p, s[j].after);
    AtMoved(order, tn, p, j - 1);
    AtMoved(order, tn, p, j + 1);
  }

  lemma DueNew(order: seq<TreeNode>, s: Shape, q: int, last: bool, p: nat, tn: TreeNode)
    requires |s| == |order| && p <= |order|
    ensures Due(Inserted(order, tn, p), WithLeaf(s, q, last, p), p) == Links(null, null, At(order, p - 1), At(order, p))
  {
    assert WithLeaf(s, q, last, p)[p] == SpotAt(s, q, last, p, p);
  }

  function PointersAt(n: TreeNode): Links
    reads n
  {
    Links(n.before, n.after, n.prev, n.next)
  }

  ghost predicate Linked(order: seq<TreeNode>, s: Shape, k: nat)
    requires k < |order| == |s|
    reads order[k]
  {
    PointersAt(order[k]) == Due(order, s, k)
  }

  /** Every pointer is as the shape and the order give it. */
  ghost predicate AllLinked(order: seq<TreeNode>, s: Shape)
    requires |s| == |order|
    reads order
  {
    forall k | 0 <= k < |order| :: Linked(order, s, k)
  }

  ghost predicate Relinked(order: seq<TreeNode>, s: Shape, q: int, last: bool, p: nat, tn: TreeNode, j: nat)
    requires j < |order| == |s|
    reads order[j]
  {
    PointersAt(order[j]) == Rerouted(Due(order, s, j), j, q, last, p, tn)
  }

  /** The pointers before the new node has a place in the order: what was due, rerouted. */
  ghost predicate AllRerouted(order: seq<TreeNode>, s: Shape, q: int, last: bool, p: nat, tn: TreeNode)
    requires |s| == |order|
    reads order
  {
    forall j | 0 <= j < |order| :: Relinked(order, s, q, last, p, tn, j)
  }

  lemma LinkedAfter(order: seq<TreeNode>, s: Shape, root: int, q: int, last: bool, p: nat, tn: TreeNode)
    requires |s| == |order| && p <= |order| && WellShaped(s, root) && AllRerouted(order, s, q, last, p, tn)
    requires PointersAt(tn) == Links(null, null, At(order, p - 1), At(order, p))
    ensures AllLinked(Inserted(order, tn, p), WithLeaf(s, q, last, p))
  {
    var now, t := Inserted(order, tn, p), WithLeaf(s, q, last, p);
    forall k | 0 <= k < |now| ensures Linked(now, t, k) {
      if k == p {
        DueNew(order, s, q, last, p, tn);
      } else {
        var j := if k < p then k else k - 1;
        assert now[k] == order[j] && Spans(s, j) && Parted(s, j) && Relinked(order, s, q, last, p, tn, j);
        DueMoved(order, s, q, last, p, tn, j);
      }
    }
  }

  lemma SplitAt<T>(s: seq<T>, lo: nat, c: nat, hi: nat)
    requires lo <= c < hi <= |s|
    ensures s[lo..hi] == s[lo..c] + [s[c]] + s[c + 1..hi]
  {
  }

  class Tree {
    var nodes: TreeNode?

    /** The nodes in order, and the shape of the tree over their positions. */
    ghost var order: seq<TreeNode>
    ghost var shape: Shape
    ghost var root: int

    ghost function NodeAt(i: int): TreeNode?
      reads this
    {
      At(order, i)
    }

    ghost predicate Valid()
      reads this, order
    {
      && |shape| == |order| && WellShaped(shape, root) && nodes == NodeAt(root)
      && InOrder(order) && AllLinked(order, shape)
    }

    constructor ()
      ensures Valid() && order == []
    {
      nodes := null;
      order, shape, root := [], [], -1;
    }

    /** The subtree of the place c has been reached, or a missing child: it covers the
        positions from a to b, all that are not known to be less, or not less. */
    ghost predicate Reached(c: int, a: nat, b: nat)
      requires |shape| == |order|
      reads this
    {
      a <= b <= |order| && (if a == b then c == -1 else a <= c < b && shape[c].lo == a && shape[c].hi == b)
    }

    lemma StepDown(c: nat, a: nat, b: nat)
      requires |shape| == |order| && WellShaped(shape, root) && a < b && Reached(c, a, b)
      ensures Reached(shape[c].before, a, c) && Reached(shape[c].after, c + 1, b)
    {
      assert Spans(shape, c) && Parted(shape, c);
      if shape[c].after != -1 { assert Spans(shape, shape[c].after); }
    }

    /** The nodes of the subtree at c, in order. */
    ghost function Subtree(c: nat): seq<TreeNode>
      requires Valid() && c < |order|
      reads this, order
    {
      assert Spans(shape, c);
      order[shape[c].lo..shape[c].hi]
    }

    lemma SubtreeParts(c: nat)
      requires Valid() && c < |order|
      ensures shape[c].before == -1 || 0 <= shape[c].before < |order|
      ensures shape[c].after == -1 || 0 <= shape[c].after < |order|
      ensures Subtree(c) == (if shape[c].before == -1 then [] else Subtree(shape[c].before)) + [order[c]]
        + (if shape[c].after == -1 then [] else Subtree(shape[c].after))
      ensures shape[c].before != -1 ==> |Subtree(shape[c].before)| < |Subtree(c)|
      ensures shape[c].after != -1 ==> |Subtree(shape[c].after)| < |Subtree(c)|
    {
      assert Spans(shape, c) && Parted(shape, c);
      SplitAt(order, shape[c].lo, c, shape[c].hi);
    }

    /** Traverse (lines 627-636): from a node, its whole subtree in order. */
    method Traverse(node: TreeNode, ghost c: nat) returns (visited: seq<TreeNode>)
      requires Valid() && c < |order| && order[c] == node
      ensures visited == Subtree(c)
      decreases |Subtree(c)|
    {
      SubtreeParts(c);
      assert Linked(order, shape, c);
      visited := [];
      if node.before != null { visited := Traverse(node.before, shape[c].before); }
      visited := visited + [node];
      if node.after != null {
        var rest := Traverse(node.after, shape[c].after);
        visited := visited + rest;
      }
    }

    /** Tree::Traverse (line 130): all nodes in order. */
    method TraverseAll() returns (visited: seq<TreeNode>)
      requires Valid()
      ensures visited == order
    {
      visited := [];
      if nodes != null {
        visited := Traverse(nodes, root);
        assert order[0..|order|] == order;
      }
    }

    lemma Narrow(key: string, c: nat, a: nat, b: nat)
      requires InOrder(order) && Between(order, key, a, b) && a <= c < b
      ensures Less(order[c].sname, key) ==> Between(order, key, c + 1, b)
      ensures !Less(order[c].sname, key) ==> Between(order, key, a, c)
    {
      if Less(order[c].sname, key) {
        forall i | 0 <= i < c + 1 ensures Less(order[i].sname, key) {
          if a <= i < c { LessThrough(order[i].sname, order[c].sname, key); }
        }
      } else {
        forall i | c <= i < |order| ensures !Less(order[i].sname, key) {
          if c < i < b {
            CompareSwap(order[c].sname, key);
            LessThrough(key, order[c].sname, order[i].sname);
            CompareSwap(key, order[i].sname);
          }
        }
      }
    }

    /** Where the walk of Add stands: at the place c below q, with the neighbours that a
        node put here would have. */
    ghost predicate Walk(tn: TreeNode, cur: TreeNode?, parent: TreeNode?, last: bool, c: int, q: int, a: nat, b: nat)
      requires Valid()
      reads this, order, tn
    {
      && Reached(c, a, b) && Between(order, tn.sname, a, b) && cur == NodeAt(c)
      && tn.prev == NodeAt(a - 1) && tn.next == NodeAt(b)
      && parent == NodeAt(q) && -1 <= q < |order|
      && (if q == -1 then a == 0 && b == |order|
          else if last then q + 1 == a && shape[q].hi == b
          else q == b && shape[q].lo == a)
    }

    /** One turn of the walk. */
    method Descend(tn: TreeNode, cur: TreeNode, ghost parent: TreeNode?, ghost last0: bool, ghost c: int, ghost q: int,
                   ghost a: nat, ghost b: nat)
      returns (next: TreeNode?, last: bool, ghost c': int, ghost a': nat, ghost b': nat)
      requires Valid() && tn !in order && Walk(tn, cur, parent, last0, c, q, a, b)
      modifies tn`prev, tn`next
      ensures Valid() && Walk(tn, next, cur, last, c', c, a', b') && b' - a' < b - a
    {
      StepDown(c, a, b);
      Narrow(tn.sname, c, a, b);
      assert Linked(order, shape, c);
      last := Compare(cur.sname, tn.sname) < 0;
      c', a', b' := shape[c].before, a, c;
      if last { c', a', b' := shape[c].after, c + 1, b; }
      next := if last then cur.after else cur.before;
      Pass(tn, cur, last);
    }

    /** The node just passed becomes the neighbour on its side. */
    method Pass(tn: TreeNode, cur: TreeNode, last: bool)
      requires Valid() && tn !in order
      modifies tn`prev, tn`next
      ensures Valid() && tn.prev == (if last then cur else old(tn.prev))
      ensures tn.next == (if last then old(tn.next) else cur)
    {
      if last { tn.prev := cur; } else { tn.next := cur; }
    }
  
    /** Lines 677-680: the neighbours point to the new node. */
    method LinkThread(tn: TreeNode, ghost p: nat)
      requires tn !in order && p <= |order| && tn.prev == NodeAt(p - 1) && tn.next == NodeAt(p)
      requires InOrder(order)
      modifies order
      ensures forall j | 0 <= j < |order| :: order[j].prev == if j == p then tn else old(order[j].prev)
      ensures forall j | 0 <= j < |order| :: order[j].next == if j == p - 1 then tn else old(order[j].next)
      ensures forall j | 0 <= j < |order| ::
        order[j].before == old(order[j].before) && order[j].after == old(order[j].after)
    {
      if tn.prev != null { tn.prev.next := tn; }
      if tn.next != null { tn.next.prev := tn; }
    }

    /** Line 681: so does its parent, or the tree. */
    method LinkChild(tn: TreeNode, parent: TreeNode?, last: bool, ghost q: int)
      requires tn !in order && parent == NodeAt(q) && -1 <= q < |order|
      requires InOrder(order)
      modifies this`nodes, order
      ensures nodes == if q == -1 then tn else old(nodes)
      ensures forall j | 0 <= j < |order| :: order[j].before == if j == q && !last then tn else old(order[j].before)
      ensures forall j | 0 <= j < |order| :: order[j].after == if j == q && last then tn else old(order[j].after)
      ensures forall j | 0 <= j < |order| :: order[j].prev == old(order[j].prev) && order[j].next == old(order[j].next)
    {
      if parent == null {
        nodes := tn;
      } else if last {
        parent.after := tn;
      } else {
        parent.before := tn;
      }
    }

    /** With all pointers set, the order and the shape follow. */
    ghost method Place(tn: TreeNode, last: bool, q: int, p: nat)
      requires |shape| == |order| && WellShaped(shape, root) && Free(shape, q, last, p)
      requires nodes == if q == -1 then tn else NodeAt(root)
      requires tn !in order && InOrder(order) && Between(order, tn.sname, p, p)
      requires AllRerouted(order, shape, q, last, p, tn)
      requires PointersAt(tn) == Links(null, null, NodeAt(p - 1), NodeAt(p))
      modifies this`order, this`shape, this`root
      ensures Valid() && order == Inserted(old(order), tn, p)
    {
      LeafKeepsShape(shape, root, q, last, p);
      InsertedInOrder(order, tn, p);
      AtMoved(order, tn, p, root);
      LinkedAfter(order, shape, root, q, last, p, tn);
      order, shape, root := Inserted(order, tn, p), WithLeaf(shape, q, last, p), RootWithLeaf(root, p);
    }

    method Attach(tn: TreeNode, parent: TreeNode?, last: bool, ghost q: int, ghost p: nat)
      requires Valid() && tn !in order && Walk(tn, null, parent, last, -1, q, p, p)
      requires tn.before == null && tn.after == null
      modifies this, order
      ensures Valid() && order == Inserted(old(order), tn, p)
    {
      LinkThread(tn, p);
      LinkChild(tn, parent, last, q);
      forall j | 0 <= j < |order| ensures Relinked(order, shape, q, last, p, tn, j) {
        assert old(Linked(order, shape, j));
      }
      Place(tn, last, q, p);
    }

    /** The loop of Tree::Add: down to a missing child, where the node belongs. */
    method Locate(tn: TreeNode) returns (parent: TreeNode?, last: bool, ghost q: int, ghost p: nat)
      requires Valid() && tn !in order && tn.prev == null && tn.next == null
      modifies tn`prev, tn`next
      ensures Valid() && p <= |order| && Walk(tn, null, parent, last, -1, q, p, p)
    {
      var cur := nodes;
      parent, last := null, false;
      ghost var c, b: nat := root, |order|;
      q, p := -1, 0;
      while cur != null
        invariant Valid() && Walk(tn, cur, parent, last, c, q, p, b)
        decreases b - p
      {
        var below, l, c1, a1, b1 := Descend(tn, cur, parent, last, c, q, p, b);
        parent, last, cur := cur, l, below;
        c, q, p, b := c1, c, a1, b1;
      }
    }

    /** Tree::Add: the node goes before all whose names are not less than its own. */
    method Add(tn: TreeNode) returns (ghost p: nat)
      requires Valid() && tn !in order
      requires tn.before == null && tn.after == null && tn.prev == null && tn.next == null
      modifies this, tn, order
      ensures Valid() && p <= |old(order)| && order == Inserted(old(order), tn, p)
      ensures Between(old(order), tn.sname, p, p)
    {
      var parent, last;
      ghost var q;
      parent, last, q, p := Locate(tn);
      Attach(tn, parent, last, q, p);
    }

    /** No two nodes have the same name. */
    ghost predicate Strict()
      reads this
    {
      forall i, j | 0 <= i < j < |order| :: order[i].sname != order[j].sname
    }

    ghost predicate Holds(sname: string)
      reads this
    {
      exists i :: 0 <= i < |order| && order[i].sname == sname
    }

    /** The walk of lines 688-702. */
    method Search(sname: string) returns (tn: TreeNode?)
      requires Valid()
      ensures tn != null ==> tn in order && tn.sname == sname
      ensures tn == null <==> !Holds(sname)
    {
      tn := nodes;
      ghost var c := root;
      ghost var a: nat, b: nat := 0, |order|;
      var found := false;
      while tn != null && !found
        invariant Reached(c, a, b) && tn == NodeAt(c) && Between(order, sname, a, b)
        invariant forall i | b <= i < |order| :: order[i].sname != sname
        invariant found ==> tn != null && tn.sname == sname
        decreases b - a, !found
      {
        StepDown(c, a, b);
        Narrow(sname, c, a, b);
        assert Linked(order, shape, c);
        CompareEqual(tn.sname, sname);
        var sign := Compare(tn.sname, sname);
        if sign == 0 {
          found := true;
        } else if sign > 0 {
          NotAfter(sname, c);
          tn := tn.before;
          c, b := shape[c].before, c;
        } else {
          tn := tn.after;
          c, a := shape[c].after, c + 1;
        }
      }
      if tn == null { NotBefore(sname, a); }
    }

    lemma NotAfter(sname: string, c: nat)
      requires InOrder(order) && c < |order| && Compare(order[c].sname, sname) > 0
      ensures forall i | c <= i < |order| :: order[i].sname != sname
    {
      forall i | c <= i < |order| ensures order[i].sname != sname {
        if i > c { assert Compare(order[c].sname, order[i].sname) <= 0; }
        CompareEqual(order[c].sname, sname);
      }
    }

    lemma NotBefore(sname: string, a: nat)
      requires Between(order, sname, a, a)
      ensures forall i | 0 <= i < a :: order[i].sname != sname
    {
      forall i | 0 <= i < a ensures order[i].sname != sname {
        CompareEqual(order[i].sname, sname);
      }
    }

    /** Tree::Find: a node with the name, a new one only if there is none; so no name
        comes twice where there was none twice. */
    method Find(name: string) returns (tn: TreeNode)
      requires Valid()
      modifies this, order
      ensures Valid() && tn in order && tn.sname == SortName(name)
      ensures old(Holds(SortName(name))) ==> order == old(order)
      ensures !old(Holds(SortName(name))) ==> fresh(tn) && exists p: nat ::
        p <= |old(order)| && order == Inserted(old(order), tn, p)
      ensures old(Strict()) ==> Strict()
    {
      var sname := MakeSname(name);
      var t := Search(sname);
      if t != null { return t; }
      tn := new TreeNode(name);
      ghost var p := Add(tn);
      assert order[p] == tn;
    }
  }
}
