/**
 * The shape of the arena that `load_tree` builds, stated as predicates, and
 * what appending one entry node does to it. These are the invariants the
 * tree builder (src/tree.rs:162-269) keeps after every line.
 */
module TreeShape {
  import opened Wrappers
  import opened TreeNodes

  /** The depths of the nodes, in arena (= input) order. */
  function Depths(ns: seq<TreeNode>): (ds: seq<nat>)
    ensures |ds| == |ns|
  {
    seq(|ns|, i requires 0 <= i < |ns| => ns[i].depth)
  }

  /** The last position of `ds` that holds `t`, if any. */
  function LastAt(ds: seq<nat>, t: nat): (r: Option<nat>)
    ensures r.None? <==> forall k :: 0 <= k < |ds| ==> ds[k] != t
    ensures r.Some? ==>
      r.value < |ds| && ds[r.value] == t && (forall k :: r.value < k < |ds| ==> ds[k] != t)
  {
    if ds == [] then None
    else if ds[|ds| - 1] == t then Some(|ds| - 1)
    else LastAt(ds[..|ds| - 1], t)
  }

  /**
   * Node `k` is linked to its parent: the root (node 0) is at depth 0 with no
   * parent; any other node names an earlier parent one level shallower,
   * whose child list contains it.
   */
  ghost predicate ParentLink(ns: seq<TreeNode>, k: nat)
    requires k < |ns|
  {
    if k == 0 then ns[0].depth == 0 && ns[0].parent == None
    else
      ns[k].parent.Some? && ns[k].parent.value < k &&
      ns[k].depth == ns[ns[k].parent.value].depth + 1 &&
      k in ns[ns[k].parent.value].children
  }

  /** Node `i`'s child list is strictly increasing and names only later nodes whose parent is `i`. */
  ghost predicate ChildLinks(ns: seq<TreeNode>, i: nat)
    requires i < |ns|
  {
    var cs := ns[i].children;
    (forall j :: 0 <= j < |cs| ==> i < cs[j] < |ns| && ns[cs[j]].parent == Some(i)) &&
    (forall j1, j2 :: 0 <= j1 < j2 < |cs| ==> cs[j1] < cs[j2])
  }

  /**
   * A tree over the arena: parent and child links agree, every child list
   * is in increasing (= input) order, and the root is node 0.
   */
  ghost predicate IsTree(ns: seq<TreeNode>) {
    |ns| >= 1 && ChildrenAfter(ns) &&
    (forall k :: 0 <= k < |ns| ==> ParentLink(ns, k)) &&
    (forall i :: 0 <= i < |ns| ==> ChildLinks(ns, i))
  }

  /** Each non-root node hangs under the latest earlier node one level shallower. */
  ghost predicate ParentsFollowDepths(ns: seq<TreeNode>)
    requires IsTree(ns)
  {
    forall k :: 0 < k < |ns| ==> FollowsDepths(ns, k)
  }

  /** Node `k` hangs under the latest node before it that is one level shallower. */
  ghost predicate FollowsDepths(ns: seq<TreeNode>, k: nat)
    requires 0 < k < |ns|
  {
    ns[k].depth >= 1 && ns[k].parent == LastAt(Depths(ns)[..k], ns[k].depth - 1)
  }

  /**
   * `sp` is the path from the root to the newest node: `sp[j]` is at depth
   * `j`, each is the parent and the last child of its neighbours on the
   * path, and every node after `sp[j]` is deeper than `j`.
   */
  ghost predicate Spine(ns: seq<TreeNode>, sp: seq<nat>) {
    |ns| >= 1 && |sp| == ns[|ns| - 1].depth + 1 && sp[0] == 0 && sp[|sp| - 1] == |ns| - 1 &&
    (forall j :: 0 <= j < |sp| ==> sp[j] < |ns| && ns[sp[j]].depth == j) &&
    (forall j :: 0 < j < |sp| ==> ns[sp[j]].parent == Some(sp[j - 1])) &&
    (forall j, k :: 0 <= j < |sp| && sp[j] < k < |ns| ==> ns[k].depth > j) &&
    (forall j :: 0 <= j < |sp| - 1 ==>
       ns[sp[j]].children != [] && ns[sp[j]].children[|ns[sp[j]].children| - 1] == sp[j + 1])
  }

  /** Node `i` is on the path `sp`, at the position of its depth. */
  predicate OnPath(ns: seq<TreeNode>, sp: seq<nat>, i: nat)
    requires i < |ns|
  {
    ns[i].depth < |sp| && sp[ns[i].depth] == i
  }

  /** The blocks that reach the end of the arena are exactly those of the path nodes. */
  ghost predicate EndsOnSpine(ns: seq<TreeNode>, sp: seq<nat>, ends: seq<nat>)
    requires |ends| == |ns|
  {
    forall i :: 0 <= i < |ns| ==> (ends[i] == |ns| <==> OnPath(ns, sp, i))
  }

  ghost predicate Inv(ns: seq<TreeNode>, sp: seq<nat>, ends: seq<nat>) {
    IsTree(ns) && ParentsFollowDepths(ns) && Spine(ns, sp) &&
    Intervals(ns, ends) && EndsOnSpine(ns, sp, ends)
  }

  /** The arena after node `|ns|` = `n` is appended as the last child of `p`. */
  function Attach(ns: seq<TreeNode>, p: nat, n: TreeNode): (r: seq<TreeNode>)
    requires p < |ns|
    ensures |r| == |ns| + 1 && r[|ns|] == n
    ensures r[p].children == ns[p].children + [|ns|]
    ensures forall i :: 0 <= i < |ns| && i != p ==> r[i] == ns[i]
    ensures r[p] == ns[p].(children := ns[p].children + [|ns|])
  {
    ns[p := ns[p].(children := ns[p].children + [|ns|])] + [n]
  }

  /** The path to a new node at depth `d`: the old path down to depth `d - 1`, then the new node. */
  function NewSpine(sp: seq<nat>, d: nat, n: nat): (r: seq<nat>)
    requires d <= |sp|
    ensures |r| == d + 1 && r[d] == n && forall j :: 0 <= j < d ==> r[j] == sp[j]
  {
    sp[..d] + [n]
  }

  /** The block ends after the append: the path nodes above depth `d` and the new node end one later. */
  function NewEnds(ns: seq<TreeNode>, ends: seq<nat>, sp: seq<nat>, d: nat): (r: seq<nat>)
    requires |ends| == |ns|
    ensures |r| == |ends| + 1
    ensures r[|ns|] == |ns| + 1
    ensures forall i :: 0 <= i < |ns| ==>
      r[i] == if OnPath(ns, sp, i) && ns[i].depth < d then |ns| + 1 else ends[i]
  {
    seq(|ends| + 1, i requires 0 <= i <= |ends| =>
      if i == |ends| || (OnPath(ns, sp, i) && ns[i].depth < d) then |ends| + 1 else ends[i])
  }

  /** On the path, the node at depth `j` is the latest node of depth `j`. */
  lemma SpineIsLastAt(ns: seq<TreeNode>, sp: seq<nat>, j: nat)
    requires Spine(ns, sp) && j < |sp|
    ensures LastAt(Depths(ns), j) == Some(sp[j])
  {
    var ds := Depths(ns);
    assert ds[sp[j]] == j;
    assert forall k :: sp[j] < k < |ds| ==> ds[k] != j;
  }

  lemma {:induction false} AttachIsTree(ns: seq<TreeNode>, p: nat, n: TreeNode)
    requires IsTree(ns) && p < |ns|
    requires n.depth == ns[p].depth + 1 && n.parent == Some(p) && n.children == []
    ensures IsTree(Attach(ns, p, n))
  {
    var r := Attach(ns, p, n);
    var N := |ns|;
    forall k | 0 <= k < |r|
      ensures ParentLink(r, k)
    {
      if k < N {
        assert ParentLink(ns, k);
        if k > 0 {
          var q := ns[k].parent.value;
          assert r[q].children == ns[q].children || r[q].children == ns[q].children + [N];
        }
      }
    }
    forall i | 0 <= i < |r|
      ensures ChildLinks(r, i)
    {
      if i < N {
        assert ChildLinks(ns, i);
      }
    }
    forall i, j | 0 <= i < |r| && 0 <= j < |r[i].children|
      ensures i < r[i].children[j] < |r|
    {
      assert ChildLinks(r, i);
    }
  }

  lemma AttachDepths(ns: seq<TreeNode>, p: nat, n: TreeNode, k: nat)
    requires p < |ns| && k <= |ns|
    ensures Depths(Attach(ns, p, n))[..k] == Depths(ns)[..k]
  {
    var r := Attach(ns, p, n);
    assert forall i :: 0 <= i < k ==> r[i].depth == ns[i].depth;
  }

  lemma {:induction false} AttachParents(ns: seq<TreeNode>, p: nat, n: TreeNode)
    requires IsTree(ns) && ParentsFollowDepths(ns) && p < |ns|
    requires n.depth == ns[p].depth + 1 && n.parent == Some(p) && n.children == []
    requires n.parent == LastAt(Depths(ns), n.depth - 1)
    ensures IsTree(Attach(ns, p, n)) && ParentsFollowDepths(Attach(ns, p, n))
  {
    var r := Attach(ns, p, n);
    AttachIsTree(ns, p, n);
    forall k | 0 < k < |r|
      ensures FollowsDepths(r, k)
    {
      AttachDepths(ns, p, n, k);
      if k < |ns| {
        assert r[k].parent == ns[k].parent && r[k].depth == ns[k].depth;
        assert FollowsDepths(ns, k) && ParentLink(ns, k);
      } else {
        assert Depths(ns)[..k] == Depths(ns);
      }
    }
  }

  /** After the append, every node on the new path sits at the depth of its position. */
  lemma AttachSpineDepths(ns: seq<TreeNode>, sp: seq<nat>, d: nat, n: TreeNode)
    requires IsTree(ns) && Spine(ns, sp) && 1 <= d <= |sp|
    requires n.depth == d && n.parent == Some(sp[d - 1])
    ensures var r, sp' := Attach(ns, sp[d - 1], n), NewSpine(sp, d, |ns|);
      forall j :: 0 <= j < |sp'| ==> sp'[j] < |r| && r[sp'[j]].depth == j
  {
    var r, sp' := Attach(ns, sp[d - 1], n), NewSpine(sp, d, |ns|);
    forall j | 0 <= j < |sp'|
      ensures sp'[j] < |r| && r[sp'[j]].depth == j
    {
      if j < d {
        assert sp'[j] == sp[j];
      }
    }
  }

  /** After the append, each node on the new path has the previous one as its parent. */
  lemma AttachSpineParents(ns: seq<TreeNode>, sp: seq<nat>, d: nat, n: TreeNode)
    requires IsTree(ns) && Spine(ns, sp) && 1 <= d <= |sp|
    requires n.depth == d && n.parent == Some(sp[d - 1])
    ensures var r, sp' := Attach(ns, sp[d - 1], n), NewSpine(sp, d, |ns|);
      forall j :: 0 < j < |sp'| ==> r[sp'[j]].parent == Some(sp'[j - 1])
  {
    var r, sp' := Attach(ns, sp[d - 1], n), NewSpine(sp, d, |ns|);
    forall j | 0 < j < |sp'|
      ensures r[sp'[j]].parent == Some(sp'[j - 1])
    {
      if j < d {
        assert sp'[j] == sp[j] && sp'[j - 1] == sp[j - 1];
      }
    }
  }

  /** After the append, every node after a path node is deeper than it. */
  lemma AttachSpineBelow(ns: seq<TreeNode>, sp: seq<nat>, d: nat, n: TreeNode)
    requires IsTree(ns) && Spine(ns, sp) && 1 <= d <= |sp|
    requires n.depth == d && n.parent == Some(sp[d - 1])
    ensures var r, sp' := Attach(ns, sp[d - 1], n), NewSpine(sp, d, |ns|);
      forall j, k :: 0 <= j < |sp'| && sp'[j] < k < |r| ==> r[k].depth > j
  {
    var r, sp' := Attach(ns, sp[d - 1], n), NewSpine(sp, d, |ns|);
    forall j, k | 0 <= j < |sp'| && sp'[j] < k < |r|
      ensures r[k].depth > j
    {
      if j < d {
        assert sp'[j] == sp[j];
      }
    }
  }

  /** After the append, each node on the new path has the next one as its last child. */
  lemma AttachSpineLastChild(ns: seq<TreeNode>, sp: seq<nat>, d: nat, n: TreeNode)
    requires IsTree(ns) && Spine(ns, sp) && 1 <= d <= |sp|
    requires n.depth == d && n.parent == Some(sp[d - 1])
    ensures var r, sp' := Attach(ns, sp[d - 1], n), NewSpine(sp, d, |ns|);
      forall j :: 0 <= j < |sp'| - 1 ==>
        r[sp'[j]].children != [] && r[sp'[j]].children[|r[sp'[j]].children| - 1] == sp'[j + 1]
  {
    var r, sp' := Attach(ns, sp[d - 1], n), NewSpine(sp, d, |ns|);
    assert ns[sp[d - 1]].depth == d - 1;
    forall j | 0 <= j < |sp'| - 1
      ensures r[sp'[j]].children != [] && r[sp'[j]].children[|r[sp'[j]].children| - 1] == sp'[j + 1]
    {
      assert sp'[j] == sp[j];
      if j < d - 1 {
        assert sp'[j + 1] == sp[j + 1];
        assert ns[sp[j]].depth == j;
      }
    }
  }

  /** Attaching a node of depth `d` under the path node of depth `d - 1` makes the path end at the new node. */
  lemma AttachSpine(ns: seq<TreeNode>, sp: seq<nat>, d: nat, n: TreeNode)
    requires IsTree(ns) && Spine(ns, sp) && 1 <= d <= |sp|
    requires n.depth == d && n.parent == Some(sp[d - 1])
    ensures Spine(Attach(ns, sp[d - 1], n), NewSpine(sp, d, |ns|))
  {
    AttachSpineDepths(ns, sp, d, n);
    AttachSpineParents(ns, sp, d, n);
    AttachSpineBelow(ns, sp, d, n);
    AttachSpineLastChild(ns, sp, d, n);
  }

  /** On the path, a node with children has the next path node as its last child. */
  lemma PathLastChild(ns: seq<TreeNode>, sp: seq<nat>, i: nat)
    requires IsTree(ns) && Spine(ns, sp) && i < |ns| && OnPath(ns, sp, i) && ns[i].children != []
    ensures ns[i].depth + 1 < |sp|
    ensures ns[i].children[|ns[i].children| - 1] == sp[ns[i].depth + 1]
    ensures OnPath(ns, sp, sp[ns[i].depth + 1])
  {
    assert ChildLinks(ns, i);
    assert ns[i].children[0] > i;
  }

  /** Facts the block lemmas below share. */
  ghost predicate Before(ns: seq<TreeNode>, sp: seq<nat>, ends: seq<nat>, d: nat) {
    IsTree(ns) && Spine(ns, sp) && Intervals(ns, ends) && EndsOnSpine(ns, sp, ends) && 1 <= d <= |sp|
  }

  /** A middle child's block ends before the last node, so that child is off the path and keeps its end. */
  lemma MiddleChildKeepsEnd(ns: seq<TreeNode>, sp: seq<nat>, ends: seq<nat>, d: nat, i: nat, j: nat)
    requires Before(ns, sp, ends, d) && i < |ns| && 0 <= j < |ns[i].children| - 1
    ensures NewEnds(ns, ends, sp, d)[ns[i].children[j]] == ns[i].children[j + 1]
  {
    var cs := ns[i].children;
    assert Block(ns, ends, i);
    assert Block(ns, ends, cs[j + 1]);
    assert ends[cs[j]] == cs[j + 1] < |ns|;
  }

  /** The block of a node other than the new node's parent, after the append. */
  lemma BlockOfOther(ns: seq<TreeNode>, sp: seq<nat>, ends: seq<nat>, d: nat, n: TreeNode, i: nat)
    requires Before(ns, sp, ends, d) && i < |ns| && i != sp[d - 1]
    requires ChildrenAfter(Attach(ns, sp[d - 1], n))
    ensures Block(Attach(ns, sp[d - 1], n), NewEnds(ns, ends, sp, d), i)
  {
    var r := Attach(ns, sp[d - 1], n);
    var e := NewEnds(ns, ends, sp, d);
    var cs := ns[i].children;
    assert r[i] == ns[i];
    assert Block(ns, ends, i);
    forall j | 0 <= j < |cs| - 1
      ensures e[cs[j]] == cs[j + 1]
    {
      MiddleChildKeepsEnd(ns, sp, ends, d, i, j);
    }
    if cs != [] {
      var c := cs[|cs| - 1];
      assert ChildLinks(ns, i);
      assert ParentLink(ns, c);
      assert ns[c].depth == ns[i].depth + 1;
      if OnPath(ns, sp, i) {
        PathLastChild(ns, sp, i);
      }
      assert e[c] == e[i];
    } else {
      assert Block(ns, ends, |ns| - 1);
      assert OnPath(ns, sp, i) ==> i == |ns| - 1;
    }
  }

  /** The block of the new node's parent, after the append: its last child is now the new node. */
  lemma BlockOfParent(ns: seq<TreeNode>, sp: seq<nat>, ends: seq<nat>, d: nat, n: TreeNode)
    requires Before(ns, sp, ends, d)
    requires ChildrenAfter(Attach(ns, sp[d - 1], n))
    ensures Block(Attach(ns, sp[d - 1], n), NewEnds(ns, ends, sp, d), sp[d - 1])
  {
    if ns[sp[d - 1]].children == [] {
      BlockOfLeafParent(ns, sp, ends, d, n);
    } else {
      BlockOfInnerParent(ns, sp, ends, d, n);
    }
  }

  /** A parent without children before the append is the newest node, and its block grows by the new node. */
  lemma BlockOfLeafParent(ns: seq<TreeNode>, sp: seq<nat>, ends: seq<nat>, d: nat, n: TreeNode)
    requires Before(ns, sp, ends, d) && ns[sp[d - 1]].children == []
    requires ChildrenAfter(Attach(ns, sp[d - 1], n))
    ensures Block(Attach(ns, sp[d - 1], n), NewEnds(ns, ends, sp, d), sp[d - 1])
  {
    var p := sp[d - 1];
    var e := NewEnds(ns, ends, sp, d);
    var N := |ns|;
    assert OnPath(ns, sp, p);
    assert e[p] == N + 1 && e[N] == N + 1;
    assert p == N - 1;
  }

  /** A parent with children keeps their blocks except the last one's, which now runs up to the new node. */
  lemma BlockOfInnerParent(ns: seq<TreeNode>, sp: seq<nat>, ends: seq<nat>, d: nat, n: TreeNode)
    requires Before(ns, sp, ends, d) && ns[sp[d - 1]].children != []
    requires ChildrenAfter(Attach(ns, sp[d - 1], n))
    ensures Block(Attach(ns, sp[d - 1], n), NewEnds(ns, ends, sp, d), sp[d - 1])
  {
    var p := sp[d - 1];
    var e := NewEnds(ns, ends, sp, d);
    var cs := ns[p].children;
    var N := |ns|;
    assert OnPath(ns, sp, p);
    assert Block(ns, ends, p);
    assert e[p] == N + 1 && e[N] == N + 1;
    forall j | 0 <= j < |cs| - 1
      ensures e[cs[j]] == cs[j + 1]
    {
      MiddleChildKeepsEnd(ns, sp, ends, d, p, j);
    }
    PathLastChild(ns, sp, p);
    assert e[cs[|cs| - 1]] == N;
  }

  /** The block of node `i` after the append, given the blocks before it. */
  lemma AttachBlock(ns: seq<TreeNode>, sp: seq<nat>, ends: seq<nat>, d: nat, n: TreeNode, i: nat)
    requires Before(ns, sp, ends, d) && i <= |ns| && n.children == []
    requires ChildrenAfter(Attach(ns, sp[d - 1], n))
    ensures Block(Attach(ns, sp[d - 1], n), NewEnds(ns, ends, sp, d), i)
  {
    if i == |ns| {
    } else if i == sp[d - 1] {
      BlockOfParent(ns, sp, ends, d, n);
    } else {
      BlockOfOther(ns, sp, ends, d, n, i);
    }
  }

  /** After the append, exactly the new path's blocks reach the new end. */
  lemma AttachEnd(ns: seq<TreeNode>, sp: seq<nat>, ends: seq<nat>, d: nat, n: TreeNode, i: nat)
    requires Before(ns, sp, ends, d) && i <= |ns| && n.depth == d
    ensures var e := NewEnds(ns, ends, sp, d);
      i < e[i] <= |ns| + 1 &&
      (e[i] == |ns| + 1 <==> OnPath(Attach(ns, sp[d - 1], n), NewSpine(sp, d, |ns|), i))
  {
    var r := Attach(ns, sp[d - 1], n);
    if i < |ns| {
      assert Block(ns, ends, i);
      assert r[i].depth == ns[i].depth;
    }
  }

  /** After the append, every child still lies inside its parent's block. */
  lemma AttachChildInBlock(ns: seq<TreeNode>, sp: seq<nat>, ends: seq<nat>, d: nat, n: TreeNode, i: nat, j: nat)
    requires Before(ns, sp, ends, d) && n.children == []
    requires i <= |ns| && j < |Attach(ns, sp[d - 1], n)[i].children|
    ensures Attach(ns, sp[d - 1], n)[i].children[j] < NewEnds(ns, ends, sp, d)[i]
  {
    var p := sp[d - 1];
    var r := Attach(ns, p, n);
    if i == p && j == |ns[p].children| {
      assert OnPath(ns, sp, p);
    } else {
      assert r[i].children[j] == ns[i].children[j];
    }
  }

  lemma {:induction false} AttachIntervals(ns: seq<TreeNode>, sp: seq<nat>, ends: seq<nat>, d: nat, n: TreeNode)
    requires Before(ns, sp, ends, d)
    requires n.depth == d && n.parent == Some(sp[d - 1]) && n.children == []
    ensures Intervals(Attach(ns, sp[d - 1], n), NewEnds(ns, ends, sp, d))
    ensures EndsOnSpine(Attach(ns, sp[d - 1], n), NewSpine(sp, d, |ns|), NewEnds(ns, ends, sp, d))
  {
    var p := sp[d - 1];
    var r := Attach(ns, p, n);
    var e := NewEnds(ns, ends, sp, d);
    assert ns[p].depth == d - 1;
    AttachIsTree(ns, p, n);
    forall i | 0 <= i < |r|
      ensures i < e[i] <= |r|
      ensures e[i] == |r| <==> OnPath(r, NewSpine(sp, d, |ns|), i)
    {
      AttachEnd(ns, sp, ends, d, n, i);
    }
    forall i, j | 0 <= i < |r| && 0 <= j < |r[i].children|
      ensures r[i].children[j] < e[i]
    {
      AttachChildInBlock(ns, sp, ends, d, n, i, j);
    }
    forall i | 0 <= i < |r|
      ensures Block(r, e, i)
    {
      AttachBlock(ns, sp, ends, d, n, i);
    }
  }

  /** Appending an entry node under the path node one level shallower keeps every invariant. */
  lemma AttachKeepsInv(ns: seq<TreeNode>, sp: seq<nat>, ends: seq<nat>, d: nat, n: TreeNode)
    requires Inv(ns, sp, ends) && 1 <= d <= |sp|
    requires n.depth == d && n.parent == Some(sp[d - 1]) && n.children == []
    ensures sp[d - 1] < |ns|
    ensures Inv(Attach(ns, sp[d - 1], n), NewSpine(sp, d, |ns|), NewEnds(ns, ends, sp, d))
  {
    SpineIsLastAt(ns, sp, d - 1);
    AttachParents(ns, sp[d - 1], n);
    AttachSpine(ns, sp, d, n);
    AttachIntervals(ns, sp, ends, d, n);
  }

  /** The nodes among the first `k` whose parent is `i`, in arena order. */
  function ChildrenOf(ns: seq<TreeNode>, i: nat, k: nat): (cs: seq<nat>)
    requires k <= |ns|
    ensures forall j :: 0 <= j < |cs| ==> cs[j] < k && ns[cs[j]].parent == Some(i)
    ensures forall c :: 0 <= c < k && ns[c].parent == Some(i) ==> c in cs
    ensures forall j1, j2 :: 0 <= j1 < j2 < |cs| ==> cs[j1] < cs[j2]
  {
    if k == 0 then []
    else ChildrenOf(ns, i, k - 1) + (if ns[k - 1].parent == Some(i) then [k - 1] else [])
  }

  /** Two strictly increasing sequences with the same elements are equal. */
  lemma {:induction false} IncreasingSameElements(a: seq<nat>, b: seq<nat>)
    requires forall j1, j2 :: 0 <= j1 < j2 < |a| ==> a[j1] < a[j2]
    requires forall j1, j2 :: 0 <= j1 < j2 < |b| ==> b[j1] < b[j2]
    requires forall x :: x in a <==> x in b
    ensures a == b
    decreases |a| + |b|
  {
    assert a != [] ==> a[0] in b;
    assert b != [] ==> b[0] in a;
    if a != [] && b != [] {
      assert a[0] == b[0];
      forall x
        ensures x in a[1..] <==> x in b[1..]
      {
        if x in a[1..] {
          assert x in b && x != b[0];
        }
        if x in b[1..] {
          assert x in a && x != a[0];
        }
      }
      IncreasingSameElements(a[1..], b[1..]);
    }
  }

  /**
   * In a tree, the child list of node `i` is exactly the nodes whose parent
   * is `i`, in arena order; so `len` counts them.
   */
  lemma ChildrenAreChildrenOf(ns: seq<TreeNode>, i: nat)
    requires IsTree(ns) && i < |ns|
    ensures ns[i].children == ChildrenOf(ns, i, |ns|)
    ensures Len(ns, i) == |ChildrenOf(ns, i, |ns|)|
  {
    var a, b := ns[i].children, ChildrenOf(ns, i, |ns|);
    assert ChildLinks(ns, i);
    forall x
      ensures x in a <==> x in b
    {
      if x in b {
        assert ParentLink(ns, 0) && ParentLink(ns, x);
      }
    }
    IncreasingSameElements(a, b);
  }
}
