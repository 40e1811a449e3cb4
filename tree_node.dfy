/**
 * `TreeNode` and its operations (src/tree.rs:23-90), over an arena.
 *
 * The original links nodes with `Rc<RefCell<TreeNode>>` children and a
 * parent back-pointer. Here every node lives at an index of one sequence
 * `ns: seq<TreeNode>`; a child or a parent is that index. The node at index
 * 0 is the root.
 */
module TreeNodes {
  import opened Wrappers

  /** `visible` stands for `ui_info.visible`, the flag the outline view toggles. */
  datatype TreeNode = TreeNode(
    value: Option<string>,
    depth: nat,
    children: seq<nat>,
    parent: Option<nat>,
    visible: bool)

  /** `TreeNode::new`: a node with no children, no parent, and its flag off. */
  function NewTreeNode(value: Option<string>, depth: nat): (n: TreeNode)
    ensures n.value == value && n.depth == depth
    ensures n.children == [] && n.parent == None && !n.visible
  {
    TreeNode(value, depth, [], None, false)
  }

  /** Every child index points past its parent and into the arena. */
  ghost predicate ChildrenAfter(ns: seq<TreeNode>) {
    forall i, j :: 0 <= i < |ns| && 0 <= j < |ns[i].children| ==> i < ns[i].children[j] < |ns|
  }

  /** The child `c` is present and carries the value `Some(value)`. */
  predicate Labelled(ns: seq<TreeNode>, c: nat, value: string) {
    c < |ns| && ns[c].value == Some(value)
  }

  /**
   * `get_child`: the first child, in child order, whose value is
   * `Some(value)`; children without a value are skipped.
   */
  method GetChild(ns: seq<TreeNode>, i: nat, value: string) returns (r: Option<nat>)
    requires i < |ns|
    requires forall j :: 0 <= j < |ns[i].children| ==> ns[i].children[j] < |ns|
    ensures r.None? <==> forall j :: 0 <= j < |ns[i].children| ==> !Labelled(ns, ns[i].children[j], value)
    ensures r.Some? ==>
      exists j :: 0 <= j < |ns[i].children| && ns[i].children[j] == r.value &&
        Labelled(ns, ns[i].children[j], value) &&
        (forall k :: 0 <= k < j ==> !Labelled(ns, ns[i].children[k], value))
  {
    var cs := ns[i].children;
    var k := 0;
    while k < |cs|
      invariant 0 <= k <= |cs|
      invariant forall j :: 0 <= j < k ==> !Labelled(ns, cs[j], value)
    {
      match ns[cs[k]].value {
        case Some(childValue) =>
          if childValue == value {
            return Some(cs[k]);
          }
        case None =>
      }
      k := k + 1;
    }
    return None;
  }

  /** `len`: the number of children of node `i`. */
  function Len(ns: seq<TreeNode>, i: nat): (n: nat)
    requires i < |ns|
    ensures n == |ns[i].children|
  {
    |ns[i].children|
  }

  /** `"--".repeat(k)` */
  function Dashes(k: nat): (s: string)
    ensures |s| == 2 * k && forall j :: 0 <= j < |s| ==> s[j] == '-'
  {
    if k == 0 then "" else "--" + Dashes(k - 1)
  }

  /** The line `Display` writes for one node itself: `"+{dashes} {value}\n"`, or nothing when it has no value. */
  function NodeLine(n: TreeNode): (line: string)
    ensures n.value.None? ==> line == ""
    ensures n.value.Some? ==>
      |line| == 2 * n.depth + |n.value.value| + 3 && line[0] == '+' && line[|line| - 1] == '\n'
  {
    if n.value.Some? then "+" + Dashes(n.depth) + " " + n.value.value + "\n" else ""
  }

  /**
   * `Display for TreeNode`: the node's own line, then each child's
   * display in child order.
   */
  function Render(ns: seq<TreeNode>, i: nat): (out: string)
    requires ChildrenAfter(ns) && i < |ns|
    ensures NodeLine(ns[i]) <= out
    decreases |ns| - i, 1, 0
  {
    NodeLine(ns[i]) + RenderAll(ns, ns[i].children, i)
  }

  /** The displays of the children `cs` of a node at index `bound`, concatenated. */
  function RenderAll(ns: seq<TreeNode>, cs: seq<nat>, bound: nat): string
    requires ChildrenAfter(ns)
    requires forall j :: 0 <= j < |cs| ==> bound < cs[j] < |ns|
    decreases |ns| - bound, 0, |cs|
  {
    if cs == [] then "" else Render(ns, cs[0]) + RenderAll(ns, cs[1..], bound)
  }

  /** The lines of the nodes of `ns`, in arena order. */
  function Lines(ns: seq<TreeNode>): string {
    if ns == [] then "" else NodeLine(ns[0]) + Lines(ns[1..])
  }

  lemma {:induction false} LinesAppend(s: seq<TreeNode>, t: seq<TreeNode>)
    ensures Lines(s + t) == Lines(s) + Lines(t)
  {
    if s != [] {
      assert (s + t)[1..] == s[1..] + t;
      LinesAppend(s[1..], t);
    } else {
      assert s + t == t;
    }
  }

  /** The lines of two adjacent slices of the arena are the lines of their union. */
  lemma LinesSplit(ns: seq<TreeNode>, a: nat, b: nat, c: nat)
    requires a <= b <= c <= |ns|
    ensures Lines(ns[a..c]) == Lines(ns[a..b]) + Lines(ns[b..c])
  {
    assert ns[a..b] + ns[b..c] == ns[a..c];
    LinesAppend(ns[a..b], ns[b..c]);
  }

  /** The strings `ss`, one after another. */
  function Concat(ss: seq<string>): string {
    if ss == [] then "" else ss[0] + Concat(ss[1..])
  }

  /** The line of each node, in arena order. */
  function NodeLines(ns: seq<TreeNode>): (ls: seq<string>)
    ensures |ls| == |ns| && forall j :: 0 <= j < |ns| ==> ls[j] == NodeLine(ns[j])
  {
    seq(|ns|, j requires 0 <= j < |ns| => NodeLine(ns[j]))
  }

  /** The lines of the arena are its nodes' lines, one after another. */
  lemma {:induction false} LinesAreConcat(ns: seq<TreeNode>)
    ensures Lines(ns) == Concat(NodeLines(ns))
    decreases |ns|
  {
    if ns != [] {
      LinesAreConcat(ns[1..]);
      assert NodeLines(ns)[1..] == NodeLines(ns[1..]);
    }
  }

  /**
   * The subtree of node `i` is the block of indices `[i, ends[i])`: the
   * first child (if any) comes right after `i`, each child's block ends
   * where the next child starts, and the last child's block ends where the
   * parent's does.
   */
  ghost predicate Block(ns: seq<TreeNode>, ends: seq<nat>, i: nat)
    requires ChildrenAfter(ns) && |ends| == |ns| && i < |ns|
  {
    var cs := ns[i].children;
    i < ends[i] <= |ns| &&
    (cs == [] ==> ends[i] == i + 1) &&
    (cs != [] ==> cs[0] == i + 1 && ends[cs[|cs| - 1]] == ends[i]) &&
    (forall j :: 0 <= j < |cs| - 1 ==> ends[cs[j]] == cs[j + 1]) &&
    (forall j :: 0 <= j < |cs| ==> cs[j] < ends[i])
  }

  /** The arena is laid out in pre-order, with `ends` giving each subtree's block. */
  ghost predicate Intervals(ns: seq<TreeNode>, ends: seq<nat>) {
    ChildrenAfter(ns) && |ends| == |ns| &&
    (forall i :: 0 <= i < |ns| ==> i < ends[i] <= |ns|) &&
    (forall i, j :: 0 <= i < |ns| && 0 <= j < |ns[i].children| ==> ns[i].children[j] < ends[i]) &&
    (forall i :: 0 <= i < |ns| ==> Block(ns, ends, i))
  }

  /**
   * In an arena laid out in pre-order, the display of a node lists the
   * nodes of its block in arena order.
   */
  lemma {:induction false} RenderIsPreorder(ns: seq<TreeNode>, ends: seq<nat>, i: nat)
    requires Intervals(ns, ends) && i < |ns|
    ensures Render(ns, i) == Lines(ns[i..ends[i]])
    decreases |ns| - i, 1, 0
  {
    var cs := ns[i].children;
    assert Block(ns, ends, i);
    assert ns[i..ends[i]][1..] == ns[i + 1..ends[i]];
    if cs == [] {
      assert ns[i + 1..ends[i]] == [];
    } else {
      RenderAllIsPreorder(ns, ends, i, 0);
      assert cs[0..] == cs;
    }
  }

  lemma {:induction false} RenderAllIsPreorder(ns: seq<TreeNode>, ends: seq<nat>, i: nat, j: nat)
    requires Intervals(ns, ends) && i < |ns| && j < |ns[i].children|
    ensures RenderAll(ns, ns[i].children[j..], i) == Lines(ns[ns[i].children[j]..ends[i]])
    decreases |ns| - i, 0, |ns[i].children| - j
  {
    var cs := ns[i].children;
    var c := cs[j];
    assert Block(ns, ends, i) && Block(ns, ends, c);
    assert cs[j..][1..] == cs[j + 1..];
    RenderIsPreorder(ns, ends, c);
    if j + 1 < |cs| {
      RenderAllIsPreorder(ns, ends, i, j + 1);
      LinesSplit(ns, c, cs[j + 1], ends[i]);
    } else {
      assert cs[j + 1..] == [];
    }
  }
}
