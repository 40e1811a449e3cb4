/**
 * The tree builder of `load_tree` (src/tree.rs:162-269): a cursor node and
 * its depth, moved on every entry line according to the difference between
 * the entry's depth and the cursor's depth, after which the entry becomes
 * the cursor's last child.
 *
 * The nodes live in an arena (see TreeNodes); the ghost fields `spine` and
 * `ends` are the path from the root to the newest node and the pre-order
 * blocks of the subtrees, which only the proofs use.
 */
module Builder {
  import opened Wrappers
  import opened LoadErrors
  import opened Classifier
  import opened TreeNodes
  import opened TreeShape

  /**
   * Whether, and how, one entry line fails when the newest node so far is
   * at depth `lastDepth`: a line too short to drop its first four
   * characters fails, and so does an entry more than one level deeper
   * than the newest node. Every other entry finds its parent.
   */
  function StepFailure(line: string, lineNumber: nat, lastDepth: nat): (r: Option<LoadError>)
    ensures r.None? ==> Classification(line).Some?
    ensures r.Some? ==> r.value.lineNumber == lineNumber
  {
    match Classification(line)
    case None => Some(ShortEntry(lineNumber))
    case Some(e) => if e.depth > lastDepth + 1 then Some(NoParent(lineNumber, e.text)) else None
  }

  /** The node an entry line creates and links under `parent`. */
  function EntryNode(text: string, depth: nat, parent: nat): (n: TreeNode)
    ensures n.value == Some(text) && n.depth == depth && n.parent == Some(parent)
    ensures n.children == [] && !n.visible
  {
    NewTreeNode(Some(text), depth).(parent := Some(parent))
  }

  /** Appending the new node, setting its parent, then adding it to the parent's children is Attach. */
  lemma AttachInSteps(ns: seq<TreeNode>, p: nat, text: string, depth: nat)
    requires p < |ns|
    ensures var k := |ns|;
      var a := ns + [NewTreeNode(Some(text), depth)];
      var b := a[k := a[k].(parent := Some(p))];
      b[p := b[p].(children := b[p].children + [k])] == Attach(ns, p, EntryNode(text, depth, p))
  {
  }

  class TreeBuilder {
    /** Every node created so far; node 0 is the root. */
    var nodes: seq<TreeNode>
    /** `current_node` */
    var cursor: nat
    /** `current_depth` */
    var curDepth: int
    ghost var spine: seq<nat>
    ghost var ends: seq<nat>

    /**
     * The arena is a tree laid out in pre-order, each non-root node under the
     * latest earlier node one level shallower; the cursor is the parent of
     * the newest node (the root while there is no entry yet), and
     * `curDepth` is its depth.
     */
    ghost predicate Valid()
      reads this
    {
      Inv(nodes, spine, ends) &&
      curDepth == (if |spine| >= 2 then |spine| - 2 else 0) &&
      0 <= curDepth < |spine| && cursor == spine[curDepth]
    }

    /** The depth of the newest node. */
    function LastDepth(): nat
      reads this
      requires |nodes| >= 1
    {
      nodes[|nodes| - 1].depth
    }

    /** The root `TreeNode::new(Some(volume_tag), 0)`, which is also the first cursor. */
    constructor (tag: string)
      ensures Valid()
      ensures nodes == [NewTreeNode(Some(tag), 0)] && cursor == 0 && curDepth == 0
    {
      nodes := [NewTreeNode(Some(tag), 0)];
      cursor := 0;
      curDepth := 0;
      spine := [0];
      ends := [1];
      new;
      assert Block(nodes, ends, 0);
    }

    /** What Valid says about the cursor in the terms of the original. */
    lemma CursorFacts()
      requires Valid()
      ensures cursor < |nodes| && nodes[cursor].depth == curDepth
      ensures LastDepth() == |spine| - 1
      ensures curDepth >= 1 ==> nodes[cursor].parent == Some(spine[curDepth - 1])
      ensures curDepth == 0 ==> cursor == 0 && nodes[cursor].parent == None
      ensures |nodes| >= 2 ==>
        nodes[cursor].children != [] &&
        nodes[cursor].children[|nodes[cursor].children| - 1] == |nodes| - 1
    {
      assert ParentLink(nodes, 0);
      if |nodes| >= 2 {
        assert ParentLink(nodes, |nodes| - 1);
      }
    }

    /** `Rc::new(RefCell::new(TreeNode::new(value, depth)))`: the node gets the next free index. */
    method NewNode(value: Option<string>, depth: nat) returns (k: nat)
      modifies this`nodes
      ensures k == |old(nodes)| && nodes == old(nodes) + [NewTreeNode(value, depth)]
    {
      k := |nodes|;
      nodes := nodes + [NewTreeNode(value, depth)];
    }

    /** `child.borrow_mut().parent = Some(p)` */
    method SetParent(k: nat, p: nat)
      requires k < |nodes|
      modifies this`nodes
      ensures nodes == old(nodes)[k := old(nodes)[k].(parent := Some(p))]
    {
      nodes := nodes[k := nodes[k].(parent := Some(p))];
    }

    /** `TreeNode::add_child` on node `p`: `k` becomes its last child. */
    method AddChild(p: nat, k: nat)
      requires p < |nodes|
      modifies this`nodes
      ensures nodes == old(nodes)[p := old(nodes)[p].(children := old(nodes)[p].children + [k])]
    {
      nodes := nodes[p := nodes[p].(children := nodes[p].children + [k])];
    }

    /**
     * The `match depth_difference` (src/tree.rs:193-258) up to the node it
     * creates: move the cursor to the parent of an entry at `depth`.
     *
     * A parent is found exactly when the entry is at most one level deeper
     * than the newest node; it is then the path node one level above the
     * entry. When the entry is not deeper than the old cursor, the cursor
     * moved up exactly `curDepth - depth + 1` times; a delta of 2 moved it
     * down into the newest node, the old cursor's last child.
     */
    method MoveCursor(depth: nat) returns (found: bool, ghost ascents: nat)
      requires Valid() && depth >= 1
      modifies this`cursor, this`curDepth
      ensures found <==> depth <= old(LastDepth()) + 1
      ensures found ==> depth <= |spine| && cursor == spine[depth - 1] && curDepth == depth - 1
      ensures found ==> ascents == (if depth <= old(curDepth) then old(curDepth) - depth + 1 else 0)
      ensures found && depth == old(curDepth) + 2 ==> cursor == |nodes| - 1
    {
      CursorFacts();
      var delta := depth - curDepth;
      ascents := 0;
      if delta == 1 {
      } else if delta == 2 {
        var cs := nodes[cursor].children;
        if |cs| == 0 {
          return false, 0;
        }
        assert ChildrenAfter(nodes) && cursor < cs[|cs| - 1] < |nodes|;
        cursor := cs[|cs| - 1];
        curDepth := depth - 1;
      } else if delta == 0 {
        cursor := nodes[cursor].parent.value;
        curDepth := depth - 1;
        ascents := 1;
      } else {
        ghost var cd0 := curDepth;
        assert ParentLink(nodes, 0);
        while true
          invariant 0 <= curDepth <= cd0 && cursor == spine[curDepth]
          invariant ascents == cd0 - curDepth
          invariant curDepth > depth - 1 || depth - 1 > cd0
          decreases curDepth
        {
          assert curDepth >= 1 ==> nodes[cursor].parent == Some(spine[curDepth - 1]);
          var parent := nodes[cursor].parent;
          if parent.None? {
            return false, ascents;
          }
          cursor := parent.value;
          curDepth := curDepth - 1;
          ascents := ascents + 1;
          if curDepth == depth - 1 {
            break;
          }
        }
      }
      found := true;
    }

    /**
     * The node creation every branch ends with (src/tree.rs:260-267):
     * `TreeNode::new`, its parent set to the cursor, then `add_child` on
     * the cursor.
     */
    method AttachEntry(text: string, depth: nat)
      requires Inv(nodes, spine, ends) && 1 <= depth <= |spine|
      requires cursor == spine[depth - 1] && curDepth == depth - 1
      modifies this`nodes, this`spine, this`ends
      ensures Valid() && cursor < |old(nodes)|
      ensures nodes == Attach(old(nodes), cursor, EntryNode(text, depth, cursor))
    {
      ghost var ns, n := nodes, EntryNode(text, depth, cursor);
      ghost var sp', ends' := NewSpine(spine, depth, |ns|), NewEnds(ns, ends, spine, depth);
      AttachKeepsInv(ns, spine, ends, depth, n);
      CreateEntry(text, depth);
      spine, ends := sp', ends';
      assert Inv(nodes, spine, ends);
    }

    /** `TreeNode::new` for the entry, its parent set to the cursor, then `add_child` on the cursor. */
    method CreateEntry(text: string, depth: nat)
      requires cursor < |nodes|
      modifies this`nodes
      ensures nodes == Attach(old(nodes), cursor, EntryNode(text, depth, cursor))
    {
      ghost var ns := nodes;
      var child := NewNode(Some(text), depth);
      SetParent(child, cursor);
      AddChild(cursor, child);
      AttachInSteps(ns, cursor, text, depth);
    }

    /**
     * One iteration of the loop over the entry lines: classify the line,
     * move the cursor to the entry's parent, then create the entry's node
     * as the cursor's last child.
     *
     * It fails exactly as StepFailure says. On success the new node is
     * appended with nothing else changed but the cursor's child list, and
     * the cursor is the latest earlier node one level above the entry.
     */
    method Step(line: string, lineNumber: nat) returns (err: Option<LoadError>, ghost ascents: nat)
      requires Valid()
      modifies this
      ensures err == StepFailure(line, lineNumber, old(LastDepth()))
      ensures err.Some? ==> nodes == old(nodes)
      ensures err.None? ==>
        var e := Classification(line).value;
        Valid() && curDepth == e.depth - 1 && cursor < |old(nodes)| &&
        nodes == Attach(old(nodes), cursor, EntryNode(e.text, e.depth, cursor)) &&
        Some(cursor) == LastAt(Depths(old(nodes)), e.depth - 1) &&
        ascents == (if e.depth <= old(curDepth) then old(curDepth) - e.depth + 1 else 0)
    {
      var entry := Classify(line);
      if entry.None? {
        return Some(ShortEntry(lineNumber)), 0;
      }
      var depth := entry.value.depth;
      var text := entry.value.text;
      ClassificationCharacterized(line, depth, text);
      var found;
      found, ascents := MoveCursor(depth);
      if !found {
        return Some(NoParent(lineNumber, text)), ascents;
      }
      SpineIsLastAt(nodes, spine, depth - 1);
      AttachEntry(text, depth);
      err := None;
    }
  }
}
