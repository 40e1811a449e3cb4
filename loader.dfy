/**
 * `load_tree` (src/tree.rs:122-273) over the lines of a `tree /A` listing:
 * the three header lines, then one entry line per folder, each fed to the
 * tree builder in order.
 *
 * Line numbers are 1-based positions in the listing, so `lines[k]` is line
 * `k + 1`; the first entry line is line 4.
 */
module Loader {
  import opened Wrappers
  import opened LoadErrors
  import opened Header
  import opened Classifier
  import opened TreeNodes
  import opened TreeShape
  import opened Builder

  /** The depth of an entry line, 0 for a line that has none. */
  function EntryDepth(line: string): nat {
    match Classification(line)
    case Some(e) => e.depth
    case None => 0
  }

  /**
   * The first failure among the entry lines `lines[k..]`, when the entry
   * before `lines[k]` (or the root) is at depth `lastDepth`.
   */
  function EntriesFailure(lines: seq<string>, k: nat, lastDepth: nat): Option<LoadError>
    decreases |lines| - k
  {
    if k >= |lines| then None
    else match StepFailure(lines[k], k + 1, lastDepth)
      case Some(e) => Some(e)
      case None => EntriesFailure(lines, k + 1, EntryDepth(lines[k]))
  }

  /** How loading `lines` fails, if it does: the header first, then the entries in order. */
  function LoadFailure(lines: seq<string>): Option<LoadError> {
    match ParseHeader(lines)
    case Err(e) => Some(e)
    case Ok(_) => EntriesFailure(lines, 3, 0)
  }

  /**
   * Every entry line of `lines[k..]` has a depth, and each is at most one
   * level deeper than the entry before it; the entry before `lines[k]` is
   * at depth `prev`.
   */
  ghost predicate WellIndented(lines: seq<string>, k: nat, prev: nat) {
    (forall i :: k <= i < |lines| ==> Classification(lines[i]).Some?) &&
    (k < |lines| ==> EntryDepth(lines[k]) <= prev + 1) &&
    (forall i :: k < i < |lines| ==> EntryDepth(lines[i]) <= EntryDepth(lines[i - 1]) + 1)
  }

  /** The entries fail nowhere exactly when they are well indented. */
  lemma {:induction false} EntriesFailureNone(lines: seq<string>, k: nat, prev: nat)
    ensures EntriesFailure(lines, k, prev).None? <==> WellIndented(lines, k, prev)
    decreases |lines| - k
  {
    if k < |lines| {
      EntriesFailureNone(lines, k + 1, EntryDepth(lines[k]));
      if WellIndented(lines, k + 1, EntryDepth(lines[k])) && Classification(lines[k]).Some? {
        assert forall i :: k < i < |lines| ==> Classification(lines[i]).Some?;
      }
    }
  }

  /**
   * The entries from `lines[k]` on fail first at line `i`: every entry
   * before it is well indented, and `lines[i]` is too short or more than
   * one level deeper than the entry before it.
   */
  ghost predicate FailsFirstAt(lines: seq<string>, k: nat, prev: nat, i: nat) {
    k <= i < |lines| && WellIndented(lines[..i], k, prev) &&
    StepFailure(lines[i], i + 1, PrevDepth(lines, k, prev, i)).Some?
  }

  /** The depth of the entry before `lines[i]`, `prev` when `lines[i]` is the first one looked at. */
  function PrevDepth(lines: seq<string>, k: nat, prev: nat, i: nat): nat
    requires k <= i < |lines|
  {
    if i == k then prev else EntryDepth(lines[i - 1])
  }

  /** A failure of the entries is the failure of the first line that fails. */
  lemma {:induction false} EntriesFailureAt(lines: seq<string>, k: nat, prev: nat)
    requires EntriesFailure(lines, k, prev).Some?
    ensures exists i: nat ::
      (FailsFirstAt(lines, k, prev, i) &&
       EntriesFailure(lines, k, prev) == StepFailure(lines[i], i + 1, PrevDepth(lines, k, prev, i)))
    decreases |lines| - k
  {
    if StepFailure(lines[k], k + 1, prev).Some? {
      assert WellIndented(lines[..k], k, prev);
      assert FailsFirstAt(lines, k, prev, k);
      assert EntriesFailure(lines, k, prev) == StepFailure(lines[k], k + 1, PrevDepth(lines, k, prev, k));
    } else {
      var d := EntryDepth(lines[k]);
      EntriesFailureAt(lines, k + 1, d);
      var i: nat :| FailsFirstAt(lines, k + 1, d, i) &&
        EntriesFailure(lines, k + 1, d) == StepFailure(lines[i], i + 1, PrevDepth(lines, k + 1, d, i));
      assert WellIndented(lines[..i], k, prev);
      assert FailsFirstAt(lines, k, prev, i);
    }
  }

  /** Loading fails nowhere exactly when the header is complete and the entries are well indented, starting from the root's depth 0. */
  lemma LoadSucceedsIff(lines: seq<string>)
    ensures LoadFailure(lines).None? <==>
      |lines| >= 3 && Contains(lines[0], VolumeMarker) && Contains(lines[1], SerialMarker) &&
      WellIndented(lines, 3, 0)
  {
    EntriesFailureNone(lines, 3, 0);
  }

  /**
   * A first entry two or more levels deep has no parent. At depth 2 the
   * root has no child to descend into (src/tree.rs:204-217); at depth 3 or
   * more the ascending loop finds no parent above the root
   * (src/tree.rs:244-251).
   */
  lemma FirstEntryTooDeep(lines: seq<string>)
    requires ParseHeader(lines).Ok? && |lines| >= 4
    requires Classification(lines[3]).Some? && Classification(lines[3]).value.depth >= 2
    ensures LoadFailure(lines) == Some(NoParent(4, Classification(lines[3]).value.text))
  {
  }

  /** The dump line of one entry line. */
  function EntryLine(line: string): string {
    match Classification(line)
    case Some(e) => NodeLine(NewTreeNode(Some(e.text), e.depth))
    case None => ""
  }

  /** The lines the dump of a listing reads: the root's line, then one line per entry line, in input order. */
  function DumpLines(lines: seq<string>): (ds: seq<string>)
    requires 3 <= |lines|
    ensures |ds| == |lines| - 2
  {
    [NodeLine(NewTreeNode(Some(lines[2]), 0))] +
    seq(|lines| - 3, i requires 0 <= i < |lines| - 3 => EntryLine(lines[i + 3]))
  }

  /** Node `j` of the arena is the node of entry line `lines[j + 2]`. */
  ghost predicate EntryNodeOf(lines: seq<string>, ns: seq<TreeNode>, j: nat)
    requires 1 <= j < |ns| && j + 2 < |lines|
  {
    ns[j].value.Some? && !ns[j].visible &&
    Classification(lines[j + 2]) == Some(Entry(ns[j].depth, ns[j].value.value))
  }

  /** Everything a successful load promises about its result. */
  ghost predicate LoadedFrom(lines: seq<string>, ns: seq<TreeNode>, info: TreeInfo) {
    ParseHeader(lines) == Ok(info) &&
    |ns| == |lines| - 2 && IsTree(ns) && ParentsFollowDepths(ns) &&
    ns[0].value == Some(info.volumeTag) && ns[0].depth == 0 && ns[0].parent == None && !ns[0].visible &&
    (forall j :: 1 <= j < |ns| ==> EntryNodeOf(lines, ns, j)) &&
    Render(ns, 0) == Concat(DumpLines(lines))
  }

  /** In a tree laid out in pre-order, the root's dump is the lines of all nodes in arena order. */
  lemma RootRendersAll(ns: seq<TreeNode>, sp: seq<nat>, ends: seq<nat>)
    requires Inv(ns, sp, ends)
    ensures Render(ns, 0) == Lines(ns)
  {
    assert ParentLink(ns, 0) && OnPath(ns, sp, 0);
    RenderIsPreorder(ns, ends, 0);
    assert ns[0..ends[0]] == ns;
  }

  /** A node's line depends only on its value and depth. */
  lemma SameLine(a: TreeNode, b: TreeNode)
    requires a.value == b.value && a.depth == b.depth
    ensures NodeLine(a) == NodeLine(b)
  {
  }

  /** Node `j` built from a listing has line `j` of its dump. */
  lemma DumpLineAt(lines: seq<string>, ns: seq<TreeNode>, j: nat)
    requires j < |ns| && |ns| == |lines| - 2
    requires ns[0].value == Some(lines[2]) && ns[0].depth == 0
    requires j >= 1 ==> EntryNodeOf(lines, ns, j)
    ensures NodeLine(ns[j]) == DumpLines(lines)[j]
  {
    if j == 0 {
      SameLine(ns[0], NewTreeNode(Some(lines[2]), 0));
    } else {
      assert DumpLines(lines)[j] == EntryLine(lines[j + 2]);
    }
  }

  /** The nodes built from a listing have, one by one, the lines of its dump. */
  lemma NodeLinesAreDumpLines(lines: seq<string>, ns: seq<TreeNode>)
    requires 1 <= |ns| && |ns| == |lines| - 2
    requires ns[0].value == Some(lines[2]) && ns[0].depth == 0
    requires forall j :: 1 <= j < |ns| ==> EntryNodeOf(lines, ns, j)
    ensures NodeLines(ns) == DumpLines(lines)
  {
    forall j | 0 <= j < |ns|
      ensures NodeLines(ns)[j] == DumpLines(lines)[j]
    {
      DumpLineAt(lines, ns, j);
    }
  }

  /** The lines of the nodes built from a listing are the lines of its dump. */
  lemma LinesAreDump(lines: seq<string>, ns: seq<TreeNode>)
    requires 1 <= |ns| && |ns| == |lines| - 2
    requires ns[0].value == Some(lines[2]) && ns[0].depth == 0
    requires forall j :: 1 <= j < |ns| ==> EntryNodeOf(lines, ns, j)
    ensures Lines(ns) == Concat(DumpLines(lines))
  {
    NodeLinesAreDumpLines(lines, ns);
    LinesAreConcat(ns);
  }

  /** Attaching the node of entry line `lines[k]` keeps every node matched with its entry line. */
  lemma StepKeepsEntries(lines: seq<string>, k: nat, ns: seq<TreeNode>, p: nat)
    requires 3 <= k < |lines| && |ns| == k - 2 && p < |ns| && Classification(lines[k]).Some?
    requires forall j :: 1 <= j < |ns| ==> EntryNodeOf(lines, ns, j)
    ensures var e := Classification(lines[k]).value;
      var r := Attach(ns, p, EntryNode(e.text, e.depth, p));
      r[0].value == ns[0].value && r[0].depth == ns[0].depth &&
      r[0].parent == ns[0].parent && r[0].visible == ns[0].visible &&
      forall j :: 1 <= j < |r| ==> EntryNodeOf(lines, r, j)
  {
    var e := Classification(lines[k]).value;
    var r := Attach(ns, p, EntryNode(e.text, e.depth, p));
    forall j | 1 <= j < |r|
      ensures EntryNodeOf(lines, r, j)
    {
      if j < |ns| {
        assert EntryNodeOf(lines, ns, j);
        assert r[j].value == ns[j].value && r[j].depth == ns[j].depth && r[j].visible == ns[j].visible;
      }
    }
  }

  /**
   * `load_tree`: parse the header, then feed each entry line to the
   * builder. It fails exactly as LoadFailure says; on success the result
   * satisfies LoadedFrom.
   */
  method LoadTree(lines: seq<string>) returns (r: Result<(seq<TreeNode>, TreeInfo), LoadError>)
    ensures r.Err? <==> LoadFailure(lines).Some?
    ensures r.Err? ==> LoadFailure(lines) == Some(r.error)
    ensures r.Ok? ==> LoadedFrom(lines, r.value.0, r.value.1)
  {
    var header := ParseHeader(lines);
    if header.Err? {
      return Err(header.error);
    }
    var info := header.value;
    var b := new TreeBuilder(info.volumeTag);
    var k := 3;
    while k < |lines|
      invariant 3 <= k <= |lines|
      invariant b.Valid() && |b.nodes| == k - 2
      invariant EntriesFailure(lines, 3, 0) == EntriesFailure(lines, k, b.LastDepth())
      invariant b.nodes[0].value == Some(info.volumeTag) && b.nodes[0].depth == 0
      invariant b.nodes[0].parent == None && !b.nodes[0].visible
      invariant forall j :: 1 <= j < |b.nodes| ==> EntryNodeOf(lines, b.nodes, j)
      decreases |lines| - k
    {
      var err;
      ghost var ascents;
      ghost var ns := b.nodes;
      err, ascents := b.Step(lines[k], k + 1);
      if err.Some? {
        return Err(err.value);
      }
      StepKeepsEntries(lines, k, ns, b.cursor);
      k := k + 1;
    }
    RootRendersAll(b.nodes, b.spine, b.ends);
    LinesAreDump(lines, b.nodes);
    return Ok((b.nodes, info));
  }
}
