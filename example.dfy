/**
 * The listing shown in the comment of `load_tree` (src/tree.rs:125-138),
 * loaded: the root `X:\` has the children folder1, folder2, folder3 and
 * folder4, folder4aa sits under folder4a, and the dump lists every folder
 * in input order with two dashes per level.
 */
module Example {
  import opened Wrappers
  import opened Header
  import opened Classifier
  import opened TreeNodes
  import opened TreeShape
  import opened Loader

  /** An entry line: its first four-character chunk, the indentation tokens after it, and the label. */
  datatype Row = Row(first: string, toks: seq<string>, text: string)

  /** The indentation tokens `toks` one after another, then `text`. */
  function Tokens(toks: seq<string>, text: string): string {
    if toks == [] then text else toks[0] + Tokens(toks[1..], text)
  }

  /** The line a row stands for: the chunk `first`, then the tokens, then the label. */
  function RowLine(r: Row): string {
    r.first + Tokens(r.toks, r.text)
  }

  /** A row whose chunks are four characters each and whose label begins with no indentation token. */
  predicate PlainRow(r: Row) {
    |r.first| == 4 && (forall i :: 0 <= i < |r.toks| ==> IsToken(r.toks[i])) &&
    |r.text| >= 1 && r.text[0] !in "+| \\"
  }

  /** Eight folder names, none beginning with a character that starts an indentation token. */
  predicate PlainNames(names: seq<string>) {
    |names| == 8 && forall k :: 0 <= k < 8 ==> |names[k]| >= 1 && names[k][0] !in "+| \\"
  }

  /** The folder names of the drawing in the comment. */
  function CommentNames(): seq<string> {
    ["folder1", "folder1a", "folder2", "folder2a", "folder3", "folder4", "folder4a", "folder4aa"]
  }

  /** The entry lines of the drawing, as rows, with the folder names `names`. */
  function Rows(names: seq<string>): (rows: seq<Row>)
    requires |names| == 8
    ensures |rows| == 8 && forall k :: 0 <= k < 8 ==> rows[k].text == names[k]
  {
    [Row("+---", [], names[0]),
     Row("|   ", ["\\---"], names[1]),
     Row("+---", [], names[2]),
     Row("|   ", ["\\---"], names[3]),
     Row("+---", [], names[4]),
     Row("+---", [], names[5]),
     Row("|   ", ["+---"], names[6]),
     Row("|   ", ["|   ", "+---"], names[7])]
  }

  /** The drawing: the header of volume `X`, serial number `Y Y`, root `X:\`, then the entry lines. */
  function Listing(names: seq<string>): (ls: seq<string>)
    requires |names| == 8
    ensures |ls| == 11
  {
    ["Folder PATH listing for volume X",
     "Volume serial number is Y Y",
     "X:\\"] +
    seq(8, k requires 0 <= k < 8 => RowLine(Rows(names)[k]))
  }

  lemma {:induction false} TokenRunTokens(toks: seq<string>, text: string)
    requires (forall i :: 0 <= i < |toks| ==> IsToken(toks[i])) && !StartsWithToken(text)
    ensures |Tokens(toks, text)| == 4 * |toks| + |text|
    ensures TokenRun(Tokens(toks, text)) == |toks|
    ensures Tokens(toks, text)[4 * |toks|..] == text
    decreases |toks|
  {
    var s := Tokens(toks, text);
    if toks == [] {
      assert s[4 * 0..] == text;
    } else {
      var rest := Tokens(toks[1..], text);
      TokenRunTokens(toks[1..], text);
      assert s[..4] == toks[0] && s[4..] == rest;
      assert s[4 * |toks|..] == rest[4 * (|toks| - 1)..];
    }
  }

  /** A label whose first character begins no indentation token does not start with one. */
  lemma PlainLabel(text: string)
    requires |text| >= 1 && text[0] !in "+| \\"
    ensures !StartsWithToken(text)
  {
    if |text| >= 4 {
      assert text[..4][0] == text[0];
    }
  }

  /** The line of a plain row of `|toks|` tokens classifies as an entry at depth `|toks| + 1`, whatever its first chunk. */
  lemma ClassifyRow(r: Row)
    requires PlainRow(r)
    ensures Classification(RowLine(r)) == Some(Entry(|r.toks| + 1, r.text))
  {
    var s := RowLine(r);
    var t := Tokens(r.toks, r.text);
    PlainLabel(r.text);
    TokenRunTokens(r.toks, r.text);
    assert s[4..] == t;
    assert s[4 + 4 * |r.toks|..] == t[4 * |r.toks|..];
  }

  lemma RowsArePlain(names: seq<string>)
    requires PlainNames(names)
    ensures forall k :: 0 <= k < 8 ==> PlainRow(Rows(names)[k])
  {
  }

  /** The first row is one level deep, and no row is more than one level deeper than the row before. */
  lemma RowsAreIndented(names: seq<string>)
    requires |names| == 8
    ensures |Rows(names)[0].toks| == 0
    ensures forall k :: 0 < k < 8 ==> |Rows(names)[k].toks| <= |Rows(names)[k - 1].toks| + 1
  {
  }

  /** Every entry line of the drawing classifies as an entry at its row's depth, labelled with its folder name. */
  lemma ListingEntries(names: seq<string>)
    requires PlainNames(names)
    ensures forall i :: 3 <= i < 11 ==>
      Classification(Listing(names)[i]) == Some(Entry(|Rows(names)[i - 3].toks| + 1, names[i - 3]))
  {
    var rows := Rows(names);
    RowsArePlain(names);
    forall k | 0 <= k < 8
      ensures Classification(RowLine(rows[k])) == Some(Entry(|rows[k].toks| + 1, names[k]))
    {
      ClassifyRow(rows[k]);
    }
  }

  /** The header of the drawing names volume `X`, serial number `Y Y` and root `X:\`. */
  lemma ListingHeader(names: seq<string>)
    requires |names| == 8
    ensures ParseHeader(Listing(names)) == Ok(TreeInfo("X", "Y Y", "X:\\"))
  {
    var lines := Listing(names);
    assert SegmentAt(lines[0], VolumeMarker, 0, "X");
    assert SegmentAt(lines[1], SerialMarker, 0, "Y Y");
    var info := ParseHeader(lines).value;
    SplitSecondIsSegment(lines[0], VolumeMarker, "X");
    SplitSecondIsSegment(lines[0], VolumeMarker, info.volumeName);
    SplitSecondIsSegment(lines[1], SerialMarker, "Y Y");
    SplitSecondIsSegment(lines[1], SerialMarker, info.volumeSerialNumber);
  }

  /** No entry line of the drawing is more than one level deeper than the one before. */
  lemma ListingIndented(names: seq<string>)
    requires PlainNames(names)
    ensures WellIndented(Listing(names), 3, 0)
  {
    ListingEntries(names);
    RowsAreIndented(names);
  }

  /** The drawing loads: its header is complete and its entries are well indented. */
  lemma ListingLoads(names: seq<string>)
    requires PlainNames(names)
    ensures LoadFailure(Listing(names)).None?
  {
    ListingHeader(names);
    ListingIndented(names);
    LoadSucceedsIff(Listing(names));
  }

  /** The nodes loaded from the drawing: the root, then one node per entry line, at its depth and with its name. */
  lemma ListingDepths(names: seq<string>, ns: seq<TreeNode>)
    requires PlainNames(names) && |ns| == 9 && ns[0].depth == 0
    requires forall j :: 1 <= j < 9 ==> EntryNodeOf(Listing(names), ns, j)
    ensures Depths(ns) == [0, 1, 2, 1, 2, 1, 1, 2, 3]
    ensures forall j :: 1 <= j < 9 ==> ns[j].value == Some(names[j - 1])
  {
    ListingEntries(names);
    forall j | 1 <= j < 9
      ensures ns[j].depth == |Rows(names)[j - 1].toks| + 1 && ns[j].value == Some(names[j - 1])
    {
      assert EntryNodeOf(Listing(names), ns, j);
    }
  }

  /** The depth sequence of the drawing, node by node. */
  lemma ListingDepthsAt(ns: seq<TreeNode>)
    requires |ns| == 9 && Depths(ns) == [0, 1, 2, 1, 2, 1, 1, 2, 3]
    ensures ns[0].depth == 0 && ns[1].depth == 1 && ns[2].depth == 2
    ensures ns[3].depth == 1 && ns[4].depth == 2 && ns[5].depth == 1
    ensures ns[6].depth == 1 && ns[7].depth == 2 && ns[8].depth == 3
  {
    var ds := Depths(ns);
    assert ns[0].depth == ds[0] && ns[1].depth == ds[1] && ns[2].depth == ds[2];
    assert ns[3].depth == ds[3] && ns[4].depth == ds[4] && ns[5].depth == ds[5];
    assert ns[6].depth == ds[6] && ns[7].depth == ds[7] && ns[8].depth == ds[8];
  }

  /** A node that follows the depths hangs under `p` when `p` is one level up and no node between them is at `p`'s depth. */
  lemma ParentByDepth(ns: seq<TreeNode>, k: nat, p: nat)
    requires 0 < k < |ns| && FollowsDepths(ns, k)
    requires p < k && ns[p].depth + 1 == ns[k].depth
    requires forall q :: p < q < k ==> ns[q].depth != ns[p].depth
    ensures ns[k].parent == Some(p)
  {
    var ds := Depths(ns)[..k];
    assert ds[p] == ns[p].depth;
  }

  /**
   * Nodes at the drawing's depths, each under the latest earlier node one
   * level up: folder1 to folder4 hang under the root, each `a` folder
   * under its parent folder, and folder4aa under folder4a.
   */
  lemma ListingParents(ns: seq<TreeNode>)
    requires |ns| == 9 && Depths(ns) == [0, 1, 2, 1, 2, 1, 1, 2, 3]
    requires forall k :: 0 < k < 9 ==> FollowsDepths(ns, k)
    ensures ns[1].parent == Some(0) && ns[2].parent == Some(1)
    ensures ns[3].parent == Some(0) && ns[4].parent == Some(3)
    ensures ns[5].parent == Some(0) && ns[6].parent == Some(0)
    ensures ns[7].parent == Some(6) && ns[8].parent == Some(7)
  {
    ListingDepthsAt(ns);
    ParentByDepth(ns, 1, 0);
    ParentByDepth(ns, 2, 1);
    ParentByDepth(ns, 3, 0);
    ParentByDepth(ns, 4, 3);
    ParentByDepth(ns, 5, 0);
    ParentByDepth(ns, 6, 0);
    ParentByDepth(ns, 7, 6);
    ParentByDepth(ns, 8, 7);
  }

  /** In a tree with the drawing's parents, the root's children are folder1, folder2, folder3 and folder4, in input order. */
  lemma ListingRootChildren(ns: seq<TreeNode>)
    requires |ns| == 9 && IsTree(ns) && ns[0].parent == None && ns[2].parent == Some(1)
    requires ns[1].parent == Some(0) && ns[3].parent == Some(0) && ns[5].parent == Some(0) && ns[6].parent == Some(0)
    requires ns[4].parent == Some(3) && ns[7].parent == Some(6) && ns[8].parent == Some(7)
    ensures ns[0].children == [1, 3, 5, 6]
  {
    ChildrenAreChildrenOf(ns, 0);
    var cs := ns[0].children;
    forall x
      ensures x in cs <==> x in [1, 3, 5, 6]
    {
      if x in cs {
        assert x < 9 && ns[x].parent == Some(0);
        assert x != 0 && x != 2 && x != 4 && x != 7 && x != 8;
      }
    }
    RootChildrenAre(cs);
  }

  /** A strictly increasing sequence holding just 1, 3, 5 and 6 is `[1, 3, 5, 6]`. */
  lemma RootChildrenAre(cs: seq<nat>)
    requires forall j1, j2 :: 0 <= j1 < j2 < |cs| ==> cs[j1] < cs[j2]
    requires forall x :: x in cs <==> x in [1, 3, 5, 6]
    ensures cs == [1, 3, 5, 6]
  {
    IncreasingSameElements(cs, [1, 3, 5, 6]);
  }

  /** The dump line of a folder `name` at `depth`: a plus, two dashes per level, a space, the name. */
  function FolderLine(depth: nat, name: string): string {
    NodeLine(NewTreeNode(Some(name), depth))
  }

  /** The dump of any listing whose root and entries are given: the lines follow the entries' depths and names. */
  lemma DumpOfEntries(lines: seq<string>, depths: seq<nat>, names: seq<string>)
    requires |lines| == 11 && |depths| == 8 && |names| == 8
    requires forall i :: 3 <= i < 11 ==> Classification(lines[i]) == Some(Entry(depths[i - 3], names[i - 3]))
    ensures DumpLines(lines) ==
      [FolderLine(0, lines[2]),
       FolderLine(depths[0], names[0]), FolderLine(depths[1], names[1]),
       FolderLine(depths[2], names[2]), FolderLine(depths[3], names[3]),
       FolderLine(depths[4], names[4]), FolderLine(depths[5], names[5]),
       FolderLine(depths[6], names[6]), FolderLine(depths[7], names[7])]
  {
  }

  /**
   * The dump of the drawing: one line per folder, in input order, with two
   * dashes per level (`+-- folder1`, `+---- folder1a`, ...).
   */
  lemma ListingDump(names: seq<string>)
    requires PlainNames(names)
    ensures DumpLines(Listing(names)) ==
      [FolderLine(0, "X:\\"),
       FolderLine(1, names[0]), FolderLine(2, names[1]),
       FolderLine(1, names[2]), FolderLine(2, names[3]),
       FolderLine(1, names[4]),
       FolderLine(1, names[5]), FolderLine(2, names[6]), FolderLine(3, names[7])]
  {
    var depths := [1, 2, 1, 2, 1, 1, 2, 3];
    ListingEntries(names);
    assert forall k :: 0 <= k < 8 ==> |Rows(names)[k].toks| + 1 == depths[k];
    DumpOfEntries(Listing(names), depths, names);
  }

  /**
   * `load_tree` on the drawing succeeds with the header's values, the
   * folders at the places the drawing shows them, and the dump listing
   * them in input order.
   */
  method LoadListing(names: seq<string>) returns (ns: seq<TreeNode>, info: TreeInfo)
    requires PlainNames(names)
    ensures info == TreeInfo("X", "Y Y", "X:\\")
    ensures |ns| == 9 && forall j :: 1 <= j < 9 ==> ns[j].value == Some(names[j - 1])
    ensures ns[0].children == [1, 3, 5, 6] && ns[2].parent == Some(1) && ns[4].parent == Some(3)
    ensures ns[7].parent == Some(6) && ns[8].parent == Some(7)
    ensures ChildrenAfter(ns) && Render(ns, 0) ==
      Concat([FolderLine(0, "X:\\"),
        FolderLine(1, names[0]), FolderLine(2, names[1]),
        FolderLine(1, names[2]), FolderLine(2, names[3]),
        FolderLine(1, names[4]),
        FolderLine(1, names[5]), FolderLine(2, names[6]), FolderLine(3, names[7])])
  {
    ListingLoads(names);
    var r := LoadTree(Listing(names));
    ns, info := r.value.0, r.value.1;
    ListingHeader(names);
    ListingDepths(names, ns);
    ListingParents(ns);
    ListingRootChildren(ns);
    ListingDump(names);
  }

  /** The names of the comment's drawing are plain, so LoadListing applies to it. */
  lemma CommentNamesArePlain()
    ensures PlainNames(CommentNames())
  {
  }
}
