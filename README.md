# A verified model of `load_tree`

The program reads the text that the Windows command `tree /A` prints and builds a folder tree from it. That text has three header lines:

- the volume name;
- the volume serial number;
- the root label, for example `X:\`.

Then comes one entry line per folder. Each entry line is indented by four-character tokens (`+---`, `|   `, `    `, `\---`), followed by the folder's name.

`load_tree` (src/tree.rs:122-273) does the following:

1. It parses the header.
2. It classifies every entry line into a depth and a label.
3. It attaches a new node to a cursor that it moves according to the difference between the entry's depth and the cursor's depth.

`TreeNode` has the operations `new`, `add_child`, `get_child` and `len`, plus a recursive `Display` that dumps the tree in pre-order.

This project states that behaviour in Dafny and proves it:

- `wrappers.dfy`: `Option` and `Result`.
- `load_error.dfy` (`LoadErrors`): every way loading stops. The original panics in each case; here each case is a value carrying the 1-based line number.
- `header.dfy` (`Header`): the header parser. `split(marker).collect()[1]` is proved to be exactly the text after the first marker, up to the next marker or the end of the line.
- `classifier.dfy` (`Classifier`): the do-while loop that strips indentation tokens. It is a method proved equal to a function, and that function is characterised without reference to the loop.
- `tree_node.dfy` (`TreeNodes`):
  - the node datatype, `new`, `get_child` (a search loop) and `len`;
  - the `Display` dump;
  - the proof that the dump of a pre-order arena lists its nodes in arena order.
- `tree_shape.dfy` (`TreeShape`): the invariants the builder keeps. These say that:
  - the arena is a tree with agreeing parent and child links;
  - each node hangs under the latest earlier node one level up;
  - the path from the root to the newest node (`spine`) is tracked;
  - the subtrees are laid out as contiguous blocks (`ends`).

  The module also proves that attaching one entry keeps all of them.
- `builder.dfy` (`Builder`): the builder as a class. Its fields are the node arena, the cursor (`current_node`) and its depth (`current_depth`). It has one method per step of the original:
  - create a node;
  - set its parent;
  - `add_child`;
  - move the cursor by the depth difference;
  - process one entry line.
- `loader.dfy` (`Loader`): `load_tree` as a loop over the lines. It fails exactly when the header is incomplete, or when some entry is too short or more than one level deeper than the entry before it. On success its result is a tree whose dump lists the root and then every entry, in input order, at its classified depth.
- `example.dfy` (`Example`): the listing shown in the comment at src/tree.rs:125-138, with the folder names as a parameter.

The tree is an arena: node `i` of a `seq<TreeNode>` stands for one `Rc<RefCell<TreeNode>>`. Children and parents are indices, and node 0 is the root. The builder's fields `spine` and `ends` are ghost; only the proofs use them.

## Model

| member | source | states |
|---|---|---|
| Header.ParseHeader | src/tree.rs:142-160 | Loading succeeds past the header exactly when there are three lines and the first two contain their markers. The volume name and serial number are then the text after each marker, and the tag is line 3. Otherwise the error names the first missing line or marker, in reading order. |
| Header.SplitSecond | src/tree.rs:143-150 | `split(m).collect::<Vec<&str>>()[1]`, or none where that index panics. Its own contract bounds the piece's length: it fits in the line after the marker. It is characterised by SplitSecondIsSegment (both directions) and SplitSecondNone. |
| Header.SplitSecondIsSegment | src/tree.rs:143-150 | `split(m).collect()[1]` equals `v` if and only if `v` is the text after the first occurrence of `m`, ending at the next occurrence of `m` or at the end of the line. |
| Header.SplitSecondNone | src/tree.rs:143-150 | The split has no second piece exactly when the marker does not occur in the line. |
| Header.SegmentIsSplitSecond | src/tree.rs:143-150 | The segment after the first marker is unique, so it is what the split returns. |
| Classifier.TokenRunExact | src/tree.rs:175-189 | The number of tokens the loop strips after the first chunk is n exactly when the text is n tokens followed by text that does not start with a token. |
| Classifier.Classification | src/tree.rs:171-189 | The entry the classifier computes for one line. Its own contract gives none exactly on a line shorter than 4 characters; otherwise the depth is at least 1 and `4 * depth + \|label\| == \|line\|`. ClassificationCharacterized gives the full characterisation in both directions. |
| Classifier.ClassificationCharacterized | src/tree.rs:171-189 | A line shorter than 4 characters has no entry. Otherwise the entry is `(d, l)` exactly when the line is 4 unchecked characters, then `d - 1` tokens, then `l`. So the depth is at least 1, `4 * d + \|l\| == \|line\|`, and the label does not start with a token. |
| Classifier.Classify | src/tree.rs:171-189 | The do-while loop returns the characterised entry, or none on a line too short for `line[4..]`. |
| TreeNodes.NewTreeNode | src/tree.rs:33-41 | A new node has the given value and depth, no children, no parent, and its visibility flag off. |
| TreeNodes.GetChild | src/tree.rs:47-59 | Returns the first child, in child order, whose value is `Some(value)`, skipping unlabelled children. Returns none exactly when no child carries that value. |
| TreeNodes.Len | src/tree.rs:61-64 | The number of the node's children. |
| TreeShape.ChildrenAreChildrenOf | src/tree.rs:43-45 | In a built tree, a node's child list is exactly the nodes whose parent it is, in input order, so `len` counts them. |
| TreeNodes.Dashes | src/tree.rs:75 | `"--".repeat(k)` is `2k` dashes. |
| TreeNodes.NodeLine | src/tree.rs:71-80 | The node's own `format!("+{} {}\n", ..)` line: empty for a node without a value; otherwise `2 * depth + \|value\| + 3` characters, starting with `+` and ending with a newline. |
| TreeNodes.Render | src/tree.rs:67-90 | `Display::fmt` of a node. Its own contract says the output starts with the node's own line. RenderIsPreorder (and RootRendersAll for the root) proves that it is the lines of the node's pre-order block in arena order. |
| TreeNodes.RenderAll | src/tree.rs:82-86 | The child loop of `Display::fmt`: the children's displays in child order. It has no `ensures` of its own; RenderAllIsPreorder characterises it as the lines of the children's blocks in arena order. |
| TreeNodes.RenderIsPreorder | src/tree.rs:67-90 | In an arena laid out in pre-order, the `Display` of a node is the lines of the nodes of its subtree block, in arena order. |
| TreeNodes.RenderAllIsPreorder | src/tree.rs:82-86 | The children's displays, concatenated in child order, are the lines of the children's blocks, in arena order. |
| TreeNodes.LinesAppend | src/tree.rs:67-90 | The lines of two adjacent runs of nodes are the lines of the first run followed by those of the second; the pre-order proofs of `Display` combine the children's outputs with it. |
| TreeNodes.LinesAreConcat | src/tree.rs:67-90 | The lines of a run of nodes are their one-line strings, one after another. |
| TreeShape.AttachIsTree | src/tree.rs:260-267 | Appending a childless node one level below an existing node, as that node's last child, keeps parent and child links agreeing and child lists in input order. |
| TreeShape.Attach | src/tree.rs:260-267 | The arena after a new node is created, its parent set and `add_child` called on the parent: the node is appended, the parent's child list grows by the new index at its end, and every other node is unchanged. AttachIsTree and AttachKeepsInv prove that this keeps the tree invariants. |
| TreeShape.AttachParents | src/tree.rs:193-267 | When the new node's parent is the latest earlier node one level up, every node still hangs under the latest earlier node one level up. |
| TreeShape.AttachSpine | src/tree.rs:193-267 | Attaching at depth `d` under the path node of depth `d - 1` makes the new path the old path up to depth `d - 1` followed by the new node. |
| TreeShape.AttachIntervals | src/tree.rs:260-267 | After the append, every subtree is still a contiguous block in pre-order, which is the layout `Display` relies on. The blocks on the path grow by the new node. |
| TreeShape.AttachKeepsInv | src/tree.rs:193-267 | Attaching an entry under the path node one level above it keeps the whole tree invariant. |
| Builder.TreeBuilder.constructor | src/tree.rs:160-164 | The root `TreeNode::new(Some(volume_tag), 0)` is the only node, and it is the cursor at depth 0. |
| Builder.TreeBuilder.CursorFacts | src/tree.rs:162-164 | `current_depth` is always the cursor's depth, and the newest node is the cursor's last child. |
| Builder.TreeBuilder.NewNode | src/tree.rs:195-198 | `TreeNode::new` appends a fresh node and nothing else changes. |
| Builder.TreeBuilder.SetParent | src/tree.rs:200 | Only the given node's parent changes. |
| Builder.TreeBuilder.AddChild | src/tree.rs:43-45 | Only the given node's child list changes: the child is appended at its end. |
| Builder.AttachInSteps | src/tree.rs:260-267 | Creating a node, setting its parent, then `add_child` on the parent is one append of the linked node. |
| Builder.TreeBuilder.CreateEntry | src/tree.rs:260-267 | The three steps attach the entry's node as the cursor's last child. |
| Builder.TreeBuilder.MoveCursor | src/tree.rs:193-258 | A parent is found exactly when the entry is at most one level deeper than the newest node. The cursor then is the path node one level above the entry, at depth `depth - 1`. Delta 0 ascends once, a delta of at most 0 ascends `1 - delta` times, and delta 2 descends into the newest node. |
| Builder.TreeBuilder.AttachEntry | src/tree.rs:260-267 | Attaching the entry under the moved cursor keeps the builder's invariant. |
| Builder.TreeBuilder.Step | src/tree.rs:166-269 | One entry line fails exactly as StepFailure says: too short, or more than one level deeper than the newest node. Otherwise the line appends exactly one node (the classified label and depth, no children, flag off) as the last child of the latest earlier node one level up. Nothing else changes but that node's child list. The ascent count is as in MoveCursor. |
| Builder.StepFailure | src/tree.rs:176-251 | A failure names the line it happened on, and a line that does not fail has an entry. It covers the three panics of one entry line: `line[4..]` on a line shorter than four characters (line 176), no last child to descend into (lines 204-217), and no parent left while ascending (lines 244-251). |
| Loader.EntriesFailureNone | src/tree.rs:166-269 | The entry lines fail nowhere exactly when every entry has at least 4 characters and is at most one level deeper than the entry before it, the root counting as depth 0. |
| Loader.EntriesFailureAt | src/tree.rs:166-269 | A failure is the failure of the first entry line that fails, with every earlier entry well indented. |
| Loader.LoadSucceedsIff | src/tree.rs:142-269 | `load_tree` succeeds exactly when the header is complete and the entries are well indented. |
| Loader.FirstEntryTooDeep | src/tree.rs:204-251 | A first entry two or more levels deep fails at line 4 with no parent, carrying its label. At depth 2 the root has no child to descend into (lines 204-217); at depth 3 or more the ascending loop finds no parent above the root (lines 244-251). |
| Loader.RootRendersAll | src/tree.rs:67-90 | The dump of the root of a built tree is the lines of all nodes in arena order. |
| Loader.LinesAreDump | src/tree.rs:67-90 | The lines of the nodes built from a listing are the root's line followed by one line per entry line, in input order. |
| Loader.StepKeepsEntries | src/tree.rs:260-267 | After an attach, every node `j >= 1`, the new one included, still carries the label and depth of the entry line `lines[j + 2]`, and the root is unchanged. |
| Loader.LoadTree | src/tree.rs:122-273 | It returns an error exactly when LoadFailure says so, and that error. On success the result is a tree with the header's values in which each node hangs under the latest earlier node one level up, and its root dump lists the root and every entry in input order at its classified depth. |
| Example.ListingHeader | src/tree.rs:125-129 | The comment's header gives volume `X`, serial number `Y Y` and root `X:\`. |
| Example.ListingEntries | src/tree.rs:130-137 | The comment's entry lines classify to the folder names at depths 1, 2, 1, 2, 1, 1, 2, 3. |
| Example.ListingLoads | src/tree.rs:125-138 | Loading the comment's listing succeeds. |
| Example.ListingParents | src/tree.rs:130-137 | In the loaded tree, each folder hangs under its parent folder in the drawing, and folder4aa hangs under folder4a. |
| Example.ListingRootChildren | src/tree.rs:130-137 | The root's children are folder1, folder2, folder3 and folder4, in that order. |
| Example.ListingDump | src/tree.rs:125-138 | The dump is `+ X:\`, then one line per folder in input order with two dashes per level. |
| Example.LoadListing | src/tree.rs:125-138 | `load_tree` on the comment's listing returns the header values, the folders at the places the drawing shows, and the dump in input order. |
| Example.CommentNamesArePlain | src/tree.rs:130-137 | The comment's folder names satisfy the example's conditions on names, so the example's results apply to the listing exactly as written. |

## Left out

- The egui user interface: src/ui.rs, `impl Show for RefMut<TreeNode>` and src/main.rs. `visible` is kept as a plain flag that every new node starts with off.
- File I/O: `File::open`, `BufReader::lines` and the I/O errors that `unwrap` would turn into panics. The input is a sequence of lines that has already been read.
- `Rc`/`RefCell` sharing and borrow checking: the tree is an arena of indices. Aliasing between `Rc` handles is not modelled.
- UTF-8 byte boundaries: `line[4..]` and `line.get(0..4)` index bytes. Here lines are sequences of characters, so a line with multi-byte characters is cut by characters, not bytes.
- Integer widths: `depth` is `i32` and `usize` in the original and unbounded here. Overflow would need more than 2^31 levels of indentation.
- Panics are error values: each `unwrap` on `None` and each out-of-range slice is a `LoadError` naming the line. The text of the `anyhow` message is not modelled beyond the line number and the label.
- Loader.LoadTree: the error for an entry with no parent carries the label left after the indentation was stripped. This is what the code formats, since `line` has been reassigned by then. It is not the raw input line.
- Builder.TreeBuilder.MoveCursor: the code keeps `current_depth` equal to the cursor's depth on every path. Delta 0 sets it to `depth - 1` and the ascending loop decrements it once per step. So the model has no stale cursor, and the delta-0 `unwrap` cannot fail. Both facts are proved.
- Example: the folder names `folder1` … `folder4aa` are a parameter. CommentNamesArePlain shows that the comment's names meet the example's conditions. The lemmas are proved for every such list of names, which keeps the proofs free of long literal strings.
