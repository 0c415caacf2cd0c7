# DiffTreeModel in Dafny

Gittyup shows the files of a diff as a tree. `DiffTreeModel` is the Qt item
model behind that view. It holds these pieces:

- A diff (`mDiff`).
- A tree of `Node`s built from the diff's paths, one node per path segment,
  under a root named after the repository's working directory.
- The repository index, which says for each path whether it is staged.

Qt reads the model through the usual item-model calls:

- `rowCount`, `columnCount` and `hasChildren` describe the tree's shape.
- `index`, `parent` and `node` move between model indexes and nodes.
- `data` answers a role for a node:
  - the display name, the relative path, or the full path as tool tip;
  - a tri-state check state gathered from the staged state of the diff
    paths under the node;
  - the string of status characters of the entries under the node.

`setData` with the check-state role does two things:

- It stages or unstages every diff path that starts with the node's relative
  path.
- It then notifies, in order, the node's children, its ancestors, the node
  itself, and the listeners of `checkStateChanged`.

This project models that behaviour and proves what it promises.

Layout, module by module:

- `Options` (`options.dfy`): the `Option` type.
- `PathText` (`path_text.dfy`): `QString::split` on `/`, the `/`-join that
  `Node::path` performs, and `QString::startsWith`. It proves that split and
  join undo each other.
- `DiffTree` (`diff_tree.dfy`): the tree of nodes as an arena, `seq<Node>`.
  - Node 0 is the root, and nodes refer to their parent and children by id.
  - It states when the tree is well formed.
  - It defines the pure meaning of `Node::addChild` (`Insert`), of
    `createDiffTree` (`Build`) and of `Node::path` (`Path`).
- `TreeProperties` (`tree_properties.dfy`): what building the tree
  guarantees.
  - Sibling names stay unique, and children keep their first-seen order.
  - Every diff path gets exactly one node: no two nodes share a relative
    path.
  - Every node's relative path starts a diff path, and every node without
    children is the node of a diff path.
  - Descending before linking the new node, as `Node::addChild` does, gives
    the same tree as linking first.
- `Aggregate` (`aggregate.dfy`): the diff, the repository index, and the two
  summaries `data` computes, the check state and the status string.
- `Addressing` (`addressing.dfy`):
  - model indexes;
  - `rowCount`, `columnCount`, `hasChildren`, `index`, `parent` and `node`
    as functions, with their round trips;
  - `data` as a function of the state;
  - the notification sequence `setData` sends.
- `Model` (`model.dfy`): the class `DiffTreeModel`.
  - Its fields are the diff, the node arena, the repository index and the
    log of sent notifications.
  - Its methods are `Node::addChild` (recursive, over the arena field),
    `createDiffTree`, `setDiff`, `data` and both `setData` overloads.
  - The loops of the source appear as loops: finding a child, threading
    paths, collecting matching files, counting staged files, collecting
    status characters, notifying children, and walking up the parents.
  - Each method is proved against the pure function that defines it.

The node arena stands in for the `Node *` pointers. A `ModelIndex` carries
the node id where the source carries the node pointer as the index's
internal pointer. Sending a notification appends an `Event` to the model's
`log`.

`Node::addChild` reads `pathPart[indexFirstDifferent]` without a bounds
check. That read runs past the end of the segment list when a diff path
splits into segments that equal, or start, the segments of an earlier path.
One example is the paths `a/b` and then `a`.

- `Insert` and `Build` return `None` in that case.
- `TreeProperties.InsertFailsOnlyOnKnownPath` shows that this happens only
  when the tree already holds a node for the whole path.
- `TreeProperties.BuildDefined` shows that it never happens for a
  prefix-free list of paths.

`setDiff` and `createDiffTree` therefore require a prefix-free list of paths.

The nodes without children are not simply the diff's entries. When an
earlier path's segments start a later path's, as with `a` and then `a/b`,
`a` gets a child and is no longer a leaf. `TreeProperties.BuildLeaves`
states the direction that always holds: every node without children is the
node of a diff path.

## Model

| member | source | states |
|---|---|---|
| PathText.StartsWith | src/ui/DiffTreeModel.cpp:127 | no contract of its own: the raw string prefix test of `QString::startsWith`; `Matching` and `NodeStartsPath` state what it selects |
| PathText.Split | src/ui/DiffTreeModel.cpp:39 | splitting a path on `/` gives at least one segment and no segment holds a slash |
| PathText.JoinSplit | src/ui/DiffTreeModel.cpp:39 | joining the segments of a path with `/` gives the path back |
| PathText.SplitJoin | src/ui/DiffTreeModel.cpp:293 | splitting the `/`-join of slash-free segments gives the segments back |
| DiffTree.Insert | src/ui/DiffTreeModel.cpp:311-325 | a tree it returns has at least as many nodes as the old one and keeps child ids in range; `InsertKeeps`, `ReuseOrAppend`, `InsertLabels` and `InsertLeaves` state what it adds, and `InsertFailsOnlyOnKnownPath` when it returns nothing |
| DiffTree.Build | src/ui/DiffTreeModel.cpp:34-42 | a tree it returns holds at least the root and keeps child ids in range; `BuildMirrors`, `BuildCoversDiff`, `BuildLeaves` and `BuildDefined` state its meaning |
| DiffTree.Path | src/ui/DiffTreeModel.cpp:290-294 | no contract of its own; `PathBelowRoot`, `RelativePathJoinsLabels` and `MirroredPathSplits` state what path(true) and path(false) give |
| DiffTree.FindChild | src/ui/DiffTreeModel.cpp:313-318 | the child found has the segment's name; there is none exactly when no child has that name |
| DiffTree.AppendChild | src/ui/DiffTreeModel.cpp:320-324 | the new node is named by the segment, has the node as parent and no children, comes last among the node's children, and no other node changes |
| TreeProperties.AppendChildWellFormed | src/ui/DiffTreeModel.cpp:320-324 | adding a child whose name no sibling has keeps parent links, child links and unique sibling names |
| TreeProperties.AppendChildLinked | src/ui/DiffTreeModel.cpp:320-324 | adding a child keeps every node listed among its parent's children |
| TreeProperties.ChildOf | src/ui/DiffTreeModel.cpp:296-309 | a listed child points back at its parent and is created after it |
| TreeProperties.InsertKeeps | src/ui/DiffTreeModel.cpp:311-325 | addChild keeps the tree well formed, with unique sibling names; it never changes the name or parent of an existing node; it leaves the nodes created before the starting node untouched |
| TreeProperties.InsertKeepsChildOrder | src/ui/DiffTreeModel.cpp:311-325 | every node's old children stay a prefix of its new children, and each node gains at most one child |
| TreeProperties.InsertLinked | src/ui/DiffTreeModel.cpp:311-325 | addChild keeps every node listed among its parent's children |
| TreeProperties.ReuseOrAppend | src/ui/DiffTreeModel.cpp:313-324 | an existing child with the segment's name is reused and the node's children are unchanged; otherwise exactly one child with that name is appended at the end |
| TreeProperties.LabelsStable | src/ui/DiffTreeModel.cpp:290-294 | a node's chain of segment names depends only on the names and parents of the nodes on its way up |
| TreeProperties.InsertLabels | src/ui/DiffTreeModel.cpp:311-325 | after addChild(p, i) some node's segment chain is the starting node's chain followed by p[i..]; old nodes keep their chains; every new node's chain starts that one |
| TreeProperties.InsertOldLabels | src/ui/DiffTreeModel.cpp:311-325 | addChild keeps the tree well formed and leaves the segment chain of every existing node alone |
| TreeProperties.InsertNewLabels | src/ui/DiffTreeModel.cpp:311-325 | every node addChild(p, i) creates has a segment chain that starts the starting node's chain followed by p[i..] |
| TreeProperties.InsertFullLabel | src/ui/DiffTreeModel.cpp:311-325 | after addChild(p, i) some node has the starting node's chain followed by p[i..] |
| TreeProperties.InsertLeaves | src/ui/DiffTreeModel.cpp:311-325 | a node left without children by addChild(p, i) either already existed without children or has the starting node's chain followed by p[i..] |
| TreeProperties.FreshChainSucceeds | src/ui/DiffTreeModel.cpp:320-323 | below a node without children, addChild never reads past the end of the segment list |
| TreeProperties.InsertFailsOnlyOnKnownPath | src/ui/DiffTreeModel.cpp:313-316 | addChild runs past the end of the segment list only if some node already has the starting chain followed by the remaining segments |
| TreeProperties.MirrorsStep | src/ui/DiffTreeModel.cpp:37-41 | one round of createDiffTree keeps a node for every path seen so far, and keeps every node's chain a prefix of some path's segments |
| TreeProperties.BuildMirrors | src/ui/DiffTreeModel.cpp:34-42 | the built tree is well formed and keeps the root's name; every diff path has a node with its segments, and every node's segments start those of a diff path |
| TreeProperties.BuildLinked | src/ui/DiffTreeModel.cpp:34-42 | the built tree lists every node among its parent's children |
| TreeProperties.InsertNewPath | src/ui/DiffTreeModel.cpp:37-41 | adding a path whose segments start no earlier path's segments never reads past the end of the path |
| TreeProperties.BuildDefined | src/ui/DiffTreeModel.cpp:34-42 | if no path's segments start an earlier path's segments, createDiffTree never reads past the end of a path |
| TreeProperties.PathBelowRoot | src/ui/DiffTreeModel.cpp:290-294 | below the root, path(false) is the root's name, a slash, then path(true); so it begins with the root's name |
| TreeProperties.RelativePathJoinsLabels | src/ui/DiffTreeModel.cpp:290-294 | path(true) of a node below the root is its chain of segment names joined with `/` |
| TreeProperties.NodeForPath | src/ui/DiffTreeModel.cpp:290-294 | a node whose segment chain is the split of a path has that path as its relative path |
| TreeProperties.NodeStartsPath | src/ui/DiffTreeModel.cpp:290-294 | a node whose segment chain starts the split of a path has a relative path that is a string prefix of that path |
| TreeProperties.LabelsInjective | src/ui/DiffTreeModel.cpp:313-324 | in a tree that lists every node among its parent's children, two nodes with the same segment chain are the same node |
| TreeProperties.BuildLeaves | src/ui/DiffTreeModel.cpp:34-42 | in the built tree every node below the root without children has exactly the segments of some diff path |
| TreeProperties.MirroredPathSplits | src/ui/DiffTreeModel.cpp:290-294 | in a tree that mirrors the diff paths, splitting a node's relative path on `/` gives back its segment chain |
| TreeProperties.BuildPathsDistinct | src/ui/DiffTreeModel.cpp:34-42 | in the built tree no two nodes below the root have the same relative path |
| TreeProperties.BuildCoversDiff | src/ui/DiffTreeModel.cpp:34-42 | in the built tree every diff path is the relative path of exactly one node, every node's relative path is a string prefix of some diff path, and every node without children has a diff path as its relative path |
| TreeProperties.WellFormedOrdered | src/ui/DiffTreeModel.cpp:320-324 | in a well-formed tree every child is created after its parent |
| DiffTree.Adopt | src/ui/DiffTreeModel.cpp:324 | the node gains the given child as its last child and nothing else changes |
| TreeProperties.FindChildByName | src/ui/DiffTreeModel.cpp:313-318 | the child search looks only at names, not at children lists |
| TreeProperties.InsertAdopt | src/ui/DiffTreeModel.cpp:320-324 | adding the new node to a parent's children after the recursive addChild below it gives the same tree as adding it before |
| Aggregate.IsStaged | src/ui/DiffTreeModel.cpp:138 | no contract of its own: the index's state for a path it lists, and unstaged for any other; `SetStaged` states how staging changes it |
| Aggregate.Scan | src/ui/DiffTreeModel.cpp:134-150 | a finished count is at most the number of paths; `ScanMeaning` states when the loop stops and what the count means |
| Aggregate.CheckStateOf | src/ui/DiffTreeModel.cpp:117-159 | no contract of its own; `CheckStateMeaning` states each answer both ways and `CheckStateData` is the loop proved equal to it |
| Aggregate.Paths | src/ui/DiffTreeModel.cpp:37-38 | the diff's paths are the entries' names in entry order, and there are none for the invalid diff |
| Aggregate.Matching | src/ui/DiffTreeModel.cpp:125-129 | the collected paths are exactly the diff paths that start with the prefix as raw strings |
| Aggregate.MatchingCounts | src/ui/DiffTreeModel.cpp:221-226 | each diff path under the prefix is collected as often as the diff lists it, and no other path is collected |
| Aggregate.ScanMeaning | src/ui/DiffTreeModel.cpp:134-150 | the counting loop stops exactly when some path is partially staged; otherwise the count is at most the number of paths, zero exactly when none is staged, and the number of paths exactly when all are |
| Aggregate.CheckStateMeaning | src/ui/DiffTreeModel.cpp:117-159 | no value exactly for an invalid diff, a non-status diff, or no path under the prefix; Checked iff all paths under the prefix are staged; Unchecked iff none is staged or partially staged; PartiallyChecked iff one is partially staged, or some are staged and some are not |
| Aggregate.CheckStateDefined | src/ui/DiffTreeModel.cpp:131-132 | a valid status diff with a path under the prefix gives a check state |
| Aggregate.SetStaged | src/ui/DiffTreeModel.cpp:227-228 | every listed file becomes staged, or unstaged when `on` is false, and every other path keeps its state |
| Aggregate.StageBelow | src/ui/DiffTreeModel.cpp:219-228 | after staging or unstaging the files under a node's path, every path that extends it and has files reads Checked, or Unchecked |
| Aggregate.StatusOf | src/ui/DiffTreeModel.cpp:183-199 | the status string has no repeated character, and holds exactly the status characters of the entries `containsPath` accepts |
| Aggregate.StatusFirstOccurrence | src/ui/DiffTreeModel.cpp:189-196 | the characters of the status string appear in the order of their first occurrence among the accepted entries |
| Addressing.NodeOf | src/ui/DiffTreeModel.cpp:267-270 | no contract of its own: the node a valid index points at, and the root for the invalid index; `ParentOfIndex` and `IndexOfParent` state the round trips through it |
| Addressing.RowCount | src/ui/DiffTreeModel.cpp:58-61 | no contract of its own; `HasChildrenIffRows` ties it to hasChildren, and `Index` accepts exactly the rows below it |
| Addressing.ColumnCount | src/ui/DiffTreeModel.cpp:63-66 | no contract of its own: one column; `Index` accepts column 0 only |
| Addressing.HasChildren | src/ui/DiffTreeModel.cpp:68-71 | no contract of its own; `HasChildrenIffRows` states that it holds exactly when rowCount is positive |
| Addressing.DataOf | src/ui/DiffTreeModel.cpp:95-203 | the invalid index and roles without a branch give nothing; only the check-state role gives a check state; the display, edit, tool-tip and status roles give text; the status of an invalid diff is empty; `DataTexts`, `BuiltNodesHaveCheckState`, `CheckStateMeaning` and `StatusOf` state the texts and states |
| Addressing.IndexOf | src/ui/DiffTreeModel.cpp:80 | the first position of the element, and -1 exactly when it is absent |
| Addressing.HasChildrenIffRows | src/ui/DiffTreeModel.cpp:58-71 | hasChildren holds exactly when rowCount is positive |
| Addressing.Index | src/ui/DiffTreeModel.cpp:83-93 | the index is valid exactly when 0 <= row < rowCount(parent) and the column is 0; a valid one has that row, points at a child of the parent's node, and sits where that child's parent lists it |
| Addressing.Parent | src/ui/DiffTreeModel.cpp:73-81 | invalid exactly for the invalid index and for a node right below the root; otherwise it points at the node's parent, at the row where the grandparent lists it |
| Addressing.ChildrenDistinct | src/ui/DiffTreeModel.cpp:80 | a node appears once among its parent's children, so indexOf finds its row |
| Addressing.ParentOfIndex | src/ui/DiffTreeModel.cpp:73-93 | parent(index(row, 0, p)) == p for every row of p |
| Addressing.IndexOfParent | src/ui/DiffTreeModel.cpp:73-93 | index(ix.row, 0, parent(ix)) == ix for every index the model hands out |
| Addressing.DataTexts | src/ui/DiffTreeModel.cpp:102-115 | the tool tip is the root's name, a slash and the edit text; the edit text ends with the display name |
| Addressing.BuiltNodesHaveCheckState | src/ui/DiffTreeModel.cpp:117-132 | in a tree built from a valid status diff, every node answers the check-state role with a check state |
| Addressing.ChildEvents | src/ui/DiffTreeModel.cpp:231-239 | one dataChanged per row of the node, in row order, each for index(row, 0, node) |
| Addressing.UpwardEvents | src/ui/DiffTreeModel.cpp:240-247 | no contract of its own; `UpwardEventsMeaning` states which events it lists and in which order |
| Addressing.UpwardEventsMeaning | src/ui/DiffTreeModel.cpp:240-247 | the loop up the tree sends one dataChanged per segment of the node's chain; the k-th is for the node whose chain drops the last k segments; ancestors are addressed at their row |
| Addressing.Notifications | src/ui/DiffTreeModel.cpp:230-252 | the children's and ancestors' notifications come first, then dataChanged for the index, and last checkStateChanged with the value |
| Model.MatchingFiles | src/ui/DiffTreeModel.cpp:221-226 | the loop collects exactly `Matching` of the diff's paths |
| Model.ScanStep | src/ui/DiffTreeModel.cpp:137-149 | one path more stops the count on a partially staged path, adds one for a staged path, and otherwise leaves the count alone |
| Model.ScanStaysPartial | src/ui/DiffTreeModel.cpp:146-147 | once a partially staged path is met the result is partial, whatever follows |
| Model.CheckStateData | src/ui/DiffTreeModel.cpp:117-159 | the collecting and counting loops return `CheckStateOf`, whose meaning `CheckStateMeaning` states |
| Model.StatusData | src/ui/DiffTreeModel.cpp:187-198 | the loop returns `StatusOf`, which is duplicate-free, complete and in first-occurrence order |
| Model.DiffTreeModel.constructor | src/ui/DiffTreeModel.cpp:25-27 | a new model has no diff, no tree and no notifications, and is valid |
| Model.DiffTreeModel.AddChild | src/ui/DiffTreeModel.cpp:311-325 | the arena becomes `Insert` of the old arena, whose properties the `Insert*` lemmas state |
| Model.DiffTreeModel.CreateDiffTree | src/ui/DiffTreeModel.cpp:34-42 | the loop leaves the tree `Build` gives for the diff's paths |
| Model.DiffTreeModel.SetDiff | src/ui/DiffTreeModel.cpp:44-56 | a valid diff replaces the old one and the tree is rebuilt from it; an invalid diff changes nothing; the reset notifications bracket it; the model stays valid |
| Model.DiffTreeModel.Data | src/ui/DiffTreeModel.cpp:95-203 | the answer is `DataOf` for every role, and nothing for the invalid index |
| Model.DiffTreeModel.SetDataFlagged | src/ui/DiffTreeModel.cpp:212-260 | true exactly for the check-state role; then the files under the node's relative path are staged iff the value is non-zero, unless index changes are ignored, and the notifications are sent in order; any other role changes nothing |
| Model.DiffTreeModel.Stage | src/ui/DiffTreeModel.cpp:219-228 | the index becomes `SetStaged` of the diff paths under the node's relative path |
| Model.DiffTreeModel.Notify | src/ui/DiffTreeModel.cpp:230-252 | the log grows by exactly `Notifications` |
| Model.DiffTreeModel.NotifyChildren | src/ui/DiffTreeModel.cpp:231-239 | the log grows by exactly `ChildEvents`, one per row in order |
| Model.DiffTreeModel.NotifyUpward | src/ui/DiffTreeModel.cpp:240-247 | the log grows by exactly `UpwardEvents`: the start and each ancestor below the root, nearest first |
| Model.DiffTreeModel.SetData | src/ui/DiffTreeModel.cpp:205-210 | the same as setData with index changes written through |

## Left out

- `src/ui/DiffTreeModel.h` is not part of this model. The fields' initial values are taken as no diff and no root. `containsPath` is a function parameter.
- `git::Diff::statusChar`: each entry carries its status character directly.
- `git::Index::isStaged` and `setStaged` are not part of this model. They appear as a map from path to staged state. A path the map lacks reads as unstaged, and setStaged overwrites the listed paths.
- `KindRole`, `AddedRole` and `ModifiedRole` of `data`: they call into settings, submodule lookup and the revision walker. Every role without a branch answers nothing, through `OtherRole`.
- `flags`, `TreeProxy`, destructors and memory management: no logic of their own, or nothing an arena needs.
- Qt's signals: `beginResetModel`, `endResetModel`, `dataChanged` and `checkStateChanged` are events appended to a log. Receivers are not modelled. Each `dataChanged` carries the one role that `setData` passes.
- One repository index: `data` and `setData` read and write `mDiff.index()`. The model keeps that index in the `stage` field, and `setDiff` never replaces it. A diff that came with a different index is not modelled.
- `QVariant`: the value of `setData` is an `int`, and `toBool` is `value != 0`.
- Index validity: indexes are either invalid or point at a node below the root, as the model's own `index` and `parent` hand out. Indexes with foreign internal pointers are not modelled.
- Model.DiffTreeModel.SetDiff: requires the diff's paths to be prefix-free. The source reads past the end of a segment list otherwise (see above).
- Model.DiffTreeModel.CreateDiffTree: requires the same prefix-free condition, for the same reason.
- Model.DiffTreeModel.AddChild: requires that `Insert` succeed, which is the bounds condition on `pathPart` made explicit.
- Model.DiffTreeModel.SetDataFlagged: requires a valid diff for the check-state role. The source dereferences the root for the invalid index too, and there is no root before the first valid diff.
- Model.DiffTreeModel.SetData: requires the same valid diff for the check-state role.
- Integers: rows, columns and counts are unbounded; Qt's `int` overflow is not modelled.
