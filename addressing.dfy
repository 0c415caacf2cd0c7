/** The read side of DiffTreeModel: how Qt's model indexes address the nodes
    of the tree (rowCount, columnCount, hasChildren, index, parent, node),
    what data() answers for each role, and the notifications setData emits.
    The state is passed in: the arena of nodes (empty while no valid diff
    has been set, which is when the source has no root), the diff and the
    repository index. */
module Addressing {
  import opened Options
  import opened PathText
  import opened DiffTree
  import opened TreeProperties
  import opened Aggregate

  /** A QModelIndex: invalid, or a row, a column and the node it points at. */
  datatype ModelIndex = Invalid | At(row: int, column: int, node: nat)

  /** DiffTreeModel::node: the node an index points at, and the root for the
      invalid index. */
  function NodeOf(ix: ModelIndex): (r: nat)
  {
    if ix.Invalid? then 0 else ix.node
  }

  /** A tree whose nodes list each other both ways. */
  ghost predicate Tree(a: Arena)
  {
    WellFormed(a) && Linked(a)
  }

  /** The arena and the diff belong together: no nodes while the diff is
      invalid, a tree once a valid diff has been set. */
  ghost predicate Consistent(a: Arena, d: Diff)
  {
    if d.NoDiff? then a == [] else Tree(a)
  }

  /** The index is the invalid one, or points at a node below the root: the
      only kind of index the model hands out. */
  predicate Addresses(a: Arena, ix: ModelIndex)
  {
    ix.Invalid? || 0 < ix.node < |a|
  }

  /** The index sits where its node is: column 0, and the row at which the
      node's parent lists it. */
  ghost predicate Canonical(a: Arena, ix: ModelIndex)
    requires Tree(a) && Addresses(a, ix)
  {
    ix.At? ==>
      var p := a[ix.node].parent.value;
      ix.column == 0 && 0 <= ix.row < |a[p].children| && a[p].children[ix.row] == ix.node
  }

  /** QList::indexOf: the first position of `x` in `s`, or -1. */
  function IndexOf(s: seq<nat>, x: nat): (r: int)
    ensures -1 <= r && (r == -1 <==> x !in s)
    ensures 0 <= r ==> r < |s| && s[r] == x && x !in s[..r]
    decreases |s|
  {
    if s == [] then -1
    else if s[0] == x then 0
    else
      var k := IndexOf(s[1..], x);
      assert x in s <==> x in s[1..] by {
        assert s == [s[0]] + s[1..];
      }
      assert k >= 0 ==> s[..k + 1] == [s[0]] + s[1..][..k];
      if k == -1 then -1 else k + 1
  }

  /** DiffTreeModel::rowCount: the number of children of the node, and 0
      while the diff is invalid. */
  function RowCount(a: Arena, d: Diff, ix: ModelIndex): (r: int)
    requires Consistent(a, d) && Addresses(a, ix)
  {
    if d.NoDiff? then 0 else |a[NodeOf(ix)].children|
  }

  /** DiffTreeModel::columnCount: always one column. */
  function ColumnCount(ix: ModelIndex): (r: int)
  {
    1
  }

  /** DiffTreeModel::hasChildren: there is a root and the node has a child. */
  function HasChildren(a: Arena, ix: ModelIndex): (r: bool)
    requires Addresses(a, ix)
  {
    a != [] && |a[NodeOf(ix)].children| > 0
  }

  /** hasChildren and rowCount agree. */
  lemma HasChildrenIffRows(a: Arena, d: Diff, ix: ModelIndex)
    requires Consistent(a, d) && Addresses(a, ix)
    ensures HasChildren(a, ix) <==> RowCount(a, d, ix) > 0
  {
  }

  /** DiffTreeModel::index: the index of child `row` of `parent` in column
      0, and the invalid index for any row or column out of range. */
  function Index(a: Arena, d: Diff, row: int, col: int, parent: ModelIndex): (r: ModelIndex)
    requires Consistent(a, d) && Addresses(a, parent)
    ensures r.At? <==> 0 <= row < RowCount(a, d, parent) && col == 0
    ensures r.At? ==> d.Diff? && Addresses(a, r) && Canonical(a, r) && a[r.node].parent == Some(NodeOf(parent))
    ensures r.At? ==> r.row == row
  {
    if row < 0 || row >= RowCount(a, d, parent) || col < 0 || col >= ColumnCount(parent) then Invalid
    else
      var c := a[NodeOf(parent)].children[row];
      ChildOf(a, NodeOf(parent), c);
      At(row, col, c)
  }

  /** DiffTreeModel::parent: invalid for the invalid index and for a node
      right below the root; otherwise the parent at the row where the
      grandparent lists it. */
  function Parent(a: Arena, ix: ModelIndex): (r: ModelIndex)
    requires Tree(a) && Addresses(a, ix)
    ensures r.Invalid? <==> ix.Invalid? || a[ix.node].parent == Some(0)
    ensures r.At? ==> Addresses(a, r) && Canonical(a, r) && a[ix.node].parent == Some(r.node)
  {
    match a[NodeOf(ix)].parent
    case None => Invalid
    case Some(p) =>
      if p == 0 then Invalid
      else
        assert p in a[a[p].parent.value].children;
        At(IndexOf(a[a[p].parent.value].children, p), 0, p)
  }

  /** A node appears once among its parent's children. */
  lemma ChildrenDistinct(a: Arena, n: nat, j: nat, k: nat)
    requires WellFormed(a) && n < |a| && j < |a[n].children| && k < |a[n].children|
    requires a[n].children[j] == a[n].children[k]
    ensures j == k
  {
  }

  /** The parent of the index of a child row is the index it was taken
      from. */
  lemma ParentOfIndex(a: Arena, d: Diff, row: int, parent: ModelIndex)
    requires Consistent(a, d) && Addresses(a, parent) && 0 <= row < RowCount(a, d, parent)
    requires d.Diff? && Canonical(a, parent)
    ensures Parent(a, Index(a, d, row, 0, parent)) == parent
  {
    if parent.At? {
      var q := a[parent.node].parent.value;
      var r := IndexOf(a[q].children, parent.node);
      assert a[q].children[parent.row] == parent.node;
      assert parent.node in a[q].children;
      ChildrenDistinct(a, q, r, parent.row);
    }
  }

  /** An index that sits where its node is comes back from its parent's
      child row. */
  lemma IndexOfParent(a: Arena, d: Diff, ix: ModelIndex)
    requires Consistent(a, d) && d.Diff? && ix.At? && Addresses(a, ix) && Canonical(a, ix)
    ensures Index(a, d, ix.row, 0, Parent(a, ix)) == ix
  {
  }

  /** The roles the model answers: the five branches of data() and any
      other role, which has no case in the switch. */
  datatype Role = DisplayRole | EditRole | ToolTipRole | CheckStateRole | StatusRole | OtherRole(code: int)

  /** A QVariant as data() returns it: no value, a string or a check state. */
  datatype Variant = Nothing | Text(s: string) | Check(state: CheckState)

  /** DiffTreeModel::data. `containsPath` decides which entries count
      towards a node's status string. */
  function DataOf(a: Arena, d: Diff, stage: RepoIndex, ix: ModelIndex, role: Role,
                  containsPath: (string, string) -> bool): (r: Variant)
    requires Consistent(a, d) && Addresses(a, ix)
    ensures ix.Invalid? || role.OtherRole? ==> r.Nothing?
    ensures r.Check? ==> role.CheckStateRole?
    ensures ix.At? && (role.DisplayRole? || role.EditRole? || role.ToolTipRole? || role.StatusRole?) ==> r.Text?
    ensures ix.At? && role.StatusRole? && d.NoDiff? ==> r == Text("")
  {
    if ix.Invalid? then Nothing
    else
      var n := ix.node;
      match role
      case DisplayRole => Text(a[n].name)
      case EditRole => Text(Path(a, n, true))
      case ToolTipRole => Text(Path(a, n, false))
      case CheckStateRole =>
        (match CheckStateOf(d, stage, Path(a, n, true))
         case None => Nothing
         case Some(c) => Check(c))
      case StatusRole =>
        if d.NoDiff? then Text("") else Text(StatusOf(d.entries, Path(a, n, true), containsPath))
      case OtherRole(_) => Nothing
  }

  /** The tool tip of a node is the root's name, a slash and the edit text,
      and the edit text ends with the display name: after a slash, or as the
      whole text for a node right below the root. */
  lemma DataTexts(a: Arena, d: Diff, stage: RepoIndex, ix: ModelIndex, cp: (string, string) -> bool)
    requires Consistent(a, d) && ix.At? && Addresses(a, ix)
    ensures DataOf(a, d, stage, ix, ToolTipRole, cp).s == a[0].name + "/" + DataOf(a, d, stage, ix, EditRole, cp).s
    ensures var edit := DataOf(a, d, stage, ix, EditRole, cp).s;
      var name := DataOf(a, d, stage, ix, DisplayRole, cp).s;
      edit == name || (|name| + 1 < |edit| + 1 && edit[|edit| - |name| - 1..] == "/" + name)
  {
    PathBelowRoot(a, ix.node);
  }

  /** In a tree built from a valid status diff every node shows a check
      state: the diff paths through it start with its relative path. */
  lemma BuiltNodesHaveCheckState(workdir: string, d: Diff, a: Arena, stage: RepoIndex, ix: ModelIndex, cp: (string, string) -> bool)
    requires d.Diff? && d.statusDiff && Build(workdir, Paths(d)) == Some(a)
    requires ix.At? && Addresses(a, ix)
    ensures Consistent(a, d) && DataOf(a, d, stage, ix, CheckStateRole, cp).Check?
  {
    BuildLinked(workdir, Paths(d), a);
    BuildMirrors(workdir, Paths(d), a);
    assert BelowRoot(a, ix.node);
    var k :| 0 <= k < |Paths(d)| && IsPrefix(Labels(a, ix.node), Split(Paths(d)[k]));
    NodeStartsPath(a, ix.node, Paths(d)[k]);
    CheckStateDefined(d, stage, Path(a, ix.node, true), Paths(d)[k]);
  }

  /** A notification: dataChanged for one index and the given roles,
      checkStateChanged with the new value, or the two halves of a model
      reset. */
  datatype Event = DataChanged(index: ModelIndex, role: Role) | CheckStateChanged(index: ModelIndex, state: int)
                 | ResetBegun | ResetEnded

  /** The dataChanged notifications setData sends for the children of the
      node, in row order. */
  function ChildEvents(a: Arena, d: Diff, ix: ModelIndex): (r: seq<Event>)
    requires Consistent(a, d) && d.Diff? && Addresses(a, ix)
    ensures |r| == RowCount(a, d, ix)
    ensures forall k :: 0 <= k < |r| ==> r[k] == DataChanged(Index(a, d, k, 0, ix), CheckStateRole)
  {
    var kids := a[NodeOf(ix)].children;
    seq(|kids|, k requires 0 <= k < |kids| => DataChanged(At(k, 0, kids[k]), CheckStateRole))
  }

  /** The dataChanged notifications setData's loop up the tree sends,
      starting at index `p`: `p` and each of its ancestors below the root. */
  function UpwardEvents(a: Arena, p: ModelIndex): (r: seq<Event>)
    requires Tree(a) && Addresses(a, p)
    decreases NodeOf(p)
  {
    if p.Invalid? then []
    else [DataChanged(p, CheckStateRole)] + UpwardEvents(a, Parent(a, p))
  }

  /** Event `e` is the k-th the loop up the tree sends when it starts at
      node `n`: a dataChanged for the node whose segments are those of `n`
      without the last k, addressed at the row where its parent lists it
      when it is an ancestor. */
  ghost predicate AncestorEvent(a: Arena, n: nat, e: Event, k: nat)
    requires Tree(a) && n < |a|
  {
    && e.DataChanged? && e.index.At? && Addresses(a, e.index)
    && (k > 0 ==> Canonical(a, e.index))
    && k <= |Labels(a, n)|
    && Labels(a, e.index.node) == Labels(a, n)[..|Labels(a, n)| - k]
  }

  /** Starting at a node, the loop up the tree names that node and each
      ancestor below the root, nearest first, each at the row where its
      parent lists it: the k-th is the node whose segments are those of the
      start without the last k. */
  lemma {:induction false} UpwardEventsMeaning(a: Arena, p: ModelIndex)
    requires Tree(a) && p.At? && Addresses(a, p)
    ensures |Labels(a, p.node)| == |UpwardEvents(a, p)|
    ensures forall k :: 0 <= k < |UpwardEvents(a, p)| ==> AncestorEvent(a, p.node, UpwardEvents(a, p)[k], k)
    decreases p.node
  {
    var q := Parent(a, p);
    var r := UpwardEvents(a, p);
    var lp := Labels(a, p.node);
    if q.Invalid? {
      assert lp == Labels(a, 0) + [a[p.node].name];
      assert AncestorEvent(a, p.node, r[0], 0);
    } else {
      UpwardEventsMeaning(a, q);
      var rest := UpwardEvents(a, q);
      assert r == [DataChanged(p, CheckStateRole)] + rest;
      var lq := Labels(a, q.node);
      assert lp == lq + [a[p.node].name];
      forall k | 0 <= k < |r| ensures AncestorEvent(a, p.node, r[k], k) {
        if k > 0 {
          assert r[k] == rest[k - 1];
          if k == 1 {
            assert rest[0].index == q;
          }
          AncestorShift(a, p.node, q.node, rest[k - 1], k);
        }
      }
    }
  }

  /** An event the loop sends from the parent `q` of `n` is one step further
      up when the loop starts at `n`. */
  lemma AncestorShift(a: Arena, n: nat, q: nat, e: Event, k: nat)
    requires Tree(a) && n < |a| && q < |a| && 0 < k
    requires Labels(a, n) == Labels(a, q) + [a[n].name]
    requires AncestorEvent(a, q, e, k - 1) && Canonical(a, e.index)
    ensures AncestorEvent(a, n, e, k)
  {
    var lp := Labels(a, n);
    var lq := Labels(a, q);
    assert lp[..|lp| - k] == lq[..|lq| - (k - 1)];
  }

  /** Everything setData sends for index `ix` and value `value`, in order:
      the children, the ancestors from the nearest up, the index itself, and
      checkStateChanged. */
  function Notifications(a: Arena, d: Diff, ix: ModelIndex, value: int): (r: seq<Event>)
    requires Consistent(a, d) && d.Diff? && Addresses(a, ix)
    ensures |r| == RowCount(a, d, ix) + |UpwardEvents(a, Parent(a, ix))| + 2
    ensures r[|r| - 2] == DataChanged(ix, CheckStateRole) && r[|r| - 1] == CheckStateChanged(ix, value)
  {
    ChildEvents(a, d, ix) + UpwardEvents(a, Parent(a, ix)) + [DataChanged(ix, CheckStateRole), CheckStateChanged(ix, value)]
  }
}
