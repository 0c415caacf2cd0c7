/** DiffTreeModel itself: the object that holds the diff, the tree built
    from it and the repository index, and whose methods rebuild the tree
    (setDiff, createDiffTree, Node::addChild), answer data() and change check
    states (setData). Notifications go to `log` in the order they are sent. */
module Model {
  import opened Options
  import opened PathText
  import opened DiffTree
  import opened TreeProperties
  import opened Aggregate
  import opened Addressing

  /** The first `n` paths of a prefix-free list are prefix-free. */
  lemma PrefixFreeUpTo(paths: seq<string>, n: nat)
    requires PrefixFree(paths) && n <= |paths|
    ensures PrefixFree(paths[..n])
  {
    forall j, k | 0 <= j < k < n ensures !IsPrefix(Split(paths[..n][k]), Split(paths[..n][j])) {
      assert paths[..n][j] == paths[j] && paths[..n][k] == paths[k];
    }
  }

  /** The diff's paths under `prefix`, in entry order: the loop over
      mDiff.name(i) with QString::startsWith at the head of the CheckState
      branch of data() and of setData. */
  method MatchingFiles(d: Diff, prefix: string) returns (files: seq<string>)
    ensures files == Matching(Paths(d), prefix)
  {
    files := [];
    if d.Diff? {
      var paths := Paths(d);
      var i := 0;
      while i < |d.entries|
        invariant 0 <= i <= |d.entries|
        invariant files == Matching(paths[..i], prefix)
      {
        var file := d.entries[i].path;
        assert paths[..i + 1][..i] == paths[..i] && paths[..i + 1][i] == file;
        if StartsWith(file, prefix) {
          files := files + [file];
        }
        i := i + 1;
      }
      assert paths[..|d.entries|] == paths;
    }
  }

  /** One more round of the counting loop. */
  lemma ScanStep(ix: RepoIndex, paths: seq<string>, k: nat, count: nat)
    requires k < |paths| && Scan(ix, paths[..k]) == Counted(count)
    ensures Scan(ix, paths[..k + 1]) ==
      if IsStaged(ix, paths[k]) == PartiallyStaged then Partial
      else if IsStaged(ix, paths[k]) == Staged then Counted(count + 1)
      else Counted(count)
  {
    assert paths[..k + 1][..k] == paths[..k] && paths[..k + 1][k] == paths[k];
  }

  /** Once the counting loop has met a partially staged path it stays
      stopped, whatever follows. */
  lemma {:induction false} ScanStaysPartial(ix: RepoIndex, paths: seq<string>, n: nat)
    requires n <= |paths| && Scan(ix, paths[..n]).Partial?
    ensures Scan(ix, paths).Partial?
    decreases |paths| - n
  {
    if n < |paths| {
      assert paths[..n + 1][..n] == paths[..n];
      ScanStaysPartial(ix, paths, n + 1);
    } else {
      assert paths[..n] == paths;
    }
  }

  /** The CheckState branch of DiffTreeModel::data for a node whose
      relative path is `prefix`, with its two loops: collect the paths under
      the prefix, then count the staged ones, stopping at a partially staged
      one. */
  method CheckStateData(d: Diff, stage: RepoIndex, prefix: string) returns (r: Option<CheckState>)
    ensures r == CheckStateOf(d, stage, prefix)
  {
    if d.NoDiff? || !d.statusDiff {
      return None;
    }
    var paths := MatchingFiles(d, prefix);
    if paths == [] {
      return None;
    }
    var count := 0;
    var k := 0;
    while k < |paths|
      invariant 0 <= k <= |paths|
      invariant Scan(stage, paths[..k]) == Counted(count)
    {
      ScanStep(stage, paths, k, count);
      match IsStaged(stage, paths[k]) {
        case PartiallyStaged =>
          ScanStaysPartial(stage, paths, k + 1);
          return Some(PartiallyChecked);
        case Staged =>
          count := count + 1;
        case _ =>
      }
      k := k + 1;
    }
    assert paths[..k] == paths;
    if count == 0 {
      r := Some(Unchecked);
    } else if count == |paths| {
      r := Some(Checked);
    } else {
      r := Some(PartiallyChecked);
    }
  }

  /** The StatusRole branch of DiffTreeModel::data for a valid diff: the loop
      that appends each accepted entry's status character unless the string
      already holds it. */
  method StatusData(es: seq<Entry>, prefix: string, containsPath: (string, string) -> bool) returns (status: string)
    ensures status == StatusOf(es, prefix, containsPath)
  {
    status := "";
    var k := 0;
    while k < |es|
      invariant 0 <= k <= |es|
      invariant status == StatusOf(es[..k], prefix, containsPath)
    {
      assert es[..k + 1][..k] == es[..k] && es[..k + 1][k] == es[k];
      if containsPath(es[k].path, prefix) && es[k].status !in status {
        status := status + [es[k].status];
      }
      k := k + 1;
    }
    assert es[..|es|] == es;
  }

  /** Appending three lists one after the other appends their
      concatenation. */
  lemma Regroup<T>(a: seq<T>, b: seq<T>, c: seq<T>, d: seq<T>)
    ensures a + b + c + d == a + (b + c + d)
  {
  }

  /** Appending one element and then a list appends the list headed by
      that element. */
  lemma Shift<T>(s: seq<T>, x: T, t: seq<T>)
    ensures (s + [x]) + t == s + ([x] + t)
  {
  }

  /** One round of setData's loop up the tree. */
  lemma UpwardStep(a: Arena, q: ModelIndex)
    requires Tree(a) && q.At? && Addresses(a, q)
    ensures Addresses(a, Parent(a, q)) && NodeOf(Parent(a, q)) < NodeOf(q)
    ensures UpwardEvents(a, q) == [DataChanged(q, CheckStateRole)] + UpwardEvents(a, Parent(a, q))
  {
  }

  class DiffTreeModel {
    /** The working directory of the repository, the name of every root. */
    const workdir: string
    /** mDiff. */
    var diff: Diff
    /** The nodes reachable from mRoot, the root first. */
    var nodes: Arena
    /** The repository index that mDiff.index() reads and setStaged writes. */
    var stage: RepoIndex
    /** The notifications sent so far. */
    var log: seq<Event>

    /** The tree is the one createDiffTree builds from the diff, and there
        is none while the diff is invalid. */
    ghost predicate Valid()
      reads this`diff, this`nodes
    {
      && Consistent(nodes, diff)
      && (diff.Diff? ==> Build(workdir, Paths(diff)) == Some(nodes))
    }

    /** DiffTreeModel::DiffTreeModel: no diff and no root yet. */
    constructor(workdir: string, stage: RepoIndex)
      ensures Valid()
      ensures this.workdir == workdir && this.stage == stage
      ensures diff == NoDiff && nodes == [] && log == []
    {
      this.workdir := workdir;
      this.stage := stage;
      diff := NoDiff;
      nodes := [];
      log := [];
    }

    /** Node::addChild(parts, i) on node `n`: descend into the child named
        parts[i] if there is one; otherwise create that child, descend into
        it while segments remain, and then append it to `n`'s children. */
    method AddChild(n: nat, parts: seq<string>, i: nat)
      requires Ordered(nodes) && n < |nodes| && i < |parts|
      requires Insert(nodes, n, parts, i).Some?
      modifies this`nodes
      ensures nodes == Insert(old(nodes), n, parts, i).value
      decreases |parts| - i
    {
      var kids := nodes[n].children;
      var j := 0;
      while j < |kids|
        invariant 0 <= j <= |kids|
        invariant FindChild(nodes, kids[j..], parts[i]) == FindChild(nodes, kids, parts[i])
      {
        var c := kids[j];
        assert kids[j..][1..] == kids[j + 1..];
        if nodes[c].name == parts[i] {
          AddChild(c, parts, i + 1);
          return;
        }
        j := j + 1;
      }
      ghost var a := nodes;
      var born := |nodes|;
      nodes := nodes + [Node(parts[i], Some(n), [])];
      ghost var b := nodes;
      assert Ordered(b) by {
        forall k, j | 0 <= k < |b| && 0 <= j < |b[k].children| ensures k < b[k].children[j] < |b| {
          assert k < |a| && b[k].children[j] == a[k].children[j];
        }
      }
      if i + 1 < |parts| {
        FreshChainSucceeds(b, born, parts, i + 1);
        AddChild(born, parts, i + 1);
        InsertAdopt(b, n, born, born, parts, i + 1);
      }
      nodes := nodes[n := nodes[n].(children := nodes[n].children + [born])];
      assert Adopt(b, n, born) == AppendChild(a, n, parts[i]);
    }

    /** DiffTreeModel::createDiffTree: thread the segments of every diff
        path, in entry order, into the tree below a born root. */
    method CreateDiffTree()
      requires diff.Diff? && nodes == [Node(workdir, None, [])] && PrefixFree(Paths(diff))
      modifies this`nodes
      ensures Build(workdir, Paths(diff)) == Some(nodes)
    {
      var paths := Paths(diff);
      var i := 0;
      while i < |diff.entries|
        invariant 0 <= i <= |paths|
        invariant Build(workdir, paths[..i]) == Some(nodes)
      {
        var path := diff.entries[i].path;
        var pathParts := Split(path);
        assert paths[..i + 1][..i] == paths[..i] && paths[..i + 1][i] == path;
        PrefixFreeUpTo(paths, i + 1);
        BuildDefined(workdir, paths[..i + 1]);
        BuildMirrors(workdir, paths[..i], nodes);
        WellFormedOrdered(nodes);
        AddChild(0, pathParts, 0);
        i := i + 1;
      }
      assert paths[..|diff.entries|] == paths;
    }

    /** DiffTreeModel::setDiff: inside a model reset, a valid diff replaces
        the old one and the tree is rebuilt from it; an invalid one changes
        nothing. */
    method SetDiff(d: Diff)
      requires Valid()
      requires d.Diff? ==> PrefixFree(Paths(d))
      modifies this`diff, this`nodes, this`log
      ensures Valid()
      ensures d.Diff? ==> diff == d && Build(workdir, Paths(d)) == Some(nodes)
      ensures d.NoDiff? ==> diff == old(diff) && nodes == old(nodes)
      ensures log == old(log) + [ResetBegun, ResetEnded]
    {
      log := log + [ResetBegun];
      if d.Diff? {
        diff := d;
        nodes := [Node(workdir, None, [])];
        CreateDiffTree();
        BuildLinked(workdir, Paths(d), nodes);
      }
      log := log + [ResetEnded];
    }

    /** DiffTreeModel::data, with the loops of the CheckState and Status
        branches. */
    method Data(ix: ModelIndex, role: Role, containsPath: (string, string) -> bool) returns (v: Variant)
      requires Valid() && Addresses(nodes, ix)
      ensures v == DataOf(nodes, diff, stage, ix, role, containsPath)
    {
      if ix.Invalid? {
        return Nothing;
      }
      var n := ix.node;
      match role
      case DisplayRole =>
        v := Text(nodes[n].name);
      case EditRole =>
        v := Text(Path(nodes, n, true));
      case ToolTipRole =>
        v := Text(Path(nodes, n, false));
      case CheckStateRole =>
        var state := CheckStateData(diff, stage, Path(nodes, n, true));
        v := if state.None? then Nothing else Check(state.value);
      case StatusRole =>
        if diff.NoDiff? {
          return Text("");
        }
        var status := StatusData(diff.entries, Path(nodes, n, true), containsPath);
        v := Text(status);
      case OtherRole(_) =>
        v := Nothing;
    }

    /** DiffTreeModel::setData with ignoreIndexChanges. For the check-state
        role: stage or unstage (as `value` is non-zero or zero) every diff
        path that starts with the node's relative path unless index changes
        are ignored, send dataChanged for the children in row order, for
        each ancestor from the parent up to the last one below the root, and
        for the index, then checkStateChanged with `value`, and answer true.
        Any other role changes nothing and answers false. The root must exist
        for the check-state role, since its path is read even for the invalid
        index. */
    method SetDataFlagged(ix: ModelIndex, value: int, role: Role, ignoreIndexChanges: bool) returns (ok: bool)
      requires Valid() && Addresses(nodes, ix)
      requires role.CheckStateRole? ==> diff.Diff?
      modifies this`stage, this`log
      ensures Valid()
      ensures ok == role.CheckStateRole?
      ensures !ok ==> stage == old(stage) && log == old(log)
      ensures ok && ignoreIndexChanges ==> stage == old(stage)
      ensures ok && !ignoreIndexChanges ==>
        stage == SetStaged(old(stage), Matching(Paths(diff), Path(nodes, NodeOf(ix), true)), value != 0)
      ensures ok ==> log == old(log) + Notifications(nodes, diff, ix, value)
    {
      if !role.CheckStateRole? {
        return false;
      }
      if !ignoreIndexChanges {
        Stage(ix, value);
      }
      Notify(ix, value);
      return true;
    }

    /** The head of setData for the check-state role: the diff paths under
        the node's relative path are staged when `value` is non-zero and
        unstaged otherwise. */
    method Stage(ix: ModelIndex, value: int)
      requires Tree(nodes) && Addresses(nodes, ix)
      modifies this`stage
      ensures stage == SetStaged(old(stage), Matching(Paths(diff), Path(nodes, NodeOf(ix), true)), value != 0)
    {
      var prefix := Path(nodes, NodeOf(ix), true);
      var files := MatchingFiles(diff, prefix);
      stage := SetStaged(stage, files, value != 0);
    }

    /** The notifications that end setData for the check-state role. */
    method Notify(ix: ModelIndex, value: int)
      requires Consistent(nodes, diff) && diff.Diff? && Addresses(nodes, ix)
      modifies this`log
      ensures log == old(log) + Notifications(nodes, diff, ix, value)
    {
      ghost var children := ChildEvents(nodes, diff, ix);
      ghost var upward := UpwardEvents(nodes, Parent(nodes, ix));
      if HasChildren(nodes, ix) {
        NotifyChildren(ix);
      } else {
        assert children == [];
      }
      assert log == old(log) + children;
      NotifyUpward(Parent(nodes, ix));
      assert log == old(log) + children + upward;
      var last := [DataChanged(ix, CheckStateRole), CheckStateChanged(ix, value)];
      log := log + last;
      Regroup(old(log), children, upward, last);
      assert Notifications(nodes, diff, ix, value) == children + upward + last;
    }

    /** The loop of setData over the rows of `ix`: dataChanged for each
        child, in row order. */
    method NotifyChildren(ix: ModelIndex)
      requires Consistent(nodes, diff) && diff.Diff? && Addresses(nodes, ix)
      modifies this`log
      ensures log == old(log) + ChildEvents(nodes, diff, ix)
    {
      ghost var children := ChildEvents(nodes, diff, ix);
      var count := RowCount(nodes, diff, ix);
      var row := 0;
      while row < count
        invariant 0 <= row <= count
        invariant log == old(log) + children[..row]
      {
        var child := Index(nodes, diff, row, 0, ix);
        log := log + [DataChanged(child, CheckStateRole)];
        assert children[..row + 1] == children[..row] + [children[row]];
        row := row + 1;
      }
      assert children[..count] == children;
    }

    /** The loop of setData up the tree: dataChanged for `p`, then for its
        parent, and so on while the index is valid. */
    method NotifyUpward(p: ModelIndex)
      requires Consistent(nodes, diff) && diff.Diff? && Addresses(nodes, p)
      modifies this`log
      ensures log == old(log) + UpwardEvents(nodes, p)
    {
      var a := nodes;
      assert Tree(a);
      ghost var all := UpwardEvents(a, p);
      var parent := p;
      while parent.At?
        invariant Addresses(a, parent)
        invariant log + UpwardEvents(a, parent) == old(log) + all
        decreases NodeOf(parent)
      {
        UpwardStep(a, parent);
        var event := DataChanged(parent, CheckStateRole);
        Shift(log, event, UpwardEvents(a, Parent(a, parent)));
        log := log + [event];
        parent := Parent(a, parent);
      }
    }

    /** The three-argument DiffTreeModel::setData: the same with index
        changes written through. */
    method SetData(ix: ModelIndex, value: int, role: Role) returns (ok: bool)
      requires Valid() && Addresses(nodes, ix)
      requires role.CheckStateRole? ==> diff.Diff?
      modifies this`stage, this`log
      ensures Valid()
      ensures ok == role.CheckStateRole?
      ensures !ok ==> stage == old(stage) && log == old(log)
      ensures ok ==>
        stage == SetStaged(old(stage), Matching(Paths(diff), Path(nodes, NodeOf(ix), true)), value != 0)
      ensures ok ==> log == old(log) + Notifications(nodes, diff, ix, value)
    {
      ok := SetDataFlagged(ix, value, role, false);
    }
  }
}
