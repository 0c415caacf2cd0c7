/** What Node::addChild and createDiffTree guarantee about the tree they
    build, and how Node::path relates to the segments of a diff path. */
module TreeProperties {
  import opened Options
  import opened PathText
  import opened DiffTree

  /** Appending a child whose name no sibling has keeps the tree well formed. */
  lemma AppendChildWellFormed(a: Arena, n: nat, name: string)
    requires WellFormed(a) && n < |a|
    requires forall j :: 0 <= j < |a[n].children| ==> a[a[n].children[j]].name != name
    ensures WellFormed(AppendChild(a, n, name))
  {
    var r := AppendChild(a, n, name);
    assert Rooted(r);
    assert ChildrenPointBack(r) by {
      forall id, j | 0 <= id < |r| && 0 <= j < |r[id].children|
        ensures r[r[id].children[j]].parent == Some(id)
      {
        if id == n && j == |a[n].children| {
          assert r[id].children[j] == |a|;
        } else {
          assert id < |a| && r[id].children[j] == a[id].children[j];
        }
      }
    }
    assert UniqueSiblingNames(r) by {
      forall id, j, k | 0 <= id < |r| && 0 <= j < k < |r[id].children|
        ensures r[r[id].children[j]].name != r[r[id].children[k]].name
      {
        if id == n && k == |a[n].children| {
          assert r[id].children[j] == a[n].children[j];
        } else {
          assert id < |a| && r[id].children[j] == a[id].children[j] && r[id].children[k] == a[id].children[k];
        }
      }
    }
  }

  /** Appending a child keeps every node listed among its parent's
      children. */
  lemma AppendChildLinked(a: Arena, n: nat, name: string)
    requires WellFormed(a) && Linked(a) && n < |a|
    requires forall j :: 0 <= j < |a[n].children| ==> a[a[n].children[j]].name != name
    ensures WellFormed(AppendChild(a, n, name)) && Linked(AppendChild(a, n, name))
  {
    var r := AppendChild(a, n, name);
    AppendChildWellFormed(a, n, name);
    forall id | 0 < id < |r| ensures id in r[r[id].parent.value].children {
      if id < |a| {
        var q := a[id].parent.value;
        assert id in a[q].children;
        assert a[q].children <= r[q].children;
      }
    }
  }

  /** A child points back at its parent and is allocated after it. */
  lemma ChildOf(a: Arena, n: nat, c: nat)
    requires WellFormed(a) && n < |a| && c in a[n].children
    ensures 0 < c < |a| && a[c].parent == Some(n) && n < c
  {
    var j :| 0 <= j < |a[n].children| && a[n].children[j] == c;
  }

  /** Node::addChild on node `n` keeps the tree well formed, leaves the
      nodes allocated before `n` alone, and lets every existing node keep its
      name and parent. */
  lemma {:induction false} InsertKeeps(a: Arena, n: nat, p: seq<string>, i: nat, r: Arena)
    requires WellFormed(a) && n < |a| && i <= |p|
    requires Insert(a, n, p, i) == Some(r)
    ensures WellFormed(r) && |a| <= |r| && i < |p|
    ensures forall m :: 0 <= m < n ==> r[m] == a[m]
    ensures forall m :: 0 <= m < |a| ==> r[m].name == a[m].name && r[m].parent == a[m].parent
    decreases |p| - i
  {
    match FindChild(a, a[n].children, p[i])
    case Some(c) =>
      ChildOf(a, n, c);
      InsertKeeps(a, c, p, i + 1, r);
    case None =>
      AppendChildWellFormed(a, n, p[i]);
      if i + 1 < |p| {
        InsertKeeps(AppendChild(a, n, p[i]), |a|, p, i + 1, r);
      }
  }

  /** Under Node::addChild on node `n`, the children of every existing node
      keep their order and gain at most one new child, at the end. */
  lemma {:induction false} InsertKeepsChildOrder(a: Arena, n: nat, p: seq<string>, i: nat, r: Arena)
    requires WellFormed(a) && n < |a| && i <= |p|
    requires Insert(a, n, p, i) == Some(r)
    ensures |a| <= |r|
    ensures forall m :: 0 <= m < |a| ==>
      IsPrefix(a[m].children, r[m].children) && |r[m].children| <= |a[m].children| + 1
    decreases |p| - i
  {
    InsertKeeps(a, n, p, i, r);
    match FindChild(a, a[n].children, p[i])
    case Some(c) =>
      ChildOf(a, n, c);
      InsertKeepsChildOrder(a, c, p, i + 1, r);
    case None =>
      var a1 := AppendChild(a, n, p[i]);
      AppendChildWellFormed(a, n, p[i]);
      if i + 1 < |p| {
        InsertKeeps(a1, |a|, p, i + 1, r);
        InsertKeepsChildOrder(a1, |a|, p, i + 1, r);
        assert r[n] == a1[n];
      }
      forall m | 0 <= m < |a|
        ensures IsPrefix(a[m].children, r[m].children) && |r[m].children| <= |a[m].children| + 1
      {
        if m == n {
          assert r[n].children == a[n].children + [|a|];
        } else {
          assert a1[m] == a[m];
        }
      }
  }

  /** Node::addChild keeps every node listed among its parent's children. */
  lemma {:induction false} InsertLinked(a: Arena, n: nat, p: seq<string>, i: nat, r: Arena)
    requires WellFormed(a) && Linked(a) && n < |a| && i <= |p|
    requires Insert(a, n, p, i) == Some(r)
    ensures WellFormed(r) && Linked(r)
    decreases |p| - i
  {
    InsertKeeps(a, n, p, i, r);
    match FindChild(a, a[n].children, p[i])
    case Some(c) =>
      ChildOf(a, n, c);
      InsertLinked(a, c, p, i + 1, r);
    case None =>
      AppendChildLinked(a, n, p[i]);
      if i + 1 < |p| {
        InsertLinked(AppendChild(a, n, p[i]), |a|, p, i + 1, r);
      }
  }

  /** Node::addChild on node `n` reuses the child named p[i] when there is
      one, and otherwise appends exactly one new child with that name. */
  lemma ReuseOrAppend(a: Arena, n: nat, p: seq<string>, i: nat, r: Arena)
    requires WellFormed(a) && n < |a| && i <= |p|
    requires Insert(a, n, p, i) == Some(r)
    ensures i < |p|
    ensures (exists j :: 0 <= j < |a[n].children| && a[a[n].children[j]].name == p[i]) ==>
      r[n].children == a[n].children
    ensures (forall j :: 0 <= j < |a[n].children| ==> a[a[n].children[j]].name != p[i]) ==>
      |a| < |r| && r[n].children == a[n].children + [|a|] && r[|a|].name == p[i]
  {
    InsertKeeps(a, n, p, i, r);
    match FindChild(a, a[n].children, p[i])
    case Some(c) =>
      ChildOf(a, n, c);
      InsertKeeps(a, c, p, i + 1, r);
    case None =>
      var a1 := AppendChild(a, n, p[i]);
      AppendChildWellFormed(a, n, p[i]);
      if i + 1 < |p| {
        InsertKeeps(a1, |a|, p, i + 1, r);
      }
  }

  /** Labels depend only on names and parents, so an arena that keeps those
      of the first |a| nodes keeps their labels. */
  lemma {:induction false} LabelsStable(a: Arena, b: Arena, m: nat)
    requires WellFormed(a) && WellFormed(b) && m < |a| <= |b|
    requires forall k :: 0 <= k < |a| ==> b[k].name == a[k].name && b[k].parent == a[k].parent
    ensures Labels(b, m) == Labels(a, m)
    decreases m
  {
    if m != 0 {
      LabelsStable(a, b, a[m].parent.value);
    }
  }

  /** Node::addChild(p, i) on node `n` leaves the labels of existing nodes
      alone, gives every new node a label list that starts the list of `n`
      followed by p[i..], and leaves a node whose label list is exactly that. */
  lemma InsertLabels(a: Arena, n: nat, p: seq<string>, i: nat, r: Arena)
    requires WellFormed(a) && n < |a| && i <= |p|
    requires Insert(a, n, p, i) == Some(r)
    ensures WellFormed(r) && |a| <= |r|
    ensures forall m {:trigger Labels(r, m)} :: 0 <= m < |a| ==> Labels(r, m) == Labels(a, m)
    ensures forall m :: |a| <= m < |r| ==> IsPrefix(Labels(r, m), Labels(a, n) + p[i..])
    ensures exists m :: 0 <= m < |r| && Labels(r, m) == Labels(a, n) + p[i..]
  {
    InsertOldLabels(a, n, p, i, r);
    InsertNewLabels(a, n, p, i, r);
    InsertFullLabel(a, n, p, i, r);
  }

  /** Node::addChild leaves the labels of existing nodes alone. */
  lemma InsertOldLabels(a: Arena, n: nat, p: seq<string>, i: nat, r: Arena)
    requires WellFormed(a) && n < |a| && i <= |p|
    requires Insert(a, n, p, i) == Some(r)
    ensures WellFormed(r) && |a| <= |r|
    ensures forall m {:trigger Labels(r, m)} :: 0 <= m < |a| ==> Labels(r, m) == Labels(a, m)
  {
    InsertKeeps(a, n, p, i, r);
    forall m {:trigger Labels(r, m)} | 0 <= m < |a| ensures Labels(r, m) == Labels(a, m) {
      LabelsStable(a, r, m);
    }
  }

  /** The first step of Node::addChild on `n`: the child for p[i], reused or
      new, has the label list of `n` followed by p[i]. */
  lemma StepLabel(a: Arena, n: nat, p: seq<string>, i: nat, c: nat, a1: Arena)
    requires WellFormed(a) && WellFormed(a1) && n < |a| <= |a1| && i < |p| && 0 < c < |a1|
    requires forall k :: 0 <= k < |a| ==> a1[k].name == a[k].name && a1[k].parent == a[k].parent
    requires a1[c].parent == Some(n) && a1[c].name == p[i]
    ensures Labels(a1, c) == Labels(a, n) + [p[i]]
    ensures Labels(a1, c) + p[i + 1..] == Labels(a, n) + p[i..]
  {
    LabelsStable(a, a1, n);
    assert Labels(a, n) + [p[i]] + p[i + 1..] == Labels(a, n) + p[i..];
  }

  /** Every node Node::addChild(p, i) creates below `n` has a label list
      that starts the list of `n` followed by p[i..]. */
  lemma {:induction false} InsertNewLabels(a: Arena, n: nat, p: seq<string>, i: nat, r: Arena)
    requires WellFormed(a) && n < |a| && i <= |p|
    requires Insert(a, n, p, i) == Some(r)
    ensures WellFormed(r) && |a| <= |r|
    ensures forall m :: |a| <= m < |r| ==> IsPrefix(Labels(r, m), Labels(a, n) + p[i..])
    decreases |p| - i
  {
    InsertKeeps(a, n, p, i, r);
    match FindChild(a, a[n].children, p[i])
    case Some(c) =>
      ChildOf(a, n, c);
      StepLabel(a, n, p, i, c, a);
      InsertNewLabels(a, c, p, i + 1, r);
    case None =>
      var a1 := AppendChild(a, n, p[i]);
      AppendChildWellFormed(a, n, p[i]);
      StepLabel(a, n, p, i, |a|, a1);
      if i + 1 < |p| {
        InsertNewLabels(a1, |a|, p, i + 1, r);
        InsertOldLabels(a1, |a|, p, i + 1, r);
        assert Labels(r, |a|) == Labels(a1, |a|);
      } else {
        assert p[i..] == [p[i]];
      }
  }

  /** Node::addChild(p, i) on `n` leaves a node whose label list is that of
      `n` followed by p[i..]. */
  lemma {:induction false} InsertFullLabel(a: Arena, n: nat, p: seq<string>, i: nat, r: Arena)
    requires WellFormed(a) && n < |a| && i <= |p|
    requires Insert(a, n, p, i) == Some(r)
    ensures WellFormed(r) && |a| <= |r|
    ensures exists m :: 0 <= m < |r| && Labels(r, m) == Labels(a, n) + p[i..]
    decreases |p| - i
  {
    InsertKeeps(a, n, p, i, r);
    match FindChild(a, a[n].children, p[i])
    case Some(c) =>
      ChildOf(a, n, c);
      StepLabel(a, n, p, i, c, a);
      InsertFullLabel(a, c, p, i + 1, r);
    case None =>
      var a1 := AppendChild(a, n, p[i]);
      AppendChildWellFormed(a, n, p[i]);
      StepLabel(a, n, p, i, |a|, a1);
      if i + 1 < |p| {
        InsertFullLabel(a1, |a|, p, i + 1, r);
      } else {
        assert p[i..] == [p[i]];
        assert Labels(r, |a|) == Labels(a, n) + p[i..];
      }
  }

  /** A node left without children by Node::addChild(p, i) on `n` either was
      an old node without children, or is the node for the whole path: its
      label list is that of `n` followed by p[i..]. */
  lemma {:induction false} InsertLeaves(a: Arena, n: nat, p: seq<string>, i: nat, r: Arena)
    requires WellFormed(a) && n < |a| && i <= |p|
    requires Insert(a, n, p, i) == Some(r)
    ensures WellFormed(r) && |a| <= |r|
    ensures forall m :: 0 <= m < |r| && r[m].children == [] ==>
      (m < |a| && a[m].children == []) || Labels(r, m) == Labels(a, n) + p[i..]
    decreases |p| - i
  {
    InsertKeeps(a, n, p, i, r);
    match FindChild(a, a[n].children, p[i])
    case Some(c) =>
      ChildOf(a, n, c);
      StepLabel(a, n, p, i, c, a);
      InsertLeaves(a, c, p, i + 1, r);
    case None =>
      var a1 := AppendChild(a, n, p[i]);
      AppendChildWellFormed(a, n, p[i]);
      StepLabel(a, n, p, i, |a|, a1);
      if i + 1 < |p| {
        InsertLeaves(a1, |a|, p, i + 1, r);
        ReuseOrAppend(a1, |a|, p, i + 1, r);
        InsertKeepsChildOrder(a1, |a|, p, i + 1, r);
        forall m | 0 <= m < |r| && r[m].children == []
          ensures (m < |a| && a[m].children == []) || Labels(r, m) == Labels(a, n) + p[i..]
        {
          if m < |a1| && a1[m].children == [] {
            assert m != |a| && m != n;
            assert a1[m] == a[m];
          }
        }
      } else {
        assert p[i..] == [p[i]];
        forall m | 0 <= m < |r| && r[m].children == []
          ensures (m < |a| && a[m].children == []) || Labels(r, m) == Labels(a, n) + p[i..]
        {
          if m < |a| {
            assert m != n;
          }
        }
      }
  }

  /** Below a node without children, Node::addChild only creates nodes and
      never runs past the end of its path. */
  lemma {:induction false} FreshChainSucceeds(a: Arena, n: nat, p: seq<string>, i: nat)
    requires Closed(a) && n < |a| && i < |p| && a[n].children == []
    ensures Insert(a, n, p, i).Some?
    decreases |p| - i
  {
    assert FindChild(a, a[n].children, p[i]) == None;
    if i + 1 < |p| {
      FreshChainSucceeds(AppendChild(a, n, p[i]), |a|, p, i + 1);
    }
  }

  /** Node::addChild(p, i) on node `n` runs past the end of p only when the
      tree already holds a node whose label list is that of `n` followed by
      p[i..]. */
  lemma {:induction false} InsertFailsOnlyOnKnownPath(a: Arena, n: nat, p: seq<string>, i: nat)
    requires WellFormed(a) && n < |a| && i <= |p|
    requires Insert(a, n, p, i).None?
    ensures exists m :: 0 <= m < |a| && Labels(a, m) == Labels(a, n) + p[i..]
    decreases |p| - i
  {
    if i == |p| {
      assert Labels(a, n) + p[i..] == Labels(a, n);
    } else {
      match FindChild(a, a[n].children, p[i])
      case Some(c) =>
        ChildOf(a, n, c);
        InsertFailsOnlyOnKnownPath(a, c, p, i + 1);
        assert Labels(a, c) == Labels(a, n) + [p[i]];
        assert Labels(a, n) + [p[i]] + p[i + 1..] == Labels(a, n) + p[i..];
      case None =>
        if i + 1 < |p| {
          FreshChainSucceeds(AppendChild(a, n, p[i]), |a|, p, i + 1);
        }
        assert false;
    }
  }

  /** Node `m` is a node of the tree other than the root. */
  ghost predicate BelowRoot(a: Arena, m: nat)
  {
    0 < m < |a|
  }

  /** Every diff path has a node whose segments are the path's. */
  ghost predicate Covers(a: Arena, paths: seq<string>)
    requires WellFormed(a)
  {
    forall k :: 0 <= k < |paths| ==> exists m :: 0 < m < |a| && Labels(a, m) == Split(paths[k])
  }

  /** Every node below the root has segments that start some diff path. */
  ghost predicate Within(a: Arena, paths: seq<string>)
    requires WellFormed(a)
  {
    forall m {:trigger BelowRoot(a, m)} :: BelowRoot(a, m) ==>
      exists k :: 0 <= k < |paths| && IsPrefix(Labels(a, m), Split(paths[k]))
  }

  /** The tree `a` mirrors the list of diff paths: it is well formed, it
      holds a node for the segments of every path, and every node's segments
      start those of some path. */
  ghost predicate Mirrors(a: Arena, paths: seq<string>)
  {
    WellFormed(a) && Covers(a, paths) && Within(a, paths)
  }

  /** One iteration of createDiffTree keeps the tree mirroring the paths
      seen so far. */
  lemma MirrorsStep(prev: Arena, init: seq<string>, last: string, a: Arena)
    requires Mirrors(prev, init)
    requires Insert(prev, 0, Split(last), 0) == Some(a)
    ensures Mirrors(a, init + [last]) && a[0].name == prev[0].name
  {
    var paths := init + [last];
    var parts := Split(last);
    InsertKeeps(prev, 0, parts, 0, a);
    InsertLabels(prev, 0, parts, 0, a);
    var w :| 0 <= w < |a| && Labels(a, w) == Labels(prev, 0) + parts[0..];
    assert Labels(prev, 0) + parts[0..] == parts;
    forall k | 0 <= k < |paths|
      ensures exists m :: 0 < m < |a| && Labels(a, m) == Split(paths[k])
    {
      StepComplete(prev, init, last, a, w, k);
    }
    assert Covers(a, paths);
    forall m | BelowRoot(a, m)
      ensures exists k :: 0 <= k < |paths| && IsPrefix(Labels(a, m), Split(paths[k]))
    {
      StepSound(prev, init, last, a, m);
    }
    assert Within(a, paths);
    assert WellFormed(a);
    assert a[0].name == prev[0].name;
  }

  /** The completeness half of MirrorsStep, for one path. */
  lemma StepComplete(prev: Arena, init: seq<string>, last: string, a: Arena, w: nat, k: nat)
    requires Mirrors(prev, init) && WellFormed(a) && |prev| <= |a| && k <= |init|
    requires forall m {:trigger Labels(a, m)} :: 0 <= m < |prev| ==> Labels(a, m) == Labels(prev, m)
    requires w < |a| && Labels(a, w) == Split(last)
    ensures exists m :: 0 < m < |a| && Labels(a, m) == Split((init + [last])[k])
  {
    var paths := init + [last];
    if k < |init| {
      assert paths[k] == init[k];
      var m :| 0 < m < |prev| && Labels(prev, m) == Split(init[k]);
      assert Labels(a, m) == Labels(prev, m);
    } else {
      assert paths[k] == last;
      assert w != 0;
    }
  }

  /** The soundness half of MirrorsStep, for one node. */
  lemma StepSound(prev: Arena, init: seq<string>, last: string, a: Arena, m: nat)
    requires WellFormed(prev) && WellFormed(a) && |prev| <= |a| && 0 < m < |a|
    requires forall m {:trigger BelowRoot(prev, m)} :: BelowRoot(prev, m) ==>
      exists k :: 0 <= k < |init| && IsPrefix(Labels(prev, m), Split(init[k]))
    requires forall m {:trigger Labels(a, m)} :: 0 <= m < |prev| ==> Labels(a, m) == Labels(prev, m)
    requires forall m :: |prev| <= m < |a| ==> IsPrefix(Labels(a, m), Split(last))
    ensures exists k :: 0 <= k < |init| + 1 && IsPrefix(Labels(a, m), Split((init + [last])[k]))
  {
    var paths := init + [last];
    if m < |prev| {
      assert BelowRoot(prev, m);
      var k :| 0 <= k < |init| && IsPrefix(Labels(prev, m), Split(init[k]));
      assert paths[k] == init[k];
      assert Labels(a, m) == Labels(prev, m);
    } else {
      assert paths[|init|] == last;
    }
  }

  /** The tree createDiffTree builds is well formed, keeps the root's name,
      holds a node for the segments of every diff path, and holds no node
      whose segments do not start some diff path. */
  lemma {:induction false} BuildMirrors(rootName: string, paths: seq<string>, a: Arena)
    requires Build(rootName, paths) == Some(a)
    ensures Mirrors(a, paths) && a[0].name == rootName
    decreases |paths|
  {
    if paths == [] {
      assert a == [Node(rootName, None, [])];
    } else {
      var init, last := paths[..|paths| - 1], paths[|paths| - 1];
      var prev := Build(rootName, init).value;
      assert init + [last] == paths;
      BuildMirrors(rootName, init, prev);
      MirrorsStep(prev, init, last, a);
    }
  }

  /** The tree createDiffTree builds lists every node among its parent's
      children. */
  lemma {:induction false} BuildLinked(rootName: string, paths: seq<string>, a: Arena)
    requires Build(rootName, paths) == Some(a)
    ensures WellFormed(a) && Linked(a)
    decreases |paths|
  {
    if paths != [] {
      var init := paths[..|paths| - 1];
      var prev := Build(rootName, init).value;
      BuildMirrors(rootName, init, prev);
      BuildLinked(rootName, init, prev);
      InsertLinked(prev, 0, Split(paths[|paths| - 1]), 0, a);
    }
  }

  /** Inserting a path whose segments do not start those of any path the
      tree mirrors never runs past the end of the path. */
  lemma InsertNewPath(prev: Arena, init: seq<string>, last: string)
    requires Mirrors(prev, init)
    requires forall j :: 0 <= j < |init| ==> !IsPrefix(Split(last), Split(init[j]))
    ensures Insert(prev, 0, Split(last), 0).Some?
  {
    if Insert(prev, 0, Split(last), 0).None? {
      InsertFailsOnlyOnKnownPath(prev, 0, Split(last), 0);
      assert Labels(prev, 0) + Split(last)[0..] == Split(last);
      var m :| 0 <= m < |prev| && Labels(prev, m) == Split(last);
      assert BelowRoot(prev, m);
      assert false;
    }
  }

  /** createDiffTree finishes without reading past the end of a path
      whenever no diff path's segments start those of an earlier path. */
  lemma {:induction false} BuildDefined(rootName: string, paths: seq<string>)
    requires PrefixFree(paths)
    ensures Build(rootName, paths).Some?
    decreases |paths|
  {
    if paths != [] {
      var init, last := paths[..|paths| - 1], paths[|paths| - 1];
      assert PrefixFree(init) by {
        forall j, k | 0 <= j < k < |init| ensures !IsPrefix(Split(init[k]), Split(init[j])) {
          assert init[j] == paths[j] && init[k] == paths[k];
        }
      }
      BuildDefined(rootName, init);
      var prev := Build(rootName, init).value;
      BuildMirrors(rootName, init, prev);
      forall j | 0 <= j < |init| ensures !IsPrefix(Split(last), Split(init[j])) {
        assert init[j] == paths[j];
      }
      InsertNewPath(prev, init, last);
    }
  }

  /** Node::path(false) of a node below the root is the root's name, a
      slash, and Node::path(true): the relative path leaves out exactly the
      working-directory segment, and the full path always begins with it. */
  lemma {:induction false} PathBelowRoot(a: Arena, id: nat)
    requires WellFormed(a) && 0 < id < |a|
    ensures Path(a, id, false) == a[0].name + "/" + Path(a, id, true)
    ensures StartsWith(Path(a, id, false), a[0].name)
    decreases id
  {
    var q := a[id].parent.value;
    if q != 0 {
      PathBelowRoot(a, q);
      assert Path(a, id, true) == Path(a, q, true) + "/" + a[id].name;
      assert Path(a, id, false) == Path(a, q, false) + "/" + a[id].name;
    }
    var tail := "/" + Path(a, id, true);
    assert Path(a, id, false) == a[0].name + tail;
    assert Path(a, id, false)[..|a[0].name|] == a[0].name;
  }

  /** Node::path(true) of a node below the root joins its label list. */
  lemma {:induction false} RelativePathJoinsLabels(a: Arena, id: nat)
    requires WellFormed(a) && 0 < id < |a|
    ensures |Labels(a, id)| >= 1 && Path(a, id, true) == Join(Labels(a, id))
    decreases id
  {
    var q := a[id].parent.value;
    if q == 0 {
      assert Labels(a, id) == [a[id].name];
    } else {
      RelativePathJoinsLabels(a, q);
      JoinSnoc(Labels(a, q), a[id].name);
    }
  }

  /** A node whose label list is the segment list of `p` has `p` as its
      relative path. */
  lemma NodeForPath(a: Arena, m: nat, p: string)
    requires WellFormed(a) && 0 < m < |a| && Labels(a, m) == Split(p)
    ensures Path(a, m, true) == p
  {
    RelativePathJoinsLabels(a, m);
    JoinSplit(p);
  }

  /** A node whose label list starts the segment list of `p` has a relative
      path that is a string prefix of `p`. */
  lemma NodeStartsPath(a: Arena, m: nat, p: string)
    requires WellFormed(a) && 0 < m < |a| && IsPrefix(Labels(a, m), Split(p))
    ensures StartsWith(p, Path(a, m, true))
  {
    var parts := Split(p);
    RelativePathJoinsLabels(a, m);
    assert Labels(a, m) == parts[..|Labels(a, m)|];
    JoinPrefix(parts, |Labels(a, m)|);
    JoinSplit(p);
  }

  /** Some node of `a` below the root has `p` as its relative path. */
  ghost predicate ShowsPath(a: Arena, p: string)
    requires WellFormed(a)
  {
    exists m :: 0 < m < |a| && Path(a, m, true) == p
  }

  /** In a tree that lists every node among its parent's children, no two
      nodes have the same label list, because siblings never share a name. */
  lemma {:induction false} LabelsInjective(a: Arena, m1: nat, m2: nat)
    requires WellFormed(a) && Linked(a) && m1 < |a| && m2 < |a|
    requires Labels(a, m1) == Labels(a, m2)
    ensures m1 == m2
    decreases m1 + m2
  {
    if m1 != 0 && m2 != 0 {
      var q1, q2 := a[m1].parent.value, a[m2].parent.value;
      var l := Labels(a, m1);
      assert l == Labels(a, q1) + [a[m1].name] && l == Labels(a, q2) + [a[m2].name];
      assert Labels(a, q1) == l[..|l| - 1] == Labels(a, q2);
      assert a[m1].name == l[|l| - 1] == a[m2].name;
      LabelsInjective(a, q1, q2);
      assert m1 in a[q1].children && m2 in a[q1].children;
      var j :| 0 <= j < |a[q1].children| && a[q1].children[j] == m1;
      var k :| 0 <= k < |a[q1].children| && a[q1].children[k] == m2;
    }
  }

  /** In the tree createDiffTree builds, a node below the root without
      children has exactly the segments of some diff path: the nodes the
      view shows as files are diff entries. */
  lemma {:induction false} BuildLeaves(rootName: string, paths: seq<string>, a: Arena)
    requires Build(rootName, paths) == Some(a)
    ensures WellFormed(a)
    ensures forall m: nat {:trigger BelowRoot(a, m)} :: BelowRoot(a, m) && a[m].children == [] ==>
      exists k :: 0 <= k < |paths| && Labels(a, m) == Split(paths[k])
    decreases |paths|
  {
    if paths == [] {
      BuildMirrors(rootName, paths, a);
    } else {
      var init, last := paths[..|paths| - 1], paths[|paths| - 1];
      var prev := Build(rootName, init).value;
      assert init + [last] == paths;
      BuildLeaves(rootName, init, prev);
      InsertOldLabels(prev, 0, Split(last), 0, a);
      InsertLeaves(prev, 0, Split(last), 0, a);
      assert Labels(prev, 0) + Split(last)[0..] == Split(last);
      forall m: nat | BelowRoot(a, m) && a[m].children == []
        ensures exists k :: 0 <= k < |paths| && Labels(a, m) == Split(paths[k])
      {
        LeafStep(prev, init, last, a, m);
      }
    }
  }

  /** One node of BuildLeaves' induction step. */
  lemma LeafStep(prev: Arena, init: seq<string>, last: string, a: Arena, m: nat)
    requires WellFormed(prev) && WellFormed(a) && |prev| <= |a| && 0 < m < |a| && a[m].children == []
    requires forall m: nat {:trigger BelowRoot(prev, m)} :: BelowRoot(prev, m) && prev[m].children == [] ==>
      exists k :: 0 <= k < |init| && Labels(prev, m) == Split(init[k])
    requires forall m {:trigger Labels(a, m)} :: 0 <= m < |prev| ==> Labels(a, m) == Labels(prev, m)
    requires (m < |prev| && prev[m].children == []) || Labels(a, m) == Split(last)
    ensures exists k :: 0 <= k < |init| + 1 && Labels(a, m) == Split((init + [last])[k])
  {
    var paths := init + [last];
    if m < |prev| && prev[m].children == [] {
      assert BelowRoot(prev, m);
      var k :| 0 <= k < |init| && Labels(prev, m) == Split(init[k]);
      assert paths[k] == init[k] && Labels(a, m) == Labels(prev, m);
    } else {
      assert paths[|init|] == last;
    }
  }

  /** In a tree that mirrors the diff paths, every segment of a node below
      the root is a segment of a diff path and so holds no slash: splitting
      the node's relative path gives back its label list. */
  lemma MirroredPathSplits(a: Arena, paths: seq<string>, m: nat)
    requires Mirrors(a, paths) && BelowRoot(a, m)
    ensures Split(Path(a, m, true)) == Labels(a, m)
  {
    var k :| 0 <= k < |paths| && IsPrefix(Labels(a, m), Split(paths[k]));
    var labels, parts := Labels(a, m), Split(paths[k]);
    RelativePathJoinsLabels(a, m);
    forall i | 0 <= i < |labels| ensures '/' !in labels[i] {
      assert labels[i] == parts[i];
    }
    SplitJoin(labels);
  }

  /** In the tree createDiffTree builds, no two nodes below the root have
      the same relative path. */
  lemma BuildPathsDistinct(rootName: string, paths: seq<string>, a: Arena)
    requires Build(rootName, paths) == Some(a)
    ensures WellFormed(a)
    ensures forall m1, m2 :: BelowRoot(a, m1) && BelowRoot(a, m2) && Path(a, m1, true) == Path(a, m2, true) ==> m1 == m2
  {
    BuildMirrors(rootName, paths, a);
    BuildLinked(rootName, paths, a);
    forall m1, m2 | BelowRoot(a, m1) && BelowRoot(a, m2) && Path(a, m1, true) == Path(a, m2, true)
      ensures m1 == m2
    {
      MirroredPathSplits(a, paths, m1);
      MirroredPathSplits(a, paths, m2);
      LabelsInjective(a, m1, m2);
    }
  }

  /** In the tree createDiffTree builds, every diff path is the relative
      path of exactly one node, every node's relative path starts some diff
      path, and every node below the root without children has a diff path
      as its relative path. */
  lemma BuildCoversDiff(rootName: string, paths: seq<string>, a: Arena)
    requires Build(rootName, paths) == Some(a)
    ensures WellFormed(a)
    ensures forall k :: 0 <= k < |paths| ==> ShowsPath(a, paths[k])
    ensures forall m1, m2 :: BelowRoot(a, m1) && BelowRoot(a, m2) && Path(a, m1, true) == Path(a, m2, true) ==> m1 == m2
    ensures forall m {:trigger BelowRoot(a, m)} :: BelowRoot(a, m) ==>
      exists k :: 0 <= k < |paths| && StartsWith(paths[k], Path(a, m, true))
    ensures forall m: nat {:trigger BelowRoot(a, m)} :: BelowRoot(a, m) && a[m].children == [] ==>
      exists k :: 0 <= k < |paths| && Path(a, m, true) == paths[k]
  {
    BuildMirrors(rootName, paths, a);
    BuildPathsDistinct(rootName, paths, a);
    BuildLeaves(rootName, paths, a);
    forall k | 0 <= k < |paths| ensures ShowsPath(a, paths[k]) {
      var m :| 0 < m < |a| && Labels(a, m) == Split(paths[k]);
      NodeForPath(a, m, paths[k]);
    }
    forall m | BelowRoot(a, m) ensures exists k :: 0 <= k < |paths| && StartsWith(paths[k], Path(a, m, true)) {
      var k :| 0 <= k < |paths| && IsPrefix(Labels(a, m), Split(paths[k]));
      NodeStartsPath(a, m, paths[k]);
    }
    forall m: nat | BelowRoot(a, m) && a[m].children == []
      ensures exists k :: 0 <= k < |paths| && Path(a, m, true) == paths[k]
    {
      var k :| 0 <= k < |paths| && Labels(a, m) == Split(paths[k]);
      NodeForPath(a, m, paths[k]);
    }
  }

  /** Every child is allocated after the node that lists it and inside the
      arena. Node::addChild keeps this even while a new node is not yet
      listed by its parent. */
  ghost predicate Ordered(a: Arena)
  {
    forall k, j :: 0 <= k < |a| && 0 <= j < |a[k].children| ==> k < a[k].children[j] < |a|
  }

  /** A well-formed tree is ordered. */
  lemma WellFormedOrdered(a: Arena)
    requires WellFormed(a)
    ensures Ordered(a)
  {
    forall k, j | 0 <= k < |a| && 0 <= j < |a[k].children| ensures k < a[k].children[j] < |a| {
      ChildOf(a, k, a[k].children[j]);
    }
  }

  /** FindChild reads only the names of the nodes. */
  lemma {:induction false} FindChildByName(a: Arena, b: Arena, kids: seq<nat>, name: string)
    requires |a| == |b| && forall k :: 0 <= k < |a| ==> a[k].name == b[k].name
    requires forall j :: 0 <= j < |kids| ==> kids[j] < |a|
    ensures FindChild(a, kids, name) == FindChild(b, kids, name)
    decreases |kids|
  {
    if kids != [] {
      FindChildByName(a, b, kids[1..], name);
    }
  }

  /** Linking a new child to node `n` after the insertion below a later node
      `m` gives the same tree as linking it before: what happens below `m`
      never looks at `n`. This is why Node::addChild may descend into a new
      node before appending it to its own children. */
  lemma {:induction false} InsertAdopt(b: Arena, n: nat, c: nat, m: nat, p: seq<string>, i: nat)
    requires Ordered(b) && n < m < |b| && n < c < |b| && i <= |p|
    ensures Insert(Adopt(b, n, c), m, p, i) ==
      match Insert(b, m, p, i)
      case None => None
      case Some(r) => Some(Adopt(r, n, c))
    decreases |p| - i
  {
    var b' := Adopt(b, n, c);
    if i < |p| {
      assert b'[m] == b[m];
      FindChildByName(b', b, b[m].children, p[i]);
      match FindChild(b, b[m].children, p[i])
      case Some(c') =>
        var j :| 0 <= j < |b[m].children| && b[m].children[j] == c';
        InsertAdopt(b, n, c, c', p, i + 1);
      case None =>
        var a1 := AppendChild(b, m, p[i]);
        assert AppendChild(b', m, p[i]) == Adopt(a1, n, c);
        assert Ordered(a1) by {
          forall k, j | 0 <= k < |a1| && 0 <= j < |a1[k].children| ensures k < a1[k].children[j] < |a1| {
            if k == m && j == |b[m].children| {
            } else {
              assert k < |b| && a1[k].children[j] == b[k].children[j];
            }
          }
        }
        if i + 1 < |p| {
          InsertAdopt(a1, n, c, |b|, p, i + 1);
        }
    }
  }
}
