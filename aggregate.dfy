/** What the model reads from git: the diff (its entries' paths and status
    characters), the index's staged state per path, and the two summaries
    DiffTreeModel::data derives from them for a node, the tri-state check
    state and the status-character string. */
module Aggregate {
  import opened Options
  import opened PathText

  /** git::Index::StagedState. */
  datatype StageState = Disabled | Unstaged | PartiallyStaged | Staged | Conflicted

  /** Qt::CheckState. */
  datatype CheckState = Unchecked | PartiallyChecked | Checked

  /** One delta of the diff: its path (git::Diff::name) and the character
      git::Diff::statusChar gives for its status. */
  datatype Entry = Entry(path: string, status: char)

  /** A git::Diff: `NoDiff` is the invalid diff, which has no entries. */
  datatype Diff = NoDiff | Diff(entries: seq<Entry>, statusDiff: bool)

  /** The repository index, as the staged state of each path it knows. */
  type RepoIndex = map<string, StageState>

  /** git::Index::isStaged; a path the index does not list reads as unstaged. */
  function IsStaged(ix: RepoIndex, path: string): (r: StageState)
  {
    if path in ix then ix[path] else Unstaged
  }

  /** The diff's paths in entry order; none for the invalid diff. */
  function Paths(d: Diff): (r: seq<string>)
    ensures d.NoDiff? ==> r == []
    ensures d.Diff? ==> |r| == |d.entries| && forall i :: 0 <= i < |r| ==> r[i] == d.entries[i].path
  {
    if d.NoDiff? then [] else seq(|d.entries|, i requires 0 <= i < |d.entries| => d.entries[i].path)
  }

  /** The paths that start with `prefix`, in their order: the list built by
      the loops at the head of the CheckState branch and of setData. The test
      is the raw string prefix of QString::startsWith, so "docs" also picks
      "docs2/readme". */
  function Matching(paths: seq<string>, prefix: string): (r: seq<string>)
    ensures |r| <= |paths|
    ensures forall x :: x in r <==> x in paths && StartsWith(x, prefix)
    decreases |paths|
  {
    if paths == [] then []
    else
      var last := paths[|paths| - 1];
      var init := paths[..|paths| - 1];
      assert paths == init + [last];
      Matching(init, prefix) + (if StartsWith(last, prefix) then [last] else [])
  }

  /** Matching keeps every path under the prefix as often as the list holds
      it, and drops every other path. */
  lemma {:induction false} MatchingCounts(paths: seq<string>, prefix: string)
    ensures forall x :: multiset(Matching(paths, prefix))[x] == if StartsWith(x, prefix) then multiset(paths)[x] else 0
    decreases |paths|
  {
    if paths != [] {
      var last := paths[|paths| - 1];
      var init := paths[..|paths| - 1];
      assert paths == init + [last];
      MatchingCounts(init, prefix);
    }
  }

  /** The result of the counting loop of the CheckState branch: it stops at
      the first partially staged path, or counts the staged ones. */
  datatype Tally = Partial | Counted(staged: nat)

  /** The counting loop run over `paths`. */
  function Scan(ix: RepoIndex, paths: seq<string>): (r: Tally)
    ensures r.Counted? ==> r.staged <= |paths|
    decreases |paths|
  {
    if paths == [] then Counted(0)
    else
      match Scan(ix, paths[..|paths| - 1])
      case Partial => Partial
      case Counted(c) =>
        match IsStaged(ix, paths[|paths| - 1])
        case PartiallyStaged => Partial
        case Staged => Counted(c + 1)
        case _ => Counted(c)
  }

  /** The counting loop stops exactly when some path is partially staged;
      otherwise its count is zero exactly when no path is staged and the
      number of paths exactly when every path is. */
  lemma {:induction false} ScanMeaning(ix: RepoIndex, paths: seq<string>)
    ensures Scan(ix, paths).Partial? <==> exists x :: x in paths && IsStaged(ix, x) == PartiallyStaged
    ensures Scan(ix, paths).Counted? ==> Scan(ix, paths).staged <= |paths|
    ensures Scan(ix, paths).Counted? ==>
      (Scan(ix, paths).staged == 0 <==> forall x :: x in paths ==> IsStaged(ix, x) != Staged)
    ensures Scan(ix, paths).Counted? ==>
      (Scan(ix, paths).staged == |paths| <==> forall x :: x in paths ==> IsStaged(ix, x) == Staged)
    decreases |paths|
  {
    if paths != [] {
      var last := paths[|paths| - 1];
      var init := paths[..|paths| - 1];
      assert paths == init + [last];
      ScanMeaning(ix, init);
    }
  }

  /** The CheckState branch of DiffTreeModel::data for a node whose relative
      path is `prefix`: no value unless the diff is a valid status diff with
      an entry under the prefix; otherwise partially checked as soon as one
      such entry is partially staged, and else unchecked, checked or
      partially checked as none, all or some of them are staged. */
  function CheckStateOf(d: Diff, ix: RepoIndex, prefix: string): (r: Option<CheckState>)
  {
    if d.NoDiff? || !d.statusDiff then None
    else
      var ps := Matching(Paths(d), prefix);
      if ps == [] then None
      else
        match Scan(ix, ps)
        case Partial => Some(PartiallyChecked)
        case Counted(c) =>
          Some(if c == 0 then Unchecked else if c == |ps| then Checked else PartiallyChecked)
  }

  /** Path `x` is a diff path under `prefix`. */
  ghost predicate Under(d: Diff, prefix: string, x: string)
  {
    x in Paths(d) && StartsWith(x, prefix)
  }

  /** The check state in terms of the diff entries under the prefix. */
  lemma CheckStateMeaning(d: Diff, ix: RepoIndex, prefix: string)
    ensures CheckStateOf(d, ix, prefix).None? <==>
      d.NoDiff? || !d.statusDiff || forall x :: x in Paths(d) ==> !StartsWith(x, prefix)
    ensures CheckStateOf(d, ix, prefix) == Some(Checked) <==>
      && d.Diff? && d.statusDiff
      && (exists x :: Under(d, prefix, x))
      && (forall x :: Under(d, prefix, x) ==> IsStaged(ix, x) == Staged)
    ensures CheckStateOf(d, ix, prefix) == Some(Unchecked) <==>
      && d.Diff? && d.statusDiff
      && (exists x :: Under(d, prefix, x))
      && (forall x :: Under(d, prefix, x) ==> IsStaged(ix, x) !in {Staged, PartiallyStaged})
    ensures CheckStateOf(d, ix, prefix) == Some(PartiallyChecked) <==>
      && d.Diff? && d.statusDiff
      && ((exists x :: Under(d, prefix, x) && IsStaged(ix, x) == PartiallyStaged)
          || ((exists x :: Under(d, prefix, x) && IsStaged(ix, x) == Staged)
              && (exists x :: Under(d, prefix, x) && IsStaged(ix, x) != Staged)))
  {
    if d.Diff? && d.statusDiff {
      var ps := Matching(Paths(d), prefix);
      ScanMeaning(ix, ps);
      assert forall x :: Under(d, prefix, x) <==> x in ps;
      if ps != [] {
        assert ps[0] in ps;
      }
    }
  }

  /** A valid status diff with a path under the prefix gives a check state. */
  lemma CheckStateDefined(d: Diff, ix: RepoIndex, prefix: string, x: string)
    requires d.Diff? && d.statusDiff && Under(d, prefix, x)
    ensures CheckStateOf(d, ix, prefix).Some?
  {
    assert x in Matching(Paths(d), prefix);
  }

  /** git::Index::setStaged(files, on): every listed file becomes staged, or
      unstaged, and every other path keeps its state. */
  function SetStaged(ix: RepoIndex, files: seq<string>, on: bool): (r: RepoIndex)
    ensures forall f :: IsStaged(r, f) == if f in files then (if on then Staged else Unstaged) else IsStaged(ix, f)
  {
    ix + map f | f in files :: if on then Staged else Unstaged
  }

  /** Staging or unstaging the files under `prefix` turns the check state of
      every path `q` that extends `prefix` and has a file under it into
      checked, or unchecked: ticking a folder ticks everything below it. */
  lemma StageBelow(d: Diff, ix: RepoIndex, prefix: string, q: string, on: bool)
    requires d.Diff? && d.statusDiff && StartsWith(q, prefix)
    requires exists x :: Under(d, q, x)
    ensures CheckStateOf(d, SetStaged(ix, Matching(Paths(d), prefix), on), q) ==
      Some(if on then Checked else Unchecked)
  {
    var files := Matching(Paths(d), prefix);
    var ix' := SetStaged(ix, files, on);
    forall x | Under(d, q, x) ensures x in files {
      assert x[..|prefix|] == x[..|q|][..|prefix|];
    }
    CheckStateMeaning(d, ix', q);
  }

  /** Status character `c` shows for entry `e` under `prefix`. */
  predicate Hit(e: Entry, prefix: string, containsPath: (string, string) -> bool, c: char)
  {
    containsPath(e.path, prefix) && e.status == c
  }

  /** The StatusRole branch of DiffTreeModel::data over the entries: the
      status characters of the entries `containsPath` accepts, each once, in
      the order they first occur. */
  function StatusOf(es: seq<Entry>, prefix: string, containsPath: (string, string) -> bool): (r: string)
    ensures forall i, j :: 0 <= i < j < |r| ==> r[i] != r[j]
    ensures forall c :: c in r <==> exists k :: 0 <= k < |es| && Hit(es[k], prefix, containsPath, c)
    decreases |es|
  {
    if es == [] then []
    else
      var init := es[..|es| - 1];
      var last := es[|es| - 1];
      var s := StatusOf(init, prefix, containsPath);
      assert forall k :: 0 <= k < |init| ==> es[k] == init[k];
      if containsPath(last.path, prefix) && last.status !in s then s + [last.status] else s
  }

  /** Some entry shows `c` before any entry shows `c'`. */
  ghost predicate FirstBefore(es: seq<Entry>, prefix: string, containsPath: (string, string) -> bool, c: char, c': char)
  {
    exists k :: 0 <= k < |es| && Hit(es[k], prefix, containsPath, c) && NoneUpTo(es, prefix, containsPath, c', k)
  }

  /** No entry up to index `k` shows `c`. */
  ghost predicate NoneUpTo(es: seq<Entry>, prefix: string, containsPath: (string, string) -> bool, c: char, k: int)
  {
    forall k' :: 0 <= k' <= k && k' < |es| ==> !Hit(es[k'], prefix, containsPath, c)
  }

  /** The status characters appear in the order of their first occurrence:
      for two characters of the string, the earlier one has an entry before
      any entry of the later one. */
  lemma {:induction false} StatusFirstOccurrence(es: seq<Entry>, prefix: string, containsPath: (string, string) -> bool)
    ensures forall i, j :: 0 <= i < j < |StatusOf(es, prefix, containsPath)| ==>
      FirstBefore(es, prefix, containsPath, StatusOf(es, prefix, containsPath)[i], StatusOf(es, prefix, containsPath)[j])
    decreases |es|
  {
    if es != [] {
      var init := es[..|es| - 1];
      var last := es[|es| - 1];
      var s := StatusOf(init, prefix, containsPath);
      var r := StatusOf(es, prefix, containsPath);
      StatusFirstOccurrence(init, prefix, containsPath);
      assert forall i, j :: 0 <= i < j < |s| ==> FirstBefore(init, prefix, containsPath, s[i], s[j]);
      assert r == s || r == s + [last.status];
      forall i, j | 0 <= i < j < |r| ensures FirstBefore(es, prefix, containsPath, r[i], r[j]) {
        var k;
        if j < |s| {
          assert r[i] == s[i] && r[j] == s[j];
          assert FirstBefore(init, prefix, containsPath, s[i], s[j]);
          k :| 0 <= k < |init| && Hit(init[k], prefix, containsPath, s[i]) && NoneUpTo(init, prefix, containsPath, s[j], k);
        } else {
          assert r[i] == s[i] && r[j] !in s && s[i] in s;
          k :| 0 <= k < |init| && Hit(init[k], prefix, containsPath, s[i]);
        }
        assert es[k] == init[k];
        forall k' | 0 <= k' <= k ensures !Hit(es[k'], prefix, containsPath, r[j]) {
          assert es[k'] == init[k'];
        }
        assert NoneUpTo(es, prefix, containsPath, r[j], k);
      }
    }
  }
}
