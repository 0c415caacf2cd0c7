/** The tree of DiffTreeModel::Node objects, held in an arena: node `id` is
    `a[id]`, the root (named for the working directory) is node 0, and a
    node refers to its parent and children by id, as the source refers to
    them by pointer. */
module DiffTree {
  import opened Options
  import opened PathText

  /** One DiffTreeModel::Node: its path segment, its parent (none for the
      root) and its children in the order they were first seen. */
  datatype Node = Node(name: string, parent: Option<nat>, children: seq<nat>)

  type Arena = seq<Node>

  /** Every child id names a node of the arena. */
  ghost predicate Closed(a: Arena)
  {
    forall id, j :: 0 <= id < |a| && 0 <= j < |a[id].children| ==> a[id].children[j] < |a|
  }

  /** Node 0 is the root and the only node without a parent, and a parent
      is allocated before its children. */
  ghost predicate Rooted(a: Arena)
  {
    && |a| > 0
    && a[0].parent.None?
    && (forall id {:trigger a[id].parent} :: 0 < id < |a| ==> a[id].parent.Some? && a[id].parent.value < id)
  }

  /** Each child points back at the node that lists it. */
  ghost predicate ChildrenPointBack(a: Arena)
    requires Closed(a)
  {
    forall id, j :: 0 <= id < |a| && 0 <= j < |a[id].children| ==> a[a[id].children[j]].parent == Some(id)
  }

  /** Each node other than the root is listed among its parent's children. */
  ghost predicate Linked(a: Arena)
    requires Rooted(a)
  {
    forall id {:trigger a[id].parent} :: 0 < id < |a| ==> id in a[a[id].parent.value].children
  }

  /** No two siblings share a name. */
  ghost predicate UniqueSiblingNames(a: Arena)
    requires Closed(a)
  {
    forall id, j, k :: 0 <= id < |a| && 0 <= j < k < |a[id].children| ==>
      a[a[id].children[j]].name != a[a[id].children[k]].name
  }

  /** The shape every tree of the model has. */
  ghost predicate WellFormed(a: Arena)
  {
    Rooted(a) && Closed(a) && ChildrenPointBack(a) && UniqueSiblingNames(a)
  }

  /** The first of `kids` whose name is `name`, as the loop at the head of
      Node::addChild finds it. */
  function FindChild(a: Arena, kids: seq<nat>, name: string): (r: Option<nat>)
    requires forall j :: 0 <= j < |kids| ==> kids[j] < |a|
    ensures r.Some? ==> r.value in kids && a[r.value].name == name
    ensures r.None? <==> forall j :: 0 <= j < |kids| ==> a[kids[j]].name != name
    decreases |kids|
  {
    if kids == [] then None
    else if a[kids[0]].name == name then Some(kids[0])
    else FindChild(a, kids[1..], name)
  }

  /** Node `n` takes node `c` as its last child: the append that ends
      Node::addChild. */
  function Adopt(a: Arena, n: nat, c: nat): (r: Arena)
    requires n < |a|
    ensures |r| == |a| && r[n].children == a[n].children + [c]
    ensures r[n].name == a[n].name && r[n].parent == a[n].parent
    ensures forall m :: 0 <= m < |a| && m != n ==> r[m] == a[m]
  {
    a[n := a[n].(children := a[n].children + [c])]
  }

  /** A new node `name` under `n`, appended at the end of `n`'s children. */
  function AppendChild(a: Arena, n: nat, name: string): (r: Arena)
    requires Closed(a) && n < |a|
    ensures Closed(r) && |r| == |a| + 1
    ensures r[|a|] == Node(name, Some(n), [])
    ensures r[n].children == a[n].children + [|a|]
    ensures r[n].name == a[n].name && r[n].parent == a[n].parent
    ensures forall m :: 0 <= m < |a| && m != n ==> r[m] == a[m]
  {
    Adopt(a, n, |a|) + [Node(name, Some(n), [])]
  }

  /** Node::addChild(p, i) called on node `n`: follow the child named p[i]
      if there is one, otherwise append a new child named p[i] and, when
      segments remain, continue below it. The result is None when the
      source would index p past its end, which happens when the segments
      run out while a matching child is being followed. */
  function Insert(a: Arena, n: nat, p: seq<string>, i: nat): (r: Option<Arena>)
    requires Closed(a) && n < |a| && i <= |p|
    ensures r.Some? ==> Closed(r.value) && |a| <= |r.value|
    decreases |p| - i
  {
    if i == |p| then None
    else
      match FindChild(a, a[n].children, p[i])
      case Some(c) => Insert(a, c, p, i + 1)
      case None =>
        var a1 := AppendChild(a, n, p[i]);
        if i + 1 < |p| then Insert(a1, |a|, p, i + 1) else Some(a1)
  }

  /** The tree createDiffTree builds under a fresh root named `rootName`
      from the diff's paths, taken in order; None when some insertion
      would read past the end of its path. */
  function Build(rootName: string, paths: seq<string>): (r: Option<Arena>)
    ensures r.Some? ==> Closed(r.value) && |r.value| >= 1
    decreases |paths|
  {
    if paths == [] then Some([Node(rootName, None, [])])
    else
      match Build(rootName, paths[..|paths| - 1])
      case None => None
      case Some(a) => Insert(a, 0, Split(paths[|paths| - 1]), 0)
  }

  /** No path of the list splits into segments that start (or equal) the
      segments of an earlier path: the condition under which every call
      of Node::addChild stays inside its path. */
  ghost predicate PrefixFree(paths: seq<string>)
  {
    forall j, k :: 0 <= j < k < |paths| ==> !IsPrefix(Split(paths[k]), Split(paths[j]))
  }

  /** Node::path(relative): the names from the top down joined with "/".
      The top is the root, or, when `relative` holds, the child of the root
      on the way, so that the working-directory segment is left out. The
      root's own path is its name either way. */
  function Path(a: Arena, id: nat, relative: bool): (r: string)
    requires WellFormed(a) && id < |a|
    decreases id
  {
    var top := a[id].parent.None? || (relative && a[a[id].parent.value].parent.None?);
    if top then a[id].name else Path(a, a[id].parent.value, relative) + "/" + a[id].name
  }

  /** The segments below the root that lead to node `id`. */
  ghost function Labels(a: Arena, id: nat): (r: seq<string>)
    requires WellFormed(a) && id < |a|
    decreases id
  {
    if id == 0 then [] else Labels(a, a[id].parent.value) + [a[id].name]
  }
}
