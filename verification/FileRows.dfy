/** The rows the editor shows for a list of paths: built, sorted and collapsed. */
module FileRows {
  import opened Wrappers
  import opened Sorting
  import opened FileTree

  /** The path these segments spell below `parent`. */
  function Spelled(parent: string, segments: seq<string>): string
    decreases |segments|
  {
    if segments == [] then parent else Spelled(Below(parent, segments[0]), segments[1..])
  }

  /** The segments with a slash between any two. */
  function Slashed(segments: seq<string>): string {
    if segments == [] then ""
    else if |segments| == 1 then segments[0]
    else segments[0] + "/" + Slashed(segments[1..])
  }

  lemma {:induction false} SpelledIsSlashed(parent: string, segments: seq<string>)
    requires segments != [] && "" !in segments
    ensures Spelled(parent, segments) == if parent == "" then Slashed(segments) else parent + "/" + Slashed(segments)
    decreases |segments|
  {
    assert segments[0] != "";
    if |segments| > 1 {
      var below := Below(parent, segments[0]);
      SpelledIsSlashed(below, segments[1..]);
      assert parent != "" ==>
        parent + "/" + segments[0] + "/" + Slashed(segments[1..]) == parent + "/" + (segments[0] + "/" + Slashed(segments[1..]));
    } else {
      assert segments[1..] == [];
    }
  }

  lemma WaysAreSlashed(paths: seq<string>, x: seq<string>)
    requires x in Ways(paths)
    ensures Spelled("", x) == Slashed(x)
  {
    SpelledIsSlashed("", x);
  }

  /** The distinct files of the paths. */
  function Ways(paths: seq<string>): set<seq<string>> {
    set p | p in paths && Segments(p, "") != [] :: Segments(p, "")
  }

  lemma {:induction false} FilesConcat(a: seq<Node>, b: seq<Node>)
    ensures Files(a + b) == Files(a) + Files(b)
  {
    if a == [] {
      assert a + b == b;
    } else {
      assert (a + b)[1..] == a[1..] + b;
      FilesConcat(a[1..], b);
    }
  }

  lemma FilesOne(node: Node)
    ensures Files([node]) == if node.Dir? then Files(node.children) else [node]
  {
    assert [node][1..] == [];
  }

  lemma SplitAt<T>(s: seq<T>, i: nat)
    requires i < |s|
    ensures s == s[..i] + [s[i]] + s[i + 1..]
  {
  }

  lemma {:induction false} FilesAt(nodes: seq<Node>, i: nat)
    requires i < |nodes|
    ensures Files(nodes) == Files(nodes[..i]) + Files([nodes[i]]) + Files(nodes[i + 1..])
  {
    hide *;
    SplitAt(nodes, i);
    FilesConcat(nodes[..i] + [nodes[i]], nodes[i + 1..]);
    FilesConcat(nodes[..i], [nodes[i]]);
  }

  lemma FilesUpdated(nodes: seq<Node>, i: nat, node: Node)
    requires i < |nodes|
    ensures |Files(nodes[i := node])| == |Files(nodes)| - |Files([nodes[i]])| + |Files([node])|
  {
    hide Files;
    FilesAt(nodes, i);
    FilesAt(nodes[i := node], i);
    assert nodes[i := node][..i] == nodes[..i] && nodes[i := node][i + 1..] == nodes[i + 1..];
  }

  // ----- Which files -------------------------------------------------------

  /** Every file row is at the end of the segments that spell its path. */
  lemma {:induction false} RowHasWay(nodes: seq<Node>, parent: string, f: Node) returns (x: seq<string>)
    requires Tidy(nodes, parent) && f in Files(nodes)
    ensures HasFile(nodes, x) && Spelled(parent, x) == f.path
  {
    var node := nodes[0];
    FirstOrRest(nodes, parent, f);
    if node.File? && f == node {
      x := [node.name];
      assert Spelled(node.path, x[1..]) == node.path;
      assert LeadsTo(node, x);
    } else if node.Dir? && f in Files(node.children) {
      var rest := RowHasWay(node.children, node.path, f);
      x := [node.name] + rest;
      assert x[1..] == rest;
      assert LeadsTo(node, x);
    } else {
      x := RowHasWay(nodes[1..], parent, f);
      var i :| 0 <= i < |nodes| - 1 && LeadsTo(nodes[1..][i], x);
      assert LeadsTo(nodes[i + 1], x);
    }
  }

  lemma FirstOrRest(nodes: seq<Node>, parent: string, f: Node)
    requires Tidy(nodes, parent) && f in Files(nodes)
    ensures nodes != [] && Tidy(nodes[1..], parent)
    ensures (if nodes[0].Dir? then f in Files(nodes[0].children) else f == nodes[0]) || f in Files(nodes[1..])
  {
  }

  lemma {:induction false} WayHasRow(nodes: seq<Node>, parent: string, x: seq<string>) returns (f: Node)
    requires Tidy(nodes, parent) && HasFile(nodes, x)
    ensures f in Files(nodes) && f.path == Spelled(parent, x)
    decreases |x|
  {
    var i :| 0 <= i < |nodes| && LeadsTo(nodes[i], x);
    var node := nodes[i];
    FilesAt(nodes, i);
    FilesOne(node);
    if node.File? {
      f := node;
      assert x[1..] == [] && Spelled(node.path, x[1..]) == node.path;
    } else {
      f := WayHasRow(node.children, node.path, x[1..]);
    }
  }

  // ----- How many ----------------------------------------------------------

  lemma FoundIsOnly(nodes: seq<Node>, parent: string, segments: seq<string>)
    requires Tidy(nodes, parent) && segments != []
    ensures
      var found := FindChild(nodes, segments[0], |segments| == 1);
      HasFile(nodes, segments) <==> found.Some? && (|segments| == 1 || HasFile(nodes[found.value].children, segments[1..]))
  {
    var found := FindChild(nodes, segments[0], |segments| == 1);
    if HasFile(nodes, segments) {
      var i :| 0 <= i < |nodes| && LeadsTo(nodes[i], segments);
      assert nodes[i].Dir? ==> HasFile(nodes[i].children, segments[1..]);
      assert nodes[i].File? == (|segments| == 1);
      assert found.Some? && found.value == i;
    } else if found.Some? {
      assert !LeadsTo(nodes[found.value], segments);
    }
  }

  /** Inserting a path adds one file, unless it was there. */
  lemma {:induction false} InsertCounts(nodes: seq<Node>, parent: string, segments: seq<string>)
    requires segments != [] && Tidy(nodes, parent)
    ensures |Files(FileTree.Insert(nodes, parent, segments))| == |Files(nodes)| + if HasFile(nodes, segments) then 0 else 1
    decreases |segments|
  {
    var name, path := segments[0], Below(parent, segments[0]);
    FoundIsOnly(nodes, parent, segments);
    hide Files, HasFile;
    match FindChild(nodes, name, |segments| == 1)
    case Some(i) =>
      if |segments| > 1 {
        InsertCounts(nodes[i].children, path, segments[1..]);
        var dir := Dir(name, nodes[i].path, FileTree.Insert(nodes[i].children, path, segments[1..]));
        FilesOne(nodes[i]);
        FilesOne(dir);
        hide *;
        FilesUpdated(nodes, i, dir);
      }
    case None =>
      var node := if |segments| == 1 then File(name, path) else Dir(name, path, FileTree.Insert([], path, segments[1..]));
      FilesOne(node);
      if |segments| > 1 {
        InsertCounts([], path, segments[1..]);
        NoFiles(segments[1..]);
      }
      hide Tidy, FindChild;
      FilesConcat(nodes, [node]);
  }

  lemma NoFiles(x: seq<string>)
    ensures Files([]) == [] && !HasFile([], x)
  {
  }

  lemma {:induction false} GrownCounts(paths: seq<string>)
    ensures |Files(Grown(paths))| == |Ways(paths)|
  {
    if paths != [] {
      var n := |paths| - 1;
      var segments := Segments(paths[n], "");
      GrownCounts(paths[..n]);
      assert paths == paths[..n] + [paths[n]];
      hide *;
      GrowsByOne(paths[..n], paths[n]);
    }
  }

  lemma GrowsByOne(paths: seq<string>, p: string)
    requires |Files(Grown(paths))| == |Ways(paths)|
    ensures |Files(Grown(paths + [p]))| == |Ways(paths + [p])|
  {
    hide *;
    var segments := Segments(p, "");
    GrownSnoc(paths, p);
    WaysSnoc(paths, p);
    if segments == [] {
      assert Ways(paths + [p]) == Ways(paths);
    } else {
      GrownWays(paths, segments);
      InsertCounts(Grown(paths), "", segments);
      assert segments in Ways(paths) ==> Ways(paths + [p]) == Ways(paths);
    }
  }

  lemma GrownSnoc(paths: seq<string>, p: string)
    ensures Grown(paths + [p]) ==
      if Segments(p, "") == [] then Grown(paths) else FileTree.Insert(Grown(paths), "", Segments(p, ""))
  {
    assert (paths + [p])[..|paths|] == paths;
    hide FileTree.Insert, Segments;
  }

  lemma WaysSnoc(paths: seq<string>, p: string)
    ensures Ways(paths + [p]) == Ways(paths) + if Segments(p, "") == [] then {} else {Segments(p, "")}
  {
    hide Segments;
    assert p in paths + [p];
    assert forall q :: q in paths + [p] <==> q in paths || q == p;
  }

  lemma GrownWays(paths: seq<string>, x: seq<string>)
    ensures Tidy(Grown(paths), "") && (HasFile(Grown(paths), x) <==> x in Ways(paths))
  {
    hide Tidy, HasFile, Segments, Grown;
    GrownHolds(paths, x);
  }

  lemma {:induction false} InsertedFiles(le: (Node, Node) -> bool, x: Node, sorted: seq<Node>)
    ensures |Files(Sorting.Insert(le, x, sorted))| == |Files([x])| + |Files(sorted)|
  {
    if sorted == [] || le(x, sorted[0]) {
      FilesConcat([x], sorted);
      assert [x] + [] == [x];
    } else {
      InsertedFiles(le, x, sorted[1..]);
      FilesConcat([sorted[0]], sorted[1..]);
      FilesConcat([sorted[0]], Sorting.Insert(le, x, sorted[1..]));
      assert sorted == [sorted[0]] + sorted[1..];
    }
  }

  lemma {:induction false} SortedFiles(le: (Node, Node) -> bool, nodes: seq<Node>)
    ensures |Files(Sort(le, nodes))| == |Files(nodes)|
  {
    if nodes != [] {
      var first, rest := nodes[0], nodes[1..];
      SortedFiles(le, rest);
      assert Sort(le, nodes) == Sorting.Insert(le, first, Sort(le, rest));
      assert nodes == [first] + rest;
      hide *;
      InsertedFiles(le, first, Sort(le, rest));
      FilesConcat([first], rest);
    }
  }

  /** Sorting neither adds nor loses a file. */
  lemma {:induction false} SortTreeCounts(locale: (string, string) -> bool, nodes: seq<Node>)
    ensures |Files(SortTree(locale, nodes))| == |Files(nodes)|
    decreases nodes, 1
  {
    SortBelowCounts(locale, nodes, |nodes|);
    assert nodes[..|nodes|] == nodes && SortBelow(locale, nodes)[..|nodes|] == SortBelow(locale, nodes);
    SortedFiles(Order(locale), SortBelow(locale, nodes));
  }

  lemma {:induction false} SortBelowCounts(locale: (string, string) -> bool, nodes: seq<Node>, n: nat)
    requires n <= |nodes|
    ensures |Files(SortBelow(locale, nodes)[..n])| == |Files(nodes[..n])|
    decreases nodes, 0, n
  {
    if n > 0 {
      var i := n - 1;
      var below := SortBelow(locale, nodes);
      SortBelowCounts(locale, nodes, i);
      assert nodes[..n] == nodes[..i] + [nodes[i]] && below[..n] == below[..i] + [below[i]];
      FilesConcat(nodes[..i], [nodes[i]]);
      FilesConcat(below[..i], [below[i]]);
      FilesOne(nodes[i]);
      FilesOne(below[i]);
      if nodes[i].Dir? {
        SortTreeCounts(locale, nodes[i].children);
      }
    }
  }

  // ----- What is shown -----------------------------------------------------

  /**
   * The rows shown for a list of paths: a file row for each distinct path with a
   * segment and no other, no chain of lone directories, and on every row a path
   * that is the names on the way to it.
   */
  lemma RowsShown(paths: seq<string>, locale: (string, string) -> bool, path: string)
    requires TotalPreorder(locale)
    ensures
      var rows := Collapsed(SortTree(locale, Grown(paths)));
      && NoChains(rows) && NamesJoin(rows, "")
      && |Files(rows)| == |Ways(paths)|
      && ((exists f :: f in Files(rows) && f.path == path) <==> (exists x :: x in Ways(paths) && Slashed(x) == path))
  {
    var tree := SortTree(locale, Grown(paths));
    BuiltTree(paths, locale, []);
    assert tree[0..] == tree;
    hide *;
    TidyJoins(tree, "", 0);
    CollapsingJoinsNames(tree, "");
    CollapsingLeavesNoChains(tree);
    CollapsingKeepsFiles(tree);
    SortTreeCounts(locale, Grown(paths));
    GrownCounts(paths);
    if f :| f in Files(tree) && f.path == path {
      var x := RowHasWay(tree, "", f);
      WayOfPaths(paths, locale, x);
      WaysAreSlashed(paths, x);
    }
    if x :| x in Ways(paths) && Slashed(x) == path {
      WaysAreSlashed(paths, x);
      WayOfPaths(paths, locale, x);
      var f := WayHasRow(tree, "", x);
    }
  }

  lemma WayOfPaths(paths: seq<string>, locale: (string, string) -> bool, x: seq<string>)
    requires TotalPreorder(locale)
    ensures HasFile(SortTree(locale, Grown(paths)), x) <==> x in Ways(paths)
  {
    BuiltTree(paths, locale, x);
    hide SortTree, HasFile, Grown;
  }
}
