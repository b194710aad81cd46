/** The editor's file tree: built from a flat list of paths, sorted, and with lone chains collapsed. */
module FileTree {
  import opened Wrappers
  import opened Sorting

  /** Files have no children; directories do. */
  datatype Node = File(name: string, path: string) | Dir(name: string, path: string, children: seq<Node>)

  /** The non-empty segments of a path. */
  function Segments(path: string, current: string): (segments: seq<string>)
    ensures "" !in segments
  {
    if path == "" then (if current == "" then [] else [current])
    else if path[0] == '/' then (if current == "" then [] else [current]) + Segments(path[1..], "")
    else Segments(path[1..], current + [path[0]])
  }

  function Below(parent: string, name: string): string {
    if parent == "" then name else parent + "/" + name
  }

  /** The child a segment names: a file for the last segment, a directory before it. */
  function FindChild(nodes: seq<Node>, name: string, isLeaf: bool): (at: Option<nat>)
    ensures at.Some? ==> at.value < |nodes| && nodes[at.value].name == name && nodes[at.value].File? == isLeaf
    ensures at.None? ==> forall i :: 0 <= i < |nodes| ==> !(nodes[i].name == name && nodes[i].File? == isLeaf)
  {
    if nodes == [] then None
    else
      var n := |nodes| - 1;
      var earlier := FindChild(nodes[..n], name, isLeaf);
      if earlier.Some? then earlier
      else if nodes[n].name == name && nodes[n].File? == isLeaf then Some(n)
      else None
  }

  /** `nodes`, the children of the directory `parent`, with one more path below it. */
  function Insert(nodes: seq<Node>, parent: string, segments: seq<string>): seq<Node>
    requires segments != []
    decreases |segments|
  {
    var name, path := segments[0], Below(parent, segments[0]);
    var isLeaf := |segments| == 1;
    match FindChild(nodes, name, isLeaf)
    case Some(i) =>
      if isLeaf then nodes
      else nodes[i := Dir(name, nodes[i].path, Insert(nodes[i].children, path, segments[1..]))]
    case None =>
      nodes + [if isLeaf then File(name, path) else Dir(name, path, Insert([], path, segments[1..]))]
  }

  function Grown(paths: seq<string>): seq<Node> {
    if paths == [] then []
    else
      var n := |paths| - 1;
      var segments := Segments(paths[n], "");
      if segments == [] then Grown(paths[..n]) else Insert(Grown(paths[..n]), "", segments)
  }

  /** Directories before files, and by name within each. */
  function Order(locale: (string, string) -> bool): (Node, Node) -> bool {
    (a: Node, b: Node) => if a.Dir? != b.Dir? then a.Dir? else locale(a.name, b.name)
  }

  function SortTree(locale: (string, string) -> bool, nodes: seq<Node>): seq<Node>
    decreases nodes, 1
  {
    Sort(Order(locale), SortBelow(locale, nodes))
  }

  function SortBelow(locale: (string, string) -> bool, nodes: seq<Node>): (r: seq<Node>)
    ensures |r| == |nodes|
    decreases nodes, 0
  {
    seq(|nodes|, i requires 0 <= i < |nodes| =>
      if nodes[i].Dir? then Dir(nodes[i].name, nodes[i].path, SortTree(locale, nodes[i].children)) else nodes[i])
  }

  method BuildFileTree(paths: seq<string>, locale: (string, string) -> bool) returns (tree: seq<Node>)
    ensures tree == SortTree(locale, Grown(paths))
  {
    var root: seq<Node> := [];
    for i := 0 to |paths|
      invariant root == Grown(paths[..i])
    {
      assert paths[..i + 1][..i] == paths[..i];
      var segments := Segments(paths[i], "");
      if segments != [] {
        root := Insert(root, "", segments);
      }
    }
    assert paths[..|paths|] == paths;
    tree := SortTree(locale, root);
  }

  // ----- What the tree holds -----------------------------------------------

  /** The tree has a file at the end of these segments. */
  predicate HasFile(nodes: seq<Node>, segments: seq<string>)
    decreases |segments|
  {
    segments != [] && exists i :: 0 <= i < |nodes| && LeadsTo(nodes[i], segments)
  }

  predicate LeadsTo(node: Node, segments: seq<string>)
    requires segments != []
    decreases |segments|, 0
  {
    node.name == segments[0] && if node.File? then |segments| == 1 else HasFile(node.children, segments[1..])
  }

  /** No two siblings are the same, no directory is empty, and every path is the names on the way to it. */
  ghost predicate Tidy(nodes: seq<Node>, parent: string) {
    && (forall i, j :: 0 <= i < j < |nodes| ==> !(nodes[i].name == nodes[j].name && nodes[i].Dir? == nodes[j].Dir?))
    && (forall i :: 0 <= i < |nodes| ==>
          && nodes[i].name != "" && nodes[i].path == Below(parent, nodes[i].name)
          && (nodes[i].Dir? ==> nodes[i].children != [] && Tidy(nodes[i].children, nodes[i].path)))
  }

  ghost predicate SortedTree(locale: (string, string) -> bool, nodes: seq<Node>) {
    && Sorted(Order(locale), nodes)
    && forall i :: 0 <= i < |nodes| && nodes[i].Dir? ==> SortedTree(locale, nodes[i].children)
  }

  /** Inserting a path adds that file and nothing else. */
  lemma {:induction false} InsertAdds(nodes: seq<Node>, parent: string, segments: seq<string>, x: seq<string>)
    requires segments != []
    ensures HasFile(Insert(nodes, parent, segments), x) <==> x == segments || HasFile(nodes, x)
    decreases |segments|
  {
    if x != [] {
      var name, path, isLeaf := segments[0], Below(parent, segments[0]), |segments| == 1;
      var after := Insert(nodes, parent, segments);
      var found := FindChild(nodes, name, isLeaf);
      assert segments == [name] + segments[1..] && x == [x[0]] + x[1..];
      if !isLeaf {
        InsertAdds(if found.Some? then nodes[found.value].children else [], path, segments[1..], x[1..]);
      }
      var at := if found.Some? then found.value else |nodes|;
      assert forall i :: 0 <= i < |nodes| && i != at ==> after[i] == nodes[i];
      assert at < |after|;
      assert LeadsTo(after[at], x) <==> x == segments || (found.Some? && LeadsTo(nodes[at], x));
      if HasFile(nodes, x) {
        var i :| 0 <= i < |nodes| && LeadsTo(nodes[i], x);
        assert LeadsTo(after[i], x);
      }
    }
  }

  lemma {:induction false} InsertTidy(nodes: seq<Node>, parent: string, segments: seq<string>)
    requires segments != [] && "" !in segments && Tidy(nodes, parent)
    ensures Tidy(Insert(nodes, parent, segments), parent) && Insert(nodes, parent, segments) != []
    decreases |segments|
  {
    var name, path, isLeaf := segments[0], Below(parent, segments[0]), |segments| == 1;
    var found := FindChild(nodes, name, isLeaf);
    if !isLeaf {
      InsertTidy(if found.Some? then nodes[found.value].children else [], path, segments[1..]);
    }
  }

  /** The files of the tree are exactly the paths that have segments. */
  lemma {:induction false} GrownHolds(paths: seq<string>, x: seq<string>)
    ensures Tidy(Grown(paths), "")
    ensures HasFile(Grown(paths), x) <==> x != [] && exists p :: p in paths && Segments(p, "") == x
  {
    if paths != [] {
      var n := |paths| - 1;
      GrownHolds(paths[..n], x);
      assert paths == paths[..n] + [paths[n]];
      var segments := Segments(paths[n], "");
      if segments != [] {
        InsertAdds(Grown(paths[..n]), "", segments, x);
        InsertTidy(Grown(paths[..n]), "", segments);
      }
      hide Segments, Insert, Tidy, HasFile;
      assert paths[n] in paths && forall p :: p in paths <==> p in paths[..n] || p == paths[n];
      assert segments != [] ==> (HasFile(Grown(paths), x) <==> x == segments || HasFile(Grown(paths[..n]), x));
    }
  }

  // ----- Sorting -----------------------------------------------------------

  lemma OrderIsTotal(locale: (string, string) -> bool)
    requires TotalPreorder(locale)
    ensures TotalPreorder(Order(locale))
  {
    var le := Order(locale);
    forall x: Node, y: Node
      ensures le(x, y) || le(y, x)
    {
      assert locale(x.name, y.name) || locale(y.name, x.name);
    }
    forall x: Node, y: Node, z: Node | le(x, y) && le(y, z)
      ensures le(x, z)
    {
      assert locale(x.name, y.name) && locale(y.name, z.name) ==> locale(x.name, z.name);
    }
  }

  lemma SortMembers(locale: (string, string) -> bool, nodes: seq<Node>, node: Node)
    ensures node in Sort(Order(locale), nodes) <==> node in nodes
  {
    assert node in multiset(Sort(Order(locale), nodes)) <==> node in multiset(nodes);
  }

  lemma {:induction false} SortTreeHolds(locale: (string, string) -> bool, nodes: seq<Node>, x: seq<string>)
    ensures HasFile(SortTree(locale, nodes), x) <==> HasFile(nodes, x)
    decreases |x|
  {
    if x != [] {
      var below := SortBelow(locale, nodes);
      var sorted := SortTree(locale, nodes);
      forall i | 0 <= i < |nodes|
        ensures LeadsTo(below[i], x) <==> LeadsTo(nodes[i], x)
      {
        if nodes[i].Dir? {
          SortTreeHolds(locale, nodes[i].children, x[1..]);
        }
      }
      if HasFile(nodes, x) {
        var i :| 0 <= i < |nodes| && LeadsTo(nodes[i], x);
        SortMembers(locale, below, below[i]);
        var j :| 0 <= j < |sorted| && sorted[j] == below[i];
      }
      if HasFile(sorted, x) {
        var j :| 0 <= j < |sorted| && LeadsTo(sorted[j], x);
        SortMembers(locale, below, sorted[j]);
        var i :| 0 <= i < |below| && below[i] == sorted[j];
      }
    }
  }

  /** Sorting keeps a tree tidy and puts every level in order. */
  lemma {:induction false} SortTreeSorts(locale: (string, string) -> bool, nodes: seq<Node>, parent: string)
    requires TotalPreorder(locale) && Tidy(nodes, parent)
    ensures SortedTree(locale, SortTree(locale, nodes)) && Tidy(SortTree(locale, nodes), parent)
    ensures |SortTree(locale, nodes)| == |nodes|
    decreases nodes
  {
    var below := SortBelow(locale, nodes);
    forall i | 0 <= i < |nodes| && nodes[i].Dir?
      ensures SortedTree(locale, below[i].children) && Tidy(below[i].children, below[i].path) && below[i].children != []
    {
      SortTreeSorts(locale, nodes[i].children, nodes[i].path);
    }
    OrderIsTotal(locale);
    SortSorts(Order(locale), below);
    LevelOk(locale, nodes, below, parent);
    SortKeepsLevel(locale, below, parent);
  }

  predicate SameSpot(a: Node, b: Node) {
    a.name == b.name && a.Dir? == b.Dir?
  }

  ghost predicate NodeOk(locale: (string, string) -> bool, node: Node, parent: string) {
    && node.name != "" && node.path == Below(parent, node.name)
    && (node.Dir? ==> node.children != [] && Tidy(node.children, node.path) && SortedTree(locale, node.children))
  }

  ghost predicate Apart(nodes: seq<Node>) {
    forall i, j :: 0 <= i < j < |nodes| ==> !SameSpot(nodes[i], nodes[j])
  }

  lemma LevelOk(locale: (string, string) -> bool, nodes: seq<Node>, below: seq<Node>, parent: string)
    requires Tidy(nodes, parent) && below == SortBelow(locale, nodes)
    requires forall i :: 0 <= i < |nodes| && nodes[i].Dir? ==>
      SortedTree(locale, below[i].children) && Tidy(below[i].children, below[i].path) && below[i].children != []
    ensures Apart(below) && forall node :: node in below ==> NodeOk(locale, node, parent)
  {
    hide SortedTree, SortTree, Below;
    forall i | 0 <= i < |below|
      ensures NodeOk(locale, below[i], parent)
    {
    }
    forall i, j | 0 <= i < j < |below|
      ensures !SameSpot(below[i], below[j])
    {
      assert !SameSpot(nodes[i], nodes[j]);
    }
  }

  lemma SortKeepsLevel(locale: (string, string) -> bool, below: seq<Node>, parent: string)
    requires Apart(below) && forall node :: node in below ==> NodeOk(locale, node, parent)
    requires Sorted(Order(locale), Sort(Order(locale), below))
    ensures Tidy(Sort(Order(locale), below), parent) && SortedTree(locale, Sort(Order(locale), below))
  {
    var sorted := Sort(Order(locale), below);
    forall i | 0 <= i < |sorted|
      ensures NodeOk(locale, sorted[i], parent)
    {
      SortMembers(locale, below, sorted[i]);
    }
    PermutedApart(below, sorted);
    forall i, j | 0 <= i < j < |sorted|
      ensures !(sorted[i].name == sorted[j].name && sorted[i].Dir? == sorted[j].Dir?)
    {
      assert !SameSpot(sorted[i], sorted[j]);
    }
    hide Sort, Below;
  }

  /** Reordering siblings that are apart leaves them apart. */
  lemma PermutedApart(a: seq<Node>, b: seq<Node>)
    requires Apart(a) && multiset(a) == multiset(b)
    ensures Apart(b)
  {
    forall i, j | 0 <= i < j < |b|
      ensures !SameSpot(b[i], b[j])
    {
      assert b[i] in multiset(a) && b[j] in multiset(a);
      var x :| 0 <= x < |a| && a[x] == b[i];
      var y :| 0 <= y < |a| && a[y] == b[j];
      if x == y {
        OnceEach(a, x);
        TwiceIn(b, i, j);
      } else {
        assert !SameSpot(a[if x < y then x else y], a[if x < y then y else x]);
      }
    }
  }

  lemma TwiceIn(b: seq<Node>, i: nat, j: nat)
    requires i < j < |b| && b[i] == b[j]
    ensures multiset(b)[b[i]] >= 2
  {
    assert b == b[..i] + [b[i]] + b[i + 1..j] + [b[j]] + b[j + 1..];
  }

  lemma OnceEach(a: seq<Node>, x: nat)
    requires Apart(a) && x < |a|
    ensures multiset(a)[a[x]] == 1
  {
    assert a == a[..x] + [a[x]] + a[x + 1..];
    assert a[x] !in a[..x] by {
      assert forall i :: 0 <= i < x ==> !SameSpot(a[i], a[x]);
    }
    assert a[x] !in a[x + 1..] by {
      assert forall i :: x < i < |a| ==> !SameSpot(a[x], a[i]);
    }
  }

  /** The tree shown for a list of paths: exactly those files, tidy, and in order at every level. */
  lemma {:induction false} BuiltTree(paths: seq<string>, locale: (string, string) -> bool, x: seq<string>)
    requires TotalPreorder(locale)
    ensures
      var tree := SortTree(locale, Grown(paths));
      && Tidy(tree, "") && SortedTree(locale, tree)
      && (HasFile(tree, x) <==> x != [] && exists p :: p in paths && Segments(p, "") == x)
  {
    GrownHolds(paths, x);
    SortTreeHolds(locale, Grown(paths), x);
    SortTreeSorts(locale, Grown(paths), "");
  }

  // ----- Collapsing chains -------------------------------------------------

  predicate IsChain(node: Node) {
    node.Dir? && |node.children| == 1 && node.children[0].Dir?
  }

  /** The directory at the end of a chain, under the joined name. */
  function Tip(name: string, node: Node): (tip: (string, Node))
    requires node.Dir?
    ensures tip.1.Dir? && !IsChain(tip.1)
    decreases node
  {
    if IsChain(node) then Tip(name + "/" + node.children[0].name, node.children[0]) else (name, node)
  }

  function Size(nodes: seq<Node>): nat {
    if nodes == [] then 0
    else 1 + (if nodes[0].Dir? then Size(nodes[0].children) else 0) + Size(nodes[1..])
  }

  lemma {:induction false} TipIsSmaller(name: string, node: Node)
    requires node.Dir?
    ensures Size(Tip(name, node).1.children) <= Size(node.children)
    decreases node
  {
    if IsChain(node) {
      TipIsSmaller(name + "/" + node.children[0].name, node.children[0]);
      assert node.children == [node.children[0]];
    }
  }

  function CollapsedNode(node: Node): Node
    decreases Size([node]), 0
  {
    if node.File? then node
    else
      var (name, tip) := Tip(node.name, node);
      TipIsSmaller(node.name, node);
      assert [node][1..] == [];
      Dir(name, tip.path, Collapsed(tip.children))
  }

  function Collapsed(nodes: seq<Node>): (r: seq<Node>)
    ensures |r| == |nodes|
    decreases Size(nodes), 1
  {
    if nodes == [] then []
    else
      assert [nodes[0]][1..] == [] && Size([nodes[0]]) <= Size(nodes);
      [CollapsedNode(nodes[0])] + Collapsed(nodes[1..])
  }

  method FindTip(node: Node) returns (name: string, tip: Node)
    requires node.Dir?
    ensures (name, tip) == Tip(node.name, node)
  {
    tip, name := node, node.name;
    while |tip.children| == 1 && tip.children[0].Dir?
      invariant tip.Dir? && Tip(name, tip) == Tip(node.name, node)
      decreases tip
    {
      tip := tip.children[0];
      name := name + "/" + tip.name;
    }
  }

  method CollapseChains(nodes: seq<Node>) returns (rows: seq<Node>)
    ensures rows == Collapsed(nodes)
    decreases Size(nodes)
  {
    if nodes == [] {
      return [];
    }
    var head := nodes[0];
    if nodes[0].Dir? {
      var name, tip := FindTip(nodes[0]);
      TipIsSmaller(nodes[0].name, nodes[0]);
      var below := CollapseChains(tip.children);
      head := Dir(name, tip.path, below);
    }
    var rest := CollapseChains(nodes[1..]);
    rows := [head] + rest;
  }

  /** The files of a tree, in the order they are shown. */
  function Files(nodes: seq<Node>): seq<Node> {
    if nodes == [] then []
    else (if nodes[0].Dir? then Files(nodes[0].children) else [nodes[0]]) + Files(nodes[1..])
  }

  lemma {:induction false} TipFiles(name: string, node: Node)
    requires node.Dir?
    ensures Files(Tip(name, node).1.children) == Files(node.children)
    decreases node
  {
    if IsChain(node) {
      TipFiles(name + "/" + node.children[0].name, node.children[0]);
      assert node.children[1..] == [];
      assert Files(node.children) == Files(node.children[0].children) + [];
    }
  }

  /** The same files, in the same order. */
  lemma {:induction false} CollapsingKeepsFiles(nodes: seq<Node>)
    ensures Files(Collapsed(nodes)) == Files(nodes)
    decreases Size(nodes)
  {
    if nodes != [] {
      CollapsingKeepsFiles(nodes[1..]);
      if nodes[0].Dir? {
        TipIsSmaller(nodes[0].name, nodes[0]);
        TipFiles(nodes[0].name, nodes[0]);
        CollapsingKeepsFiles(Tip(nodes[0].name, nodes[0]).1.children);
      }
      assert Collapsed(nodes)[1..] == Collapsed(nodes[1..]);
    }
  }

  /** No row is a directory with nothing but a directory in it. */
  predicate NoChains(nodes: seq<Node>) {
    nodes == [] || (!IsChain(nodes[0]) && (nodes[0].Dir? ==> NoChains(nodes[0].children)) && NoChains(nodes[1..]))
  }

  lemma CollapsedHead(nodes: seq<Node>)
    requires nodes != []
    ensures Collapsed(nodes)[0] == CollapsedNode(nodes[0]) && Collapsed(nodes)[1..] == Collapsed(nodes[1..])
    ensures Collapsed(nodes)[0].Dir? == nodes[0].Dir?
  {
  }

  lemma {:induction false} CollapsingLeavesNoChains(nodes: seq<Node>)
    ensures NoChains(Collapsed(nodes))
    decreases Size(nodes)
  {
    if nodes != [] {
      CollapsingLeavesNoChains(nodes[1..]);
      CollapsedHead(nodes);
      if nodes[0].Dir? {
        var tip := Tip(nodes[0].name, nodes[0]).1;
        TipIsSmaller(nodes[0].name, nodes[0]);
        CollapsingLeavesNoChains(tip.children);
        if tip.children != [] {
          CollapsedHead(tip.children);
        }
      }
    }
  }

  lemma {:induction false} NothingToCollapse(nodes: seq<Node>)
    requires NoChains(nodes)
    ensures Collapsed(nodes) == nodes
    decreases Size(nodes)
  {
    if nodes != [] {
      NothingToCollapse(nodes[1..]);
      if nodes[0].Dir? {
        NothingToCollapse(nodes[0].children);
      }
      assert nodes == [nodes[0]] + nodes[1..];
    }
  }

  lemma CollapsingIsIdempotent(nodes: seq<Node>)
    ensures Collapsed(Collapsed(nodes)) == Collapsed(nodes)
  {
    CollapsingLeavesNoChains(nodes);
    NothingToCollapse(Collapsed(nodes));
  }

  /** Every path is the names on the way to it, joined. */
  predicate NamesJoin(nodes: seq<Node>, parent: string) {
    nodes == [] ||
    (nodes[0].name != "" && nodes[0].path == Below(parent, nodes[0].name)
     && (nodes[0].Dir? ==> NamesJoin(nodes[0].children, nodes[0].path))
     && NamesJoin(nodes[1..], parent))
  }

  lemma {:induction false} TipJoins(name: string, node: Node, parent: string)
    requires node.Dir? && name != "" && node.path == Below(parent, name) && NamesJoin(node.children, node.path)
    ensures
      var (joined, tip) := Tip(name, node);
      joined != "" && tip.path == Below(parent, joined) && NamesJoin(tip.children, tip.path)
    decreases node
  {
    if IsChain(node) {
      var child := node.children[0];
      var longer := name + "/" + child.name;
      assert node.path != "";
      assert parent + "/" + longer == (parent + "/" + name) + "/" + child.name;
      TipJoins(longer, child, parent);
    }
  }

  lemma {:induction false} CollapsingJoinsNames(nodes: seq<Node>, parent: string)
    requires NamesJoin(nodes, parent)
    ensures NamesJoin(Collapsed(nodes), parent)
    decreases Size(nodes)
  {
    if nodes != [] {
      CollapsingJoinsNames(nodes[1..], parent);
      CollapsedHead(nodes);
      if nodes[0].Dir? {
        var tip := Tip(nodes[0].name, nodes[0]).1;
        TipIsSmaller(nodes[0].name, nodes[0]);
        TipJoins(nodes[0].name, nodes[0], parent);
        CollapsingJoinsNames(tip.children, tip.path);
      }
    }
  }

  lemma {:induction false} TidyJoins(nodes: seq<Node>, parent: string, n: nat)
    requires Tidy(nodes, parent) && n <= |nodes|
    ensures NamesJoin(nodes[n..], parent)
    decreases nodes, |nodes| - n
  {
    if n < |nodes| {
      TidyJoins(nodes, parent, n + 1);
      if nodes[n].Dir? {
        TidyJoins(nodes[n].children, nodes[n].path, 0);
        assert nodes[n].children[0..] == nodes[n].children;
      }
      assert nodes[n..][1..] == nodes[n + 1..];
    }
  }

  // ----- The order and the shape, told by the rows -------------------------

  /** At every level directories come before files, and each kind by name. */
  ghost predicate InOrder(locale: (string, string) -> bool, nodes: seq<Node>) {
    && (forall i, j :: 0 <= i < j < |nodes| ==>
          (nodes[j].Dir? ==> nodes[i].Dir?) && (nodes[i].Dir? == nodes[j].Dir? ==> locale(nodes[i].name, nodes[j].name)))
    && forall i :: 0 <= i < |nodes| && nodes[i].Dir? ==> InOrder(locale, nodes[i].children)
  }

  /** No directory holds nothing but one directory. */
  predicate NoLoneDirectory(nodes: seq<Node>) {
    forall i :: 0 <= i < |nodes| && nodes[i].Dir? ==>
      !(|nodes[i].children| == 1 && nodes[i].children[0].Dir?) && NoLoneDirectory(nodes[i].children)
  }

  lemma {:induction false} SortedIsInOrder(locale: (string, string) -> bool, nodes: seq<Node>)
    requires SortedTree(locale, nodes)
    ensures InOrder(locale, nodes)
    decreases nodes
  {
    forall i, j | 0 <= i < j < |nodes|
      ensures (nodes[j].Dir? ==> nodes[i].Dir?) && (nodes[i].Dir? == nodes[j].Dir? ==> locale(nodes[i].name, nodes[j].name))
    {
      assert Order(locale)(nodes[i], nodes[j]);
    }
    forall i | 0 <= i < |nodes| && nodes[i].Dir?
      ensures InOrder(locale, nodes[i].children)
    {
      SortedIsInOrder(locale, nodes[i].children);
    }
  }

  lemma {:induction false} NoChainsIsNone(nodes: seq<Node>)
    requires NoChains(nodes)
    ensures NoLoneDirectory(nodes)
    decreases nodes
  {
    if nodes != [] {
      NoChainsIsNone(nodes[1..]);
      if nodes[0].Dir? {
        NoChainsIsNone(nodes[0].children);
      }
      forall i | 0 <= i < |nodes| && nodes[i].Dir?
        ensures !(|nodes[i].children| == 1 && nodes[i].children[0].Dir?) && NoLoneDirectory(nodes[i].children)
      {
        if i > 0 {
          assert nodes[1..][i - 1] == nodes[i];
        }
      }
    }
  }

  /** The tree is shown in order, and without lone directories once collapsed. */
  lemma TreeIsShownInOrder(paths: seq<string>, locale: (string, string) -> bool)
    requires TotalPreorder(locale)
    ensures InOrder(locale, SortTree(locale, Grown(paths)))
    ensures NoLoneDirectory(Collapsed(SortTree(locale, Grown(paths))))
  {
    BuiltTree(paths, locale, []);
    hide SortTree, Grown, Tidy, Collapsed, SortedTree;
    SortedIsInOrder(locale, SortTree(locale, Grown(paths)));
    CollapsingLeavesNoChains(SortTree(locale, Grown(paths)));
    NoChainsIsNone(Collapsed(SortTree(locale, Grown(paths))));
  }

  /** The segments are what the slashes part, without the empty ones. */
  lemma {:induction false} SegmentsAreParted(segment: string, rest: string, current: string)
    requires '/' !in segment
    ensures Segments(segment + "/" + rest, current) ==
      (if current + segment == "" then [] else [current + segment]) + Segments(rest, "")
    ensures Segments(segment, current) == if current + segment == "" then [] else [current + segment]
    decreases |segment|
  {
    var path := segment + "/" + rest;
    if segment == "" {
      assert path[1..] == rest && current + segment == current;
    } else {
      assert path[1..] == segment[1..] + "/" + rest;
      assert current + segment == current + [segment[0]] + segment[1..];
      SegmentsAreParted(segment[1..], rest, current + [segment[0]]);
    }
  }
}
