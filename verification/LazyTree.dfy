/** The lazily populated file tree: what one population does to a tree, and what a run of them keeps. */
module LazyTree {
  import opened FileSystem

  /** What a tree node stands for: the root "My Computer", a file system entry, or the "." placeholder. */
  datatype Node = Top(roots: seq<Fs>) | Entry(fs: Fs) | Placeholder

  /** A tree of nodes; a node without kids is a leaf to the tree widget. */
  datatype Tree = Tree(node: Node, kids: seq<Tree>)

  predicate IsShown(fs: Fs) {
    fs.Dir? || EndsWith(fs.name, "mp3")
  }

  /** The entries of a directory that get a node, in order. */
  function Shown(entries: seq<Fs>): seq<Fs> {
    if entries == [] then []
    else Shown(entries[..|entries| - 1])
         + if IsShown(entries[|entries| - 1]) then [entries[|entries| - 1]] else []
  }

  function Entries(files: seq<Fs>): seq<Node> {
    seq(|files|, i requires 0 <= i < |files| => Entry(files[i]))
  }

  /** The nodes found below a node, or none if there is nothing to expand. */
  function Below(node: Node): seq<Node> {
    match node
    case Top(roots) => Entries(roots)
    case Placeholder => []
    case Entry(fs) =>
      if !fs.Dir? || !fs.listable then []
      else if Shown(fs.entries) == [] then [Placeholder]
      else Entries(Shown(fs.entries))
  }

  function Leaf(node: Node): Tree {
    Tree(node, [])
  }

  function Leaves(nodes: seq<Node>): seq<Tree> {
    seq(|nodes|, i requires 0 <= i < |nodes| => Leaf(nodes[i]))
  }

  /** A leaf is expanded by one level; anything else is left alone. */
  function Expand(t: Tree): Tree {
    if t.kids == [] then t.(kids := Leaves(Below(t.node))) else t
  }

  /** `populateSubtree`. */
  function Populate(t: Tree, levels: nat): Tree
    decreases levels
  {
    if levels == 0 then t
    else
      var kids := Expand(t).kids;
      t.(kids := seq(|kids|, i requires 0 <= i < |kids| => Populate(kids[i], levels - 1)))
  }

  lemma {:induction false} ShownOfTwo(a: seq<Fs>, b: seq<Fs>)
    ensures Shown(a + b) == Shown(a) + Shown(b)
    decreases |b|
  {
    if b == [] {
      assert a + b == a;
    } else {
      assert (a + b)[..|a + b| - 1] == a + b[..|b| - 1];
      ShownOfTwo(a, b[..|b| - 1]);
    }
  }

  /**
   The nodes below a directory stand for its subdirectories and its entries with the mp3 suffix, and for
   nothing else; of two entries shown, the one listed first comes first.
   */
  lemma ShownEntries(front: seq<Fs>, entry: Fs, rest: seq<Fs>)
    ensures Shown(front + [entry] + rest)
            == Shown(front) + (if entry.Dir? || EndsWith(entry.name, "mp3") then [entry] else []) + Shown(rest)
  {
    assert [entry][..0] == [];
    ShownOfTwo(front + [entry], rest);
    ShownOfTwo(front, [entry]);
  }

  // ----- trees that picture the file system -----

  /** Every node is unexpanded, or expanded to exactly what is below it, in order. */
  predicate Image(t: Tree) {
    t.kids == []
    || (&& |t.kids| == |Below(t.node)|
        && forall i :: 0 <= i < |t.kids| ==> t.kids[i].node == Below(t.node)[i] && Image(t.kids[i]))
  }

  /** `t` is `u` with some expansions undone. */
  predicate Pruned(t: Tree, u: Tree) {
    t.node == u.node
    && (t.kids == []
        || (|t.kids| == |u.kids| && forall i :: 0 <= i < |t.kids| ==> Pruned(t.kids[i], u.kids[i])))
  }

  /** Everything less than `levels` below the root that can be expanded is. */
  predicate ExpandedTo(t: Tree, levels: nat) {
    levels == 0
    || (&& (t.kids == [] ==> Below(t.node) == [])
        && forall i :: 0 <= i < |t.kids| ==> ExpandedTo(t.kids[i], levels - 1))
  }

  lemma {:induction false} PrunedSelf(t: Tree)
    ensures Pruned(t, t)
  {
    forall i | 0 <= i < |t.kids|
      ensures Pruned(t.kids[i], t.kids[i])
    {
      PrunedSelf(t.kids[i]);
    }
  }

  lemma {:induction false} PrunedTransitive(t: Tree, u: Tree, v: Tree)
    requires Pruned(t, u) && Pruned(u, v)
    ensures Pruned(t, v)
  {
    forall i | 0 <= i < |t.kids|
      ensures |t.kids| == |v.kids| && Pruned(t.kids[i], v.kids[i])
    {
      PrunedTransitive(t.kids[i], u.kids[i], v.kids[i]);
    }
  }

  lemma ExpandImage(t: Tree)
    requires Image(t)
    ensures Image(Expand(t)) && Pruned(t, Expand(t))
  {
    PrunedSelf(t);
  }

  /** Populating an image gives an image that contains it and is expanded to the level asked for. */
  lemma {:induction false} PopulateImage(t: Tree, levels: nat)
    requires Image(t)
    ensures var p := Populate(t, levels); Image(p) && Pruned(t, p) && ExpandedTo(p, levels)
    decreases levels
  {
    if levels == 0 {
      PrunedSelf(t);
    } else {
      ExpandImage(t);
      var e, p := Expand(t), Populate(t, levels);
      forall i | 0 <= i < |e.kids|
        ensures Image(p.kids[i]) && Pruned(e.kids[i], p.kids[i]) && ExpandedTo(p.kids[i], levels - 1)
        ensures p.kids[i].node == e.kids[i].node
      {
        PopulateImage(e.kids[i], levels - 1);
      }
      assert Pruned(e, p);
      PrunedTransitive(t, e, p);
    }
  }

  /** ... and it is contained in every other image that is. */
  lemma {:induction false} PopulateLeast(t: Tree, levels: nat, u: Tree)
    requires Image(t) && Image(u) && Pruned(t, u) && ExpandedTo(u, levels)
    ensures Pruned(Populate(t, levels), u)
    decreases levels
  {
    if levels > 0 {
      var e, p := Expand(t), Populate(t, levels);
      if e.kids != [] {
        assert |e.kids| == |u.kids|;
        forall i | 0 <= i < |e.kids|
          ensures Pruned(p.kids[i], u.kids[i])
        {
          ExpandImage(t);
          PopulateLeast(e.kids[i], levels - 1, u.kids[i]);
        }
      }
    }
  }

  /** An image that contains `t` and is expanded to the given level. */
  predicate Suffices(t: Tree, levels: nat, u: Tree) {
    Image(u) && Pruned(t, u) && ExpandedTo(u, levels)
  }

  /**
   `populateSubtree` refines the file system: of all images of it that contain the given tree and are
   expanded to the given level, it produces the least.
   */
  lemma PopulateIsLeastExpansion(t: Tree, levels: nat, p: Tree)
    requires Image(t)
    ensures p == Populate(t, levels)
            <==> Suffices(t, levels, p) && (forall u :: Suffices(t, levels, u) ==> Pruned(p, u))
  {
    var least := Populate(t, levels);
    PopulateImage(t, levels);
    assert Suffices(t, levels, least);
    forall u | Suffices(t, levels, u)
      ensures Pruned(least, u)
    {
      PopulateLeast(t, levels, u);
    }
    if Suffices(t, levels, p) && forall u :: Suffices(t, levels, u) ==> Pruned(p, u) {
      PrunedBothWays(p, least);
    }
  }

  lemma {:induction false} PrunedBothWays(t: Tree, u: Tree)
    requires Pruned(t, u) && Pruned(u, t)
    ensures t == u
  {
    if t.kids != [] {
      forall i | 0 <= i < |t.kids|
        ensures t.kids[i] == u.kids[i]
      {
        PrunedBothWays(t.kids[i], u.kids[i]);
      }
      assert t.kids == u.kids;
    }
  }

  /** Populating twice is populating once, to the deeper level. */
  lemma {:induction false} PopulateTwice(t: Tree, k: nat, m: nat)
    ensures Populate(Populate(t, k), m) == Populate(t, if k < m then m else k)
    decreases k + m
  {
    if k > 0 && m > 0 {
      var kids, once := Expand(t).kids, Populate(t, k);
      var n := if k < m then m else k;
      assert Expand(once).kids == once.kids;
      var twice, direct := Populate(once, m), Populate(t, n);
      forall i | 0 <= i < |kids|
        ensures twice.kids[i] == direct.kids[i]
      {
        PopulateTwice(kids[i], k - 1, m - 1);
      }
      assert twice.kids == direct.kids;
    }
  }

  // ----- paths into a tree -----

  /** A node is addressed by the indices of the kids on the way to it. */
  predicate Has(t: Tree, path: seq<nat>)
    decreases |path|
  {
    path == [] || (path[0] < |t.kids| && Has(t.kids[path[0]], path[1..]))
  }

  function At(t: Tree, path: seq<nat>): Tree
    requires Has(t, path)
    decreases |path|
  {
    if path == [] then t else At(t.kids[path[0]], path[1..])
  }

  /**
   Populating expands precisely the expandable nodes less than `levels` below: a node of the result is
   expanded if it was before, or if it is near enough and there is something below it.
   */
  lemma {:induction false} PopulateExpandsExactly(t: Tree, levels: nat, path: seq<nat>)
    requires Image(t) && Has(Populate(t, levels), path)
    ensures var n := At(Populate(t, levels), path);
            n.kids != [] <==> (Has(t, path) && At(t, path).kids != []) || (|path| < levels && Below(n.node) != [])
    decreases |path|
  {
    PopulateImage(t, levels);
    if levels > 0 && path != [] {
      var e := Expand(t);
      ExpandImage(t);
      PopulateExpandsExactly(e.kids[path[0]], levels - 1, path[1..]);
      if t.kids == [] {
        assert e.kids[path[0]].kids == [];
        LeafHasOnlyItself(e.kids[path[0]], path[1..]);
      }
    }
  }

  lemma LeafHasOnlyItself(t: Tree, path: seq<nat>)
    requires t.kids == []
    ensures Has(t, path) ==> At(t, path).kids == []
  {
  }

  lemma {:induction false} PrunedAt(t: Tree, u: Tree, path: seq<nat>)
    requires Pruned(t, u) && Has(t, path)
    ensures Has(u, path) && Pruned(At(t, path), At(u, path))
    decreases |path|
  {
    if path != [] {
      PrunedAt(t.kids[path[0]], u.kids[path[0]], path[1..]);
    }
  }

  lemma {:induction false} ImageAt(t: Tree, path: seq<nat>)
    requires Image(t) && Has(t, path)
    ensures Image(At(t, path))
    decreases |path|
  {
    if path != [] {
      ImageAt(t.kids[path[0]], path[1..]);
    }
  }

  /** What is expanded to some level stays so in any larger image. */
  lemma {:induction false} StaysExpanded(t: Tree, u: Tree, levels: nat)
    requires Pruned(t, u) && Image(u) && ExpandedTo(t, levels)
    ensures ExpandedTo(u, levels)
    decreases levels
  {
    if levels > 0 {
      forall i | 0 <= i < |u.kids|
        ensures ExpandedTo(u.kids[i], levels - 1)
      {
        StaysExpanded(t.kids[i], u.kids[i], levels - 1);
      }
    }
  }

  // ----- runs of the tree widget -----

  function PopulateAt(t: Tree, path: seq<nat>, levels: nat): Tree
    requires Has(t, path)
    decreases |path|
  {
    if path == [] then Populate(t, levels)
    else t.(kids := t.kids[path[0] := PopulateAt(t.kids[path[0]], path[1..], levels)])
  }

  /** Opening a node leaves every branch off the way to it as it was, and the nodes on the way with their kids. */
  lemma {:induction false} OtherBranchesStay(t: Tree, path: seq<nat>, levels: nat, other: seq<nat>)
    requires Has(t, path) && Has(t, other) && !(path <= other)
    ensures var u := PopulateAt(t, path, levels);
            && Has(u, other) && At(u, other).node == At(t, other).node
            && |At(u, other).kids| == |At(t, other).kids|
            && (!(other <= path) ==> At(u, other) == At(t, other))
    decreases |path|
  {
    if other != [] && path[0] == other[0] {
      assert path[1..] <= other[1..] ==> path <= other;
      assert other[1..] <= path[1..] ==> other <= path;
      OtherBranchesStay(t.kids[path[0]], path[1..], levels, other[1..]);
    }
  }

  lemma {:induction false} PopulateAtKeeps(t: Tree, path: seq<nat>, levels: nat)
    requires Image(t) && Has(t, path)
    ensures var u := PopulateAt(t, path, levels);
            Image(u) && Pruned(t, u) && Has(u, path) && At(u, path) == Populate(At(t, path), levels)
    decreases |path|
  {
    if path == [] {
      PopulateImage(t, levels);
    } else {
      var u := PopulateAt(t, path, levels);
      PopulateAtKeeps(t.kids[path[0]], path[1..], levels);
      forall i | 0 <= i < |t.kids|
        ensures Image(u.kids[i]) && Pruned(t.kids[i], u.kids[i]) && u.kids[i].node == t.kids[i].node
      {
        if i != path[0] {
          PrunedSelf(t.kids[i]);
        }
      }
    }
  }

  /** The populated nodes, and the paths of those the user has opened. */
  datatype View = View(tree: Tree, openPaths: set<seq<nat>>)

  datatype Event = Open(path: seq<nat>) | Close(path: seq<nat>)

  /** The widget shows a node when all the nodes above it are open. */
  predicate Visible(v: View, path: seq<nat>) {
    Has(v.tree, path) && forall k :: 0 <= k < |path| ==> path[..k] in v.openPaths
  }

  /** Only a visible node that is not a leaf has a handle. */
  predicate Possible(v: View, event: Event) {
    Visible(v, event.path) && At(v.tree, event.path).kids != []
  }

  /** `treeWillExpandHandler` populates two levels before a node opens. */
  function Handle(v: View, event: Event): View
    requires Possible(v, event)
  {
    match event
    case Open(p) => View(PopulateAt(v.tree, p, 2), v.openPaths + {p})
    case Close(p) => v.(openPaths := v.openPaths - {p})
  }

  predicate PossibleRun(v: View, run: seq<Event>)
    decreases |run|
  {
    run == [] || (Possible(v, run[0]) && PossibleRun(Handle(v, run[0]), run[1..]))
  }

  function HandleAll(v: View, run: seq<Event>): View
    requires PossibleRun(v, run)
    decreases |run|
  {
    if run == [] then v else HandleAll(Handle(v, run[0]), run[1..])
  }

  /** After `createNodes` the root is open and the roots of the file system are populated one level. */
  function Created(roots: seq<Fs>): View {
    View(Populate(Leaf(Top(roots)), 2), {[]})
  }

  /** Whatever is or was open has been populated two levels deep. */
  predicate Ahead(v: View) {
    && Image(v.tree) && ExpandedTo(v.tree, 2)
    && forall p :: p in v.openPaths ==> Has(v.tree, p) && ExpandedTo(At(v.tree, p), 2)
  }

  lemma HandleKeepsAhead(v: View, event: Event)
    requires Ahead(v) && Possible(v, event)
    ensures Ahead(Handle(v, event))
  {
    if event.Open? {
      var u := Handle(v, event);
      PopulateAtKeeps(v.tree, event.path, 2);
      StaysExpanded(v.tree, u.tree, 2);
      forall p | p in u.openPaths
        ensures Has(u.tree, p) && ExpandedTo(At(u.tree, p), 2)
      {
        if p == event.path {
          ImageAt(v.tree, p);
          PopulateImage(At(v.tree, p), 2);
        } else {
          PrunedAt(v.tree, u.tree, p);
          ImageAt(u.tree, p);
          StaysExpanded(At(v.tree, p), At(u.tree, p), 2);
        }
      }
    }
  }

  lemma {:induction false} RunKeepsAhead(v: View, run: seq<Event>)
    requires Ahead(v) && PossibleRun(v, run)
    ensures Ahead(HandleAll(v, run))
    decreases |run|
  {
    hide Ahead, Handle, Possible;
    if run != [] {
      HandleKeepsAhead(v, run[0]);
      RunKeepsAhead(Handle(v, run[0]), run[1..]);
    }
  }

  lemma {:induction false} AtLast(t: Tree, path: seq<nat>)
    requires path != [] && Has(t, path)
    ensures var front, last := path[..|path| - 1], path[|path| - 1];
            Has(t, front) && last < |At(t, front).kids| && At(t, path) == At(t, front).kids[last]
    decreases |path|
  {
    if |path| > 1 {
      AtLast(t.kids[path[0]], path[1..]);
      assert path[1..][..|path| - 2] == path[..|path| - 1][1..];
    } else {
      assert path[1..] == [];
    }
  }

  /** A file, a directory that cannot be listed, the placeholder of an empty one, a computer without roots. */
  predicate NothingBelow(node: Node) {
    match node
    case Top(roots) => roots == []
    case Placeholder => true
    case Entry(fs) => !fs.Dir? || !fs.listable
  }

  lemma BelowIsEmptyExactlyWhen(node: Node)
    ensures Below(node) == [] <==> NothingBelow(node)
    ensures Below(node) == [Placeholder]
            <==> && node.Entry? && node.fs.Dir? && node.fs.listable
                 && forall entry :: entry in node.fs.entries ==> !IsShown(entry)
  {
    match node
    case Top(roots) => NoPlaceholder(roots);
    case Placeholder =>
    case Entry(fs) =>
      if fs.Dir? {
        ShownNone(fs.entries);
        NoPlaceholder(Shown(fs.entries));
      }
  }

  lemma NoPlaceholder(files: seq<Fs>)
    ensures Entries(files) != [Placeholder]
  {
    assert files != [] ==> Entries(files)[0].Entry?;
  }

  lemma {:induction false} ShownNone(entries: seq<Fs>)
    ensures Shown(entries) == [] <==> forall entry :: entry in entries ==> !IsShown(entry)
    decreases |entries|
  {
    if entries != [] {
      var front, last := entries[..|entries| - 1], entries[|entries| - 1];
      assert entries == front + [last];
      ShownNone(front);
    }
  }

  /**
   Over every run of opening and closing nodes, every visible node has been populated already: it looks
   like a leaf only if there is nothing below it, that is, if it is a file, a directory that cannot be
   listed, or the placeholder of an empty directory.
   */
  lemma VisibleNodesArePopulated(roots: seq<Fs>, run: seq<Event>, path: seq<nat>)
    requires PossibleRun(Created(roots), run) && Visible(HandleAll(Created(roots), run), path)
    ensures var n := At(HandleAll(Created(roots), run).tree, path);
            Image(n) && (n.kids == [] <==> NothingBelow(n.node))
  {
    PopulateImage(Leaf(Top(roots)), 2);
    RunKeepsAhead(Created(roots), run);
    var v := HandleAll(Created(roots), run);
    BelowIsEmptyExactlyWhen(At(v.tree, path).node);
    hide NothingBelow;
    ImageAt(v.tree, path);
    if path != [] {
      AtLast(v.tree, path);
      assert path[..|path| - 1] in v.openPaths;
      var parent := At(v.tree, path[..|path| - 1]);
      assert ExpandedTo(parent.kids[path[|path| - 1]], 1);
    }
  }
}
