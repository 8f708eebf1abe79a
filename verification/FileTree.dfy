/** The tree of mutable nodes that the tree widget shows, populated in place. */
module FileTree {
  import opened FileSystem
  import opened LazyTree

  class TreeNode {
    const node: Node
    var kids: seq<TreeNode>
    ghost var Repr: set<TreeNode>
    ghost var view: Tree  // the value this node and those below it represent

    ghost predicate Valid()
      reads this, Repr
      decreases Repr
    {
      && this in Repr
      && view.node == node && |view.kids| == |kids|
      && (forall i :: 0 <= i < |kids| ==> kids[i] in Repr && kids[i].Repr <= Repr - {this} && !kids[i].node.Top?)
      && (forall i :: 0 <= i < |kids| ==> kids[i].Valid() && view.kids[i] == kids[i].view)
      && (forall i, j :: 0 <= i < j < |kids| ==> kids[i].Repr !! kids[j].Repr)
    }

    constructor (node: Node)
      ensures Valid() && Repr == {this} && view == Leaf(node) && this.node == node
    {
      this.node := node;
      kids := [];
      Repr := {this};
      view := Leaf(node);
    }

    /** Adds a node at the end. */
    method AddNode(kid: Node)
      requires Valid() && !kid.Top?
      modifies this
      ensures Valid() && fresh(Repr - old(Repr)) && |kids| == |old(kids)| + 1
      ensures view == old(view).(kids := old(view).kids + [Leaf(kid)])
    {
      var newNode := new TreeNode(kid);
      kids := kids + [newNode];
      Repr := Repr + newNode.Repr;
      view := view.(kids := view.kids + [newNode.view]);
    }

    /** Adds a node at the end and populates it. */
    method AddPopulated(kid: Node, levels: nat)
      requires Valid() && !kid.Top?
      modifies Repr
      ensures Valid() && fresh(Repr - old(Repr))
      ensures view == old(view).(kids := old(view).kids + [Populate(Leaf(kid), levels)])
      decreases levels, 5
    {
      AddNode(kid);
      hide Populate;
      PopulateKid(|kids| - 1, levels);
    }

    /** Valid but for one kid, whose nodes and view are not accounted for yet. */
    ghost predicate ValidBut(i: nat)
      reads *
    {
      && i < |kids| && this in Repr && this !in kids[i].Repr
      && view.node == node && |view.kids| == |kids|
      && (forall j :: 0 <= j < |kids| ==> kids[j].Valid() && kids[j] in Repr && !kids[j].node.Top?)
      && (forall j :: 0 <= j < |kids| && j != i ==> kids[j].Repr <= Repr - {this} && view.kids[j] == kids[j].view)
      && (forall j, k :: 0 <= j < k < |kids| ==> kids[j].Repr !! kids[k].Repr)
    }

    /** A change below one kid leaves the others valid. */
    twostate lemma OthersUntouched(i: nat)
      requires old(Valid()) && i < |kids| && kids == old(kids) && kids[i].Valid()
      requires unchanged(old(Repr) - old(kids[i].Repr)) && fresh(kids[i].Repr - old(kids[i].Repr))
      ensures ValidBut(i)
    {
      assert this in old(Repr) - old(kids[i].Repr);
      forall j | 0 <= j < |kids| && j != i
        ensures kids[j].Valid() && kids[j].Repr == old(kids[j].Repr) && kids[j].view == old(kids[j].view)
        ensures kids[j].Repr !! kids[i].Repr
      {
        assert old(kids[j].Repr) <= old(Repr) && old(kids[j].Repr) !! old(kids[i].Repr);
        assert old(kids[j].Valid());
        assert kids[j] in old(kids[j].Repr);
      }
    }

    ghost method Account(i: nat)
      requires ValidBut(i)
      modifies this
      ensures Valid() && kids == old(kids) && Repr == old(Repr) + kids[i].Repr
      ensures i < |old(view).kids| && view == old(view).(kids := old(view).kids[i := kids[i].view])
    {
      Repr := Repr + kids[i].Repr;
      view := view.(kids := view.kids[i := kids[i].view]);
    }

    method PopulateKid(i: nat, levels: nat)
      requires Valid() && i < |kids|
      modifies Repr
      ensures Valid() && fresh(Repr - old(Repr)) && kids == old(kids)
      ensures view == old(view).(kids := old(view).kids[i := Populate(old(view).kids[i], levels)])
      decreases levels, 4
    {
      hide Populate;
      kids[i].PopulateSubtree(levels);
      OthersUntouched(i);
      hide ValidBut;
      Account(i);
    }

    /** The root of the tree is no file system entry; it can be populated only once it has kids. */
    method PopulateSubtree(levels: nat)
      requires Valid() && (node.Top? && levels > 0 ==> kids != [])
      modifies Repr
      ensures Valid() && fresh(Repr - old(Repr))
      ensures view == Populate(old(view), levels)
      decreases levels, 3
    {
      hide *;
      ViewMatches();
      if levels == 0 {
        PopulatedNothing(view);
        return;
      }
      ghost var before := view;
      if |kids| == 0 {
        if node.Entry? && node.fs.Dir? && node.fs.listable {
          PopulateDirectory(node.fs.entries, levels);
        }
        PopulatedLeaf(before, view, levels);
      } else {
        PopulateKids(levels);
        PopulatedKids(before, view, levels);
      }
    }

    /**
     `treeWillExpandHandler`, for the node the event names.  The nodes above it are visited only to bring
     up to date what they represent.
     */
    method TreeWillExpand(path: seq<nat>)
      requires Valid() && Has(view, path) && (node.Top? && path == [] ==> kids != [])
      modifies Repr
      ensures Valid() && fresh(Repr - old(Repr))
      ensures view == PopulateAt(old(view), path, 2)
      decreases |path|
    {
      if path == [] {
        PopulateSubtree(2);
      } else {
        hide Populate;
        var kid := kids[path[0]];
        kid.TreeWillExpand(path[1..]);
        OthersUntouched(path[0]);
        hide ValidBut;
        Account(path[0]);
      }
    }

    /** The expansion of a leaf that stands for a directory with these entries. */
    method PopulateDirectory(children: seq<Fs>, levels: nat)
      requires Valid() && kids == [] && levels > 0
      modifies Repr
      ensures Valid() && fresh(Repr - old(Repr))
      ensures view.node == old(view).node
      ensures view.kids == if Shown(children) == [] then [Leaf(Placeholder)]
                           else PopulatedLeaves(Shown(children), levels - 1)
      decreases levels, 2
    {
      hide *;
      NoneShown(levels - 1);
      ViewMatches();
      assert children[..0] == [] && children[..|children|] == children;
      var someNodesAdded := false;
      for i := 0 to |children|
        invariant Valid() && fresh(Repr - old(Repr)) && view.node == old(view).node
        invariant view.kids == PopulatedLeaves(Shown(children[..i]), levels - 1)
        invariant someNodesAdded <==> Shown(children[..i]) != []
      {
        var added := AddIfShown(children, i, levels - 1);
        if added {
          someNodesAdded := true;
        }
      }
      if !someNodesAdded {
        PlaceholderStays(0);
        AddPopulated(Placeholder, 0);
      }
    }

    /** One turn of that expansion. */
    method AddIfShown(children: seq<Fs>, i: nat, levels: nat) returns (added: bool)
      requires Valid() && i < |children| && view.kids == PopulatedLeaves(Shown(children[..i]), levels)
      modifies Repr
      ensures Valid() && fresh(Repr - old(Repr)) && view.node == old(view).node
      ensures view.kids == PopulatedLeaves(Shown(children[..i + 1]), levels)
      ensures Shown(children[..i + 1]) != [] <==> added || Shown(children[..i]) != []
      decreases levels, 6
    {
      hide *;
      OneMoreShown(children, i, levels);
      added := IsShown(children[i]);
      if added {
        AddPopulated(Entry(children[i]), levels);
      }
    }

    lemma ViewMatches()
      requires Valid()
      ensures |view.kids| == |kids| && view.node == node
    {
    }

    method PopulateKids(levels: nat)
      requires Valid() && levels > 0
      modifies Repr
      ensures Valid() && fresh(Repr - old(Repr))
      ensures view.node == old(view).node && |view.kids| == |old(view).kids|
      ensures forall j :: 0 <= j < |view.kids| ==> view.kids[j] == Populate(old(view).kids[j], levels - 1)
      decreases levels, 2
    {
      hide *;
      ViewMatches();
      for i := 0 to |kids|
        invariant Valid() && fresh(Repr - old(Repr)) && kids == old(kids)
        invariant view.node == old(view).node && |view.kids| == |old(view).kids|
        invariant forall j :: 0 <= j < i ==> view.kids[j] == Populate(old(view).kids[j], levels - 1)
        invariant forall j :: i <= j < |kids| ==> view.kids[j] == old(view).kids[j]
      {
        PopulateKid(i, levels - 1);
      }
    }
  }

  lemma PopulatedNothing(t: Tree)
    ensures Populate(t, 0) == t
  {
  }

  lemma PopulatedLeaf(t: Tree, u: Tree, levels: nat)
    requires t.kids == [] && u.node == t.node && !t.node.Top? && levels > 0
    requires if t.node.Entry? && t.node.fs.Dir? && t.node.fs.listable then
               u.kids == if Shown(t.node.fs.entries) == [] then [Leaf(Placeholder)]
                         else PopulatedLeaves(Shown(t.node.fs.entries), levels - 1)
             else u == t
    ensures u == Populate(t, levels)
  {
    hide Shown;
    PlaceholderStays(levels - 1);
    assert u.kids == Populate(t, levels).kids;
  }

  lemma PopulatedKids(t: Tree, u: Tree, levels: nat)
    requires t.kids != [] && u.node == t.node && |u.kids| == |t.kids| && levels > 0
    requires forall j :: 0 <= j < |u.kids| ==> u.kids[j] == Populate(t.kids[j], levels - 1)
    ensures u == Populate(t, levels)
  {
    assert u.kids == Populate(t, levels).kids;
  }

  lemma PlaceholderStays(levels: nat)
    ensures Populate(Leaf(Placeholder), levels) == Leaf(Placeholder)
  {
  }

  /** Nothing is shown of no entries, and one entry more is one node more if it is shown. */
  lemma NoneShown(levels: nat)
    ensures PopulatedLeaves([], levels) == [] && Shown([]) == []
  {
  }

  lemma OneMoreShown(children: seq<Fs>, i: nat, levels: nat)
    requires i < |children|
    ensures var before, after := Shown(children[..i]), Shown(children[..i + 1]);
            && (IsShown(children[i]) ==> after != [])
            && (!IsShown(children[i]) ==> after == before)
            && PopulatedLeaves(after, levels)
               == PopulatedLeaves(before, levels)
                  + if IsShown(children[i]) then [Populate(Leaf(Entry(children[i])), levels)] else []
  {
    assert children[..i + 1][..i] == children[..i];
  }

  function PopulatedLeaves(files: seq<Fs>, levels: nat): seq<Tree> {
    seq(|files|, i requires 0 <= i < |files| => Populate(Leaf(Entry(files[i])), levels))
  }

  lemma CreatedFromRoots(u: Tree, roots: seq<Fs>)
    requires u.node == Top(roots) && u.kids == PopulatedLeaves(roots, 1)
    ensures u == Created(roots).tree
  {
    assert u.kids == Populate(Leaf(Top(roots)), 2).kids;
  }

  lemma OneMoreRoot(roots: seq<Fs>, i: nat)
    requires i < |roots|
    ensures PopulatedLeaves(roots[..i + 1], 1) == PopulatedLeaves(roots[..i], 1) + [Populate(Leaf(Entry(roots[i])), 1)]
  {
    hide Populate;
  }

  /** `createNodes`, on the roots of the file system. */
  method CreateNodes(roots: seq<Fs>) returns (top: TreeNode)
    ensures top.Valid() && fresh(top.Repr) && top.view == Created(roots).tree
  {
    hide Populate, PopulatedLeaves, Created, TreeNode.Valid;
    top := new TreeNode(Top(roots));
    NoneShown(1);
    assert roots[..0] == [] && roots[..|roots|] == roots;
    for i := 0 to |roots|
      invariant top.Valid() && fresh(top.Repr) && top.view.node == Top(roots)
      invariant top.view.kids == PopulatedLeaves(roots[..i], 1)
    {
      OneMoreRoot(roots, i);
      top.AddPopulated(Entry(roots[i]), 1);
    }
    CreatedFromRoots(top.view, roots);
  }
}
