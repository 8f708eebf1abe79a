/**
 The storages of an MTP device: a tree the device code reaches only through enumeration, insertion and
 deletion.  Storages are numbered in the order they are created.
 */
module DeviceStore {
  import opened Wrappers

  type Id = nat

  datatype Kind = Folder | File(content: string)

  datatype Storage = Storage(name: string, kind: Kind, kids: seq<Id>)

  datatype Store = Store(items: map<Id, Storage>, next: Id)

  const ROOT: Id := 0

  function LowerChar(c: char): char {
    if 'A' <= c <= 'Z' then c - 'A' + 'a' else c
  }

  /** `CString::MakeLower`. */
  function Lower(s: string): string {
    seq(|s|, i requires 0 <= i < |s| => LowerChar(s[i]))
  }

  function UpperChar(c: char): char {
    if 'a' <= c <= 'z' then c - 'a' + 'A' else c
  }

  predicate SameLetter(c: char, d: char) {
    c == d || c == UpperChar(d) || UpperChar(c) == d
  }

  /** Two names are the same once folded exactly if they agree letter by letter up to case. */
  lemma FoldingIgnoresCase(a: string, b: string)
    ensures Lower(a) == Lower(b) <==> |a| == |b| && forall i :: 0 <= i < |a| ==> SameLetter(a[i], b[i])
  {
    if |a| == |b| && forall i :: 0 <= i < |a| ==> SameLetter(a[i], b[i]) {
      forall i | 0 <= i < |a|
        ensures Lower(a)[i] == Lower(b)[i]
      {
        assert SameLetter(a[i], b[i]);
      }
    } else if Lower(a) == Lower(b) {
      assert |a| == |Lower(a)| == |b|;
      forall i | 0 <= i < |a|
        ensures SameLetter(a[i], b[i])
      {
        assert Lower(a)[i] == Lower(b)[i];
      }
    }
  }

  predicate ValidName(name: string) {
    name != "" && '/' !in name
  }

  /** Every kid exists, was created after its parent, and lives in a folder. */
  predicate Wf(s: Store) {
    && ROOT in s.items && s.items[ROOT].kind.Folder?
    && (forall id :: id in s.items ==> id < s.next)
    && (forall id, k :: id in s.items && k in s.items[id].kids ==> GoodKid(s, id, k))
    && (forall id :: id in s.items && id != ROOT ==> ValidName(s.items[id].name))
  }

  predicate GoodKid(s: Store, id: Id, k: Id)
    requires id in s.items
  {
    k in s.items && id < k && s.items[id].kind.Folder?
  }

  function NameOf(items: map<Id, Storage>, k: Id): string {
    if k in items then items[k].name else ""
  }

  /** Siblings can be told apart ignoring case. */
  predicate DistinctSiblings(s: Store) {
    forall id, i, j :: id in s.items && 0 <= i < j < |s.items[id].kids| ==>
      Lower(NameOf(s.items, s.items[id].kids[i])) != Lower(NameOf(s.items, s.items[id].kids[j]))
  }

  // ----- looking up -----

  predicate Named(items: map<Id, Storage>, k: Id, name: string) {
    k in items && Lower(items[k].name) == Lower(name)
  }

  /** The first of `kids` with the given name, ignoring case. */
  function FindIn(items: map<Id, Storage>, kids: seq<Id>, name: string): (r: Option<Id>)
    ensures r.Some? ==> r.value in kids && Named(items, r.value, name)
    ensures r.None? ==> forall k :: k in kids ==> !Named(items, k, name)
  {
    if kids == [] then None
    else if Named(items, kids[0], name) then Some(kids[0])
    else FindIn(items, kids[1..], name)
  }

  function FindKid(s: Store, id: Id, name: string): Option<Id> {
    if id in s.items then FindIn(s.items, s.items[id].kids, name) else None
  }

  function FilesOnly(items: map<Id, Storage>): map<Id, Storage> {
    map k | k in items && items[k].kind.File? :: items[k]
  }

  /** The first file of the given name in a folder, whatever folders of that name there are. */
  function FindFile(s: Store, id: Id, name: string): Option<Id> {
    if id in s.items then FindIn(FilesOnly(s.items), s.items[id].kids, name) else None
  }

  /** Follows a list of names down the tree. */
  function Walk(s: Store, id: Id, names: seq<string>): Option<Id>
    decreases |names|
  {
    if names == [] then Some(id)
    else match FindKid(s, id, names[0])
      case None => None
      case Some(k) => Walk(s, k, names[1..])
  }

  /** How many of the names can be followed. */
  function Depth(s: Store, id: Id, names: seq<string>): (d: nat)
    ensures d <= |names|
    decreases |names|
  {
    if names == [] then 0
    else match FindKid(s, id, names[0])
      case None => 0
      case Some(k) => 1 + Depth(s, k, names[1..])
  }

  /** The storage where the names cannot be followed further. */
  function Anchor(s: Store, id: Id, names: seq<string>): Id
    decreases |names|
  {
    if names == [] then id
    else match FindKid(s, id, names[0])
      case None => id
      case Some(k) => Anchor(s, k, names[1..])
  }

  // ----- the device's own operations -----

  /** A new storage at the end of a folder.  The device does not compare names. */
  function Insert(s: Store, folder: Id, name: string, kind: Kind): Store
    requires folder in s.items
  {
    var p := s.items[folder];
    Store(s.items[folder := p.(kids := p.kids + [s.next])][s.next := Storage(name, kind, [])], s.next + 1)
  }

  predicate CanInsert(s: Store, folder: Id, name: string) {
    folder in s.items && s.items[folder].kind.Folder? && ValidName(name)
  }

  function Without(kids: seq<Id>, id: Id): seq<Id> {
    if kids == [] then [] else (if kids[0] == id then [] else [kids[0]]) + Without(kids[1..], id)
  }

  /** Without the recursive mode only an empty storage can be deleted. */
  predicate CanDelete(s: Store, id: Id) {
    id in s.items && id != ROOT && s.items[id].kids == []
  }

  function Delete(s: Store, id: Id): Store {
    s.(items := map i | i in s.items && i != id :: s.items[i].(kids := Without(s.items[i].kids, id)))
  }

  // ----- find or create -----

  datatype Made = Made(store: Store, at: Option<Id>)

  /** What the creating walk makes of a store: names that cannot be followed become folders. */
  function MakePath(s: Store, id: Id, names: seq<string>): Made
    decreases |names|
  {
    if names == [] then Made(s, Some(id))
    else match FindKid(s, id, names[0])
      case Some(k) => MakePath(s, k, names[1..])
      case None =>
        if CanInsert(s, id, names[0]) then MakePath(Insert(s, id, names[0], Folder), s.next, names[1..])
        else Made(s, None)
  }

  predicate ValidNames(names: seq<string>) {
    forall n :: n in names ==> ValidName(n)
  }

  /** `s'` has all of `s`: same names and kinds, and in each folder the same kids first. */
  predicate Extends(s: Store, s': Store) {
    && s.next <= s'.next
    && forall id :: id in s.items ==>
        && id in s'.items && s'.items[id].name == s.items[id].name && s'.items[id].kind == s.items[id].kind
        && s.items[id].kids <= s'.items[id].kids
  }

  lemma InsertKeeps(s: Store, folder: Id, name: string, kind: Kind)
    requires Wf(s) && CanInsert(s, folder, name)
    ensures Wf(Insert(s, folder, name, kind)) && Extends(s, Insert(s, folder, name, kind))
  {
    var s' := Insert(s, folder, name, kind);
    assert s.items[folder].kids <= s'.items[folder].kids;
    forall id, k | id in s'.items && k in s'.items[id].kids
      ensures GoodKid(s', id, k)
    {
      if id == folder {
        assert k == s.next || GoodKid(s, folder, k);
      } else if id != s.next {
        assert GoodKid(s, id, k);
      }
    }
  }

  lemma {:induction false} FindInAppended(items: map<Id, Storage>, kids: seq<Id>, k: Id, name: string)
    ensures FindIn(items, kids + [k], name)
            == if FindIn(items, kids, name).Some? then FindIn(items, kids, name)
               else if Named(items, k, name) then Some(k) else None
    decreases |kids|
  {
    if kids == [] {
      assert ([k])[1..] == [];
    } else {
      assert (kids + [k])[1..] == kids[1..] + [k];
      FindInAppended(items, kids[1..], k, name);
    }
  }

  lemma {:induction false} FindInSameNames(
    items: map<Id, Storage>, items': map<Id, Storage>, kids: seq<Id>, name: string)
    requires forall k :: k in kids ==> (k in items <==> k in items') && (k in items ==> items[k].name == items'[k].name)
    ensures FindIn(items, kids, name) == FindIn(items', kids, name)
    decreases |kids|
  {
    if kids != [] {
      FindInSameNames(items, items', kids[1..], name);
    }
  }

  lemma {:induction false} FindInFiles(items: map<Id, Storage>, kids: seq<Id>, name: string)
    ensures var k, f := FindIn(items, kids, name), FindIn(FilesOnly(items), kids, name);
            && (k.None? ==> f.None?) && (k.Some? && items[k.value].kind.File? ==> f == k)
    decreases |kids|
  {
    if kids != [] {
      FindInFiles(items, kids[1..], name);
    }
  }

  lemma {:induction false} FindInPrefix(items: map<Id, Storage>, kids: seq<Id>, more: seq<Id>, name: string)
    requires FindIn(items, kids, name).Some?
    ensures FindIn(items, kids + more, name) == FindIn(items, kids, name)
    decreases |kids|
  {
    if !Named(items, kids[0], name) {
      assert (kids + more)[1..] == kids[1..] + more;
      FindInPrefix(items, kids[1..], more, name);
    }
  }

  /** Whatever could be found still is, and is the same storage. */
  lemma FindKidExtends(s: Store, s': Store, id: Id, name: string)
    requires Wf(s) && Extends(s, s') && FindKid(s, id, name).Some?
    ensures FindKid(s', id, name) == FindKid(s, id, name)
  {
    var kids, kids' := s.items[id].kids, s'.items[id].kids;
    FindInSameNames(s.items, s'.items, kids, name);
    FindInPrefix(s'.items, kids, kids'[|kids|..], name);
    assert kids' == kids + kids'[|kids|..];
  }

  lemma {:induction false} WalkExtends(s: Store, s': Store, id: Id, names: seq<string>)
    requires Wf(s) && Extends(s, s') && Walk(s, id, names).Some?
    ensures Walk(s', id, names) == Walk(s, id, names)
    decreases |names|
  {
    hide Wf, Extends;
    if names != [] {
      FindKidExtends(s, s', id, names[0]);
      WalkExtends(s, s', FindKid(s, id, names[0]).value, names[1..]);
    }
  }

  lemma ExtendsTransitive(a: Store, b: Store, c: Store)
    requires Extends(a, b) && Extends(b, c)
    ensures Extends(a, c)
  {
  }

  lemma FindNew(s: Store, id: Id, name: string, kind: Kind)
    requires Wf(s) && CanInsert(s, id, name) && FindKid(s, id, name).None?
    ensures FindKid(Insert(s, id, name, kind), id, name) == Some(s.next)
  {
    var s' := Insert(s, id, name, kind);
    FindInSameNames(s.items, s'.items, s.items[id].kids, name);
    FindInAppended(s'.items, s.items[id].kids, s.next, name);
  }

  lemma {:induction false} MakePathKeeps(s: Store, id: Id, names: seq<string>)
    requires Wf(s) && id in s.items
    ensures var m := MakePath(s, id, names);
            Wf(m.store) && Extends(s, m.store) && (m.at.Some? ==> m.at.value in m.store.items)
    decreases |names|
  {
    if names != [] {
      match FindKid(s, id, names[0])
      case Some(k) => MakePathKeeps(s, k, names[1..]);
      case None =>
        if CanInsert(s, id, names[0]) {
          var s1 := Insert(s, id, names[0], Folder);
          InsertKeeps(s, id, names[0], Folder);
          MakePathKeeps(s1, s.next, names[1..]);
          hide Wf, CanInsert, Insert;
          ExtendsTransitive(s, s1, MakePath(s1, s.next, names[1..]).store);
        }
    }
  }

  /** What the walk has made or found is where the same names lead afterwards. */
  lemma {:induction false} MakePathResolves(s: Store, id: Id, names: seq<string>)
    requires Wf(s) && id in s.items && MakePath(s, id, names).at.Some?
    ensures Walk(MakePath(s, id, names).store, id, names) == MakePath(s, id, names).at
    decreases |names|
  {
    if names != [] {
      var s' := MakePath(s, id, names).store;
      match FindKid(s, id, names[0])
      case Some(k) =>
        MakePathKeeps(s, k, names[1..]);
        FindKidExtends(s, s', id, names[0]);
        MakePathResolves(s, k, names[1..]);
      case None =>
        var s1 := Insert(s, id, names[0], Folder);
        InsertKeeps(s, id, names[0], Folder);
        FindNew(s, id, names[0], Folder);
        MakePathKeeps(s1, s.next, names[1..]);
        FindKidExtends(s1, s', id, names[0]);
        MakePathResolves(s1, s.next, names[1..]);
    }
  }

  /** Names that can be followed to the end create nothing. */
  lemma {:induction false} MakePathFinds(s: Store, id: Id, names: seq<string>)
    requires Walk(s, id, names).Some?
    ensures MakePath(s, id, names) == Made(s, Walk(s, id, names))
    decreases |names|
  {
    if names != [] {
      MakePathFinds(s, FindKid(s, id, names[0]).value, names[1..]);
    }
  }

  /** The walk one name further. */
  lemma {:induction false} MakePathOneMore(s: Store, id: Id, names: seq<string>, name: string)
    ensures var m := MakePath(s, id, names);
            MakePath(s, id, names + [name]) == if m.at.None? then m else MakePath(m.store, m.at.value, [name])
    decreases |names|
  {
    if names == [] {
      assert names + [name] == [name];
    } else {
      assert (names + [name])[1..] == names[1..] + [name];
      match FindKid(s, id, names[0])
      case Some(k) => MakePathOneMore(s, k, names[1..], name);
      case None =>
        if CanInsert(s, id, names[0]) {
          MakePathOneMore(Insert(s, id, names[0], Folder), s.next, names[1..], name);
        }
    }
  }

  // ----- only the missing suffix is created -----

  /** The folders `first`, `first + 1`, ... are named by `names` and each holds just the next. */
  predicate Chain(items: map<Id, Storage>, first: Id, names: seq<string>) {
    forall j :: 0 <= j < |names| ==> Link(items, first, names, j)
  }

  predicate Link(items: map<Id, Storage>, first: Id, names: seq<string>, j: nat)
    requires j < |names|
  {
    && first + j in items
    && items[first + j] == Storage(names[j], Folder, if j + 1 < |names| then [first + j + 1] else [])
  }

  /** `s'` is `s` with one chain of folders named by `names` hung at the end of `a`, and nothing else. */
  predicate Grown(s: Store, s': Store, a: Id, names: seq<string>) {
    && s'.next == s.next + |names| && Chain(s'.items, s.next, names)
    && a in s.items && a in s'.items
    && s'.items[a] == s.items[a].(kids := s.items[a].kids + if names == [] then [] else [s.next])
    && (forall i :: i in s.items && i != a ==> i in s'.items && s'.items[i] == s.items[i])
    && (forall i :: i in s'.items ==> i in s.items || s.next <= i < s'.next)
  }

  lemma GrownByOne(s: Store, s': Store, a: Id, names: seq<string>)
    requires Wf(s) && names != [] && CanInsert(s, a, names[0])
    requires Grown(Insert(s, a, names[0], Folder), s', s.next, names[1..])
    ensures Grown(s, s', a, names)
  {
    var s1 := Insert(s, a, names[0], Folder);
    assert s'.items[s.next] == Storage(names[0], Folder, if |names| > 1 then [s.next + 1] else []);
    assert s'.items[a] == s1.items[a];
    forall j | 0 <= j < |names|
      ensures Link(s'.items, s.next, names, j)
    {
      assert j > 0 ==> Link(s'.items, s1.next, names[1..], j - 1);
    }
    hide Chain;
  }

  lemma {:induction false} FreshBranch(s: Store, id: Id, names: seq<string>)
    requires Wf(s) && names != [] && ValidNames(names) && CanInsert(s, id, names[0]) && FindKid(s, id, names[0]).None?
    ensures MakePath(s, id, names).at.Some? && Grown(s, MakePath(s, id, names).store, id, names)
    decreases |names|
  {
    var s1 := Insert(s, id, names[0], Folder);
    InsertKeeps(s, id, names[0], Folder);
    if |names| == 1 {
      assert names[1..] == [] && s1.items[s.next].kids + [] == [];
      assert MakePath(s1, s.next, names[1..]) == Made(s1, Some(s.next));
    } else {
      assert forall n :: n in names[1..] ==> n in names;
      assert names[1] in names;
      FreshBranch(s1, s.next, names[1..]);
    }
    hide Grown, Wf, Insert;
    GrownByOne(s, MakePath(s, id, names).store, id, names);
  }

  lemma {:induction false} ExistingPath(s: Store, id: Id, names: seq<string>)
    ensures Walk(s, id, names).Some? <==> Depth(s, id, names) == |names|
    ensures Walk(s, id, names).Some? ==> Walk(s, id, names) == Some(Anchor(s, id, names))
    decreases |names|
  {
    if names != [] && FindKid(s, id, names[0]).Some? {
      ExistingPath(s, FindKid(s, id, names[0]).value, names[1..]);
    }
  }

  /**
   The exact effect of the creating walk on any store.  It succeeds unless the first missing name would
   have to be created inside a file.  If it succeeds, the storages it adds are one chain of folders named
   by the missing suffix, hung at the end of the last existing folder; every other storage is untouched.
   If it fails nothing at all is created.
   */
  lemma {:induction false} OnlyMissingSuffixCreated(s: Store, id: Id, names: seq<string>)
    requires Wf(s) && id in s.items && ValidNames(names)
    ensures var m, d, a := MakePath(s, id, names), Depth(s, id, names), Anchor(s, id, names);
            && a in s.items
            && (m.at.Some? <==> d == |names| || s.items[a].kind.Folder?)
            && (m.at.None? ==> m.store == s)
            && (m.at.Some? ==> Grown(s, m.store, a, names[d..]))
    decreases |names|
  {
    if names == [] {
      assert s.items[id].kids + [] == s.items[id].kids;
    } else {
      assert names[0] in names;
      match FindKid(s, id, names[0])
      case Some(k) =>
        assert ValidNames(names[1..]);
        OnlyMissingSuffixCreated(s, k, names[1..]);
        hide Grown;
        assert names[1..][Depth(s, k, names[1..])..] == names[1 + Depth(s, k, names[1..])..];
      case None =>
        if CanInsert(s, id, names[0]) {
          FreshBranch(s, id, names);
        }
    }
  }

  // ----- siblings stay distinct -----

  lemma InsertKeepsDistinct(s: Store, folder: Id, name: string, kind: Kind)
    requires Wf(s) && CanInsert(s, folder, name) && DistinctSiblings(s) && FindKid(s, folder, name).None?
    ensures DistinctSiblings(Insert(s, folder, name, kind))
  {
    var s' := Insert(s, folder, name, kind);
    forall id, i, j | id in s'.items && 0 <= i < j < |s'.items[id].kids|
      ensures Lower(NameOf(s'.items, s'.items[id].kids[i])) != Lower(NameOf(s'.items, s'.items[id].kids[j]))
    {
      hide Lower;
      if id != s.next {
        var kids := s.items[id].kids;
        assert kids[i] in kids && GoodKid(s, id, kids[i]);
        if j < |kids| {
          assert kids[j] in kids && GoodKid(s, id, kids[j]);
        } else {
          assert !Named(s.items, kids[i], name);
        }
      }
    }
  }

  lemma {:induction false} MakePathKeepsDistinct(s: Store, id: Id, names: seq<string>)
    requires Wf(s) && id in s.items && DistinctSiblings(s)
    ensures Wf(MakePath(s, id, names).store) && DistinctSiblings(MakePath(s, id, names).store)
    decreases |names|
  {
    hide DistinctSiblings;
    if names != [] {
      match FindKid(s, id, names[0])
      case Some(k) => MakePathKeepsDistinct(s, k, names[1..]);
      case None =>
        if CanInsert(s, id, names[0]) {
          InsertKeeps(s, id, names[0], Folder);
          InsertKeepsDistinct(s, id, names[0], Folder);
          MakePathKeepsDistinct(Insert(s, id, names[0], Folder), s.next, names[1..]);
        }
    }
  }

  // ----- deletion undoes insertion -----

  lemma {:induction false} WithoutAbsent(kids: seq<Id>, id: Id)
    requires id !in kids
    ensures Without(kids, id) == kids && Without(kids + [id], id) == kids
    decreases |kids|
  {
    if kids == [] {
      assert [id][1..] == [];
    } else {
      assert (kids + [id])[1..] == kids[1..] + [id];
      WithoutAbsent(kids[1..], id);
    }
  }

  lemma {:induction false} WithoutIn(kids: seq<Id>, id: Id, k: Id)
    ensures k in Without(kids, id) <==> k in kids && k != id
    decreases |kids|
  {
    if kids != [] {
      WithoutIn(kids[1..], id, k);
    }
  }

  lemma DeleteKeeps(s: Store, id: Id)
    requires Wf(s) && CanDelete(s, id)
    ensures Wf(Delete(s, id))
  {
    var s' := Delete(s, id);
    forall i, k | i in s'.items && k in s'.items[i].kids
      ensures GoodKid(s', i, k)
    {
      WithoutIn(s.items[i].kids, id, k);
      assert GoodKid(s, i, k);
    }
  }

  lemma InsertThenDelete(s: Store, folder: Id, name: string, kind: Kind)
    requires Wf(s) && CanInsert(s, folder, name)
    ensures var s' := Insert(s, folder, name, kind);
            CanDelete(s', s.next) && Delete(s', s.next).items == s.items
  {
    var s' := Insert(s, folder, name, kind);
    var s'' := Delete(s', s.next);
    forall i | i in s.items
      ensures i in s''.items && s''.items[i] == s.items[i]
    {
      assert forall k :: k in s.items[i].kids ==> k in s.items;
      WithoutAbsent(s.items[i].kids, s.next);
    }
    assert s''.items.Keys == s.items.Keys;
  }

  // ----- what a deletion takes away -----

  lemma {:induction false} FindWithout(
    items: map<Id, Storage>, items': map<Id, Storage>, kids: seq<Id>, id: Id, name: string)
    requires forall k :: k in kids && k != id ==> k in items && k in items' && items[k].name == items'[k].name
    requires FindIn(items, kids, name) != Some(id)
    ensures FindIn(items', Without(kids, id), name) == FindIn(items, kids, name)
    decreases |kids|
  {
    if kids != [] {
      assert kids[0] in kids;
      if !Named(items, kids[0], name) {
        FindWithout(items, items', kids[1..], id, name);
        assert kids[0] == id ==> Without(kids, id) == [] + Without(kids[1..], id) == Without(kids[1..], id);
      }
      assert kids[0] != id ==> Without(kids, id) == [kids[0]] + Without(kids[1..], id);
      assert kids[0] != id ==> Without(kids, id)[0] == kids[0] && Without(kids, id)[1..] == Without(kids[1..], id);
    }
  }

  lemma FindKidDeleted(s: Store, id: Id, folder: Id, name: string)
    requires Wf(s) && DistinctSiblings(s) && CanDelete(s, id) && folder in s.items && folder != id
    ensures FindKid(Delete(s, id), folder, name)
            == if FindKid(s, folder, name) == Some(id) then None else FindKid(s, folder, name)
  {
    var items, items', kids := s.items, Delete(s, id).items, s.items[folder].kids;
    forall k | k in kids && k != id
      ensures k in items && k in items' && items[k].name == items'[k].name
    {
      assert GoodKid(s, folder, k);
    }
    if FindIn(items, kids, name) != Some(id) {
      FindWithout(items, items', kids, id, name);
    } else {
      var other := FindIn(items', Without(kids, id), name);
      if other.Some? {
        WithoutIn(kids, id, other.value);
        TwoOfAName(s, folder, id, other.value, name);
      }
    }
  }

  lemma TwoOfAName(s: Store, folder: Id, k: Id, other: Id, name: string)
    requires DistinctSiblings(s) && folder in s.items && k in s.items[folder].kids && other in s.items[folder].kids
    requires Named(s.items, k, name) && Named(s.items, other, name)
    ensures k == other
  {
    var kids := s.items[folder].kids;
    var i :| 0 <= i < |kids| && kids[i] == k;
    var j :| 0 <= j < |kids| && kids[j] == other;
    assert Lower(NameOf(s.items, kids[i])) == Lower(NameOf(s.items, kids[j]));
  }

  /** After a deletion the names that led to the storage lead nowhere, and all other names lead where they did. */
  lemma {:induction false} DeleteUnlinksExactly(s: Store, id: Id, from: Id, names: seq<string>)
    requires Wf(s) && DistinctSiblings(s) && CanDelete(s, id) && from in s.items && from != id
    ensures Walk(Delete(s, id), from, names)
            == if Walk(s, from, names) == Some(id) then None else Walk(s, from, names)
    decreases |names|
  {
    hide Delete, DistinctSiblings, CanDelete;
    if names != [] {
      FindKidDeleted(s, id, from, names[0]);
      match FindKid(s, from, names[0])
      case None =>
      case Some(k) =>
        assert GoodKid(s, from, k);
        if k == id {
          NoWayThrough(s, id, names[1..]);
        } else {
          DeleteUnlinksExactly(s, id, k, names[1..]);
        }
    }
  }

  lemma NoWayThrough(s: Store, id: Id, names: seq<string>)
    requires CanDelete(s, id)
    ensures Walk(s, id, names) == if names == [] then Some(id) else None
  {
  }
}
