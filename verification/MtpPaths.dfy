/**
 What the path operations of usbdevice.cpp do to a store when the device refuses nothing it can do, and
 how they undo and find each other's work although they take the same path apart in different ways.
 */
module MtpPaths {
  import opened Wrappers
  import opened SplitString
  import opened DeviceStore

  /** `get_storage_bypath`: the root has two spellings of its own. */
  function ByPath(s: Store, path: string): Option<Id> {
    if path == "" then None
    else if path == "/" || path == "//" then Some(ROOT)
    else Walk(s, ROOT, Components(path))
  }

  predicate ExistFolder(s: Store, path: string) {
    var k := ByPath(s, path);
    k.Some? && k.value in s.items && s.items[k.value].kind.Folder?
  }

  predicate ExistFile(s: Store, path: string) {
    var k := ByPath(s, path);
    k.Some? && k.value in s.items && s.items[k.value].kind.File?
  }

  datatype Created = Created(store: Store, id: Id)

  /** `create_folder_mtp` needs a non-empty name and a non-empty parent. */
  function CreateFolder(s: Store, path: string): Option<Created> {
    match LastSlash(path)
    case None => None
    case Some(pos) =>
      var child, parent := path[pos + 1..], path[..pos];
      if child == "" || parent == "" then None
      else match ByPath(s, parent)
        case None => None
        case Some(p) =>
          if CanInsert(s, p, child) then Some(Created(Insert(s, p, child, Folder), s.next)) else None
  }

  /** `delete_mtpitem`. */
  function DeleteItem(s: Store, path: string): Option<Store> {
    var k := ByPath(s, path);
    if k.Some? && CanDelete(s, k.value) then Some(Delete(s, k.value)) else None
  }

  function Overwrite(s: Store, k: Id, content: string): Store
    requires k in s.items
  {
    s.(items := s.items[k := s.items[k].(kind := File(content))])
  }

  /** An insertion in overwrite mode replaces the content of the first file of that name, if there is one. */
  function PutFile(s: Store, folder: Id, name: string, content: string): Option<Created> {
    if !CanInsert(s, folder, name) then None
    else match FindFile(s, folder, name)
      case Some(k) => Some(Created(Overwrite(s, k, content), k))
      case None => Some(Created(Insert(s, folder, name, File(content)), s.next))
  }

  /** The folders in front of the last component. */
  function FolderNames(path: string): seq<string> {
    var v := Components(path);
    if v == [] then [] else v[..|v| - 1]
  }

  /** `transfer_file`: the folders come from the splitter, the name from the last slash. */
  function Transfer(s: Store, dest: string, content: string): Option<Created> {
    var m := MakePath(s, ROOT, FolderNames(dest));
    if m.at.None? then None else PutFile(m.store, m.at.value, AfterLastSlash(dest), content)
  }

  /** `read_file` walks down all components, with no special case for the root. */
  function ReadItem(s: Store, path: string): Option<string> {
    var k := Walk(s, ROOT, Components(path));
    if k.Some? && k.value in s.items && s.items[k.value].kind.File? then Some(s.items[k.value].kind.content) else None
  }

  // ----- a child is reached through its parent -----

  lemma KidIsNamed(s: Store, id: Id, name: string)
    requires Wf(s) && FindKid(s, id, name).Some?
    ensures var k := FindKid(s, id, name).value;
            k in s.items && id < k && ValidName(s.items[k].name) && Lower(s.items[k].name) == Lower(name)
  {
    assert GoodKid(s, id, FindKid(s, id, name).value);
  }

  lemma {:induction false} WalkStays(s: Store, id: Id, names: seq<string>)
    requires Wf(s) && id in s.items && Walk(s, id, names).Some?
    ensures Walk(s, id, names).value in s.items && "" !in names
    decreases |names|
  {
    hide Wf;
    if names != [] {
      KidIsNamed(s, id, names[0]);
      var k := FindKid(s, id, names[0]).value;
      assert |Lower(s.items[k].name)| == |s.items[k].name|;
      WalkStays(s, k, names[1..]);
    }
  }

  lemma {:induction false} WalkLast(s: Store, id: Id, names: seq<string>, name: string)
    ensures Walk(s, id, names + [name])
            == match Walk(s, id, names) case None => None case Some(p) => FindKid(s, p, name)
    decreases |names|
  {
    if names == [] {
      assert names + [name] == [name] && [name][1..] == [];
    } else {
      assert (names + [name])[1..] == names[1..] + [name];
      if FindKid(s, id, names[0]).Some? {
        WalkLast(s, FindKid(s, id, names[0]).value, names[1..], name);
      }
    }
  }

  /** The names that lead to a parent, once the empty ones are dropped. */
  lemma ParentNames(s: Store, parent: string)
    requires Wf(s) && ByPath(s, parent).Some?
    ensures Walk(s, ROOT, NonEmpty(Components(parent))) == ByPath(s, parent)
    ensures ByPath(s, parent).value in s.items
  {
    if parent == "/" || parent == "//" {
      RootNames();
    } else {
      WalkStays(s, ROOT, Components(parent));
      NothingEmpty(Components(parent));
    }
  }

  lemma RootNames()
    ensures NonEmpty(Components("/")) == [] && NonEmpty(Components("//")) == []
  {
    assert Components("/") == [""];
    assert Find("/", "/") == Some(0);
    assert Tokens("/", "/", false) == [] + Tokens("", "/", false);
    assert Components("//") == Tokens("/", "/", false);
    assert NonEmpty([""]) == [];
  }

  /** Splitting parent + "/" + child gives the parent's names and then the child's, for every parent that resolves. */
  lemma ChildPath(s: Store, s': Store, parent: string, child: string)
    requires Wf(s) && ByPath(s, parent).Some? && child != "" && '/' !in child
    requires Wf(s') && Extends(s, s')
    ensures ByPath(s', parent + "/" + child) == FindKid(s', ByPath(s, parent).value, child)
  {
    var path := parent + "/" + child;
    assert path[|path| - 1] == child[|child| - 1] && path != "/" && path != "//";
    ChildComponents(parent, child);
    ParentNames(s, parent);
    WalkExtends(s, s', ROOT, NonEmpty(Components(parent)));
    WalkLast(s', ROOT, NonEmpty(Components(parent)), child);
  }

  // ----- which paths resolve -----

  /** The root has two spellings, the empty path none; the root is a folder. */
  lemma RootPaths(s: Store)
    requires Wf(s)
    ensures ByPath(s, "/") == ByPath(s, "//") == Some(ROOT) && ByPath(s, "").None?
    ensures ExistFolder(s, "/") && ExistFolder(s, "//") && !ExistFile(s, "/") && !ExistFile(s, "//")
  {
  }

  /** Any other path that ends in a slash leads nowhere. */
  lemma TrailingSlashLeadsNowhere(s: Store, path: string)
    requires Wf(s) && path != "" && path != "/" && path != "//" && path[|path| - 1] == '/'
    ensures ByPath(s, path).None?
  {
    ParsersAgree(path);
    SlashUnique(path, |path| - 1);
    hide Components, AfterLastSlash;
    if Walk(s, ROOT, Components(path)).Some? {
      WalkStays(s, ROOT, Components(path));
    }
  }

  /** Names joined by slashes, with a slash in front or without, lead where the names lead one by one. */
  lemma JoinedNamesLead(s: Store, names: seq<string>)
    requires names != [] && ValidNames(names)
    ensures ByPath(s, Join(names, "/")) == ByPath(s, "/" + Join(names, "/")) == Walk(s, ROOT, names)
  {
    hide Join, Components, Walk, ValidNames;
    JoinedNames(names);
    var p := Join(names, "/");
    assert ("/" + p)[1] == p[0] && p != "/" && p != "//";
  }

  lemma {:induction false} WalkBelow(s: Store, id: Id, names: seq<string>)
    requires Wf(s) && names != [] && Walk(s, id, names).Some?
    ensures Walk(s, id, names).value > id && Walk(s, id, names).value in s.items
    decreases |names|
  {
    hide Wf;
    KidIsNamed(s, id, names[0]);
    if names[1..] != [] {
      WalkBelow(s, FindKid(s, id, names[0]).value, names[1..]);
    }
  }

  lemma OnlyRootPathsLeadToRoot(s: Store, path: string)
    requires Wf(s) && ByPath(s, path).Some?
    ensures ByPath(s, path).value in s.items && (ByPath(s, path).value == ROOT <==> path == "/" || path == "//")
  {
    if path != "/" && path != "//" {
      ParsersAgree(path);
      WalkBelow(s, ROOT, Components(path));
    }
  }

  // ----- find or create -----

  lemma NamesHaveNoEmpty(names: seq<string>)
    requires names != [] && ValidNames(names)
    ensures NonEmpty(names[..|names| - 1]) + [names[|names| - 1]] == names && FreeOf(names, '/')
  {
    forall n | n in names[..|names| - 1]
      ensures ValidName(n)
    {
      assert n in names;
    }
    assert !ValidName("");
    NothingEmpty(names[..|names| - 1]);
  }

  /** The slash-joined names split back into the names, with or without a leading slash. */
  lemma JoinedNames(names: seq<string>)
    requires names != [] && ValidNames(names)
    ensures var p := Join(names, "/");
            && p != "" && p[0] != '/'
            && Components(p) == names && Components("/" + p) == names
  {
    var p := Join(names, "/");
    JoinStartsWithName(names);
    TokensOfNames(names);
    hide Tokens, Join, ValidNames;
    assert ("/" + p)[1..] == p;
  }

  lemma JoinStartsWithName(names: seq<string>)
    requires names != [] && ValidNames(names)
    ensures Join(names, "/") != "" && Join(names, "/")[0] != '/'
  {
    assert ValidName(names[0]) by {
      assert names[0] in names;
    }
    assert Join(names, "/")[0] == names[0][0];
  }

  lemma TokensOfNames(names: seq<string>)
    requires names != [] && ValidNames(names)
    ensures Tokens(Join(names, "/"), "/", false) == names
  {
    hide Tokens, Join;
    NamesHaveNoEmpty(names);
    TokensOfJoin(names, '/');
    DroppingEmpties(Join(names, "/"), "/");
  }

  /**
   After a creating walk that succeeded, looking the joined names up gives the storage the walk ended in,
   walking again creates nothing, everything that resolved before still resolves to the same storage, and
   siblings that were distinct ignoring case still are.
   */
  lemma FindOrCreate(s: Store, names: seq<string>, other: string)
    requires Wf(s) && names != [] && ValidNames(names) && MakePath(s, ROOT, names).at.Some?
    ensures var m := MakePath(s, ROOT, names);
            && Wf(m.store) && Extends(s, m.store)
            && ByPath(m.store, Join(names, "/")) == m.at && ByPath(m.store, "/" + Join(names, "/")) == m.at
            && MakePath(m.store, ROOT, names) == m
            && (ByPath(s, other).Some? ==> ByPath(m.store, other) == ByPath(s, other))
            && (DistinctSiblings(s) ==> DistinctSiblings(m.store))
  {
    var m := MakePath(s, ROOT, names);
    MakePathKeeps(s, ROOT, names);
    MakePathResolves(s, ROOT, names);
    MakePathFinds(m.store, ROOT, names);
    JoinedNames(names);
    if ByPath(s, other).Some? && other != "/" && other != "//" {
      WalkExtends(s, m.store, ROOT, Components(other));
    }
    if DistinctSiblings(s) {
      MakePathKeepsDistinct(s, ROOT, names);
    }
    var p := Join(names, "/");
    assert ("/" + p)[1] == p[0];
    hide Components, Join, DistinctSiblings, Extends, Wf;
  }

  lemma ExtendsItself(s: Store)
    ensures Extends(s, s)
  {
  }

  // ----- create, exist, delete -----

  /**
   A folder that `create_folder_mtp` reports created: if nothing had that path before, the path now leads
   to the new folder; otherwise it still leads to the old storage and the new folder is hidden behind it.
   So `delete_mtpitem` on the same path restores the device exactly when the path was unused.
   */
  lemma CreateExistDelete(s: Store, path: string)
    requires Wf(s) && CreateFolder(s, path).Some?
    ensures var c := CreateFolder(s, path).value;
            && Wf(c.store) && Extends(s, c.store) && c.id !in s.items
            && ByPath(c.store, path) == (if ByPath(s, path).None? then Some(c.id) else ByPath(s, path))
            && (ByPath(s, path).None? ==> ExistFolder(c.store, path) && !ExistFile(c.store, path))
            && ((DeleteItem(c.store, path).Some? && DeleteItem(c.store, path).value.items == s.items)
                <==> ByPath(s, path).None?)
  {
    hide *;
    var parent, child, p := CreateFolderParts(s, path);
    var c := CreateFolder(s, path).value;
    ParentNames(s, parent);
    InsertKeeps(s, p, child, Folder);
    ExtendsItself(s);
    ChildPath(s, s, parent, child);
    ChildPath(s, c.store, parent, child);
    NewFolder(s, p, child);
    if ByPath(s, path).None? {
      FindNew(s, p, child, Folder);
      InsertThenDelete(s, p, child, Folder);
      ExistsAs(c.store, path);
      DeleteOf(c.store, path);
    } else {
      FindKidExtends(s, c.store, p, child);
      KidIsNamed(s, p, child);
      DeleteOf(c.store, path);
      DeleteSpares(c.store, ByPath(s, path).value, c.id);
    }
  }

  lemma CreateFolderParts(s: Store, path: string) returns (parent: string, child: string, p: Id)
    requires CreateFolder(s, path).Some?
    ensures path == parent + "/" + child && child != "" && '/' !in child
    ensures ByPath(s, parent) == Some(p) && CanInsert(s, p, child)
    ensures CreateFolder(s, path) == Some(Created(Insert(s, p, child, Folder), s.next))
  {
    var pos := LastSlash(path).value;
    parent, child := path[..pos], path[pos + 1..];
    p := ByPath(s, parent).value;
  }

  /** The path is a name below a folder that there is. */
  predicate NamesSpot(s: Store, path: string, parent: string, child: string) {
    path == parent + "/" + child && parent != "" && ValidName(child) && ExistFolder(s, parent)
  }

  ghost predicate CanCreate(s: Store, path: string) {
    exists parent, child :: NamesSpot(s, path, parent, child)
  }

  /** The condition under which `create_folder_mtp` creates a folder, on any device and for any path. */
  lemma CreateSucceedsExactlyWhen(s: Store, path: string)
    ensures CreateFolder(s, path).Some? <==> CanCreate(s, path)
  {
    hide ByPath, Insert, LastSlash;
    if CreateFolder(s, path).Some? {
      var parent, child, _ := CreateFolderParts(s, path);
      assert NamesSpot(s, path, parent, child);
    }
    if parent, child :| NamesSpot(s, path, parent, child) {
      assert path[|parent|] == '/' && path[|parent| + 1..] == child && path[..|parent|] == parent;
      assert LastSlash(path) == Some(|parent|);
    }
  }

  /** The path leads to a file or an empty folder, and not to the root. */
  predicate CanDeleteItem(s: Store, path: string) {
    && path != "/" && path != "//"
    && (ExistFile(s, path) || (ExistFolder(s, path) && s.items[ByPath(s, path).value].kids == []))
  }

  /** The condition under which `delete_mtpitem` deletes. */
  lemma DeleteSucceedsExactlyWhen(s: Store, path: string)
    requires Wf(s)
    ensures DeleteItem(s, path).Some? <==> CanDeleteItem(s, path)
  {
    if ByPath(s, path).Some? {
      OnlyRootPathsLeadToRoot(s, path);
      if ExistFile(s, path) {
        FilesHaveNoKids(s, ByPath(s, path).value);
      }
    }
    hide ByPath;
  }

  lemma NonEmptyHasMember(kids: seq<Id>)
    ensures kids != [] ==> exists k :: k in kids
  {
    if kids != [] {
      assert kids[0] in kids;
    }
  }

  lemma FilesHaveNoKids(s: Store, id: Id)
    requires Wf(s) && id in s.items && s.items[id].kind.File?
    ensures s.items[id].kids == []
  {
    NonEmptyHasMember(s.items[id].kids);
  }

  /**
   Where siblings are distinct, what was deleted is gone from its path and from no other: every other path that
   led to another storage still does.
   */
  lemma DeleteThenLook(s: Store, path: string, other: string)
    requires Wf(s) && DistinctSiblings(s) && DeleteItem(s, path).Some?
    ensures var s' := DeleteItem(s, path).value;
            && Wf(s') && ByPath(s', path).None?
            && ByPath(s', other) == if ByPath(s, other) == ByPath(s, path) then None else ByPath(s, other)
  {
    var id := ByPath(s, path).value;
    DeleteKeeps(s, id);
    OnlyRootPathsLeadToRoot(s, path);
    hide Components, Delete, DistinctSiblings, Walk;
    DeleteUnlinksExactly(s, id, ROOT, Components(path));
    DeleteUnlinksExactly(s, id, ROOT, Components(other));
  }

  lemma NewFolder(s: Store, p: Id, child: string)
    requires Wf(s) && CanInsert(s, p, child)
    ensures s.next !in s.items
    ensures var s' := Insert(s, p, child, Folder); s.next in s'.items && s'.items[s.next].kind == Folder
  {
  }

  lemma ExistsAs(s: Store, path: string)
    requires ByPath(s, path).Some? && ByPath(s, path).value in s.items
    ensures ExistFolder(s, path) <==> s.items[ByPath(s, path).value].kind.Folder?
    ensures ExistFile(s, path) <==> s.items[ByPath(s, path).value].kind.File?
  {
    hide ByPath;
  }

  lemma DeleteOf(s: Store, path: string)
    requires ByPath(s, path).Some?
    ensures DeleteItem(s, path)
            == if CanDelete(s, ByPath(s, path).value) then Some(Delete(s, ByPath(s, path).value)) else None
  {
    hide ByPath, Delete;
  }

  lemma DeleteSpares(s: Store, id: Id, other: Id)
    requires other in s.items && other != id
    ensures other in Delete(s, id).items
  {
  }

  /** Creating a folder keeps siblings distinct ignoring case exactly when its path was unused. */
  lemma CreateKeepsDistinctExactlyWhen(s: Store, path: string)
    requires Wf(s) && DistinctSiblings(s) && CreateFolder(s, path).Some?
    ensures DistinctSiblings(CreateFolder(s, path).value.store) <==> ByPath(s, path).None?
  {
    var parent, child, p := CreateFolderParts(s, path);
    hide ByPath, CreateFolder;
    ExtendsItself(s);
    ChildPath(s, s, parent, child);
    if FindKid(s, p, child).None? {
      InsertKeepsDistinct(s, p, child, Folder);
    } else {
      KidIsNamed(s, p, child);
      TwinsCollide(s, p, child);
    }
  }

  lemma TwinsCollide(s: Store, p: Id, name: string)
    requires Wf(s) && CanInsert(s, p, name) && FindKid(s, p, name).Some?
    ensures !DistinctSiblings(Insert(s, p, name, Folder))
  {
    KidIsNamed(s, p, name);
    var k, kids, s' := FindKid(s, p, name).value, s.items[p].kids, Insert(s, p, name, Folder);
    var i :| 0 <= i < |kids| && kids[i] == k;
    assert s'.items[p].kids[i] == k && s'.items[p].kids[|kids|] == s.next;
    assert s'.items[k].name == s.items[k].name;
    assert Lower(NameOf(s'.items, k)) == Lower(NameOf(s'.items, s.next));
  }

  // ----- transfer, exist, read -----

  /** Same storages, same names, same kids: only contents may differ. */
  predicate SameShape(s: Store, s': Store) {
    && s.items.Keys == s'.items.Keys && s.next == s'.next
    && forall id :: id in s.items ==> s'.items[id].name == s.items[id].name && s'.items[id].kids == s.items[id].kids
  }

  lemma FindKidSameShape(s: Store, s': Store, id: Id, name: string)
    requires Wf(s) && SameShape(s, s')
    ensures FindKid(s', id, name) == FindKid(s, id, name)
  {
    if id in s.items {
      assert forall k :: k in s.items[id].kids ==> GoodKid(s, id, k);
      FindInSameNames(s.items, s'.items, s.items[id].kids, name);
    }
  }

  lemma {:induction false} WalkSameShape(s: Store, s': Store, id: Id, names: seq<string>)
    requires Wf(s) && SameShape(s, s')
    ensures Walk(s', id, names) == Walk(s, id, names)
    decreases |names|
  {
    hide Wf, SameShape;
    if names != [] {
      FindKidSameShape(s, s', id, names[0]);
      if FindKid(s, id, names[0]).Some? {
        WalkSameShape(s, s', FindKid(s, id, names[0]).value, names[1..]);
      }
    }
  }

  /** What the walk has just made is an empty folder. */
  lemma {:induction false} MadeFolderIsEmpty(s: Store, id: Id, names: seq<string>)
    requires Wf(s) && id in s.items && Walk(s, id, names).None? && MakePath(s, id, names).at.Some?
    ensures var m := MakePath(s, id, names);
            && m.at.value in m.store.items
            && m.store.items[m.at.value].kind.Folder? && m.store.items[m.at.value].kids == []
    decreases |names|
  {
    match FindKid(s, id, names[0])
    case Some(k) => MadeFolderIsEmpty(s, k, names[1..]);
    case None =>
      var s1 := Insert(s, id, names[0], Folder);
      InsertKeeps(s, id, names[0], Folder);
      if names[1..] == [] {
        assert MakePath(s1, s.next, names[1..]) == Made(s1, Some(s.next));
      } else {
        assert FindKid(s1, s.next, names[1]).None?;
        MadeFolderIsEmpty(s1, s.next, names[1..]);
      }
  }

  /** No storage but `id` has changed its name or its content, or is gone. */
  predicate OthersKept(s: Store, s': Store, id: Id) {
    forall i :: i in s.items && i != id ==>
      i in s'.items && s'.items[i].name == s.items[i].name && s'.items[i].kind == s.items[i].kind
  }

  /** The first kid of a name, if it is a file, is the first file of the name; no kid means no file. */
  lemma FileAmongKids(s: Store, folder: Id, name: string)
    requires Wf(s) && folder in s.items
    ensures var k, f := FindKid(s, folder, name), FindFile(s, folder, name);
            && (k.None? ==> f.None?) && (k.Some? && s.items[k.value].kind.File? ==> f == k)
            && (f.Some? ==> f.value in s.items && s.items[f.value].kind.File? && f.value != folder)
  {
    FindInFiles(s.items, s.items[folder].kids, name);
    var f := FindFile(s, folder, name);
    if f.Some? {
      assert GoodKid(s, folder, f.value);
    }
  }

  lemma PutFileFound(s: Store, folder: Id, name: string, content: string)
    requires Wf(s) && PutFile(s, folder, name, content).Some?
    ensures var c, k := PutFile(s, folder, name, content).value, FindKid(s, folder, name);
            var blocked := k.Some? && s.items[k.value].kind.Folder?;
            && c.id in c.store.items && c.store.items[c.id].kind == File(content)
            && Wf(c.store) && (SameShape(s, c.store) || Extends(s, c.store)) && OthersKept(s, c.store, c.id)
            && FindKid(c.store, folder, name) == (if blocked then k else Some(c.id))
            && (blocked ==> k != Some(c.id) && k.value in c.store.items && c.store.items[k.value].kind.Folder?)
  {
    hide FindKid, FindFile, Wf, Insert, Overwrite;
    var k := FindKid(s, folder, name);
    FileAmongKids(s, folder, name);
    if k.Some? {
      KidIsNamed(s, folder, name);
    }
    match FindFile(s, folder, name)
    case None =>
      InsertKeeps(s, folder, name, File(content));
      InsertedFile(s, folder, name, content);
      if k.None? {
        FindNew(s, folder, name, File(content));
      } else {
        FindKidExtends(s, Insert(s, folder, name, File(content)), folder, name);
      }
    case Some(f) =>
      OverwriteKeeps(s, f, content);
      FindKidSameShape(s, Overwrite(s, f, content), folder, name);
  }

  lemma InsertedFile(s: Store, folder: Id, name: string, content: string)
    requires Wf(s) && CanInsert(s, folder, name)
    ensures var s' := Insert(s, folder, name, File(content));
            s.next !in s.items && s.next in s'.items && s'.items[s.next].kind == File(content)
            && OthersKept(s, s', s.next)
  {
  }

  lemma OverwriteKeeps(s: Store, k: Id, content: string)
    requires Wf(s) && k in s.items && s.items[k].kind.File?
    ensures var s' := Overwrite(s, k, content);
            && Wf(s') && SameShape(s, s') && OthersKept(s, s', k)
            && k in s'.items && s'.items[k].kind == File(content)
  {
    var s' := Overwrite(s, k, content);
    forall id, kid | id in s'.items && kid in s'.items[id].kids
      ensures GoodKid(s', id, kid)
    {
      assert GoodKid(s, id, kid);
    }
  }

  lemma FolderNamesValid(dest: string)
    requires dest != ""
    ensures ValidNames(FolderNames(dest)) && '/' !in AfterLastSlash(dest)
    ensures Components(dest) == FolderNames(dest) + [AfterLastSlash(dest)]
  {
    ParsersAgree(dest);
    var v := Components(dest);
    forall n | n in v[..|v| - 1]
      ensures ValidName(n)
    {
      var i :| 0 <= i < |v| - 1 && v[i] == n;
    }
  }

  /** Where the destination leads before and after, in terms of the folder the walk ends in. */
  lemma DestBefore(s: Store, dest: string, content: string)
    requires Wf(s) && Transfer(s, dest, content).Some?
    ensures var m, d := MakePath(s, ROOT, FolderNames(dest)), Walk(s, ROOT, Components(dest));
            && Wf(m.store) && Extends(s, m.store)
            && (FindKid(m.store, m.at.value, AfterLastSlash(dest)) == d)
            && (d.Some? ==> d.value in s.items)
  {
    FolderNamesValid(dest);
    var names, name := FolderNames(dest), AfterLastSlash(dest);
    var m := MakePath(s, ROOT, names);
    MakePathKeeps(s, ROOT, names);
    WalkLast(s, ROOT, names, name);
    if Walk(s, ROOT, names).Some? {
      MakePathFinds(s, ROOT, names);
      if Walk(s, ROOT, Components(dest)).Some? {
        WalkStays(s, ROOT, Components(dest));
      }
    } else {
      MadeFolderIsEmpty(s, ROOT, names);
    }
  }

  /** A folder already has the destination's path. */
  predicate FolderInTheWay(s: Store, dest: string) {
    var d := Walk(s, ROOT, Components(dest));
    d.Some? && d.value in s.items && s.items[d.value].kind.Folder?
  }

  lemma DestAfter(s: Store, dest: string, content: string)
    requires Wf(s) && Transfer(s, dest, content).Some?
    ensures var m, c := MakePath(s, ROOT, FolderNames(dest)), Transfer(s, dest, content).value;
            var d := Walk(c.store, ROOT, Components(dest));
            && Wf(c.store) && c.id in c.store.items && c.store.items[c.id].kind == File(content)
            && OthersKept(s, c.store, c.id)
            && Walk(c.store, ROOT, FolderNames(dest)) == m.at
            && (if FolderInTheWay(s, dest) then
                  d != Some(c.id) && d.Some? && d.value in c.store.items && c.store.items[d.value].kind.Folder?
                else d == Some(c.id))
  {
    assert ROOT in s.items;
    hide Components, AfterLastSlash, FolderNames, MakePath, PutFile, Wf, SameShape, Extends, OthersKept, Walk;
    var names, name := FolderNames(dest), AfterLastSlash(dest);
    var m, c := MakePath(s, ROOT, names), Transfer(s, dest, content).value;
    FolderNamesValid(dest);
    DestBefore(s, dest, content);
    MakePathResolves(s, ROOT, names);
    PutFileFound(m.store, m.at.value, name, content);
    WalkKept(m.store, c.store, names);
    OthersStillKept(s, m.store, c.store, c.id);
    WalkLast(c.store, ROOT, names, name);
    KindKept(s, m.store, Walk(s, ROOT, Components(dest)));
  }

  lemma WalkKept(s: Store, s': Store, names: seq<string>)
    requires Wf(s) && (SameShape(s, s') || Extends(s, s')) && Walk(s, ROOT, names).Some?
    ensures Walk(s', ROOT, names) == Walk(s, ROOT, names)
  {
    if SameShape(s, s') {
      WalkSameShape(s, s', ROOT, names);
    } else {
      WalkExtends(s, s', ROOT, names);
    }
  }

  lemma OthersStillKept(a: Store, b: Store, c: Store, id: Id)
    requires Extends(a, b) && OthersKept(b, c, id)
    ensures OthersKept(a, c, id)
  {
  }

  lemma KindKept(s: Store, s': Store, d: Option<Id>)
    requires Extends(s, s') && (d.Some? ==> d.value in s.items)
    ensures d.Some? ==> d.value in s'.items && s'.items[d.value].kind == s.items[d.value].kind
  {
  }

  /** A destination whose file could be inserted is no spelling of the root. */
  lemma DestIsNotRoot(s: Store, dest: string, content: string)
    requires Transfer(s, dest, content).Some?
    ensures dest != "" && dest != "/" && dest != "//"
  {
    SlashNames();
  }

  /**
   A file that `transfer_file` has inserted is the one that `exist_file_mtp` and `read_file` find under
   the same path, with the content transferred, exactly when no folder had that path.  No other storage
   changes its name or content.
   */
  lemma TransferThenRead(s: Store, dest: string, content: string)
    requires Wf(s) && Transfer(s, dest, content).Some?
    ensures var c := Transfer(s, dest, content).value;
            && Wf(c.store) && c.id in c.store.items && c.store.items[c.id].kind == File(content)
            && OthersKept(s, c.store, c.id)
            && (ByPath(c.store, dest) == Some(c.id) <==> !ExistFolder(s, dest))
            && (ExistFile(c.store, dest) <==> !ExistFolder(s, dest))
            && ReadItem(c.store, dest) == (if ExistFolder(s, dest) then None else Some(content))
  {
    hide Transfer, Components, Walk, Wf, OthersKept;
    DestIsNotRoot(s, dest, content);
    DestAfter(s, dest, content);
  }

  // ----- when do transfers and reads succeed? -----

  /** There is a name after the last slash, and where the folders in front of it stop existing is no file. */
  predicate CanTransfer(s: Store, dest: string) {
    var a := Anchor(s, ROOT, FolderNames(dest));
    AfterLastSlash(dest) != "" && a in s.items && s.items[a].kind.Folder?
  }

  /** The condition under which a transfer to any destination inserts a file, in terms of the device before. */
  lemma TransferSucceedsExactlyWhen(s: Store, dest: string, content: string)
    requires Wf(s)
    ensures Transfer(s, dest, content).Some? <==> CanTransfer(s, dest)
  {
    hide Wf, Components, FolderNames, AfterLastSlash, ValidNames, Walk, MakePath, Anchor, Depth, Grown, FindFile;
    RootStored(s);
    EmptyDest();
    var names := FolderNames(dest);
    if dest != "" {
      FolderNamesValid(dest);
    }
    OnlyMissingSuffixCreated(s, ROOT, names);
    ExistingPath(s, ROOT, names);
    if Walk(s, ROOT, names).Some? {
      MakePathFinds(s, ROOT, names);
    } else if MakePath(s, ROOT, names).at.Some? {
      MadeFolderIsEmpty(s, ROOT, names);
    }
  }

  lemma RootStored(s: Store)
    requires Wf(s)
    ensures ROOT in s.items && s.items[ROOT].kind.Folder?
  {
  }

  lemma EmptyDest()
    ensures ValidNames(FolderNames("")) && AfterLastSlash("") == "" && Components("") == []
  {
  }

  /** Reading gives data exactly where there is a file: that file's content. */
  lemma ReadSucceedsExactlyWhen(s: Store, path: string)
    requires Wf(s)
    ensures ReadItem(s, path).Some? <==> ExistFile(s, path)
    ensures ExistFile(s, path) ==> ReadItem(s, path) == Some(s.items[ByPath(s, path).value].kind.content)
  {
    hide Wf, Components, AfterLastSlash, Walk, FreeOf, NoEmptyBeforeLast;
    RootStored(s);
    EmptyDest();
    assert Walk(s, ROOT, []) == Some(ROOT) by {
      ExistingPath(s, ROOT, []);
    }
    if path != "" {
      ParsersAgree(path);
      SlashNames();
      if Walk(s, ROOT, Components(path)).Some? {
        WalkStays(s, ROOT, Components(path));
      }
    }
  }

  /**
   Transferring to the same path again overwrites the same storage and creates nothing, even where a folder
   of that name keeps the path from leading to the file.
   */
  lemma TransferAgain(s: Store, dest: string, content: string, content': string)
    requires Wf(s) && Transfer(s, dest, content).Some?
    ensures var c := Transfer(s, dest, content).value;
            && Transfer(c.store, dest, content').Some?
            && Transfer(c.store, dest, content').value.id == c.id
            && SameShape(c.store, Transfer(c.store, dest, content').value.store)
  {
    hide Components, AfterLastSlash, FolderNames, PutFile, SameShape, Wf, Walk, MakePath;
    var names := FolderNames(dest);
    var m, c := MakePath(s, ROOT, names), Transfer(s, dest, content).value;
    DestBefore(s, dest, content);
    DestAfter(s, dest, content);
    MakePathFinds(c.store, ROOT, names);
    PutFileAgain(m.store, m.at.value, AfterLastSlash(dest), content, content');
  }

  lemma PutFileAgain(s: Store, folder: Id, name: string, content: string, content': string)
    requires Wf(s) && PutFile(s, folder, name, content).Some?
    ensures var c := PutFile(s, folder, name, content).value;
            var again := PutFile(c.store, folder, name, content');
            again.Some? && again.value.id == c.id && SameShape(c.store, again.value.store)
  {
    hide FindFile, Wf, Insert, Overwrite, SameShape, OthersKept;
    FileAmongKids(s, folder, name);
    var c := PutFile(s, folder, name, content).value;
    match FindFile(s, folder, name)
    case None =>
      InsertKeeps(s, folder, name, File(content));
      InsertedFile(s, folder, name, content);
      FindNewFile(s, folder, name, content);
      OverwriteKeeps(c.store, c.id, content');
    case Some(f) =>
      OverwriteKeeps(s, f, content);
      FileFoundAgain(s, f, folder, name, content);
      OverwriteKeeps(c.store, c.id, content');
  }

  lemma FindNewFile(s: Store, folder: Id, name: string, content: string)
    requires Wf(s) && CanInsert(s, folder, name) && FindFile(s, folder, name).None?
    ensures var s' := Insert(s, folder, name, File(content));
            FindFile(s', folder, name) == Some(s.next) && CanInsert(s', folder, name)
  {
    var s', kids := Insert(s, folder, name, File(content)), s.items[folder].kids;
    assert forall k :: k in kids ==> GoodKid(s, folder, k);
    FindInSameNames(FilesOnly(s.items), FilesOnly(s'.items), kids, name);
    FindInAppended(FilesOnly(s'.items), kids, s.next, name);
  }

  lemma FileFoundAgain(s: Store, f: Id, folder: Id, name: string, content: string)
    requires f in s.items && s.items[f].kind.File? && f != folder && CanInsert(s, folder, name)
    ensures var s' := Overwrite(s, f, content);
            FindFile(s', folder, name) == FindFile(s, folder, name) && CanInsert(s', folder, name)
  {
    var s' := Overwrite(s, f, content);
    FindInSameNames(FilesOnly(s.items), FilesOnly(s'.items), s.items[folder].kids, name);
  }

  lemma SlashNames()
    ensures AfterLastSlash("/") == "" && AfterLastSlash("//") == ""
  {
  }

  // ----- stores on which the operations go wrong -----

  /** A folder "a" that holds a folder "b", and a file "f" beside it. */
  function SmallStore(): Store {
    Store(map[0 := Storage("", Folder, [1, 3]), 1 := Storage("a", Folder, [2]), 2 := Storage("b", Folder, []),
              3 := Storage("f", File("x"), [])], 4)
  }

  lemma SmallStoreIsWf()
    ensures Wf(SmallStore())
  {
  }

  lemma SmallKids()
    ensures var s := SmallStore();
            && FindKid(s, ROOT, "a") == Some(1) && FindKid(s, 1, "b") == Some(2)
            && FindKid(s, ROOT, "f") == Some(3) && FindKid(s, 3, "b") == None && FindKid(s, ROOT, "b") == None
  {
    var items := SmallStore().items;
    assert Lower("a")[0] == 'a' && Lower("b")[0] == 'b' && Lower("f")[0] == 'f';
    assert FindIn(items, [], "a") == FindIn(items, [], "b") == FindIn(items, [], "f") == None;
    assert [1, 3][1..] == [3] && [3][1..] == [] && [2][1..] == [];
  }

  /** What the parsers make of a path of one name, and of one with two names of which the second may be empty. */
  lemma NamesOfOne(name: string)
    requires ValidName(name)
    ensures Components(name) == [name] && ByPath(SmallStore(), name) == FindKid(SmallStore(), ROOT, name)
  {
    hide Components, FindKid, SmallStore;
    JoinedNames([name]);
    assert [name][1..] == [] && name[0] in name;
    if FindKid(SmallStore(), ROOT, name).Some? {
      assert Walk(SmallStore(), ROOT, [name]) == Walk(SmallStore(), FindKid(SmallStore(), ROOT, name).value, []);
    }
  }

  lemma NamesOfTwo(folder: string, name: string, path: string)
    requires ValidName(folder) && '/' !in name && path == folder + "/" + name
    ensures FolderNames(path) == [folder] && AfterLastSlash(path) == name && LastSlash(path) == Some(|folder|)
  {
    hide Components, AfterLastSlash, LastSlash;
    NamesOfOne(folder);
    NothingEmpty([folder]);
    ChildComponents(folder, name);
    ParsersAgree(path);
    assert path[|folder|] == '/';
  }

  /** The two ways in which `transfer_file` inserts nothing: no name after the last slash, and a file on the way. */
  lemma TransferCanFail(content: string)
    ensures FailsInPlace("a/", content) && FailsInPlace("f/b", content)
  {
    hide FindKid, Transfer, Wf, Components, FolderNames, AfterLastSlash, LastSlash, ByPath;
    SmallStoreIsWf();
    SmallKids();
    NamesOfTwo("a", "", "a/");
    NamesOfTwo("f", "b", "f/b");
    TransferSucceedsExactlyWhen(SmallStore(), "a/", content);
    TransferSucceedsExactlyWhen(SmallStore(), "f/b", content);
    assert Anchor(SmallStore(), ROOT, ["f"]) == Anchor(SmallStore(), 3, []);
    assert Walk(SmallStore(), ROOT, ["f"]) == Walk(SmallStore(), 3, []);
    assert Walk(SmallStore(), ROOT, ["a"]) == Walk(SmallStore(), 1, []);
    MakePathFinds(SmallStore(), ROOT, ["a"]);
    MakePathFinds(SmallStore(), ROOT, ["f"]);
  }

  /** The transfer inserts nothing, and no folders either. */
  predicate FailsInPlace(dest: string, content: string) {
    var s := SmallStore();
    !CanTransfer(s, dest) && Transfer(s, dest, content).None? && MakePath(s, ROOT, FolderNames(dest)).store == s
  }

  /** A path that leads to a folder, or nowhere, has no data. */
  lemma ReadCanFail()
    ensures ReadItem(SmallStore(), "a").None? && ReadItem(SmallStore(), "b").None?
  {
    hide FindKid, ReadItem, Wf, Components, Walk;
    SmallStoreIsWf();
    SmallKids();
    NamesOfOne("a");
    NamesOfOne("b");
    ReadSucceedsExactlyWhen(SmallStore(), "a");
    ReadSucceedsExactlyWhen(SmallStore(), "b");
  }

  /**
   Creating "a/b" again: the new folder 4 is the twin of folder 2, to which the path still leads, so that
   deleting the path deletes the old folder and leaves the new one.
   */
  lemma TwinIsHidden()
    ensures var c := CreateFolder(SmallStore(), "a/b");
            && c.Some? && c.value.id == 4 && c.value.store.items[1].kids == [2, 4]
            && ByPath(c.value.store, "a/b") == Some(2)
            && DeleteItem(c.value.store, "a/b") == Some(Delete(c.value.store, 2))
  {
    var s := SmallStore();
    hide FindKid, Wf, Components, Walk, ByPath, LastSlash, Delete;
    SmallStoreIsWf();
    SmallKids();
    NamesOfOne("a");
    NamesOfTwo("a", "b", "a/b");
    assert "a/b"[2..] == "b" && "a/b"[..1] == "a";
    var c := CreateFolder(s, "a/b").value;
    ExtendsItself(s);
    ChildPath(s, s, "a", "b");
    CreateExistDelete(s, "a/b");
    DeleteOf(c.store, "a/b");
  }
}
