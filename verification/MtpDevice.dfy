/**
 The MTP operations of usbdevice.cpp on a live device.  Any request to the device may fail; a failing
 request does nothing.
 */
module MtpDevice {
  import opened Wrappers
  import opened SplitString
  import opened DeviceStore
  import opened MtpPaths

  const ERROR_SUCCESS := 0
  const ERROR_WRONG_PARAMETER := 12
  const E_FAIL := -0x7FFF_BFFB  // 0x80004005 as a signed 32-bit number

  /** How `transfer_file` ends: it returns a code, or indexes a vector out of its range. */
  datatype TransferOutcome = Returned(code: int, inserted: Option<Id>) | IndexOutOfRange

  class UsbDevice {
    var store: Store
    /** Which of the requests, counted from the start, the device fails to answer. */
    const fails: nat -> bool
    var requests: nat

    constructor (store: Store, fails: nat -> bool)
      requires Wf(store)
      ensures this.store == store && this.fails == fails && Valid()
    {
      this.store, this.fails, this.requests := store, fails, 0;
    }

    ghost predicate Valid()
      reads this
    {
      Wf(store)
    }

    /** The device has answered the requests from number `from` up to `to`. */
    ghost predicate Answered(from: nat, to: nat) {
      forall r :: from <= r < to ==> !fails(r)
    }

    method Request() returns (ok: bool)
      modifies `requests
      ensures requests == old(requests) + 1 && ok == !fails(old(requests))
    {
      ok := !fails(requests);
      requests := requests + 1;
    }

    /** The enumeration of `get_substorage`, up to the first kid with the given name. */
    method FindSubstorage(parent: Id, folder: string) returns (ok: bool, out: Option<Id>)
      requires Valid() && parent in store.items
      modifies `requests
      ensures requests > old(requests) && (ok <==> Answered(old(requests), requests))
      ensures out == if ok then FindKid(store, parent, folder) else None
    {
      hide *;
      var kids := store.items[parent].kids;
      KidsStored(parent, folder);
      ghost var target := FindKid(store, parent, folder);
      out := None;
      AnsweredNone(requests);
      AnsweredOneMore(requests, requests);
      ok := Request();  // EnumStorage
      var i := 0;
      while ok
        invariant i <= |kids| && Rest(store.items, kids, i, folder, target)
        invariant requests > old(requests) && (ok <==> Answered(old(requests), requests))
        decreases |kids| - i, ok
      {
        RestStep(store.items, kids, i, folder, target);
        AnsweredOneMore(old(requests), requests);
        ok := Request();  // Next
        if !ok || i == |kids| {
          return;
        }
        AnsweredOneMore(old(requests), requests);
        ok := Request();  // GetName
        if ok {
          if Lower(store.items[kids[i]].name) == Lower(folder) {
            return true, Some(kids[i]);
          }
          i := i + 1;
        }
      }
    }

    lemma AnsweredNone(from: nat)
      ensures Answered(from, from)
    {
    }

    lemma AnsweredOneMore(from: nat, to: nat)
      requires from <= to
      ensures Answered(from, to + 1) <==> Answered(from, to) && !fails(to)
    {
    }

    lemma AnsweredTwo(from: nat, mid: nat, to: nat)
      requires from <= mid <= to
      ensures Answered(from, to) <==> Answered(from, mid) && Answered(mid, to)
    {
    }

    /** What is looked for is found among the kids from number `i` on. */
    ghost predicate Rest(items: map<Id, Storage>, kids: seq<Id>, i: nat, name: string, target: Option<Id>)
      requires i <= |kids|
    {
      (forall k :: k in kids ==> k in items) && target == FindIn(items, kids[i..], name)
    }

    lemma KidsStored(id: Id, name: string)
      requires Valid() && id in store.items
      ensures Rest(store.items, store.items[id].kids, 0, name, FindKid(store, id, name))
    {
      var kids := store.items[id].kids;
      assert kids[0..] == kids && forall k :: k in kids ==> GoodKid(store, id, k);
    }

    lemma RestStep(items: map<Id, Storage>, kids: seq<Id>, i: nat, name: string, target: Option<Id>)
      requires i <= |kids| && Rest(items, kids, i, name, target)
      ensures i == |kids| ==> target == None
      ensures i < |kids| ==>
                && kids[i] in items
                && if Lower(items[kids[i]].name) == Lower(name) then target == Some(kids[i])
                   else Rest(items, kids, i + 1, name, target)
    {
      if i < |kids| {
        assert kids[i..][0] == kids[i] && kids[i..][1..] == kids[i + 1..];
      }
    }

    /** `get_substorage`.  A null parent is reported as success. */
    method GetSubstorage(parent: Option<Id>, folder: string, create: bool) returns (ret: int, out: Option<Id>)
      requires Valid() && (parent.Some? ==> parent.value in store.items)
      modifies this
      ensures Valid() && requests >= old(requests)
      ensures parent.None? ==> ret == 0 && out.None? && requests == old(requests)
      ensures out.None? ==> store == old(store)
      ensures out.Some? ==> ret == 0
      ensures out.Some? && FindKid(old(store), parent.value, folder).Some? ==>
                store == old(store) && out == FindKid(store, parent.value, folder)
      ensures out.Some? && FindKid(old(store), parent.value, folder).None? ==>
                && create && CanInsert(old(store), parent.value, folder)
                && store == Insert(old(store), parent.value, folder, Folder) && out == Some(old(store).next)
      ensures parent.Some? ==>
                (out.Some? <==> && Answered(old(requests), requests)
                                && (FindKid(old(store), parent.value, folder).Some?
                                    || (create && CanInsert(old(store), parent.value, folder))))
      ensures parent.Some? && out.None? ==>
                ret == if create || !Answered(old(requests), requests) then E_FAIL else 1
    {
      out := None;
      if parent.None? {
        return 0, None;
      }
      hide FindKid, Wf, Insert, CanInsert, Answered;
      ret := 1;
      var ok;
      ok, out := FindSubstorage(parent.value, folder);
      if !ok {
        return E_FAIL, None;
      }
      if out.Some? {
        return 0, out;
      }
      if create {
        AnsweredOneMore(old(requests), requests);
        ok := Request();  // Insert3
        if !ok || !CanInsert(store, parent.value, folder) {
          return E_FAIL, None;
        }
        InsertKeeps(store, parent.value, folder, Folder);
        CanInsertInside(store, parent.value, folder);
        out := Some(store.next);
        store := Insert(store, parent.value, folder, Folder);
        ret := 0;
      }
    }

    lemma CanInsertInside(s: Store, folder: Id, name: string)
      requires CanInsert(s, folder, name)
      ensures folder in s.items
    {
    }

    /**
     The folder walk of `get_storage_bypath`, `transfer_file` and `read_file`.  It gives up with `out`
     null as soon as a name gives no storage; what has been created until then stays.
     */
    method WalkFolders(names: seq<string>, create: bool) returns (ret: int, out: Option<Id>)
      requires Valid()
      modifies this
      ensures Valid() && requests >= old(requests)
      ensures out.Some? ==> ret == 0 && out.value in store.items && Answered(old(requests), requests)
      ensures out.None? && names != [] ==> ret == if create || !Answered(old(requests), requests) then E_FAIL else 1
      ensures !create ==> store == old(store)
      ensures out.None? ==> PartOf(old(store), store, names)
      ensures out.Some? || Answered(old(requests), requests) ==>
                if create then Made(store, out) == MakePath(old(store), ROOT, names)
                else out == Walk(store, ROOT, names)
    {
      ret, out := 0, Some(ROOT);
      var i := 0;
      while i < |names|
        invariant 0 <= i <= |names| && Valid() && ret == 0 && out.Some? && out.value in store.items
        invariant requests >= old(requests) && Answered(old(requests), requests)
        invariant create ==> Made(store, out) == MakePath(old(store), ROOT, names[..i])
        invariant create ==> MakePath(store, out.value, names[i..]) == MakePath(old(store), ROOT, names)
        invariant !create ==> store == old(store) && Walk(store, out.value, names[i..]) == Walk(store, ROOT, names)
      {
        hide Wf, Insert, CanInsert, Answered;
        var at := out.value;
        ghost var before, asked := store, requests;
        assert names[i..] != [] && names[i..][0] == names[i] && names[i..][1..] == names[i + 1..];
        assert names[..i + 1] == names[..i] + [names[i]];
        MakePathOneMore(old(store), ROOT, names[..i], names[i]);
        ret, out := GetSubstorage(out, names[i], create);
        AnsweredTwo(old(requests), asked, requests);
        if out.None? {
          assert names[..0] == [];
          return;
        }
        StoresKid(before, at, names[i]);
        i := i + 1;
      }
    }

    /** What the walk leaves when it gives up: it has dealt with some of the names, in order. */
    ghost predicate PartOf(before: Store, after: Store, names: seq<string>) {
      exists j :: 0 <= j <= |names| && after == MakePath(before, ROOT, names[..j]).store
    }

    lemma WholeIsPart(before: Store, names: seq<string>)
      ensures PartOf(before, MakePath(before, ROOT, names).store, names)
    {
      assert names[..|names|] == names;
    }

    lemma StoresKid(s: Store, id: Id, name: string)
      requires Wf(s) && id in s.items
      ensures FindKid(s, id, name).Some? ==> FindKid(s, id, name).value in s.items
      ensures CanInsert(s, id, name) ==> s.next in Insert(s, id, name, Folder).items
    {
      if FindKid(s, id, name).Some? {
        KidIsNamed(s, id, name);
      }
    }

    lemma SplitIsComponents(path: string)
      ensures [] + Split(path, "/", false) == Components(path)
    {
    }

    /** `get_storage_bypath`. */
    method GetStorageByPath(path: string) returns (ret: int, out: Option<Id>)
      requires Valid()
      modifies this
      ensures Valid() && store == old(store)
      ensures ret == ERROR_SUCCESS <==> out.Some?
      ensures requests >= old(requests)
      ensures out == if Answered(old(requests), requests) then ByPath(store, path) else None
      ensures out.Some? ==> out.value in store.items
      ensures out.None? ==> ret == if path == "" then ERROR_WRONG_PARAMETER else 1
    {
      if |path| == 0 {
        return ERROR_WRONG_PARAMETER, None;
      }
      if path == "/" || path == "//" {
        return ERROR_SUCCESS, Some(ROOT);
      }
      var _, vpath := SplitStringInto(path, "/", [], false);
      assert vpath == Components(path);
      ret, out := WalkFolders(vpath, false);
      ret := if out.Some? then 0 else 1;
    }

    method CreateFolderMtp(path: string) returns (result: bool)
      requires Valid()
      modifies this
      ensures Valid()
      ensures result ==> CreateFolder(old(store), path) == Some(Created(store, old(store).next))
      ensures !result ==> store == old(store)
      ensures requests >= old(requests)
      ensures result <==> Answered(old(requests), requests) && CanCreate(old(store), path)
    {
      hide Wf, CanCreate, Answered, ByPath, LastSlash, CanInsert, Insert;
      CreateSucceedsExactlyWhen(store, path);
      AnsweredNone(requests);
      var pos := LastSlash(path);
      if pos == None {
        return false;
      }
      var toCreate, parent := path[pos.value + 1..], path[..pos.value];
      if |toCreate| == 0 || |parent| == 0 {
        return false;
      }
      var ret, storage := GetStorageByPath(parent);
      if ret != 0 {
        return false;
      }
      AnsweredOneMore(old(requests), requests);
      var ok := Request();  // Insert
      if !ok || !CanInsert(store, storage.value, toCreate) {
        return false;
      }
      InsertKeeps(store, storage.value, toCreate, Folder);
      CanInsertInside(store, storage.value, toCreate);
      store := Insert(store, storage.value, toCreate, Folder);
      return true;
    }

    method DeleteMtpItem(path: string) returns (result: bool)
      requires Valid()
      modifies this
      ensures Valid()
      ensures result ==> DeleteItem(old(store), path) == Some(store)
      ensures !result ==> store == old(store)
      ensures requests >= old(requests)
      ensures result <==> Answered(old(requests), requests) && CanDeleteItem(old(store), path)
    {
      DeleteSucceedsExactlyWhen(store, path);
      var ret, storage := GetStorageByPath(path);
      if ret != 0 {
        return false;
      }
      var ok := Request();  // Delete
      if !ok || !CanDelete(store, storage.value) {
        return false;
      }
      DeleteKeeps(store, storage.value);
      store := Delete(store, storage.value);
      return true;
    }

    method ExistFolderMtp(path: string) returns (result: bool)
      requires Valid()
      modifies this
      ensures store == old(store) && requests >= old(requests)
      ensures result <==> Answered(old(requests), requests) && ExistFolder(store, path)
    {
      var ret, storage := GetStorageByPath(path);
      return ret == 0 && store.items[storage.value].kind.Folder?;
    }

    method ExistFileMtp(path: string) returns (result: bool)
      requires Valid()
      modifies this
      ensures store == old(store) && requests >= old(requests)
      ensures result <==> Answered(old(requests), requests) && ExistFile(store, path)
    {
      var ret, storage := GetStorageByPath(path);
      return ret == 0 && store.items[storage.value].kind.File?;
    }

    /** The two interfaces of a storage that a transfer needs. */
    method QueryInterfaces() returns (ok: bool)
      modifies `requests
      ensures requests > old(requests) && (ok <==> Answered(old(requests), requests))
      ensures ok <==> !fails(old(requests)) && !fails(old(requests) + 1)
    {
      ok := Request();  // IWMDMStorage3
      if ok {
        ok := Request();  // IWMDMStorageControl3
      }
    }

    /** The end of `transfer_file`: the result of the insertion itself does not reach `ret`. */
    method InsertFile(folder: Id, filename: string, content: string) returns (ret: int, newStorage: Option<Id>)
      requires Valid() && folder in store.items
      modifies this
      ensures Valid()
      ensures requests > old(requests)
      ensures ret == if fails(old(requests)) || fails(old(requests) + 1) then E_FAIL else 0
      ensures ret != 0 ==> !Answered(old(requests), requests)
      ensures newStorage.Some? ==>
                PutFile(old(store), folder, filename, content) == Some(Created(store, newStorage.value))
      ensures newStorage.None? ==> store == old(store)
      ensures newStorage.Some? <==>
                Answered(old(requests), requests) && PutFile(old(store), folder, filename, content).Some?
    {
      hide Answered, Wf, FindFile, Insert, Overwrite, SameShape, OthersKept, Extends;
      ret, newStorage := 0, None;
      var ok := QueryInterfaces();
      if !ok {
        return E_FAIL, None;
      }
      AnsweredOneMore(old(requests), requests);
      ok := Request();  // Insert3
      if ok && CanInsert(store, folder, filename) {
        PutFileFound(store, folder, filename, content);
        var c := PutFile(store, folder, filename, content).value;
        store, newStorage := c.store, Some(c.id);
      }
    }

    /**
     `transfer_file` in MTP mode, for a source with the given content.  For an empty destination the unsigned
     bound of the walk wraps around and the first turn indexes an empty vector.  Otherwise a walk
     that gives up and an insertion that fails both return success: the walk throws the code of an earlier
     call that succeeded, and the code of the insertion is not looked at.  Another code means that the walk
     has reached its end, at a folder that lacks an interface.
     */
    method TransferFile(content: string, dest: string) returns (outcome: TransferOutcome)
      requires Valid()
      modifies this
      ensures Valid()
      ensures outcome.IndexOutOfRange? <==> dest == ""
      ensures outcome.IndexOutOfRange? ==> store == old(store)
      ensures requests >= old(requests)
      ensures outcome.Returned? ==> outcome.code == 0 || outcome.code == E_FAIL
      ensures outcome.Returned? ==>
                (outcome.inserted.Some? <==> Answered(old(requests), requests) && CanTransfer(old(store), dest))
      ensures outcome.Returned? && outcome.inserted.Some? ==>
                outcome.code == 0 && Transfer(old(store), dest, content) == Some(Created(store, outcome.inserted.value))
      ensures outcome.Returned? && outcome.inserted.None? ==> PartOf(old(store), store, FolderNames(dest))
      ensures outcome.Returned? && outcome.code != 0 ==>
                var m := MakePath(old(store), ROOT, FolderNames(dest)); m.at.Some? && store == m.store
      ensures outcome.Returned? && Answered(old(requests), requests) ==>
                && outcome.code == 0
                && (outcome.inserted.None? ==> store == MakePath(old(store), ROOT, FolderNames(dest)).store)
    {
      var filename := dest;
      var idx := LastSlash(dest);
      if idx != None {
        filename := dest[idx.value + 1..];
      }
      assert filename == AfterLastSlash(dest);
      var _, vpath := SplitStringInto(dest, "/", [], false);
      assert vpath == Components(dest);
      if |vpath| == 0 {
        assert dest == "" by {
          if dest != "" {
            ParsersAgree(dest);
          }
        }
        return IndexOutOfRange;
      }
      ParsersAgree(dest);
      assert vpath[..|vpath| - 1] == FolderNames(dest);
      hide Components, AfterLastSlash, FolderNames, PartOf, Wf, PutFile, CanTransfer, Answered;
      WholeIsPart(store, FolderNames(dest));
      TransferSucceedsExactlyWhen(store, dest, content);
      var ret, folder := WalkFolders(vpath[..|vpath| - 1], true);
      if folder.None? {
        return Returned(0, None);  // the code thrown is an earlier S_OK
      }
      var newStorage;
      ghost var asked := requests;
      ret, newStorage := InsertFile(folder.value, filename, content);
      AnsweredTwo(old(requests), asked, requests);
      return Returned(ret, newStorage);
    }

    /**
     `read_file` in MTP mode; `data` is what arrives in the local file.  A path that leads nowhere, or to
     a folder, is reported as success too.
     */
    method ReadFile(path: string) returns (ret: int, data: Option<string>)
      requires Valid()
      modifies this
      ensures Valid() && store == old(store)
      ensures requests >= old(requests)
      ensures ret == 0 || ret == E_FAIL
      ensures data.Some? ==> ret == 0 && data == ReadItem(store, path)
      ensures data.Some? <==> Answered(old(requests), requests) && ExistFile(store, path)
      ensures Walk(store, ROOT, Components(path)).None? || Answered(old(requests), requests) ==> ret == 0
    {
      hide Answered, Wf, Walk, Components, ExistFile, PartOf;
      data := None;
      ReadSucceedsExactlyWhen(store, path);
      var _, vpath := SplitStringInto(path, "/", [], false);
      SplitIsComponents(path);
      var storage;
      ret, storage := WalkFolders(vpath, false);
      if storage.None? {
        return 0, None;
      }
      ghost var asked := requests;
      var ok := QueryInterfaces();
      AnsweredTwo(old(requests), asked, requests);
      if !ok {
        return E_FAIL, None;
      }
      AnsweredOneMore(old(requests), requests);
      ok := Request();  // Read
      if ok && store.items[storage.value].kind.File? {
        data := Some(store.items[storage.value].kind.content);
      }
    }
  }

  // ----- success that is none -----

  /** A reliable device returns 0 for a destination without a name, and for one that goes through a file. */
  method TransferNothing(content: string) returns (slash: TransferOutcome, through: TransferOutcome, after: Store)
    ensures slash == through == Returned(0, None) && after == SmallStore()
  {
    SmallStoreIsWf();
    TransferCanFail(content);
    hide SmallStore, CanTransfer, Transfer, MakePath, FolderNames, PutFile, Wf;
    var device := new UsbDevice(SmallStore(), _ => false);
    slash := device.TransferFile(content, "a/");
    through := device.TransferFile(content, "f/b");
    after := device.store;
  }

  /** A reliable device returns 0 for the reading of a folder, and of a path that leads nowhere. */
  method ReadNothing() returns (folder: int, nowhere: int, data: seq<Option<string>>)
    ensures folder == nowhere == 0 && data == [None, None]
  {
    SmallStoreIsWf();
    ReadCanFail();
    var device := new UsbDevice(SmallStore(), _ => false);
    var first, second;
    hide *;
    folder, first := device.ReadFile("a");
    nowhere, second := device.ReadFile("b");
    data := [first, second];
  }
}
