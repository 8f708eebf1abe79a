/** The list of files to copy, and the recursive collector that adds a file or a directory to it. */
module CopyList {
  import opened FileSystem
  import opened Preorder

  const SEPARATOR := "\\"
  const WARNING_NUMBER_OF_FILES: nat := 1000

  /** `NullListing` is the exception that listing an unreadable directory ends in. */
  datatype Outcome = Done | Refused | NullListing

  /** The mp3 files met on the way, in preorder, and whether the walk got to the end. */
  datatype Stream = Stream(paths: seq<string>, complete: bool)

  function Then(first: Stream, second: Stream): Stream {
    if first.complete then Stream(first.paths + second.paths, second.complete) else first
  }

  function ChildPath(path: string, child: Fs): string {
    path + SEPARATOR + child.name
  }

  function Mp3s(path: string, fs: Fs): Stream
    decreases fs, 1
  {
    match fs
    case File(_) => Stream(if EndsWith(path, "mp3") then [path] else [], true)
    case Special(_) => Stream([], true)
    case Dir(_, listable, children) => if listable then Mp3sOfAll(path, children) else Stream([], false)
  }

  function Mp3sOfAll(path: string, children: seq<Fs>): Stream
    decreases children, 0
  {
    if children == [] then Stream([], true)
    else
      assert children[0] in children;
      Then(Mp3s(ChildPath(path, children[0]), children[0]), Mp3sOfAll(path, children[1..]))
  }

  /** The paths that are not in `list`, each where it occurs first. */
  function FirstNew(list: seq<string>, paths: seq<string>): seq<string> {
    if paths == [] then []
    else
      var front, last := paths[..|paths| - 1], paths[|paths| - 1];
      FirstNew(list, front) + if last in list || last in front then [] else [last]
  }

  function Full(list: seq<string>, paths: seq<string>): seq<string> {
    list + FirstNew(list, paths)
  }

  /** What a walk makes of a list, given the user's answer to the one question it may ask. */
  datatype Result = Result(list: seq<string>, outcome: Outcome)

  function Collect(list: seq<string>, stream: Stream, confirm: bool): Result {
    var full := Full(list, stream.paths);
    if !confirm && |list| <= WARNING_NUMBER_OF_FILES < |full| then
      Result(full[..WARNING_NUMBER_OF_FILES + 1], Refused)
    else
      Result(full, if stream.complete then Done else NullListing)
  }

  // ----- the list after two walks -----

  lemma {:induction false} FirstNewMembers(list: seq<string>, paths: seq<string>, x: string)
    ensures x in FirstNew(list, paths) <==> x in paths && x !in list
    decreases |paths|
  {
    if paths != [] {
      FirstNewMembers(list, paths[..|paths| - 1], x);
      assert paths == paths[..|paths| - 1] + [paths[|paths| - 1]];
    }
  }

  /** The path at a place of the walk is neither listed already nor met before. */
  predicate IsNew(list: seq<string>, paths: seq<string>, i: nat)
    requires i < |paths|
  {
    paths[i] !in list && paths[i] !in paths[..i]
  }

  /** `at` are the places of new paths, in order, and `news` are the paths there. */
  predicate NewPlaces(list: seq<string>, paths: seq<string>, at: seq<nat>, news: seq<string>) {
    && |at| == |news|
    && (forall k :: 0 <= k < |at| ==> at[k] < |paths| && news[k] == paths[at[k]])
    && (forall j, k :: 0 <= j < k < |at| ==> at[j] < at[k])
    && (forall i :: 0 <= i < |paths| ==> (i in at <==> IsNew(list, paths, i)))
  }

  lemma OnePlaceMore(list: seq<string>, front: seq<string>, last: string, at: seq<nat>, news: seq<string>)
    requires NewPlaces(list, front, at, news)
    ensures var isNew := last !in list && last !in front;
            NewPlaces(list, front + [last], if isNew then at + [|front|] else at, if isNew then news + [last] else news)
  {
    var paths := front + [last];
    assert paths[..|front|] == front;
    forall i | 0 <= i < |front|
      ensures IsNew(list, paths, i) <==> IsNew(list, front, i)
    {
      assert front[..i] == paths[..i];
    }
  }

  lemma FirstNewOfLast(list: seq<string>, front: seq<string>, last: string)
    ensures FirstNew(list, []) == []
    ensures FirstNew(list, front + [last])
            == if last !in list && last !in front then FirstNew(list, front) + [last] else FirstNew(list, front)
  {
    assert (front + [last])[..|front|] == front;
  }

  /** What is appended are the paths at the places where a new one is met, in the order of the walk. */
  lemma {:induction false} FirstNewInOrder(list: seq<string>, paths: seq<string>) returns (at: seq<nat>)
    ensures NewPlaces(list, paths, at, FirstNew(list, paths))
    decreases |paths|
  {
    hide FirstNew, IsNew;
    if paths == [] {
      FirstNewOfLast(list, [], "");
      return [];
    }
    var front, last := paths[..|paths| - 1], paths[|paths| - 1];
    at := FirstNewInOrder(list, front);
    at := PlacesOfLast(list, front, last, at);
    assert front + [last] == paths;
  }

  lemma PlacesOfLast(list: seq<string>, front: seq<string>, last: string, at: seq<nat>) returns (after: seq<nat>)
    requires NewPlaces(list, front, at, FirstNew(list, front))
    ensures NewPlaces(list, front + [last], after, FirstNew(list, front + [last]))
  {
    hide FirstNew, NewPlaces;
    OnePlaceMore(list, front, last, at, FirstNew(list, front));
    FirstNewOfLast(list, front, last);
    after := if last !in list && last !in front then at + [|front|] else at;
  }

  lemma {:induction false} FirstNewOfTwo(list: seq<string>, xs: seq<string>, ys: seq<string>)
    ensures FirstNew(list, xs + ys) == FirstNew(list, xs) + FirstNew(Full(list, xs), ys)
    decreases |ys|
  {
    if ys == [] {
      assert xs + ys == xs;
    } else {
      var front, last := ys[..|ys| - 1], ys[|ys| - 1];
      assert (xs + ys)[..|xs + ys| - 1] == xs + front;
      FirstNewOfTwo(list, xs, front);
      FirstNewMembers(list, xs, last);
    }
  }

  lemma FullOfTwo(list: seq<string>, xs: seq<string>, ys: seq<string>)
    ensures Full(list, xs + ys) == Full(Full(list, xs), ys)
  {
    FirstNewOfTwo(list, xs, ys);
  }

  /** Collecting two streams one after the other, with the same answer, is collecting both at once. */
  lemma CollectTwo(list: seq<string>, first: Stream, second: Stream, confirm: bool)
    ensures Collect(list, Then(first, second), confirm)
            == var r := Collect(list, first, confirm);
               if r.outcome == Done then Collect(r.list, second, confirm) else r
  {
    FullOfTwo(list, first.paths, second.paths);
    var one, both := Full(list, first.paths), Full(list, first.paths + second.paths);
    assert one <= both;
    assert |one| > WARNING_NUMBER_OF_FILES ==>
      one[..WARNING_NUMBER_OF_FILES + 1] == both[..WARNING_NUMBER_OF_FILES + 1];
  }

  lemma OneFile(list: seq<string>, path: string)
    ensures Full(list, [path]) == if path in list then list else list + [path]
    ensures Full(list, []) == list
  {
    assert [path][..0] == [];
    assert FirstNew(list, [path]) == FirstNew(list, []) + if path in list then [] else [path];
  }

  // ----- the collector -----

  class CopyModel {
    var listModel: seq<string>

    /** The part of `addNodeToList` for a file. */
    method AddFile(pathToAdd: string, confirm: bool) returns (outcome: Outcome)
      modifies this
      ensures Result(listModel, outcome)
              == Collect(old(listModel), Stream(if EndsWith(pathToAdd, "mp3") then [pathToAdd] else [], true), confirm)
    {
      outcome := Done;
      OneFile(listModel, pathToAdd);
      if EndsWith(pathToAdd, "mp3") {
        var found := false;
        for index := 0 to |listModel|
          invariant found <==> pathToAdd in listModel[..index]
        {
          if pathToAdd == listModel[index] {
            found := true;
          }
        }
        assert listModel[..|listModel|] == listModel;
        if !found {
          if |listModel| == WARNING_NUMBER_OF_FILES && !confirm {
            outcome := Refused;
          }
          listModel := listModel + [pathToAdd];
          assert listModel[..|listModel|] == listModel;
        }
      }
    }

    /** `addNodeToList`; `confirm` is the user's answer if asked whether to go on. */
    method AddNodeToList(pathToAdd: string, file: Fs, confirm: bool) returns (outcome: Outcome)
      modifies this
      ensures Result(listModel, outcome) == Collect(old(listModel), Mp3s(pathToAdd, file), confirm)
      decreases file
    {
      match file
      case File(_) => outcome := AddFile(pathToAdd, confirm);
      case Special(_) =>
        OneFile(listModel, pathToAdd);
        outcome := Done;
      case Dir(_, listable, children) =>
        OneFile(listModel, pathToAdd);
        if !listable {
          return NullListing;
        }
        outcome := Done;
        var i := 0;
        assert children[0..] == children;
        while i < |children|
          invariant 0 <= i <= |children| && outcome == Done
          invariant Collect(old(listModel), Mp3sOfAll(pathToAdd, children), confirm)
                    == Collect(listModel, Mp3sOfAll(pathToAdd, children[i..]), confirm)
        {
          hide Collect;
          assert children[i] in children && children[i..][1..] == children[i + 1..];
          var path := ChildPath(pathToAdd, children[i]);
          CollectTwo(listModel, Mp3s(path, children[i]), Mp3sOfAll(pathToAdd, children[i + 1..]), confirm);
          outcome := AddNodeToList(path, children[i], confirm);
          if outcome != Done {
            return;
          }
          i := i + 1;
        }
        OneFile(listModel, pathToAdd);
    }
  }

  // ----- which files the walk meets -----

  /** Follows indices into directories. */
  predicate Exists(file: Fs, way: seq<nat>)
    decreases |way|
  {
    way == [] || (file.Dir? && way[0] < |file.entries| && Exists(file.entries[way[0]], way[1..]))
  }

  function EntryAt(file: Fs, way: seq<nat>): Fs
    requires Exists(file, way)
    decreases |way|
  {
    if way == [] then file else EntryAt(file.entries[way[0]], way[1..])
  }

  function PathTo(path: string, file: Fs, way: seq<nat>): string
    requires Exists(file, way)
    decreases |way|
  {
    if way == [] then path
    else PathTo(ChildPath(path, file.entries[way[0]]), file.entries[way[0]], way[1..])
  }

  predicate AllListable(file: Fs) {
    file.Dir? ==> file.listable && forall child :: child in file.entries ==> AllListable(child)
  }

  /** No directory that cannot be listed comes before the entry in the walk. */
  predicate Reached(file: Fs, way: seq<nat>)
    requires Exists(file, way)
    decreases |way|
  {
    way == [] ||
    (file.listable && (forall j :: 0 <= j < way[0] ==> AllListable(file.entries[j]))
     && Reached(file.entries[way[0]], way[1..]))
  }

  /** `x` is the path of an mp3 file at the end of the given way. */
  predicate LeadsToMp3(path: string, file: Fs, way: seq<nat>, x: string) {
    Exists(file, way) && EntryAt(file, way).File? && PathTo(path, file, way) == x && EndsWith(x, "mp3")
  }

  ghost predicate IsMp3Below(path: string, file: Fs, x: string) {
    exists way :: LeadsToMp3(path, file, way, x)
  }

  ghost predicate IsMp3Reached(path: string, file: Fs, x: string) {
    exists way :: LeadsToMp3(path, file, way, x) && Reached(file, way)
  }

  /** The walk gets to its end exactly if it meets no directory that cannot be listed. */
  lemma {:induction false} CompleteExactlyWhen(path: string, file: Fs)
    ensures Mp3s(path, file).complete <==> AllListable(file)
    decreases file, 1
  {
    if file.Dir? {
      assert file.entries[0..] == file.entries;
      CompleteOfAll(path, file.entries, 0);
    }
  }

  lemma {:induction false} CompleteOfAll(path: string, children: seq<Fs>, from: nat)
    requires from <= |children|
    ensures Mp3sOfAll(path, children[from..]).complete
            <==> forall j :: from <= j < |children| ==> AllListable(children[j])
    decreases children, 0, |children| - from
  {
    if from < |children| {
      var child := children[from];
      assert child in children && children[from..][1..] == children[from + 1..];
      CompleteExactlyWhen(ChildPath(path, child), child);
      CompleteOfAll(path, children, from + 1);
    }
  }

  /** The way leads to an mp3 file that the walk gets to, and `x` is its path. */
  predicate MeetsMp3(path: string, file: Fs, way: Route, x: string) {
    LeadsToMp3(path, file, way, x) && Reached(file, way)
  }

  /** The same below a list of children, for the ways through those from number `from` on. */
  predicate MeetsMp3From(path: string, children: seq<Fs>, from: nat, way: Route, x: string) {
    && way != [] && from <= way[0] < |children|
    && (forall j :: from <= j < way[0] ==> AllListable(children[j]))
    && MeetsMp3(ChildPath(path, children[way[0]]), children[way[0]], way[1..], x)
  }

  /** `ways` are all the ways to mp3 files that the walk gets to, in preorder, and `paths` are their paths. */
  ghost predicate Listed(path: string, file: Fs, ways: seq<Route>, paths: seq<string>) {
    && InOrder(ways) && |ways| == |paths|
    && (forall k :: 0 <= k < |ways| ==> MeetsMp3(path, file, ways[k], paths[k]))
    && (forall way, x :: MeetsMp3(path, file, way, x) ==> way in ways)
  }

  ghost predicate ListedFrom(path: string, children: seq<Fs>, from: nat, ways: seq<Route>, paths: seq<string>) {
    && InOrder(ways) && |ways| == |paths|
    && (forall k :: 0 <= k < |ways| ==> MeetsMp3From(path, children, from, ways[k], paths[k]))
    && (forall way, x :: MeetsMp3From(path, children, from, way, x) ==> way in ways)
  }

  lemma ListedFile(path: string, file: Fs)
    requires !file.Dir? || !file.listable
    ensures Listed(path, file, if file.File? && EndsWith(path, "mp3") then [[]] else [], Mp3s(path, file).paths)
  {
  }

  lemma ListedDirectory(path: string, file: Fs, ways: seq<Route>, paths: seq<string>)
    requires file.Dir? && file.listable && ListedFrom(path, file.entries, 0, ways, paths)
    ensures Listed(path, file, ways, paths)
  {
    forall way, x
      ensures MeetsMp3(path, file, way, x) <==> MeetsMp3From(path, file.entries, 0, way, x)
    {
    }
  }

  /** What the walk meets below one child, and after it if that child has been walked to its end. */
  lemma ListedChild(path: string, children: seq<Fs>, from: nat, ways: seq<Route>, paths: seq<string>,
                    waysAfter: seq<Route>, pathsAfter: seq<string>)
    requires from < |children|
    requires Listed(ChildPath(path, children[from]), children[from], ways, paths)
    requires if AllListable(children[from]) then ListedFrom(path, children, from + 1, waysAfter, pathsAfter)
             else waysAfter == [] && pathsAfter == []
    ensures ListedFrom(path, children, from, Through(from, ways) + waysAfter, paths + pathsAfter)
  {
    hide AllListable, MeetsMp3;
    var here, all := Through(from, ways), Through(from, ways) + waysAfter;
    OneAfterTheOther(from, ways, waysAfter);
    forall k | 0 <= k < |all|
      ensures MeetsMp3From(path, children, from, all[k], (paths + pathsAfter)[k])
    {
      if k < |here| {
        assert here[k][1..] == ways[k];
      } else {
        assert all[k] == waysAfter[k - |here|];
      }
    }
    forall way, x | MeetsMp3From(path, children, from, way, x)
      ensures way in all
    {
      InThrough(from, ways, way);
      assert way[0] > from ==> AllListable(children[from]) && MeetsMp3From(path, children, from + 1, way, x);
    }
  }

  lemma {:induction false} WalkFile(path: string, file: Fs) returns (ways: seq<Route>)
    ensures Listed(path, file, ways, Mp3s(path, file).paths)
    decreases file, 1
  {
    hide Listed, ListedFrom;
    if file.Dir? && file.listable {
      assert file.entries[0..] == file.entries;
      ways := WalkChildren(path, file.entries, 0);
      ListedDirectory(path, file, ways, Mp3s(path, file).paths);
    } else {
      ways := if file.File? && EndsWith(path, "mp3") then [[]] else [];
      ListedFile(path, file);
    }
  }

  lemma {:induction false} WalkChildren(path: string, children: seq<Fs>, from: nat) returns (ways: seq<Route>)
    requires from <= |children|
    ensures ListedFrom(path, children, from, ways, Mp3sOfAll(path, children[from..]).paths)
    decreases children, 0, |children| - from
  {
    if from == |children| {
      return [];
    }
    hide Listed, ListedFrom, AllListable;
    var child := children[from];
    assert child in children && children[from..][1..] == children[from + 1..];
    var here := WalkFile(ChildPath(path, child), child);
    var after := WalkChildren(path, children, from + 1);
    var paths := Mp3s(ChildPath(path, child), child).paths;
    CompleteExactlyWhen(ChildPath(path, child), child);
    if AllListable(child) {
      ListedChild(path, children, from, here, paths, after, Mp3sOfAll(path, children[from + 1..]).paths);
      ways := Through(from, here) + after;
    } else {
      ListedChild(path, children, from, here, paths, [], []);
      assert paths + [] == paths;
      ways := Through(from, here) + [];
    }
  }

  lemma {:induction false} AllReached(file: Fs, way: Route)
    requires AllListable(file) && Exists(file, way)
    ensures Reached(file, way)
    decreases |way|
  {
    if way != [] {
      AllReached(file.entries[way[0]], way[1..]);
    }
  }

  /**
   The walk meets exactly the mp3 files that come before the first directory that cannot be listed, each
   once and in preorder; and so all mp3 files below the selected path if there is no such directory.
   */
  lemma WalkMeetsExactlyMp3s(path: string, file: Fs) returns (ways: seq<Route>)
    ensures var paths := Mp3s(path, file).paths;
            && InOrder(ways) && |ways| == |paths|
            && (forall k :: 0 <= k < |ways| ==> LeadsToMp3(path, file, ways[k], paths[k]))
            && (forall way, x :: LeadsToMp3(path, file, way, x) ==> (way in ways <==> Reached(file, way)))
    ensures AllListable(file) ==> forall way, x :: LeadsToMp3(path, file, way, x) ==> way in ways
  {
    ways := WalkFile(path, file);
    forall way, x | LeadsToMp3(path, file, way, x)
      ensures way in ways <==> Reached(file, way)
      ensures AllListable(file) ==> way in ways
    {
      assert Reached(file, way) <==> MeetsMp3(path, file, way, x);
      if AllListable(file) {
        AllReached(file, way);
      }
    }
  }

  /** The paths that the walk meets are those of the mp3 files at or below the selected path. */
  lemma WalkPaths(path: string, file: Fs, x: string)
    ensures x in Mp3s(path, file).paths <==> IsMp3Reached(path, file, x)
    ensures AllListable(file) ==> (x in Mp3s(path, file).paths <==> IsMp3Below(path, file, x))
  {
    var ways := WalkMeetsExactlyMp3s(path, file);
    var paths := Mp3s(path, file).paths;
    if x in paths {
      var k :| 0 <= k < |paths| && paths[k] == x;
      assert LeadsToMp3(path, file, ways[k], x) && Reached(file, ways[k]);
    }
    if way :| LeadsToMp3(path, file, way, x) && way in ways {
      var k :| 0 <= k < |ways| && ways[k] == way;
      assert paths[k] == x;
    }
  }

  // ----- the paths of files -----

  function NamesOn(file: Fs, way: Route): seq<string>
    requires Exists(file, way)
    decreases |way|
  {
    if way == [] then []
    else [file.entries[way[0]].name] + NamesOn(file.entries[way[0]], way[1..])
  }

  /** The names, each behind a backslash. */
  function Spelled(names: seq<string>): string {
    if names == [] then "" else "\\" + names[0] + Spelled(names[1..])
  }

  /** The path of a file is the selected path followed by all the names on the way to it. */
  lemma {:induction false} PathSpellsNames(path: string, file: Fs, way: Route)
    requires Exists(file, way)
    ensures PathTo(path, file, way) == path + Spelled(NamesOn(file, way))
    decreases |way|
  {
    if way != [] {
      var child, rest := file.entries[way[0]], NamesOn(file.entries[way[0]], way[1..]);
      PathSpellsNames(ChildPath(path, child), child, way[1..]);
      assert ([child.name] + rest)[1..] == rest;
      assert path + "\\" + child.name + Spelled(rest) == path + ("\\" + child.name + Spelled(rest));
    }
  }

  /** So it is the path of the directory that holds the file, a backslash, and the file's name. */
  lemma {:induction false} PathOfLast(path: string, file: Fs, way: Route)
    requires way != [] && Exists(file, way)
    ensures var up := way[..|way| - 1];
            Exists(file, up) && PathTo(path, file, way) == PathTo(path, file, up) + "\\" + EntryAt(file, way).name
    decreases |way|
  {
    if |way| > 1 {
      var child := file.entries[way[0]];
      PathOfLast(ChildPath(path, child), child, way[1..]);
      assert way[..|way| - 1][1..] == way[1..][..|way| - 2];
    }
  }

  /** In every directory the names differ, and none holds a backslash. */
  predicate PlainNames(file: Fs) {
    file.Dir? ==>
      && (forall child :: child in file.entries ==> '\\' !in child.name && PlainNames(child))
      && (forall i, j :: 0 <= i < j < |file.entries| ==> file.entries[i].name != file.entries[j].name)
  }

  lemma FirstNameEnds(a: string, b: string, rest: string, rest': string)
    requires '\\' !in a && '\\' !in b && a + rest == b + rest' && |a| <= |b|
    requires (rest == "" || rest[0] == '\\') && (rest' == "" || rest'[0] == '\\')
    ensures a == b && rest == rest'
  {
    var all := a + rest;
    assert all[..|a|] == a && all[|a|..] == rest && all == b + rest';
    assert all[..|b|] == b && all[|b|..] == rest';
  }

  predicate NoBackslash(names: seq<string>) {
    forall n :: n in names ==> '\\' !in n
  }

  lemma {:induction false} SpelledApart(a: seq<string>, b: seq<string>)
    requires NoBackslash(a) && NoBackslash(b) && Spelled(a) == Spelled(b)
    ensures a == b
    decreases |a|
  {
    if a != [] && b != [] {
      assert a[0] in a && b[0] in b;
      var rest, rest' := Spelled(a[1..]), Spelled(b[1..]);
      assert Spelled(a)[1..] == a[0] + rest && Spelled(b)[1..] == b[0] + rest';
      if |a[0]| <= |b[0]| {
        FirstNameEnds(a[0], b[0], rest, rest');
      } else {
        FirstNameEnds(b[0], a[0], rest', rest);
      }
      SpelledApart(a[1..], b[1..]);
      assert a == [a[0]] + a[1..] && b == [b[0]] + b[1..];
    }
  }

  lemma {:induction false} NamesFixWay(file: Fs, way: Route, other: Route)
    requires PlainNames(file) && Exists(file, way) && Exists(file, other)
    ensures NoBackslash(NamesOn(file, way))
    ensures NamesOn(file, way) == NamesOn(file, other) ==> way == other
    decreases |way|
  {
    if way != [] {
      var child, rest := file.entries[way[0]], NamesOn(file.entries[way[0]], way[1..]);
      assert child in file.entries;
      assert NamesOn(file, way)[0] == child.name && NamesOn(file, way)[1..] == rest;
      NamesFixWay(child, way[1..], []);
      if other != [] && NamesOn(file, way) == NamesOn(file, other) {
        assert NamesOn(file, other)[0] == file.entries[other[0]].name;
        assert NamesOn(file, other)[1..] == NamesOn(file.entries[other[0]], other[1..]);
        assert way[0] == other[0];
        NamesFixWay(child, way[1..], other[1..]);
        assert way == [way[0]] + way[1..] && other == [other[0]] + other[1..];
      }
    }
  }

  /** Where names are plain, different files have different paths. */
  lemma WaysHaveOwnPaths(path: string, file: Fs, way: Route, other: Route)
    requires PlainNames(file) && Exists(file, way) && Exists(file, other)
    ensures PathTo(path, file, way) == PathTo(path, file, other) ==> way == other
  {
    PathSpellsNames(path, file, way);
    PathSpellsNames(path, file, other);
    NamesFixWay(file, way, other);
    NamesFixWay(file, other, way);
    var a, b := Spelled(NamesOn(file, way)), Spelled(NamesOn(file, other));
    if path + a == path + b {
      assert (path + a)[|path|..] == a && (path + b)[|path|..] == b;
      SpelledApart(NamesOn(file, way), NamesOn(file, other));
    }
  }

  lemma {:induction false} AllNew(paths: seq<string>)
    requires Distinct(paths)
    ensures FirstNew([], paths) == paths
    decreases |paths|
  {
    if paths != [] {
      var front := paths[..|paths| - 1];
      AllNew(front);
      assert paths == front + [paths[|paths| - 1]];
    }
  }

  /** So a walk from an empty list collects every mp3 file it gets to, none being taken for another. */
  lemma NoneTakenForAnother(path: string, file: Fs)
    requires PlainNames(file)
    ensures Full([], Mp3s(path, file).paths) == Mp3s(path, file).paths
  {
    var ways := WalkMeetsExactlyMp3s(path, file);
    var paths := Mp3s(path, file).paths;
    forall i, j | 0 <= i < j < |paths|
      ensures paths[i] != paths[j]
    {
      NotBeforeItself(ways[i]);
      WaysHaveOwnPaths(path, file, ways[i], ways[j]);
    }
    AllNew(paths);
  }

  // ----- what the list promises -----

  predicate Distinct(list: seq<string>) {
    forall i, j :: 0 <= i < j < |list| ==> list[i] != list[j]
  }

  lemma {:induction false} FullDistinct(list: seq<string>, paths: seq<string>)
    requires Distinct(list)
    ensures Distinct(Full(list, paths))
    decreases |paths|
  {
    if paths != [] {
      var front, last := paths[..|paths| - 1], paths[|paths| - 1];
      FullDistinct(list, front);
      FirstNewMembers(list, front, last);
      var before := Full(list, front);
      assert last !in list && last !in front ==> last !in before;
      assert Full(list, paths) == before + if last in list || last in front then [] else [last];
    }
  }

  /**
   Whatever is selected: the list stays free of duplicates and keeps its old entries as a prefix; what is
   appended are the walk's files that were not listed yet; and unless the user refuses, all of them.
   A refusal leaves the first 1001 entries of the full result, and only happens on crossing 1000.  Otherwise
   the collector ends by an exception exactly if some directory at or below the path cannot be listed.
   */
  lemma CollectKeepsListSound(list: seq<string>, path: string, file: Fs, confirm: bool)
    requires Distinct(list)
    ensures var r, full := Collect(list, Mp3s(path, file), confirm), Full(list, Mp3s(path, file).paths);
            && Distinct(r.list) && list <= r.list && r.list <= full
            && (forall x :: x in full <==> x in list || x in Mp3s(path, file).paths)
            && (r.outcome == Refused <==> !confirm && |list| <= 1000 < |full|)
            && (if r.outcome == Refused then |r.list| == 1001 else r.list == full)
            && (r.outcome == NullListing <==> r.outcome != Refused && !AllListable(file))
  {
    CompleteExactlyWhen(path, file);
    var paths := Mp3s(path, file).paths;
    FullDistinct(list, paths);
    forall x
      ensures x in Full(list, paths) <==> x in list || x in paths
    {
      FirstNewMembers(list, paths, x);
    }
  }

  /** A corollary: the list forgets a refusal, and the next path selected is added in full, without another question. */
  lemma RefusalIsForgotten(list: seq<string>, stream: Stream, next: Stream, confirm: bool)
    requires Collect(list, stream, false).outcome == Refused
    ensures var r := Collect(list, stream, false);
            Collect(r.list, next, confirm).outcome != Refused
            && Collect(r.list, next, confirm).list == Full(r.list, next.paths)
  {
  }

  /** A directory with a file on either side of an unreadable subdirectory. */
  function Music(): Fs {
    Dir("m", true, [File("a.mp3"), Dir("d", false, []), File("b.mp3")])
  }

  /** The exception at an unreadable directory costs the files after it: "b.mp3" is not collected. */
  lemma UnreadableDirectoryEndsWalk(confirm: bool)
    ensures Collect([], Mp3s("m", Music()), confirm) == Result(["m\\a.mp3"], NullListing)
  {
    hide Music, Mp3s, FirstNew;
    MusicWalk();
    OneFile([], "m\\a.mp3");
  }

  lemma MusicWalk()
    ensures Mp3s("m", Music()) == Stream(["m\\a.mp3"], false)
  {
    var children := Music().entries;
    MusicParts(children);
  }

  lemma MusicParts(children: seq<Fs>)
    requires |children| > 1 && children[0] == File("a.mp3") && children[1] == Dir("d", false, [])
    ensures Mp3sOfAll("m", children) == Stream(["m\\a.mp3"], false)
  {
    var first := ChildPath("m", children[0]);
    assert first == "m\\a.mp3" && first[|first| - 3..] == "mp3";
    assert Mp3sOfAll("m", children[1..]) == Stream([], false);
    assert Mp3s(first, children[0]) == Stream([first], true);
    assert [first] + [] == [first];
  }
}
