/** The path splitter of helperlib.cpp, and the other way the device code takes a path apart. */
module SplitString {
  import opened Wrappers

  predicate OccursAt(s: string, d: string, i: nat) {
    i + |d| <= |s| && s[i..i + |d|] == d
  }

  /** `std::wstring::find(d, 0)`: the first place where `d` occurs in `s`. */
  function Find(s: string, d: string): (r: Option<nat>)
    requires d != ""
    ensures r.Some? ==> OccursAt(s, d, r.value)
  {
    if |s| < |d| then None
    else if s[..|d|] == d then Some(0)
    else
      var rest := Find(s[1..], d);
      if rest.None? then None
      else
        assert s[rest.value + 1..rest.value + 1 + |d|] == s[1..][rest.value..rest.value + |d|];
        Some(rest.value + 1)
  }

  lemma {:induction false} FindIsFirst(s: string, d: string, i: nat)
    requires d != "" && OccursAt(s, d, i)
    ensures Find(s, d).Some? && Find(s, d).value <= i
    decreases |s|
  {
    if i > 0 && s[..|d|] != d {
      assert s[1..][i - 1..i - 1 + |d|] == s[i..i + |d|];
      FindIsFirst(s[1..], d, i - 1);
    }
  }

  function StripLeadingSlash(s: string): string {
    if s != "" && s[0] == '/' then s[1..] else s
  }

  /** The tokens of what remains to be split; one character is skipped for each delimiter found. */
  function Tokens(temp: string, delimiter: string, includeEmpties: bool): seq<string>
    requires delimiter != ""
    decreases |temp|
  {
    match Find(temp, delimiter)
    case None => [temp]
    case Some(i) =>
      (if i > 0 || includeEmpties then [temp[..i]] else []) + Tokens(temp[i + 1..], delimiter, includeEmpties)
  }

  function Split(input: string, delimiter: string, includeEmpties: bool): seq<string> {
    if input == "" || delimiter == "" then [] else Tokens(StripLeadingSlash(input), delimiter, includeEmpties)
  }

  /** `results0` is the vector the caller passes in; the tokens are pushed onto it. */
  method SplitStringInto(input: string, delimiter: string, results0: seq<string>, includeEmpties: bool)
    returns (numFound: nat, results: seq<string>)
    ensures results == results0 + Split(input, delimiter, includeEmpties)
    ensures numFound == |results| - |results0|
  {
    results, numFound := results0, 0;
    var temp := input;
    if |input| == 0 || |delimiter| == 0 {
      return;
    }
    if temp[0] == '/' {
      temp := temp[1..];
    }
    ghost var tokens := Tokens(temp, delimiter, includeEmpties);
    assert Split(input, delimiter, includeEmpties) == tokens;
    NothingFound(temp, delimiter, includeEmpties);
    hide *;
    var ipos := Find(temp, delimiter);
    if ipos == None {
      results := results + [temp];
      return 1, results;
    }
    while ipos != None
      invariant ipos == Find(temp, delimiter)
      invariant StillToPush(results, temp, delimiter, includeEmpties, results0 + tokens)
      invariant numFound == |results| - |results0|
      decreases |temp|
    {
      PushThenRest(results, temp, delimiter, includeEmpties, results0 + tokens);
      var token := temp[..ipos.value];
      if |token| > 0 || (|token| == 0 && includeEmpties) {
        results := results + [token];
        numFound := numFound + 1;
      }
      temp := temp[ipos.value + 1..];
      ipos := Find(temp, delimiter);
    }
    PushLast(results, temp, delimiter, includeEmpties, results0 + tokens);
    results := results + [temp];
    numFound := numFound + 1;
  }

  /** With the tokens of `temp` pushed, the vector is `all`. */
  predicate StillToPush(results: seq<string>, temp: string, delimiter: string, includeEmpties: bool, all: seq<string>)
    requires delimiter != ""
  {
    results + Tokens(temp, delimiter, includeEmpties) == all
  }

  lemma NothingFound(temp: string, delimiter: string, includeEmpties: bool)
    requires delimiter != ""
    ensures Find(temp, delimiter).None? ==> Tokens(temp, delimiter, includeEmpties) == [temp]
    ensures forall results0 :: StillToPush(results0, temp, delimiter, includeEmpties,
                                           results0 + Tokens(temp, delimiter, includeEmpties))
  {
  }

  lemma PushThenRest(results: seq<string>, temp: string, delimiter: string, includeEmpties: bool, all: seq<string>)
    requires delimiter != "" && Find(temp, delimiter).Some?
    requires StillToPush(results, temp, delimiter, includeEmpties, all)
    ensures var i := Find(temp, delimiter).value;
            && i < |temp|
            && StillToPush(if i > 0 || includeEmpties then results + [temp[..i]] else results,
                           temp[i + 1..], delimiter, includeEmpties, all)
  {
    hide Find;
    var i := Find(temp, delimiter).value;
    var rest := Tokens(temp[i + 1..], delimiter, includeEmpties);
    assert results + ([temp[..i]] + rest) == (results + [temp[..i]]) + rest;
    assert results + ([] + rest) == results + rest;
  }

  lemma PushLast(results: seq<string>, temp: string, delimiter: string, includeEmpties: bool, all: seq<string>)
    requires delimiter != "" && Find(temp, delimiter).None?
    requires StillToPush(results, temp, delimiter, includeEmpties, all)
    ensures results + [temp] == all
  {
  }

  // ----- a one-character delimiter -----

  function Join(tokens: seq<string>, delimiter: string): string
    requires tokens != []
  {
    if |tokens| == 1 then tokens[0] else tokens[0] + delimiter + Join(tokens[1..], delimiter)
  }

  predicate FreeOf(tokens: seq<string>, c: char) {
    forall t :: t in tokens ==> c !in t
  }

  lemma FindSound(s: string, c: char)
    requires Find(s, [c]).Some?
    ensures var i := Find(s, [c]).value; i < |s| && s[i] == c
  {
    var i := Find(s, [c]).value;
    hide Find;
    assert s[i..i + 1][0] == c;
  }

  lemma FindComplete(s: string, c: char, i: nat)
    requires i < |s| && s[i] == c
    ensures Find(s, [c]).Some? && Find(s, [c]).value <= i
  {
    hide Find;
    assert s[i..i + 1] == [c];
    FindIsFirst(s, [c], i);
  }

  lemma FindAbsent(s: string, c: char)
    ensures Find(s, [c]).None? <==> c !in s
  {
    hide Find;
    if c in s {
      var i :| 0 <= i < |s| && s[i] == c;
      FindComplete(s, c, i);
    } else if Find(s, [c]).Some? {
      FindSound(s, c);
    }
  }

  lemma FindPrefix(s: string, c: char)
    requires Find(s, [c]).Some?
    ensures var i := Find(s, [c]).value; i < |s| && s[i] == c && c !in s[..i]
  {
    hide Find;
    FindSound(s, c);
    var i := Find(s, [c]).value;
    if c in s[..i] {
      var j :| 0 <= j < i && s[j] == c;
      FindComplete(s, c, j);
    }
  }

  lemma CutAt(s: string, i: nat)
    requires i < |s|
    ensures s == s[..i] + [s[i]] + s[i + 1..]
  {
  }

  /** Either `c` does not occur, or it occurs first right after a `c`-free prefix. */
  lemma FindChar(s: string, c: char)
    ensures Find(s, [c]).None? <==> c !in s
    ensures Find(s, [c]).Some? ==>
              var i := Find(s, [c]).value; i < |s| && s[i] == c && c !in s[..i] && s == s[..i] + [c] + s[i + 1..]
  {
    hide Find;
    FindAbsent(s, c);
    if Find(s, [c]).Some? {
      FindPrefix(s, c);
      CutAt(s, Find(s, [c]).value);
    }
  }

  lemma {:induction false} TokensJoin(s: string, c: char)
    ensures var ts := Tokens(s, [c], true); ts != [] && FreeOf(ts, c) && Join(ts, [c]) == s
    decreases |s|
  {
    hide Find;
    FindChar(s, c);
    if Find(s, [c]).Some? {
      var i := Find(s, [c]).value;
      TokensJoin(s[i + 1..], c);
      var ts, rest := Tokens(s, [c], true), Tokens(s[i + 1..], [c], true);
      assert ts == [s[..i]] + rest && ts[1..] == rest;
    }
  }

  /** A token in front of a joined string is the first one found. */
  lemma FindAfterToken(t: string, rest: string, c: char)
    requires c !in t
    ensures Find(t + [c] + rest, [c]) == Some(|t|)
  {
    hide Find;
    var s := t + [c] + rest;
    FindComplete(s, c, |t|);
    FindSound(s, c);
  }

  lemma {:induction false} TokensOfJoin(ts: seq<string>, c: char)
    requires ts != [] && FreeOf(ts, c)
    ensures Tokens(Join(ts, [c]), [c], true) == ts
    decreases |ts|
  {
    hide Find, Tokens;
    assert ts[0] in ts;
    if |ts| == 1 {
      TokensWhole(ts[0], c, true);
      assert ts == [ts[0]];
    } else {
      TokensOfJoin(ts[1..], c);
      TokensInFront(ts[0], Join(ts[1..], [c]), c, true);
      assert ts == [ts[0]] + ts[1..];
    }
  }

  /**
   With empties kept, splitting at one character is exact: the tokens are the only non-empty list of
   strings without the delimiter that joins back to the input less one leading slash.
   */
  lemma SplitIsInverseOfJoin(input: string, c: char, tokens: seq<string>)
    requires input != ""
    ensures Split(input, [c], true) == tokens
            <==> tokens != [] && FreeOf(tokens, c) && Join(tokens, [c]) == StripLeadingSlash(input)
  {
    TokensJoin(StripLeadingSlash(input), c);
    if tokens != [] && FreeOf(tokens, c) {
      TokensOfJoin(tokens, c);
    }
  }

  /** With empties kept, the tokens always join back to the input less one leading slash. */
  ghost predicate SplitIsExact(delimiter: string) {
    forall input :: input != "" ==>
      Split(input, delimiter, true) != [] && Join(Split(input, delimiter, true), delimiter) == StripLeadingSlash(input)
  }

  /**
   Only one character of a delimiter is skipped, so splitting is exact for delimiters of one character
   and for no others.
   */
  lemma ExactExactlyForOneCharacter(delimiter: string)
    requires delimiter != ""
    ensures SplitIsExact(delimiter) <==> |delimiter| == 1
  {
    if |delimiter| == 1 {
      var c := delimiter[0];
      assert delimiter == [c];
      forall input | input != ""
        ensures Split(input, delimiter, true) != []
        ensures Join(Split(input, delimiter, true), delimiter) == StripLeadingSlash(input)
      {
        TokensJoin(StripLeadingSlash(input), c);
      }
    } else {
      var input := "/" + delimiter;
      assert StripLeadingSlash(input) == delimiter;
      assert Find(delimiter, delimiter) == Some(0);
      assert Tokens(delimiter[1..], delimiter, true) == [delimiter[1..]];
      assert Split(input, delimiter, true) == ["", delimiter[1..]];
      assert Join(["", delimiter[1..]], delimiter) == "" + delimiter + delimiter[1..];
    }
  }

  function NonEmpty(tokens: seq<string>): seq<string> {
    if tokens == [] then [] else (if tokens[0] == "" then [] else [tokens[0]]) + NonEmpty(tokens[1..])
  }

  lemma TokensWhole(s: string, c: char, includeEmpties: bool)
    requires c !in s
    ensures Tokens(s, [c], includeEmpties) == [s]
  {
    hide Find;
    FindChar(s, c);
  }

  /** A `c`-free text in front of a `c` is a token of its own, unless it is empty and dropped. */
  lemma TokensInFront(head: string, rest: string, c: char, includeEmpties: bool)
    requires c !in head
    ensures Tokens(head + [c] + rest, [c], includeEmpties)
            == (if head == "" && !includeEmpties then [] else [head]) + Tokens(rest, [c], includeEmpties)
  {
    hide Find;
    FindAfterToken(head, rest, c);
    var whole := head + [c] + rest;
    assert whole[..|head|] == head && whole[|head| + 1..] == rest;
  }

  lemma TokensOfCut(s: string, delimiter: string, includeEmpties: bool)
    requires delimiter != ""
    ensures match Find(s, delimiter)
            case None => Tokens(s, delimiter, includeEmpties) == [s]
            case Some(i) =>
              Tokens(s, delimiter, includeEmpties)
              == (if i > 0 || includeEmpties then [s[..i]] else []) + Tokens(s[i + 1..], delimiter, includeEmpties)
  {
    hide Find;
  }

  /** `some` is `all` without the empty tokens, except that the last is kept whatever it is. */
  predicate DropsEmpties(all: seq<string>, some: seq<string>) {
    all != [] && some == NonEmpty(all[..|all| - 1]) + [all[|all| - 1]]
  }

  lemma DropsInFront(head: string, all: seq<string>, some: seq<string>)
    requires DropsEmpties(all, some)
    ensures DropsEmpties([head] + all, (if head == "" then [] else [head]) + some)
  {
    var front := all[..|all| - 1];
    assert ([head] + all)[..|all|] == [head] + front;
    assert ([head] + front)[1..] == front;
  }

  lemma DropsNothing(s: string)
    ensures DropsEmpties([s], [s])
  {
    assert [s][..0] == [];
  }

  /** With empties dropped, the last token is kept all the same. */
  lemma {:induction false} DroppingEmpties(s: string, delimiter: string)
    requires delimiter != ""
    ensures DropsEmpties(Tokens(s, delimiter, true), Tokens(s, delimiter, false))
    decreases |s|
  {
    hide Find, Tokens, DropsEmpties;
    TokensOfCut(s, delimiter, true);
    TokensOfCut(s, delimiter, false);
    match Find(s, delimiter)
    case None => DropsNothing(s);
    case Some(i) =>
      var rest := s[i + 1..];
      DroppingEmpties(rest, delimiter);
      DropsInFront(s[..i], Tokens(rest, delimiter, true), Tokens(rest, delimiter, false));
  }

  // ----- the two ways to take a path apart -----

  /** `find_last_of(L"/")`. */
  function LastSlash(s: string): (r: Option<nat>)
    ensures r.None? <==> '/' !in s
    ensures r.Some? ==> r.value < |s| && s[r.value] == '/' && '/' !in s[r.value + 1..]
  {
    if s == "" then None
    else if s[|s| - 1] == '/' then Some(|s| - 1)
    else LastSlash(s[..|s| - 1])
  }

  /** The file name `transfer_file` takes from a destination. */
  function AfterLastSlash(s: string): string {
    match LastSlash(s)
    case None => s
    case Some(i) => s[i + 1..]
  }

  /** The components of a path: what the device code gets from `split_string(path, L"/", v, false)`. */
  function Components(path: string): seq<string> {
    Split(path, "/", false)
  }

  lemma SlashUnique(s: string, i: nat)
    requires i < |s| && s[i] == '/' && '/' !in s[i + 1..]
    ensures AfterLastSlash(s) == s[i + 1..]
  {
    var j := LastSlash(s).value;
    hide LastSlash;
  }

  /** Text up to and including a slash has no say in what follows the last slash. */
  lemma AfterLastOfRest(s: string, i: nat)
    requires i < |s| && s[i] == '/'
    ensures AfterLastSlash(s) == AfterLastSlash(s[i + 1..])
  {
    hide LastSlash;
    var rest := s[i + 1..];
    match LastSlash(rest)
    case None => SlashUnique(s, i);
    case Some(j) =>
      assert s[i + 1 + j + 1..] == rest[j + 1..];
      assert s[i + 1 + j] == '/';
      SlashUnique(s, i + 1 + j);
  }

  predicate NoEmptyBeforeLast(ts: seq<string>) {
    forall i :: 0 <= i < |ts| - 1 ==> ts[i] != ""
  }

  predicate LastIs(ts: seq<string>, last: string) {
    ts != [] && ts[|ts| - 1] == last && NoEmptyBeforeLast(ts) && FreeOf(ts, '/')
  }

  lemma LastInFront(head: string, ts: seq<string>, last: string)
    requires '/' !in head && head != "" && LastIs(ts, last)
    ensures LastIs([head] + ts, last)
  {
  }

  /** The last token is the text after the last slash, and no token before it is empty. */
  lemma {:induction false} LastToken(s: string)
    ensures LastIs(Tokens(s, "/", false), AfterLastSlash(s))
    decreases |s|
  {
    FindChar(s, '/');
    if '/' !in s {
      TokensWhole(s, '/', false);
    } else {
      hide *;
      var i := Find(s, "/").value;
      var head, rest := s[..i], s[i + 1..];
      LastToken(rest);
      AfterLastOfRest(s, i);
      TokensInFront(head, rest, '/', false);
      var ts := Tokens(rest, "/", false);
      if head != "" {
        LastInFront(head, ts, AfterLastSlash(rest));
      } else {
        assert [] + ts == ts;
      }
    }
  }

  /** The two parsers agree on the last component of every non-empty path. */
  lemma ParsersAgree(path: string)
    requires path != ""
    ensures var v := Components(path);
            v != [] && v[|v| - 1] == AfterLastSlash(path) && NoEmptyBeforeLast(v) && FreeOf(v, '/')
  {
    LastToken(StripLeadingSlash(path));
    hide Tokens, AfterLastSlash;
    if path[0] == '/' {
      AfterLastOfRest(path, 0);
    }
  }

  lemma CutInFront(s: string, i: nat, child: string)
    requires i < |s| && s[i] == '/'
    ensures s + "/" + child == s[..i] + "/" + (s[i + 1..] + "/" + child) && s == s[..i] + "/" + s[i + 1..]
  {
  }

  lemma {:induction false} TokensOfChild(s: string, child: string)
    requires '/' !in child
    ensures Tokens(s + "/" + child, "/", false) == NonEmpty(Tokens(s, "/", false)) + [child]
    decreases |s|
  {
    hide Find, Tokens;
    TokensWhole(child, '/', false);
    if '/' !in s {
      TokensWhole(s, '/', false);
      TokensInFront(s, child, '/', false);
      assert [s][1..] == [];
    } else {
      FindChar(s, '/');
      var i := Find(s, "/").value;
      var head, rest := s[..i], s[i + 1..];
      TokensOfChild(rest, child);
      TokensInFront(head, rest, '/', false);
      TokensInFront(head, rest + "/" + child, '/', false);
      CutInFront(s, i, child);
      var ts := Tokens(rest, "/", false);
      assert ([head] + ts)[1..] == ts && [] + ts == ts;
    }
  }

  lemma {:induction false} NothingEmpty(ts: seq<string>)
    requires "" !in ts
    ensures NonEmpty(ts) == ts
    decreases |ts|
  {
    if ts != [] {
      NothingEmpty(ts[1..]);
    }
  }

  /** A child's components are its parent's non-empty ones and its own name. */
  lemma ChildComponents(parent: string, child: string)
    requires parent != "" && '/' !in child
    ensures Components(parent + "/" + child) == NonEmpty(Components(parent)) + [child]
  {
    var whole := parent + "/" + child;
    assert whole[0] == parent[0];
    assert StripLeadingSlash(whole) == StripLeadingSlash(parent) + "/" + child by {
      if parent[0] == '/' {
        assert whole[1..] == parent[1..] + "/" + child;
      }
    }
    TokensOfChild(StripLeadingSlash(parent), child);
  }
}
