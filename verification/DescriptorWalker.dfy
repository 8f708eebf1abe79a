/**
 The walk over a configuration descriptor (displayusb.c): a cursor over a zeroed buffer into which a
 device has put at most 256 bytes.  Descriptor layouts: sections 9.6.3, 9.6.5 and 9.6.6 of the USB 2.0
 specification and section 6.2.1 of the HID 1.11 specification.
 */
module DescriptorWalker {
  import opened Sequences

  type Byte = b: int | 0 <= b < 256

  const BUFFER_SIZE: nat := 2048
  const REQUESTED: nat := 256  // wLength of the request
  const LAST_READ: nat := 510

  const CONFIGURATION: Byte := 2
  const INTERFACE: Byte := 4
  const ENDPOINT: Byte := 5
  const HID: Byte := 0x21

  /** What is printed of one descriptor; `length` and `kind` are its first two bytes. */
  datatype Record =
    | Configuration(
        length: Byte, totalLength: nat, numInterfaces: Byte, value: Byte, name: Byte, attributes: Byte, maxPower: Byte)
    | Interface(
        length: Byte, number: Byte, alternate: Byte, numEndpoints: Byte, interfaceClass: Byte, subClass: Byte,
        protocol: Byte, name: Byte)
    | Endpoint(length: Byte, address: Byte, attributes: Byte, maxPacketSize: nat, interval: Byte)
    | Hid(length: Byte, version: nat, country: Byte, count: Byte, reportType: Byte, reportLength: nat)
    | Unknown(length: Byte, kind: Byte, dump: seq<Byte>)

  /** The buffer after the request: whatever the device sent, and zeros. */
  predicate Filled(buf: seq<Byte>) {
    |buf| == BUFFER_SIZE && forall i :: REQUESTED <= i < BUFFER_SIZE ==> buf[i] == 0
  }

  function Word(low: Byte, high: Byte): nat {
    low + 256 * high
  }

  predicate Known(kind: Byte) {
    kind == CONFIGURATION || kind == INTERFACE || kind == ENDPOINT || kind == HID
  }

  /** The length a known descriptor should have, and the number of bytes the walk takes for it. */
  function StandardLength(kind: Byte): Byte
    requires Known(kind)
  {
    if kind == ENDPOINT then 7 else 9
  }

  // ----- the walk as a function of the buffer -----

  /** A descriptor starts at `p`: its length byte is not zero. */
  predicate Starts(buf: seq<Byte>, p: nat) {
    Filled(buf) && p <= LAST_READ && buf[p] != 0
  }

  /** How many bytes the walk takes for a descriptor with these first two bytes. */
  function Taken(length: Byte, kind: Byte): nat {
    if Known(kind) then StandardLength(kind) else length
  }

  /** What is printed of a descriptor whose first bytes are `length` and `kind`; `b` are the bytes taken. */
  function Decode(length: Byte, kind: Byte, b: seq<Byte>): Record
    requires |b| == Taken(length, kind)
  {
    if kind == CONFIGURATION then Configuration(length, Word(b[2], b[3]), b[4], b[5], b[6], b[7], b[8])
    else if kind == INTERFACE then Interface(length, b[2], b[3], b[4], b[5], b[6], b[7], b[8])
    else if kind == ENDPOINT then Endpoint(length, b[2], b[3], Word(b[4], b[5]), b[6])
    else if kind == HID then Hid(length, Word(b[2], b[3]), b[4], b[5], b[6], Word(b[7], b[8]))
    else Unknown(length, kind, b)
  }

  function Slice(buf: seq<Byte>, p: nat, n: nat): (b: seq<Byte>)
    requires p + n <= |buf|
    ensures |b| == n
  {
    buf[p..p + n]
  }

  lemma SliceBytes(buf: seq<Byte>, p: nat, n: nat)
    requires p + n <= |buf|
    ensures forall k :: 0 <= k < n ==> Slice(buf, p, n)[k] == buf[p + k]
  {
  }

  /** Behind the bytes requested there are only zeros, at which no descriptor starts. */
  lemma StartInRange(buf: seq<Byte>, p: nat)
    requires Starts(buf, p)
    ensures |buf| == BUFFER_SIZE && p < REQUESTED
  {
  }

  /** Where the walk looks for the next length byte. */
  function NextStart(buf: seq<Byte>, p: nat): (q: nat)
    requires Starts(buf, p)
    ensures p < q <= LAST_READ
  {
    p + Taken(buf[p], buf[p + 1])
  }

  function RecordAt(buf: seq<Byte>, p: nat): Record
    requires Starts(buf, p)
  {
    Decode(buf[p], buf[p + 1], Slice(buf, p, Taken(buf[p], buf[p + 1])))
  }

  function Walk(buf: seq<Byte>, p: nat): seq<Record>
    requires Filled(buf) && p <= LAST_READ
    decreases LAST_READ - p
  {
    if buf[p] == 0 then [] else [RecordAt(buf, p)] + Walk(buf, NextStart(buf, p))
  }

  function WalkEnd(buf: seq<Byte>, p: nat): (end: nat)
    requires Filled(buf) && p <= LAST_READ
    ensures p <= end <= LAST_READ && buf[end] == 0
    decreases LAST_READ - p
  {
    if buf[p] == 0 then p else WalkEnd(buf, NextStart(buf, p))
  }

  /** The string descriptors named by a record: an index of zero names none. */
  function StringsOf(r: Record): seq<Byte> {
    if (r.Configuration? || r.Interface?) && r.name != 0 then [r.name] else []
  }

  function StringsOfAll(records: seq<Record>): seq<Byte> {
    if records == [] then [] else StringsOf(records[0]) + StringsOfAll(records[1..])
  }

  predicate HasName(r: Record, name: Byte) {
    match r
    case Configuration(_, _, _, _, own, _, _) => own == name
    case Interface(_, _, _, _, _, _, _, own) => own == name
    case _ => false
  }

  /** A configuration or interface that names a string. */
  predicate NamesString(r: Record) {
    (r.Configuration? || r.Interface?) && !HasName(r, 0)
  }

  /** `at` are the places of the records that name a string, in order, and `strings` are the strings named. */
  predicate NamedAt(records: seq<Record>, at: seq<nat>, strings: seq<Byte>) {
    && |at| == |strings|
    && (forall k :: 0 <= k < |at| ==> at[k] < |records| && HasName(records[at[k]], strings[k]))
    && (forall j, k :: 0 <= j < k < |at| ==> at[j] < at[k])
    && (forall i :: 0 <= i < |records| ==> (i in at <==> NamesString(records[i])))
  }

  lemma OneNameMore(records: seq<Record>, record: Record, at: seq<nat>, strings: seq<Byte>, name: Byte)
    requires NamedAt(records, at, strings) && NamesString(record) && HasName(record, name)
    ensures NamedAt(records + [record], at + [|records|], strings + [name])
  {
    hide NamesString, HasName;
    var all, places := records + [record], at + [|records|];
    forall i | 0 <= i < |all|
      ensures i in places <==> NamesString(all[i])
    {
      assert i < |records| ==> all[i] == records[i];
      assert i in places <==> i in at || i == |records|;
    }
  }

  lemma NoNameMore(records: seq<Record>, record: Record, at: seq<nat>, strings: seq<Byte>)
    requires NamedAt(records, at, strings) && !NamesString(record)
    ensures NamedAt(records + [record], at, strings)
  {
    hide NamesString, HasName;
    assert forall k :: 0 <= k < |at| ==> at[k] != |records|;
  }

  lemma StringsOfOne(r: Record)
    ensures if NamesString(r) then |StringsOf(r)| == 1 && HasName(r, StringsOf(r)[0]) else StringsOf(r) == []
  {
  }

  /** The strings asked for are exactly the non-zero names of configurations and interfaces, in their order. */
  lemma {:induction false} StringsAskedFor(records: seq<Record>) returns (at: seq<nat>)
    ensures NamedAt(records, at, StringsOfAll(records))
    decreases |records|
  {
    hide NamedAt, StringsOf, NamesString, HasName;
    if records == [] {
      NoRecords();
      return [];
    }
    var front, last := records[..|records| - 1], records[|records| - 1];
    at := StringsAskedFor(front);
    StringsOneMore(front, last);
    StringsOfOne(last);
    assert front + [last] == records;
    if NamesString(last) {
      OneNameMore(front, last, at, StringsOfAll(front), StringsOf(last)[0]);
      at := at + [|front|];
      assert [StringsOf(last)[0]] == StringsOf(last);
    } else {
      NoNameMore(front, last, at, StringsOfAll(front));
      assert StringsOfAll(front) + [] == StringsOfAll(front);
    }
  }

  lemma NoRecords()
    ensures NamedAt([], [], StringsOfAll([]))
  {
  }

  // ----- string descriptors and the cached language -----

  datatype Request = GetLanguage | GetString(index: Byte, language: nat)

  /** What asking for these strings leads to: requests sent, and the language known afterwards. */
  datatype Asked = Asked(requests: seq<Request>, language: nat)

  /** `answer` is the language a device gives when asked; zero if the request fails. */
  function Ask(language: nat, strings: seq<Byte>, answer: nat): Asked
    decreases |strings|
  {
    if strings == [] then Asked([], language)
    else
      var known := if language == 0 then answer else language;
      var rest := Ask(known, strings[1..], answer);
      Asked((if language == 0 then [GetLanguage] else []) + [GetString(strings[0], known)] + rest.requests,
            rest.language)
  }

  function InLanguage(strings: seq<Byte>, language: nat): seq<Request> {
    seq(|strings|, i requires 0 <= i < |strings| => GetString(strings[i], language))
  }

  lemma {:induction false} KnownLanguageIsKept(language: nat, strings: seq<Byte>, answer: nat)
    requires language != 0
    ensures Ask(language, strings, answer) == Asked(InLanguage(strings, language), language)
    decreases |strings|
  {
    if strings != [] {
      KnownLanguageIsKept(language, strings[1..], answer);
      assert InLanguage(strings, language)
             == [GetString(strings[0], language)] + InLanguage(strings[1..], language);
    }
  }

  /** A device that has a language is asked for it once, before the first string. */
  lemma LanguageAskedOnce(strings: seq<Byte>, answer: nat)
    requires strings != [] && answer != 0
    ensures Ask(0, strings, answer) == Asked([GetLanguage] + InLanguage(strings, answer), answer)
  {
    KnownLanguageIsKept(answer, strings[1..], answer);
    assert InLanguage(strings, answer) == [GetString(strings[0], answer)] + InLanguage(strings[1..], answer);
  }

  function IndicesAsked(requests: seq<Request>): seq<Byte> {
    if requests == [] then []
    else (if requests[0].GetString? then [requests[0].index] else []) + IndicesAsked(requests[1..])
  }

  /** Whatever the language, each string is asked for once, in order. */
  lemma {:induction false} EachStringAskedOnce(language: nat, strings: seq<Byte>, answer: nat)
    ensures IndicesAsked(Ask(language, strings, answer).requests) == strings
    decreases |strings|
  {
    if strings != [] {
      var first := AskFirst(language, strings[0], answer);
      var rest := Ask(first.language, strings[1..], answer);
      AskUnfolds(language, strings, answer);
      EachStringAskedOnce(first.language, strings[1..], answer);
      var all := first.requests + rest.requests;
      if language == 0 {
        assert all[1..][1..] == rest.requests && all[1..][0] == GetString(strings[0], answer);
      } else {
        assert all[1..] == rest.requests;
      }
      assert strings == [strings[0]] + strings[1..];
    }
  }

  function LanguageRequests(requests: seq<Request>): nat {
    if requests == [] then 0
    else (if requests[0].GetLanguage? then 1 else 0) + LanguageRequests(requests[1..])
  }

  lemma {:induction false} NoneInLanguage(strings: seq<Byte>, language: nat)
    ensures LanguageRequests(InLanguage(strings, language)) == 0
    decreases |strings|
  {
    if strings != [] {
      assert InLanguage(strings, language)[1..] == InLanguage(strings[1..], language);
      NoneInLanguage(strings[1..], language);
    }
  }

  /** A device that gives no language is asked again before every string. */
  lemma {:induction false} LanguageAskedAgain(strings: seq<Byte>)
    ensures LanguageRequests(Ask(0, strings, 0).requests) == |strings| && Ask(0, strings, 0).language == 0
    decreases |strings|
  {
    if strings != [] {
      LanguageAskedAgain(strings[1..]);
      var asked, rest := Ask(0, strings, 0).requests, Ask(0, strings[1..], 0).requests;
      assert asked == [GetLanguage] + [GetString(strings[0], 0)] + rest;
      assert asked[1..] == [GetString(strings[0], 0)] + rest && asked[1..][1..] == rest;
    }
  }

  /** One language request is sent exactly if there are strings, and the device answers it or there is just one. */
  lemma OneLanguageRequestExactlyWhen(strings: seq<Byte>, answer: nat)
    ensures LanguageRequests(Ask(0, strings, answer).requests) == 1
            <==> strings != [] && (answer != 0 || |strings| == 1)
  {
    if answer == 0 {
      LanguageAskedAgain(strings);
    } else if strings != [] {
      LanguageAskedOnce(strings, answer);
      NoneInLanguage(strings, answer);
      assert ([GetLanguage] + InLanguage(strings, answer))[1..] == InLanguage(strings, answer);
    }
  }

  /** The requests for the first of some strings, and the language known after them. */
  function AskFirst(language: nat, index: Byte, answer: nat): Asked {
    if language == 0 then Asked([GetLanguage, GetString(index, answer)], answer)
    else Asked([GetString(index, language)], language)
  }

  lemma AskUnfolds(language: nat, strings: seq<Byte>, answer: nat)
    requires strings != []
    ensures var first := AskFirst(language, strings[0], answer);
            var rest := Ask(first.language, strings[1..], answer);
            Ask(language, strings, answer) == Asked(first.requests + rest.requests, rest.language)
  {
    assert [GetLanguage] + [GetString(strings[0], answer)] == [GetLanguage, GetString(strings[0], answer)];
    assert [] + [GetString(strings[0], language)] == [GetString(strings[0], language)];
  }

  lemma {:induction false} AskTwo(language: nat, xs: seq<Byte>, ys: seq<Byte>, answer: nat)
    ensures var one := Ask(language, xs, answer);
            var two := Ask(one.language, ys, answer);
            Ask(language, xs + ys, answer) == Asked(one.requests + two.requests, two.language)
    decreases |xs|
  {
    if xs == [] {
      assert xs + ys == ys;
    } else {
      hide Ask, AskFirst;
      assert (xs + ys)[1..] == xs[1..] + ys;
      AskUnfolds(language, xs, answer);
      AskUnfolds(language, xs + ys, answer);
      var first := AskFirst(language, xs[0], answer);
      AskTwo(first.language, xs[1..], ys, answer);
      var rest := Ask(first.language, xs[1..], answer);
      Regroup(first.requests, rest.requests, Ask(rest.language, ys, answer).requests);
    }
  }

  // ----- the walk as the code performs it -----

  class Port {
    /** The language this device reports. */
    const answer: nat
    var requests: seq<Request>

    constructor (answer: nat)
      ensures this.answer == answer && requests == []
    {
      this.answer, requests := answer, [];
    }

    method DisplayStringDescriptor(languageId: nat, index: Byte) returns (known: nat)
      modifies this
      ensures var asked := Ask(languageId, [index], answer);
              requests == old(requests) + asked.requests && known == asked.language
    {
      known := languageId;
      if known == 0 {
        requests := requests + [GetLanguage];
        known := answer;
      }
      requests := requests + [GetString(index, known)];
      assert [index][1..] == [];
    }

    /** Asks for the string a record names, if it names one. */
    method DisplayName(languageId: nat, record: Record) returns (known: nat)
      modifies this
      ensures var asked := Ask(languageId, StringsOf(record), answer);
              requests == old(requests) + asked.requests && known == asked.language
    {
      known := languageId;
      if (record.Configuration? || record.Interface?) && record.name != 0 {
        known := DisplayStringDescriptor(languageId, record.name);
      }
    }

    /** One byte of the buffer; no call may look past `LAST_READ`. */
    static function Read(data: array<Byte>, i: int): Byte
      requires data.Length == BUFFER_SIZE && 0 <= i <= LAST_READ
      reads data
    {
      data[i]
    }

    /** One turn of the switch: `cursor` is at the length byte, and is left on the last byte taken. */
    static method DisplayDescriptor(data: array<Byte>, cursor0: nat, length: Byte) returns (record: Record, cursor: int)
      requires Starts(data[..], cursor0) && length == data[cursor0]
      ensures record == RecordAt(data[..], cursor0) && cursor + 1 == NextStart(data[..], cursor0)
    {
      hide Filled, Starts, Slice, Word;
      var start := cursor0;
      StartInRange(data[..], start);
      cursor := start + 1;
      var kind := Read(data, cursor);
      ghost var b := Slice(data[..], start, Taken(length, kind));
      SliceBytes(data[..], start, Taken(length, kind));
      if kind == CONFIGURATION {
        record := Configuration(length, Word(Read(data, cursor + 1), Read(data, cursor + 2)), Read(data, cursor + 3),
                                Read(data, cursor + 4), Read(data, cursor + 5), Read(data, cursor + 6),
                                Read(data, cursor + 7));
        cursor := cursor + 7;
      } else if kind == INTERFACE {
        record := Interface(length, Read(data, cursor + 1), Read(data, cursor + 2), Read(data, cursor + 3),
                            Read(data, cursor + 4), Read(data, cursor + 5), Read(data, cursor + 6),
                            Read(data, cursor + 7));
        cursor := cursor + 7;
      } else if kind == ENDPOINT {
        record := Endpoint(length, Read(data, cursor + 1), Read(data, cursor + 2),
                           Word(Read(data, cursor + 3), Read(data, cursor + 4)), Read(data, cursor + 5));
        cursor := cursor + 5;
      } else if kind == HID {
        record := Hid(length, Word(Read(data, cursor + 1), Read(data, cursor + 2)), Read(data, cursor + 3),
                      Read(data, cursor + 4), Read(data, cursor + 5),
                      Word(Read(data, cursor + 6), Read(data, cursor + 7)));
        cursor := cursor + 7;
      } else {
        cursor := cursor - 2;  // back up to before the descriptor
        var dump: seq<Byte> := [];
        for i := 0 to length
          invariant cursor == start - 1 + i
          invariant dump == data[start..start + i]
        {
          cursor := cursor + 1;
          dump := dump + [Read(data, cursor)];
        }
        record := Unknown(length, kind, dump);
        assert dump == b;
      }
    }

    /** `DisplayConfigurationDescriptor`, on the buffer the request has filled. */
    method DisplayConfigurationDescriptor(data: array<Byte>, languageId: nat)
      returns (printed: seq<Record>, end: nat, known: nat)
      requires Filled(data[..])
      modifies this
      ensures printed == Walk(data[..], 0) && end == WalkEnd(data[..], 0)
      ensures var asked := Ask(languageId, StringsOfAll(printed), answer);
              requests == old(requests) + asked.requests && known == asked.language
    {
      ghost var buf := data[..];
      hide *;
      printed, known := [], languageId;
      NothingYet(buf, languageId, answer, requests);
      var cursor := 0;
      var length := Read(data, cursor);
      while length != 0
        invariant 0 <= cursor <= LAST_READ && length == buf[cursor] && data[..] == buf
        invariant WalkedTo(buf, printed, cursor)
        invariant AskedFor(languageId, printed, answer, old(requests), requests, known)
        decreases LAST_READ - cursor
      {
        WalkOneMore(buf, cursor, printed);
        var record;
        record, cursor := DisplayDescriptor(data, cursor, length);
        ghost var before, language := requests, known;
        known := DisplayName(known, record);
        AskOneMore(languageId, printed, record, answer, old(requests), before, language);
        printed := printed + [record];
        cursor := cursor + 1;
        length := Read(data, cursor);
      }
      WalkStops(buf, printed, cursor);
      AskedInAll(languageId, printed, answer, old(requests), requests, known);
      end := cursor;
    }
  }

  /** The walk so far has printed what the whole walk prints first, and has come to `p`. */
  predicate WalkedTo(buf: seq<Byte>, printed: seq<Record>, p: nat) {
    Filled(buf) && p <= LAST_READ && printed + Walk(buf, p) == Walk(buf, 0) && WalkEnd(buf, p) == WalkEnd(buf, 0)
  }

  /** The requests sent since `before` are those for the strings of `printed`. */
  predicate AskedFor(
    language: nat, printed: seq<Record>, answer: nat, before: seq<Request>, after: seq<Request>, known: nat)
  {
    after == before + Ask(language, StringsOfAll(printed), answer).requests
    && known == Ask(language, StringsOfAll(printed), answer).language
  }

  lemma NothingYet(buf: seq<Byte>, language: nat, answer: nat, requests: seq<Request>)
    requires Filled(buf)
    ensures WalkedTo(buf, [], 0) && AskedFor(language, [], answer, requests, requests, language)
    ensures |buf| == BUFFER_SIZE
  {
    assert [] + Walk(buf, 0) == Walk(buf, 0);
  }

  lemma WalkStops(buf: seq<Byte>, printed: seq<Record>, p: nat)
    requires WalkedTo(buf, printed, p) && buf[p] == 0
    ensures printed == Walk(buf, 0) && p == WalkEnd(buf, 0)
  {
  }

  lemma AskedInAll(
    language: nat, printed: seq<Record>, answer: nat, before: seq<Request>, after: seq<Request>, known: nat)
    requires AskedFor(language, printed, answer, before, after, known)
    ensures var asked := Ask(language, StringsOfAll(printed), answer);
            after == before + asked.requests && known == asked.language
  {
  }

  lemma WalkOneMore(buf: seq<Byte>, p: nat, printed: seq<Record>)
    requires WalkedTo(buf, printed, p) && buf[p] != 0
    ensures Starts(buf, p) && WalkedTo(buf, printed + [RecordAt(buf, p)], NextStart(buf, p))
  {
    hide RecordAt, NextStart;
    var rest := Walk(buf, NextStart(buf, p));
    assert printed + ([RecordAt(buf, p)] + rest) == (printed + [RecordAt(buf, p)]) + rest;
  }

  lemma AskOneMore(
    language: nat, printed: seq<Record>, record: Record, answer: nat,
    before: seq<Request>, after: seq<Request>, known: nat)
    requires AskedFor(language, printed, answer, before, after, known)
    ensures var asked := Ask(known, StringsOf(record), answer);
            AskedFor(language, printed + [record], answer, before, after + asked.requests, asked.language)
  {
    StringsOneMore(printed, record);
    AskTwo(language, StringsOfAll(printed), StringsOf(record), answer);
    hide Ask, StringsOf, StringsOfAll;
    var one := Ask(language, StringsOfAll(printed), answer);
    Regroup(before, one.requests, Ask(known, StringsOf(record), answer).requests);
  }

  lemma {:induction false} StringsOneMore(records: seq<Record>, record: Record)
    ensures StringsOfAll(records + [record]) == StringsOfAll(records) + StringsOf(record)
    decreases |records|
  {
    if records == [] {
      assert records + [record] == [record] && [record][1..] == [];
    } else {
      assert (records + [record])[1..] == records[1..] + [record];
      StringsOneMore(records[1..], record);
    }
  }

  // ----- printing and parsing -----

  /** A record as the standards lay it out, of the length they prescribe. */
  predicate Standard(r: Record) {
    match r
    case Configuration(length, total, _, _, _, _, _) => length == 9 && total < 0x1_0000
    case Interface(length, _, _, _, _, _, _, _) => length == 9
    case Endpoint(length, _, _, maxPacketSize, _) => length == 7 && maxPacketSize < 0x1_0000
    case Hid(length, version, _, _, _, reportLength) => length == 9 && version < 0x1_0000 && reportLength < 0x1_0000
    case Unknown(length, kind, dump) =>
      2 <= length == |dump| && dump[0] == length && dump[1] == kind && !Known(kind)
  }

  function Low(word: nat): Byte {
    word % 256
  }

  function High(word: nat): Byte
    requires word < 0x1_0000
  {
    word / 256
  }

  function Bytes(r: Record): (bytes: seq<Byte>)
    requires Standard(r)
    ensures |bytes| == r.length && bytes[0] == r.length
  {
    match r
    case Configuration(length, total, n, v, name, a, m) =>
      [length, CONFIGURATION, Low(total), High(total), n, v, name, a, m]
    case Interface(length, number, alternate, n, c, s, p, name) =>
      [length, INTERFACE, number, alternate, n, c, s, p, name]
    case Endpoint(length, address, a, size, interval) =>
      [length, ENDPOINT, address, a, Low(size), High(size), interval]
    case Hid(length, version, country, count, t, size) =>
      [length, HID, Low(version), High(version), country, count, t, Low(size), High(size)]
    case Unknown(_, _, dump) => dump
  }

  predicate AllStandard(records: seq<Record>) {
    forall i :: 0 <= i < |records| ==> Standard(records[i])
  }

  function AllBytes(records: seq<Record>): seq<Byte>
    requires AllStandard(records)
  {
    if records == [] then [] else Bytes(records[0]) + AllBytes(records[1..])
  }

  lemma WordBack(word: nat)
    requires word < 0x1_0000
    ensures Word(Low(word), High(word)) == word
  {
  }

  lemma DecodeBytes(r: Record)
    requires Standard(r)
    ensures var b := Bytes(r);
            |b| > 1 && r.length == |b| == Taken(b[0], b[1]) && Decode(b[0], b[1], b) == r
  {
    match r
    case Configuration(_, total, _, _, _, _, _) => WordBack(total);
    case Interface(_, _, _, _, _, _, _, _) =>
    case Endpoint(_, _, _, size, _) => WordBack(size);
    case Hid(_, version, _, _, _, size) =>
      WordBack(version);
      WordBack(size);
    case Unknown(_, _, _) =>
  }

  /** The buffer holds these bytes from `p` to before `end`. */
  predicate Holds(buf: seq<Byte>, p: nat, end: nat, bytes: seq<Byte>) {
    p <= end <= |buf| && bytes == buf[p..end]
  }

  lemma SliceFirst(buf: seq<Byte>, p: nat, n: nat)
    requires p + n <= |buf| && n > 1
    ensures Slice(buf, p, n)[0] == buf[p] && Slice(buf, p, n)[1] == buf[p + 1]
  {
  }

  lemma SliceHeld(buf: seq<Byte>, p: nat, n: nat, bytes: seq<Byte>)
    requires Holds(buf, p, p + n, bytes)
    ensures p + n <= |buf| && Slice(buf, p, n) == bytes
  {
  }

  /** A standard record is read back from its bytes, and the cursor moves by its length. */
  lemma RecordReadBack(buf: seq<Byte>, p: nat, r: Record)
    requires Filled(buf) && Standard(r) && p + r.length <= LAST_READ && Holds(buf, p, p + r.length, Bytes(r))
    ensures Starts(buf, p) && RecordAt(buf, p) == r && NextStart(buf, p) == p + r.length
  {
    hide Filled, Bytes, Decode, Taken, Standard, Slice, Holds;
    BufferLength(buf);
    DecodeBytes(r);
    SliceHeld(buf, p, r.length, Bytes(r));
    SliceFirst(buf, p, r.length);
  }

  predicate Joins(all: seq<Byte>, first: seq<Byte>, rest: seq<Byte>) {
    all == first + rest
  }

  lemma HoldsBoth(buf: seq<Byte>, p: nat, all: seq<Byte>, first: seq<Byte>, rest: seq<Byte>)
    requires Joins(all, first, rest) && Holds(buf, p, p + |all|, all)
    ensures Holds(buf, p, p + |first|, first) && Holds(buf, p + |first|, p + |first| + |rest|, rest)
  {
    assert buf[p..p + |first|] == all[..|first|];
    assert buf[p + |first|..p + |first| + |rest|] == all[|first|..];
  }

  /** Whatever the buffer holds, the standard records it starts with are recovered one by one. */
  lemma {:induction false} WalkReadsBack(buf: seq<Byte>, p: nat, records: seq<Record>)
    requires Filled(buf) && AllStandard(records)
    requires p + |AllBytes(records)| <= LAST_READ && Holds(buf, p, p + |AllBytes(records)|, AllBytes(records))
    ensures Walk(buf, p) == records + Walk(buf, p + |AllBytes(records)|)
    decreases |records|
  {
    hide *;
    if records == [] {
      NoBytes(buf, p, records);
    } else {
      FirstReadBack(buf, p, records);
      var q := NextStart(buf, p);
      WalkReadsBack(buf, q, records[1..]);
      WalkAfterRecord(buf, p, records[0], records[1..], Walk(buf, p + |AllBytes(records)|));
      assert records == [records[0]] + records[1..];
    }
  }

  lemma NoBytes(buf: seq<Byte>, p: nat, records: seq<Record>)
    requires Filled(buf) && p <= LAST_READ && records == []
    ensures AllStandard(records) && Walk(buf, p) == records + Walk(buf, p + |AllBytes(records)|)
  {
    assert records + Walk(buf, p) == Walk(buf, p);
  }

  lemma FirstReadBack(buf: seq<Byte>, p: nat, records: seq<Record>)
    requires Filled(buf) && AllStandard(records) && records != []
    requires p + |AllBytes(records)| <= LAST_READ && Holds(buf, p, p + |AllBytes(records)|, AllBytes(records))
    ensures Starts(buf, p) && RecordAt(buf, p) == records[0] && AllStandard(records[1..])
    ensures NextStart(buf, p) + |AllBytes(records[1..])| == p + |AllBytes(records)|
    ensures Holds(buf, NextStart(buf, p), NextStart(buf, p) + |AllBytes(records[1..])|, AllBytes(records[1..]))
  {
    hide *;
    FirstBytes(records);
    BufferLength(buf);
    HoldsBoth(buf, p, AllBytes(records), Bytes(records[0]), AllBytes(records[1..]));
    RecordReadBack(buf, p, records[0]);
  }

  lemma BufferLength(buf: seq<Byte>)
    requires Filled(buf)
    ensures |buf| > LAST_READ
  {
  }

  lemma FirstBytes(records: seq<Record>)
    requires AllStandard(records) && records != []
    ensures Standard(records[0]) && AllStandard(records[1..])
    ensures Joins(AllBytes(records), Bytes(records[0]), AllBytes(records[1..]))
    ensures |AllBytes(records)| == records[0].length + |AllBytes(records[1..])|
  {
    hide Bytes, Standard;
    assert Standard(records[0]);
  }

  lemma WalkAfterRecord(buf: seq<Byte>, p: nat, r: Record, tail: seq<Record>, more: seq<Record>)
    requires Starts(buf, p) && RecordAt(buf, p) == r && Walk(buf, NextStart(buf, p)) == tail + more
    ensures Walk(buf, p) == ([r] + tail) + more
  {
    hide RecordAt, NextStart;
    Regroup([r], tail, more);
  }

  /** The zeroed buffer after a device has sent `response`, of which it keeps what was asked for. */
  function Buffer(response: seq<Byte>): (buf: seq<Byte>)
    ensures Filled(buf)
  {
    var sent := if |response| <= REQUESTED then response else response[..REQUESTED];
    sent + seq(BUFFER_SIZE - |sent|, _ => 0)
  }

  /**
   Round trip.  However long a list of standard descriptors the device holds: those that fit whole into
   the 256 bytes it may send are recovered, in order; and if all fit, nothing else is.
   */
  lemma WalkRecoversDescriptors(records: seq<Record>, k: nat)
    requires AllStandard(records) && k <= |records| && |AllBytes(records[..k])| <= REQUESTED
    ensures records[..k] <= Walk(Buffer(AllBytes(records)), 0)
    ensures k == |records| ==> Walk(Buffer(AllBytes(records)), 0) == records
  {
    var buf, n := Buffer(AllBytes(records)), |AllBytes(records[..k])|;
    BytesOfPrefix(records, k);
    assert Holds(buf, 0, n, AllBytes(records[..k]));
    WalkReadsBack(buf, 0, records[..k]);
    if k == |records| {
      assert records[..k] == records;
    }
  }

  lemma {:induction false} BytesOfPrefix(records: seq<Record>, k: nat)
    requires AllStandard(records) && k <= |records|
    ensures AllBytes(records[..k]) <= AllBytes(records)
    decreases k
  {
    if k > 0 {
      BytesOfPrefix(records[1..], k - 1);
      assert records[..k][1..] == records[1..][..k - 1];
    }
  }

  /** The other way round: if every record the walk prints is standard, the buffer is just their bytes. */
  lemma {:induction false} WalkPrintsBack(buf: seq<Byte>, p: nat)
    requires Filled(buf) && p <= LAST_READ && AllStandard(Walk(buf, p))
    ensures Holds(buf, p, WalkEnd(buf, p), AllBytes(Walk(buf, p)))
    decreases LAST_READ - p
  {
    hide *;
    BufferLength(buf);
    if buf[p] == 0 {
      NothingPrinted(buf, p);
    } else {
      WalkFirst(buf, p);
      FirstBytes(Walk(buf, p));
      RecordPrintsBack(buf, p);
      var q := NextStart(buf, p);
      WalkPrintsBack(buf, q);
      var r := RecordAt(buf, p);
      HoldsTogether(buf, p, q, WalkEnd(buf, q), AllBytes(Walk(buf, p)), Bytes(r), AllBytes(Walk(buf, q)));
    }
  }

  lemma NothingPrinted(buf: seq<Byte>, p: nat)
    requires Filled(buf) && p <= LAST_READ && buf[p] == 0
    ensures AllStandard(Walk(buf, p)) && Holds(buf, p, WalkEnd(buf, p), AllBytes(Walk(buf, p)))
  {
  }

  lemma WalkFirst(buf: seq<Byte>, p: nat)
    requires Filled(buf) && p <= LAST_READ && buf[p] != 0
    ensures Starts(buf, p)
    ensures var q := NextStart(buf, p);
            && Walk(buf, p) != [] && Walk(buf, p)[0] == RecordAt(buf, p) && Walk(buf, p)[1..] == Walk(buf, q)
            && WalkEnd(buf, p) == WalkEnd(buf, q)
  {
    hide RecordAt, NextStart;
  }

  lemma HoldsTogether(buf: seq<Byte>, p: nat, q: nat, end: nat, all: seq<Byte>, first: seq<Byte>, rest: seq<Byte>)
    requires p <= q <= end <= |buf| && Joins(all, first, rest)
    requires Holds(buf, p, q, first) && Holds(buf, q, end, rest)
    ensures Holds(buf, p, end, all)
  {
  }

  lemma BytesOfWord(low: Byte, high: Byte)
    ensures Word(low, high) < 0x1_0000 && Low(Word(low, high)) == low && High(Word(low, high)) == high
  {
  }

  lemma BytesOfDecode(b: seq<Byte>)
    requires |b| > 1 && |b| == Taken(b[0], b[1]) && Standard(Decode(b[0], b[1], b))
    ensures |b| == b[0] && Bytes(Decode(b[0], b[1], b)) == b
  {
    match Decode(b[0], b[1], b)
    case Configuration(_, _, _, _, _, _, _) => BytesOfWord(b[2], b[3]);
    case Interface(_, _, _, _, _, _, _, _) =>
    case Endpoint(_, _, _, _, _) => BytesOfWord(b[4], b[5]);
    case Hid(_, _, _, _, _, _) =>
      BytesOfWord(b[2], b[3]);
      BytesOfWord(b[7], b[8]);
    case Unknown(_, _, _) =>
  }

  lemma RecordPrintsBack(buf: seq<Byte>, p: nat)
    requires Starts(buf, p) && Standard(RecordAt(buf, p))
    ensures NextStart(buf, p) == p + buf[p] && Holds(buf, p, NextStart(buf, p), Bytes(RecordAt(buf, p)))
  {
    var b := Slice(buf, p, Taken(buf[p], buf[p + 1]));
    assert |b| > 1;
    SliceFirst(buf, p, |b|);
    hide Bytes, Decode, Standard, Slice;
    BytesOfDecode(b);
  }

  /**
   A corollary: the cursor ends up `bLength` bytes after the start of a descriptor, and so at the next one, exactly if
   its type is unknown (the dump backs up and follows `bLength`) or its length is the standard one.
   */
  lemma CursorFollowsLength(buf: seq<Byte>, p: nat)
    requires Starts(buf, p)
    ensures NextStart(buf, p) == p + buf[p] <==> !Known(buf[p + 1]) || buf[p] == StandardLength(buf[p + 1])
  {
  }
}
