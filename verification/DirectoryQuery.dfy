/** The directory query itself (patcher/archive/winfs.cpp): a page of records per call, and a
    listing over any number of calls. */
module DirectoryQuery {
  import opened Bytes
  import opened Sequences
  import opened RecordChain
  import opened DirectoryPages

  type Pattern = seq<Wchar>
  /** The system's own wildcard match. */
  type Wildcard = (seq<Wchar>, Pattern) -> bool

  const STAR: Pattern := [42]
  const STAR_DOT_STAR: Pattern := [42, 46, 42]

  predicate Matches(name: seq<Wchar>, pattern: Pattern, spec: Wildcard) {
    pattern == [] || pattern == STAR || pattern == STAR_DOT_STAR || spec(name, pattern)
  }

  /** The numbers of the matching entries from one on. */
  function Matching(entries: seq<Entry>, pattern: Pattern, spec: Wildcard, from: nat): (r: seq<nat>)
    ensures r != [] ==> r[0] < |entries|
    decreases |entries| - from
  {
    if from >= |entries| then []
    else
      var rest := Matching(entries, pattern, spec, from + 1);
      if Matches(entries[from].path, pattern, spec) then [from] + rest else rest
  }

  lemma {:induction false} MatchingHas(entries: seq<Entry>, pattern: Pattern, spec: Wildcard, from: nat, i: nat)
    ensures i in Matching(entries, pattern, spec, from) <==> from <= i < |entries| && Matches(entries[i].path, pattern, spec)
    decreases |entries| - from
  {
    hide Matches;
    if from < |entries| {
      MatchingHas(entries, pattern, spec, from + 1, i);
    }
  }

  lemma {:induction false} MatchingOrdered(entries: seq<Entry>, pattern: Pattern, spec: Wildcard, from: nat, k: nat, l: nat)
    requires k < l < |Matching(entries, pattern, spec, from)|
    ensures from <= Matching(entries, pattern, spec, from)[k] < Matching(entries, pattern, spec, from)[l]
    decreases |entries| - from
  {
    hide Matches;
    var rest := Matching(entries, pattern, spec, from + 1);
    if !Matches(entries[from].path, pattern, spec) {
      MatchingOrdered(entries, pattern, spec, from + 1, k, l);
    } else if k > 0 {
      MatchingOrdered(entries, pattern, spec, from + 1, k - 1, l - 1);
    } else {
      MatchingHas(entries, pattern, spec, from + 1, rest[l - 1]);
    }
  }

  /** They are in order, and they are all the matching entries: all there are for an empty
      pattern, "*" and "*.*", and otherwise those that the system's wildcard match accepts. */
  lemma MatchingIsExact(entries: seq<Entry>, pattern: Pattern, spec: Wildcard, from: nat)
    ensures var r := Matching(entries, pattern, spec, from);
            && (forall k, l :: 0 <= k < l < |r| ==> r[k] < r[l])
            && (forall i: nat :: i in r <==>
                  && from <= i < |entries|
                  && (pattern == [] || pattern == [42] || pattern == [42, 46, 42] || spec(entries[i].path, pattern)))
  {
    hide Matching;
    var r := Matching(entries, pattern, spec, from);
    forall k, l | 0 <= k < l < |r| ensures r[k] < r[l] {
      MatchingOrdered(entries, pattern, spec, from, k, l);
    }
    forall i: nat ensures i in r <==> from <= i < |entries| && Matches(entries[i].path, pattern, spec) {
      MatchingHas(entries, pattern, spec, from, i);
    }
  }

  lemma MatchingNext(entries: seq<Entry>, pattern: Pattern, spec: Wildcard, start: nat, seen: seq<nat>, i: nat)
    requires i <= |entries|
    requires Matching(entries, pattern, spec, start) == seen + Matching(entries, pattern, spec, i)
    ensures i == |entries| ==> Matching(entries, pattern, spec, i) == []
    ensures i < |entries| && !Matches(entries[i].path, pattern, spec) ==>
              Matching(entries, pattern, spec, start) == seen + Matching(entries, pattern, spec, i + 1)
    ensures i < |entries| && Matches(entries[i].path, pattern, spec) ==>
              && Matching(entries, pattern, spec, i) != [] && Matching(entries, pattern, spec, i)[0] == i
              && Matching(entries, pattern, spec, start) == (seen + [i]) + Matching(entries, pattern, spec, i + 1)
  {
    hide Matches;
    if i < |entries| {
      var rest := Matching(entries, pattern, spec, i + 1);
      assert seen + ([i] + rest) == (seen + [i]) + rest;
    }
  }

  function FileIndex(i: nat): nat {
    (i + 1) % 0x1_0000_0000
  }

  predicate Listed(entries: seq<Entry>, printed: seq<nat>) {
    forall k :: 0 <= k < |printed| ==> printed[k] < |entries|
  }

  function Bodies(cls: nat, entries: seq<Entry>, printed: seq<nat>): (r: seq<seq<Byte>>)
    requires NameOffset(cls) != 0 && Listed(entries, printed)
    ensures |r| == |printed|
  {
    seq(|printed|, k requires 0 <= k < |printed| => Body(cls, entries[printed[k]], FileIndex(printed[k])))
  }

  /** The page that lists these entries. */
  function PageOf(cls: nat, entries: seq<Entry>, printed: seq<nat>): seq<Byte>
    requires NameOffset(cls) != 0 && Listed(entries, printed)
  {
    Page(Bodies(cls, entries, printed))
  }

  // ----- printing one record --------------------------------------------------

  lemma PatchInside(s: seq<Byte>, used: nat, rec: seq<Byte>, at: nat, bytes: seq<Byte>)
    requires used + |rec| <= |s| && at + |bytes| <= |rec|
    ensures Patched(Patched(s, used, rec), used + at, bytes) == Patched(s, used, Patched(rec, at, bytes))
  {
    var left, right := Patched(Patched(s, used, rec), used + at, bytes), Patched(s, used, Patched(rec, at, bytes));
    forall i | 0 <= i < |s| ensures left[i] == right[i] {
    }
  }

  /** The record in progress: the first k of its fields are there. */
  ghost predicate Printing(buffer: array<Byte>, was: seq<Byte>, used: nat, cls: nat, e: Entry, number: nat, k: nat)
    reads buffer
  {
    && NameOffset(cls) != 0 && used + RecordLength(cls, e) <= |was| && |was| == buffer.Length
    && k <= |Fields(cls, e, number)| && Ordered(Fields(cls, e, number), RecordLength(cls, e))
    && buffer[..] == Patched(was, used, PatchAll(Zeros(RecordLength(cls, e)), Fields(cls, e, number)[..k]))
  }

  lemma PrintingStarts(buffer: array<Byte>, was: seq<Byte>, used: nat, cls: nat, e: Entry, number: nat)
    requires NameOffset(cls) != 0 && used + RecordLength(cls, e) <= |was| == buffer.Length
    requires buffer[..] == Patched(was, used, Zeros(RecordLength(cls, e)))
    ensures Printing(buffer, was, used, cls, e, number, 0)
  {
    hide Patched, Fields, Ordered;
    FieldsOrdered(cls, e, number);
    assert Fields(cls, e, number)[..0] == [];
  }

  lemma PrintingEnds(buffer: array<Byte>, was: seq<Byte>, used: nat, cls: nat, e: Entry, number: nat)
    requires Printing(buffer, was, used, cls, e, number, |Fields(cls, e, number)|)
    ensures buffer[..] == Patched(was, used, Record(cls, e, number))
  {
    hide Patched, Fields, Ordered;
    assert Fields(cls, e, number)[..|Fields(cls, e, number)|] == Fields(cls, e, number);
  }

  method WriteField(buffer: array<Byte>, used: nat, at: nat, bytes: seq<Byte>,
                    ghost was: seq<Byte>, ghost cls: nat, ghost e: Entry, ghost number: nat, ghost k: nat)
    requires Printing(buffer, was, used, cls, e, number, k)
    requires k < |Fields(cls, e, number)| && Fields(cls, e, number)[k] == Patch(at, bytes)
    modifies buffer
    ensures Printing(buffer, was, used, cls, e, number, k + 1)
  {
    hide Patched, Fields;
    ghost var fields, zeros := Fields(cls, e, number), Zeros(RecordLength(cls, e));
    assert fields[..k + 1][..k] == fields[..k];
    PatchInside(was, used, PatchAll(zeros, fields[..k]), at, bytes);
    WriteAt(buffer, used + at, bytes);
  }

  method PrintRecord(buffer: array<Byte>, used: nat, cls: nat, e: Entry, number: nat)
    requires NameOffset(cls) != 0 && used + RecordLength(cls, e) <= buffer.Length
    modifies buffer
    ensures buffer[..] == Patched(old(buffer[..]), used, Record(cls, e, number))
  {
    hide Patched, Fields, Record, Printing, Little, WideBytes, RecordLength, AllocationSize, Attributes;
    ghost var was, k := buffer[..], 2;
    FieldsListed(cls, e, number);
    WriteAt(buffer, used, Zeros(RecordLength(cls, e)));
    PrintingStarts(buffer, was, used, cls, e, number);
    WriteField(buffer, used, 4, Little(number, 4), was, cls, e, number, 0);
    if cls == NAMES_ONLY {
      WriteField(buffer, used, 8, Little(2 * |e.path|, 4), was, cls, e, number, 1);
    } else {
      var t := 8;
      while t < 40
        invariant t % 8 == 0 && 8 <= t <= 40
        invariant Printing(buffer, was, used, cls, e, number, t / 8)
      {
        WriteField(buffer, used, t, Little(e.time, 8), was, cls, e, number, t / 8);
        t := t + 8;
      }
      WriteField(buffer, used, 40, Little(e.size, 8), was, cls, e, number, 5);
      WriteField(buffer, used, 48, Little(AllocationSize(e.size), 8), was, cls, e, number, 6);
      WriteField(buffer, used, 56, Little(Attributes(e), 4), was, cls, e, number, 7);
      WriteField(buffer, used, 60, Little(2 * |e.path|, 4), was, cls, e, number, 8);
      k := 9;
      if cls == NATIVE {
        WriteField(buffer, used, 72, Little((e.index + 1) % 0x1_0000_0000, 8), was, cls, e, number, 9);
        k := 10;
      }
    }
    WriteField(buffer, used, NameOffset(cls), WideBytes(e.path), was, cls, e, number, k);
    PrintingEnds(buffer, was, used, cls, e, number);
  }

  // ----- growing a page -------------------------------------------------------

  lemma {:induction false} SameLength(bodies: seq<seq<Byte>>)
    ensures |Page(bodies)| == |Joined(bodies)|
  {
    if bodies != [] {
      SameLength(bodies[1..]);
      assert |bodies| == 1 ==> bodies[1..] == [];
    }
  }

  lemma PatchSplits(s: seq<Byte>, at: nat, bytes: seq<Byte>, cut: nat)
    requires at + |bytes| <= cut <= |s|
    ensures Patched(s, at, bytes)[..cut] == Patched(s[..cut], at, bytes)
    ensures Patched(s, at, bytes)[cut..] == s[cut..]
  {
    forall i | 0 <= i < cut ensures Patched(s, at, bytes)[..cut][i] == Patched(s[..cut], at, bytes)[i] {
    }
    assert Patched(s, at, bytes)[..cut] == Patched(s[..cut], at, bytes);
  }

  /** The front of the buffer is the page of the printed entries; the rest is as it was. */
  ghost predicate Held(buffer: array<Byte>, initial: seq<Byte>, cls: nat, entries: seq<Entry>, printed: seq<nat>,
                       used: nat, last: nat)
    reads buffer
  {
    && NameOffset(cls) != 0 && Listed(entries, printed) && used <= |initial| == buffer.Length
    && used == |PageOf(cls, entries, printed)|
    && buffer[..used] == PageOf(cls, entries, printed) && buffer[used..] == initial[used..]
    && (printed != [] ==> last == |Joined(Bodies(cls, entries, printed[..|printed| - 1]))|)
  }

  lemma HeldGrows(buffer: array<Byte>, before: seq<Byte>, initial: seq<Byte>, cls: nat, entries: seq<Entry>,
                  printed: seq<nat>, used: nat, i: nat, body: seq<Byte>)
    requires NameOffset(cls) != 0 && Listed(entries, printed) && used == |PageOf(cls, entries, printed)|
    requires i < |entries| && body == Body(cls, entries[i], FileIndex(i))
    requires |before| == |initial| == buffer.Length
    ensures var end := used + LINK + |body|;
            (&& end <= buffer.Length && before[used..] == initial[used..] && buffer[end..] == before[end..]
             && buffer[..end] == Page(Bodies(cls, entries, printed) + [body]))
            ==> Held(buffer, initial, cls, entries, printed + [i], end, used)
  {
    hide Page, Joined, Body;
    var bodies, end := Bodies(cls, entries, printed), used + LINK + |body|;
    assert Bodies(cls, entries, printed + [i]) == bodies + [body];
    SameLength(bodies);
    PageSplits(bodies, body);
    assert (printed + [i])[..|printed|] == printed;
    if end <= buffer.Length && before[used..] == initial[used..] {
      SameTail(before, initial, used, end, end);
    }
  }

  /** Adds a record behind the page, and links the record before it to it. */
  method AppendRecord(buffer: array<Byte>, used: nat, last: nat, any: bool, cls: nat, entries: seq<Entry>, i: nat,
                      ghost printed: seq<nat>, ghost initial: seq<Byte>)
    requires Held(buffer, initial, cls, entries, printed, used, last) && any == (printed != [])
    requires i < |entries| && used + RecordLength(cls, entries[i]) <= buffer.Length
    modifies buffer
    ensures Held(buffer, initial, cls, entries, printed + [i], used + RecordLength(cls, entries[i]), used)
  {
    hide Page, Joined, Linked, Patched, Record, Body, RecordLength, Little;
    var e, number := entries[i], FileIndex(i);
    var end := used + RecordLength(cls, e);
    ghost var was, body, bodies := buffer[..], Body(cls, e, number), Bodies(cls, entries, printed);
    PrintRecord(buffer, used, cls, e, number);
    ghost var mid := buffer[..];
    RecordIsLinked(cls, e, number);
    BodyLength(cls, e, number);
    PatchAtEnd(was, used, Record(cls, e, number));
    assert mid[..end] == Page(bodies) + Linked(0, body);
    if any {
      ghost var front := bodies[..|bodies| - 1];
      assert bodies == front + [bodies[|bodies| - 1]];
      assert front == Bodies(cls, entries, printed[..|printed| - 1]);
      PageGrows(front, bodies[|bodies| - 1], body);
      PatchSplits(mid, last, Little(used - last, LINK), end);
      WriteAt(buffer, last, Little(used - last, LINK));
    } else {
      OneRecordPage(body);
    }
    HeldGrows(buffer, was, initial, cls, entries, printed, used, i, body);
  }

  lemma BodyLength(cls: nat, e: Entry, number: nat)
    requires NameOffset(cls) != 0
    ensures LINK + |Body(cls, e, number)| == RecordLength(cls, e)
  {
  }

  lemma OneRecordPage(body: seq<Byte>)
    ensures Page([] + [body]) == Page([]) + Linked(0, body) && Page([]) == []
  {
    assert [] + [body] == [body];
  }

  // ----- the query ------------------------------------------------------------

  class DirHandle {
    const entries: seq<Entry>
    const directory: bool
    const spec: Wildcard
    var cursor: nat
    var pattern: Pattern

    constructor (entries: seq<Entry>, directory: bool, spec: Wildcard)
      ensures this.entries == entries && this.directory == directory && this.spec == spec
      ensures cursor == 0 && pattern == STAR
    {
      this.entries, this.directory, this.spec := entries, directory, spec;
      cursor, pattern := 0, STAR;
    }

    ghost function Left(): seq<nat>
      reads this
    {
      Matching(entries, pattern, spec, cursor)
    }

    /** Prints the next matching entries, as many as fit, or one. The ghost result is the
        entries that were printed. */
    method Query(buffer: array<Byte>, length: nat, cls: nat, single: bool, mask: Option<Pattern>, restart: bool)
      returns (status: nat, used: nat, ghost printed: seq<nat>)
      requires length <= buffer.Length && cursor <= |entries|
      modifies this`cursor, this`pattern, buffer
      ensures cursor <= |entries|
      ensures pattern == if mask.Some? then mask.value else old(pattern)
      ensures used <= length && buffer[used..] == old(buffer[used..])
      ensures Matching(entries, pattern, spec, if restart then 0 else old(cursor)) == printed + Left()
      ensures Listed(entries, printed) && (NameOffset(cls) != 0 ==> buffer[..used] == PageOf(cls, entries, printed))
      ensures status == if NameOffset(cls) == 0 then NOT_SUPPORTED else if !directory then NOT_A_DIRECTORY
                        else if printed != [] then 0 else if Left() == [] then NO_MORE else OVERFLOW
      ensures status in {NOT_SUPPORTED, NOT_A_DIRECTORY} ==> printed == [] && used == 0
      ensures single ==> |printed| <= 1
      ensures status in {0, OVERFLOW} && Left() != [] && !(single && status == 0) ==>
                used + RecordLength(cls, entries[Left()[0]]) > length
    {
      hide PageOf, RecordLength, Held, Matches, STAR, Matching;
      if restart {
        cursor := 0;
      }
      if mask.Some? {
        pattern := mask.value;
      }
      if NameOffset(cls) == 0 {
        return NOT_SUPPORTED, 0, [];
      }
      EmptyPage(buffer, cls, entries);
      if !directory {
        return NOT_A_DIRECTORY, 0, [];
      }
      status, used, printed := Fill(buffer, length, cls, single);
      if used == 0 && status == 0 {
        status := NO_MORE;
      }
    }

    /** The loop of a query: it fails only if the first record does not fit. */
    method Fill(buffer: array<Byte>, length: nat, cls: nat, single: bool)
      returns (status: nat, used: nat, ghost printed: seq<nat>)
      requires NameOffset(cls) != 0 && length <= buffer.Length && cursor <= |entries|
      modifies this`cursor, buffer
      ensures cursor <= |entries| && Listed(entries, printed)
      ensures used <= length && buffer[used..] == old(buffer[used..])
      ensures old(Left()) == printed + Left() && buffer[..used] == PageOf(cls, entries, printed)
      ensures (used == 0 <==> printed == []) && status == if printed == [] && Left() != [] then OVERFLOW else 0
      ensures single ==> |printed| <= 1
      ensures Left() != [] && !(single && printed != []) ==> used + RecordLength(cls, entries[Left()[0]]) > length
    {
      hide PageOf, RecordLength, Held, Matches, Matching, NameOffset;
      status, used, printed := 0, 0, [];
      var last, any, stop := 0, false, false;
      ghost var start, initial, mask := cursor, buffer[..], pattern;
      EmptyPage(buffer, cls, entries);
      while cursor < |entries| && !stop
        invariant cursor <= |entries| && (any <==> printed != []) && (any <==> used > 0)
        invariant status == if stop && !any then OVERFLOW else 0
        invariant Matching(entries, mask, spec, start) == printed + Matching(entries, mask, spec, cursor)
        invariant Held(buffer, initial, cls, entries, printed, used, last) && used <= length
        invariant single ==> (|printed| <= 1 && (any ==> stop))
        invariant stop && !(single && any) ==>
                    && cursor < |entries| && Matches(entries[cursor].path, mask, spec)
                    && used + RecordLength(cls, entries[cursor]) > length
        decreases |entries| - cursor, !stop
      {
        MatchingNext(entries, mask, spec, start, printed, cursor);
        if !Matches(entries[cursor].path, pattern, spec) {
          cursor := cursor + 1;
        } else if RecordLength(cls, entries[cursor]) > length - used {
          if !any {
            status := OVERFLOW;
          }
          stop := true;
        } else {
          RecordNotEmpty(cls, entries[cursor]);
          AppendRecord(buffer, used, last, any, cls, entries, cursor, printed, initial);
          printed := printed + [cursor];
          last, used := used, used + RecordLength(cls, entries[cursor]);
          any := true;
          cursor := cursor + 1;
          if single {
            stop := true;
          }
        }
      }
      MatchingNext(entries, mask, spec, start, printed, cursor);
      HeldPage(buffer, initial, cls, entries, printed, used, last);
    }
  }

  lemma RecordNotEmpty(cls: nat, e: Entry)
    requires NameOffset(cls) != 0
    ensures RecordLength(cls, e) > 0
  {
  }

  lemma HeldPage(buffer: array<Byte>, initial: seq<Byte>, cls: nat, entries: seq<Entry>, printed: seq<nat>, used: nat, last: nat)
    requires Held(buffer, initial, cls, entries, printed, used, last)
    ensures NameOffset(cls) != 0 && Listed(entries, printed) && used <= buffer.Length == |initial|
    ensures buffer[..used] == PageOf(cls, entries, printed) && buffer[used..] == initial[used..]
  {
  }

  lemma EmptyPage(buffer: array<Byte>, cls: nat, entries: seq<Entry>)
    requires NameOffset(cls) != 0
    ensures PageOf(cls, entries, []) == []
    ensures Held(buffer, buffer[..], cls, entries, [], 0, 0)
  {
  }

  // ----- listings over many calls ---------------------------------------------

  /** A reader that follows the links of the page sees exactly these entries, field by field. */
  ghost predicate Shows(cls: nat, entries: seq<Entry>, printed: seq<nat>, page: seq<Byte>) {
    && NameOffset(cls) != 0 && Listed(entries, printed) && WellFormed(page, 0, NameOffset(cls))
    && var walk := Walk(page, 0, NameOffset(cls));
    && |walk| == |printed|
    && forall k :: 0 <= k < |walk| ==>
         && |walk[k]| + LINK >= NameOffset(cls)
         && Read(cls, walk[k]) == Shown(cls, entries[printed[k]], FileIndex(printed[k]))
         && TellsKind(Read(cls, walk[k]), entries[printed[k]])
         && (printed[k] + 1 < 0x1_0000_0000 ==> Read(cls, walk[k]).number == printed[k] + 1)
  }

  /** Entries are numbered from 1, in 32 bits. */
  lemma ShownNumber(cls: nat, e: Entry, i: nat)
    ensures i + 1 < 0x1_0000_0000 ==> Shown(cls, e, FileIndex(i)).number == i + 1
  {
  }

  lemma PageDecodes(cls: nat, entries: seq<Entry>, printed: seq<nat>)
    requires NameOffset(cls) != 0 && Listed(entries, printed) && forall e :: e in entries ==> e.Fits()
    requires |PageOf(cls, entries, printed)| < LINK_LIMIT
    ensures Shows(cls, entries, printed, PageOf(cls, entries, printed))
  {
    hide Body, Page, WellFormed, Walk, Read, Shown, TellsKind;
    var bodies := Bodies(cls, entries, printed);
    forall k | 0 <= k < |printed|
      ensures |bodies[k]| + LINK >= NameOffset(cls)
      ensures Read(cls, bodies[k]) == Shown(cls, entries[printed[k]], FileIndex(printed[k]))
      ensures TellsKind(Read(cls, bodies[k]), entries[printed[k]])
      ensures printed[k] + 1 < 0x1_0000_0000 ==> Read(cls, bodies[k]).number == printed[k] + 1
    {
      PrintedReadsBack(cls, entries[printed[k]], FileIndex(printed[k]));
      ShownTellsKind(cls, entries[printed[k]], FileIndex(printed[k]));
      ShownNumber(cls, entries[printed[k]], printed[k]);
    }
    PageWalks(bodies, NameOffset(cls));
  }

  datatype Call = Call(length: nat, cls: nat, single: bool)

  function Flat(lists: seq<seq<nat>>): seq<nat> {
    if lists == [] then [] else Flat(lists[..|lists| - 1]) + lists[|lists| - 1]
  }

  lemma FlatGrows(lists: seq<seq<nat>>, list: seq<nat>, rest: seq<nat>)
    ensures Flat([]) + rest == rest
    ensures Flat(lists + [list]) + rest == Flat(lists) + (list + rest)
  {
    assert (lists + [list])[..|lists|] == lists;
  }

  /** What one call left in its buffer. */
  ghost predicate Answered(call: Call, entries: seq<Entry>, printed: seq<nat>, page: seq<Byte>) {
    |page| <= call.length && (if NameOffset(call.cls) == 0 then printed == [] else Shows(call.cls, entries, printed, page))
  }

  method AskOnce(h: DirHandle, call: Call) returns (page: seq<Byte>, status: nat, ghost printed: seq<nat>)
    requires h.cursor <= |h.entries| && forall e :: e in h.entries ==> e.Fits()
    requires call.length < LINK_LIMIT
    modifies h`cursor, h`pattern
    ensures h.cursor <= |h.entries| && Answered(call, h.entries, printed, page)
    ensures old(h.Left()) == printed + h.Left() && (status == NO_MORE ==> h.Left() == [])
  {
    hide Matching, Shows, PageOf, RecordLength, Matches;
    var buffer := new Byte[call.length](_ => 0);
    var used;
    status, used, printed := h.Query(buffer, call.length, call.cls, call.single, None, false);
    page := buffer[..used];
    if NameOffset(call.cls) != 0 {
      PageDecodes(call.cls, h.entries, printed);
    }
  }

  /** Any calls without a restart, with buffers of any sizes: together the pages hold the
      matching entries in order, each once, up to where the cursor stands; and once a call
      reports that there are no more, all of them. */
  method Enumerate(h: DirHandle, calls: seq<Call>)
    returns (pages: seq<seq<Byte>>, statuses: seq<nat>, ghost printed: seq<seq<nat>>)
    requires h.cursor <= |h.entries| && forall e :: e in h.entries ==> e.Fits()
    requires forall c :: c in calls ==> c.length < LINK_LIMIT
    modifies h
    ensures h.cursor <= |h.entries|
    ensures |pages| == |statuses| == |printed| == |calls|
    ensures forall k :: 0 <= k < |calls| ==> Answered(calls[k], h.entries, printed[k], pages[k])
    ensures old(h.Left()) == Flat(printed) + h.Left()
    ensures calls != [] && statuses[|calls| - 1] == NO_MORE ==> old(h.Left()) == Flat(printed)
  {
    hide DirHandle.Left, Answered, Flat;
    pages, statuses, printed := [], [], [];
    ghost var all := h.Left();
    FlatGrows([], [], all);
    for i := 0 to |calls|
      invariant h.cursor <= |h.entries| && |pages| == |statuses| == |printed| == i
      invariant forall k :: 0 <= k < i ==> Answered(calls[k], h.entries, printed[k], pages[k])
      invariant all == Flat(printed) + h.Left()
      invariant i > 0 && statuses[i - 1] == NO_MORE ==> h.Left() == []
    {
      var page, status;
      ghost var listed;
      page, status, listed := AskOnce(h, calls[i]);
      FlatGrows(printed, listed, h.Left());
      pages, statuses, printed := pages + [page], statuses + [status], printed + [listed];
    }
  }
}
