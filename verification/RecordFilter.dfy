/** The file dialog's own directory query (patcher/dialogs/picker_runtime.cpp): records of
    files that the chosen type filter does not accept are taken out of the page in place. */
module RecordFilter {
  import opened Bytes
  import opened Sequences
  import opened RecordChain
  import DirectoryPages

  type Name = seq<nat>
  /** The system's own wildcard match. */
  type Wildcard = (Name, Name) -> bool

  const SEMICOLON: nat := 59
  const STAR: Name := [42]
  const STAR_DOT_STAR: Name := [42, 46, 42]
  const ATTRIBUTES_AT: nat := 56
  const LENGTH_AT: nat := 60
  const SIZE_MAX: nat := 0xFFFF_FFFF_FFFF_FFFF

  // ----- the type filter ------------------------------------------------------

  /** The alternatives of a pattern from a position on, which semicolons separate. */
  function Parts(pattern: Name, from: nat): (r: seq<Name>)
    requires from <= |pattern|
    ensures r != []
    decreases |pattern| - from
  {
    var end := IndexOf(pattern, SEMICOLON, from);
    if end == |pattern| then [pattern[from..]] else [pattern[from..end]] + Parts(pattern, end + 1)
  }

  function JoinedBy(c: nat, parts: seq<Name>): Name {
    if parts == [] then [] else if |parts| == 1 then parts[0] else parts[0] + [c] + JoinedBy(c, parts[1..])
  }

  lemma JoinedOne(c: nat, part: Name)
    ensures JoinedBy(c, [part]) == part
  {
  }

  lemma JoinedFirst(c: nat, part: Name, rest: seq<Name>)
    requires rest != []
    ensures JoinedBy(c, [part] + rest) == part + ([c] + JoinedBy(c, rest))
  {
    assert ([part] + rest)[1..] == rest;
    assert part + [c] + JoinedBy(c, rest) == part + ([c] + JoinedBy(c, rest));
  }

  lemma PartsSplit(pattern: Name, from: nat)
    requires from <= |pattern|
    ensures var end, parts := IndexOf(pattern, SEMICOLON, from), Parts(pattern, from);
            && JoinedBy(SEMICOLON, parts)
               == pattern[from..end] + (if end == |pattern| then [] else [SEMICOLON] + JoinedBy(SEMICOLON, Parts(pattern, end + 1)))
            && parts[0] == pattern[from..end]
            && parts[1..] == if end == |pattern| then [] else Parts(pattern, end + 1)
  {
    hide IndexOf, JoinedBy;
    var end := IndexOf(pattern, SEMICOLON, from);
    if end == |pattern| {
      JoinedOne(SEMICOLON, pattern[from..]);
      assert pattern[from..end] == pattern[from..];
    } else {
      JoinedFirst(SEMICOLON, pattern[from..end], Parts(pattern, end + 1));
    }
  }

  /** The alternatives are the pattern cut at every semicolon, and only there. */
  lemma {:induction false} PartsAreTheCuts(pattern: Name, from: nat)
    requires from <= |pattern|
    ensures JoinedBy(SEMICOLON, Parts(pattern, from)) == pattern[from..]
    ensures forall p :: p in Parts(pattern, from) ==> SEMICOLON !in p
    decreases |pattern| - from
  {
    hide JoinedBy, Parts;
    var end, parts := IndexOf(pattern, SEMICOLON, from), Parts(pattern, from);
    PartsSplit(pattern, from);
    if end < |pattern| {
      PartsAreTheCuts(pattern, end + 1);
      Cut(pattern, from, end);
    }
    forall p | p in parts ensures SEMICOLON !in p {
      assert p == parts[0] || p in parts[1..];
    }
  }

  lemma Cut(s: Name, from: nat, end: nat)
    requires from <= end < |s|
    ensures s[from..] == s[from..end] + ([s[end]] + s[end + 1..])
  {
  }

  predicate PartAccepts(name: Name, part: Name, spec: Wildcard) {
    part == STAR || part == STAR_DOT_STAR || spec(name, part)
  }

  /** The chosen filter: the first one for index 0, the last one for an index out of range. */
  function Chosen(filters: seq<Name>, index: nat): Name
    requires filters != []
  {
    filters[Min(if index == 0 then 0 else index - 1, |filters| - 1)]
  }

  /** Filters are counted from 1; index 0 stands for the first one, and an index beyond the last
      one for the last. */
  lemma FiltersCountFromOne(filters: seq<Name>, index: nat)
    requires filters != []
    ensures index == 0 ==> Chosen(filters, index) == filters[0]
    ensures 1 <= index <= |filters| ==> Chosen(filters, index) == filters[index - 1]
    ensures index > |filters| ==> Chosen(filters, index) == filters[|filters| - 1]
  {
  }

  predicate SomeAccepts(name: Name, parts: seq<Name>, spec: Wildcard)
    ensures SomeAccepts(name, parts, spec) <==> exists k :: 0 <= k < |parts| && PartAccepts(name, parts[k], spec)
  {
    parts != [] && (PartAccepts(name, parts[0], spec) || SomeAccepts(name, parts[1..], spec))
  }

  predicate Accepts(filters: seq<Name>, index: nat, spec: Wildcard, name: Name) {
    filters == [] || SomeAccepts(name, Parts(Chosen(filters, index), 0), spec)
  }

  // ----- what a name has to match ---------------------------------------------

  /** These positions bound one alternative of a pattern. */
  ghost predicate IsPiece(s: Name, i: int, j: int) {
    && 0 <= i <= j <= |s| && (i == 0 || s[i - 1] == 59) && (j == |s| || s[j] == 59)
    && forall k :: i <= k < j ==> s[k] != 59
  }

  /** One of the alternatives from a position on accepts the name. */
  ghost predicate PieceAccepts(s: Name, i: int, j: int, name: Name, spec: Wildcard) {
    IsPiece(s, i, j) && (s[i..j] == [42] || s[i..j] == [42, 46, 42] || spec(name, s[i..j]))
  }

  ghost predicate PatternAccepts(s: Name, name: Name, spec: Wildcard) {
    exists i, j :: PieceAccepts(s, i, j, name, spec)
  }

  lemma PieceFrom(s: Name, from: nat, end: nat)
    requires from <= |s| && (from == 0 || s[from - 1] == 59) && end == IndexOf(s, SEMICOLON, from)
    ensures IsPiece(s, from, end) && forall i, j :: IsPiece(s, i, j) && from <= i <= end ==> i == from && j == end
  {
    assert forall k :: from <= k < end ==> s[from..end][k - from] == s[k];
  }

  lemma {:induction false} PiecesFrom(s: Name, from: nat, name: Name, spec: Wildcard)
    requires from <= |s| && (from == 0 || s[from - 1] == 59)
    ensures SomeAccepts(name, Parts(s, from), spec) <==> exists i, j :: i >= from && PieceAccepts(s, i, j, name, spec)
    decreases |s| - from
  {
    hide SomeAccepts, Parts, IsPiece, IndexOf;
    var end := IndexOf(s, SEMICOLON, from);
    PieceFrom(s, from, end);
    FirstPart(s, from, name, spec);
    assert PartAccepts(name, s[from..end], spec) <==> PieceAccepts(s, from, end, name, spec);
    if end < |s| {
      PiecesFrom(s, end + 1, name, spec);
      if i, j :| i >= from && PieceAccepts(s, i, j, name, spec) && i <= end {
        assert i == from && j == end;
      }
    } else {
      PieceBounds(s);
    }
  }

  lemma PieceBounds(s: Name)
    ensures forall i, j :: IsPiece(s, i, j) ==> 0 <= i <= j <= |s|
  {
  }

  /** A name is accepted exactly if there are no filters, or some alternative of the chosen one,
      between its semicolons, is "*" or "*.*" or matches it. */
  lemma AcceptsExactly(filters: seq<Name>, index: nat, spec: Wildcard, name: Name)
    ensures Accepts(filters, index, spec, name) <==>
              || filters == []
              || PatternAccepts(filters[if index == 0 then 0 else if index > |filters| then |filters| - 1 else index - 1], name, spec)
  {
    hide SomeAccepts, Parts, IsPiece;
    if filters != [] {
      var pattern := Chosen(filters, index);
      PiecesFrom(pattern, 0, name, spec);
      PieceBounds(pattern);
    }
  }

  lemma FirstPart(pattern: Name, from: nat, name: Name, spec: Wildcard)
    requires from <= |pattern|
    ensures var end := IndexOf(pattern, SEMICOLON, from);
            SomeAccepts(name, Parts(pattern, from), spec)
            == (PartAccepts(name, pattern[from..end], spec)
                || (end < |pattern| && SomeAccepts(name, Parts(pattern, end + 1), spec)))
  {
    hide PartAccepts, IndexOf, JoinedBy, Parts;
    PartsSplit(pattern, from);
  }

  method NameMatches(filters: seq<Name>, index: nat, spec: Wildcard, name: Name) returns (r: bool)
    ensures r == Accepts(filters, index, spec, name)
  {
    hide PartAccepts, SomeAccepts, Parts, IndexOf, Chosen;
    if filters == [] {
      return true;
    }
    var pattern, start := Chosen(filters, index), 0;
    while true
      invariant start <= |pattern|
      invariant SomeAccepts(name, Parts(pattern, 0), spec) == SomeAccepts(name, Parts(pattern, start), spec)
      decreases |pattern| - start
    {
      var end := IndexOf(pattern, SEMICOLON, start);
      var part := pattern[start..end];
      FirstPart(pattern, start, name, spec);
      if PartAccepts(name, part, spec) {
        return true;
      }
      if end == |pattern| {
        return false;
      }
      start := end + 1;
    }
  }

  // ----- what the filter keeps ------------------------------------------------

  /** Where the name starts, for the information classes the dialog filters. */
  function NameOffset(kind: nat): (off: nat)
    ensures off != 0 ==> off == DirectoryPages.NameOffset(kind) && off >= LENGTH_AT + 4
  {
    if kind in {1, 2, 3, 37, 38} then DirectoryPages.NameOffset(kind) else 0
  }

  /** The dialog filters listings of five classes. */
  lemma FilteredClasses(kind: nat)
    ensures NameOffset(kind) ==
            if kind == 1 then 64 else if kind == 2 then 68 else if kind == 3 then 94 else if kind == 37 then 104
            else if kind == 38 then 80 else 0
  {
  }

  function NameLength(page: seq<Byte>, pos: nat): nat
    requires pos + LENGTH_AT + 4 <= |page|
  {
    Number(Field(page, pos + LENGTH_AT, 4))
  }

  function Span(page: seq<Byte>, pos: nat): nat
    requires pos + LINK <= |page|
  {
    if LinkAt(page, pos) == 0 then |page| - pos else LinkAt(page, pos)
  }

  /** The record at a position passes the checks of the loop. */
  predicate RecordOk(page: seq<Byte>, pos: nat, off: nat)
    requires off >= LENGTH_AT + 4
  {
    && pos + off <= |page|
    && var n := NameLength(page, pos);
    && n % 2 == 0 && pos + off + n <= |page|
    && Span(page, pos) >= off + n && pos + Span(page, pos) <= |page|
  }

  predicate Clean(page: seq<Byte>, pos: nat, off: nat)
    requires off >= LENGTH_AT + 4
    decreases |page| - pos
  {
    pos >= |page|
    || (RecordOk(page, pos, off) && (LinkAt(page, pos) == 0 || Clean(page, pos + LinkAt(page, pos), off)))
  }

  datatype Choice = Choice(off: nat, filters: seq<Name>, index: nat, spec: Wildcard)
  {
    /** Directories stay, and files whose name the filter accepts. */
    predicate Keeps(body: seq<Byte>) {
      && off >= LENGTH_AT + 4 && |body| + LINK >= off
      && var n := Number(Field(body, LENGTH_AT - LINK, 4));
      && off + n <= |body| + LINK
      && (Number(Field(body, ATTRIBUTES_AT - LINK, 4)) / 16 % 2 == 1
          || Accepts(filters, index, spec, WideOf(Field(body, off - LINK, n))))
    }
  }

  function Kept(c: Choice, bodies: seq<seq<Byte>>): seq<seq<Byte>> {
    if bodies == [] then [] else (if c.Keeps(bodies[0]) then [bodies[0]] else []) + Kept(c, bodies[1..])
  }

  /** The bodies that a walk meets as long as the records pass the checks. */
  function Met(page: seq<Byte>, pos: nat, off: nat): seq<seq<Byte>>
    requires off >= LENGTH_AT + 4
    decreases |page| - pos
  {
    if pos >= |page| || !RecordOk(page, pos, off) then []
    else
      [page[pos + LINK..pos + Span(page, pos)]]
      + (if LinkAt(page, pos) == 0 then [] else Met(page, pos + LinkAt(page, pos), off))
  }

  lemma HasLink(page: seq<Byte>, pos: nat, off: nat)
    requires off >= LENGTH_AT + 4 && pos < |page| && Clean(page, pos, off)
    ensures pos + LINK <= |page|
  {
    hide LinkAt, NameLength;
  }

  lemma MetLast(page: seq<Byte>, pos: nat, off: nat)
    requires off >= LENGTH_AT + 4 && pos < |page| && Clean(page, pos, off) && LinkAt(page, pos) == 0
    ensures WellFormed(page, pos, off) && Walk(page, pos, off) == Met(page, pos, off)
  {
    hide LinkAt, NameLength;
    assert page[pos + LINK..] == page[pos + LINK..pos + Span(page, pos)];
  }

  lemma MetNext(page: seq<Byte>, pos: nat, off: nat)
    requires off >= LENGTH_AT + 4 && pos < |page| && Clean(page, pos, off) && LinkAt(page, pos) != 0
    ensures var next := pos + LinkAt(page, pos);
            && pos + off <= next <= |page| && Clean(page, next, off)
            && Met(page, pos, off) == [page[pos + LINK..next]] + Met(page, next, off)
  {
    hide LinkAt, NameLength;
  }

  lemma {:induction false} CleanWalks(page: seq<Byte>, pos: nat, off: nat)
    requires off >= LENGTH_AT + 4 && pos <= |page| && Clean(page, pos, off)
    ensures WellFormed(page, pos, off) && Walk(page, pos, off) == Met(page, pos, off)
    decreases |page| - pos
  {
    if pos < |page| {
      HasLink(page, pos, off);
      hide *;
      if LinkAt(page, pos) == 0 {
        MetLast(page, pos, off);
      } else {
        MetNext(page, pos, off);
        CleanWalks(page, pos + LinkAt(page, pos), off);
        NextStep(page, pos, off);
      }
    }
  }

  // ----- compacting in place --------------------------------------------------

  /** These bytes are the kept records, linked to each other, the last of them with any link. */
  ghost predicate FrontIs(front: seq<Byte>, kept: seq<seq<Byte>>, link: nat) {
    if kept == [] then front == [] else front == Joined(kept[..|kept| - 1]) + Linked(link, kept[|kept| - 1])
  }

  /** The front of the page holds the kept records; nothing behind them has ever been written. */
  ghost predicate Compacting(data: seq<Byte>, was: seq<Byte>, kept: seq<seq<Byte>>, link: nat,
                             input: nat, output: nat, previous: nat)
  {
    && output <= input <= |was| == |data|
    && data[output..] == was[output..] && FrontIs(data[..output], kept, link)
    && if kept == [] then previous == SIZE_MAX else previous == |Joined(kept[..|kept| - 1])| < SIZE_MAX
  }

  lemma RecordIsLinked(page: seq<Byte>, pos: nat, span: nat)
    requires LINK <= span && pos + span <= |page|
    ensures page[pos..pos + span] == Linked(LinkAt(page, pos), page[pos + LINK..pos + span])
  {
    LittleOfNumber(Field(page, pos, LINK));
    assert page[pos..pos + span] == page[pos..pos + LINK] + page[pos + LINK..pos + span];
  }

  /** The page after the move. */
  lemma Moved(data: seq<Byte>, was: seq<Byte>, input: nat, output: nat, span: nat)
    requires output <= input && input + span <= |was| == |data| && data[output..] == was[output..]
    ensures var after := Patched(data, output, data[input..input + span]);
            && after[..output + span] == data[..output] + was[input..input + span]
            && after[output + span..] == was[output + span..]
  {
    SameTail(data, was, output, input, input + span);
    SameTail(data, was, output, output + span, output + span);
    PatchAtEnd(data, output, data[input..input + span]);
  }

  lemma PatchedFront(s: seq<Byte>, at: nat, bytes: seq<Byte>, cut: nat)
    requires at + |bytes| <= cut <= |s|
    ensures Patched(s, at, bytes)[..cut] == Patched(s[..cut], at, bytes)
    ensures Patched(s, at, bytes)[cut..] == s[cut..]
  {
    forall i | 0 <= i < cut ensures Patched(s, at, bytes)[..cut][i] == Patched(s[..cut], at, bytes)[i] {
    }
    assert Patched(s, at, bytes)[..cut] == Patched(s[..cut], at, bytes);
  }

  /** The front of the page after one more record has been moved there. */
  lemma MovedFront(data: seq<Byte>, was: seq<Byte>, input: nat, output: nat, span: nat)
    requires output <= input && LINK <= span && input + span <= |was| == |data| && data[output..] == was[output..]
    ensures var after := Patched(data, output, data[input..input + span]);
            && after[..output + span] == data[..output] + Linked(LinkAt(was, input), was[input + LINK..input + span])
            && after[output + span..] == was[output + span..]
  {
    hide *;
    Moved(data, was, input, output, span);
    RecordIsLinked(was, input, span);
  }

  /** What the front says about the record that was kept last. */
  lemma LastKept(data: seq<Byte>, was: seq<Byte>, kept: seq<seq<Byte>>, link: nat, input: nat, output: nat, previous: nat)
    requires Compacting(data, was, kept, link, input, output, previous) && kept != []
    ensures var front, last := kept[..|kept| - 1], kept[|kept| - 1];
            && kept == front + [last] && data[..output] == Joined(front) + Linked(link, last)
            && previous == |Joined(front)| != SIZE_MAX && output - previous == LINK + |last|
            && |Joined(kept)| == output
  {
    hide Joined, Linked, Little;
    var front, last := kept[..|kept| - 1], kept[|kept| - 1];
    LinkedLength(link, last);
    LinkedLength(LINK + |last|, last);
    assert kept == front + [last];
    PageSplits(front, last);
  }

  /** Linking the record kept last to the one behind it. */
  lemma LinkedUp(data: seq<Byte>, front: seq<seq<Byte>>, link: nat, last: seq<Byte>, tail: seq<Byte>, end: nat)
    requires end <= |data| && data[..end] == Joined(front) + Linked(link, last) + tail
    ensures |Joined(front)| + LINK <= end
    ensures var after := Patched(data, |Joined(front)|, Little(LINK + |last|, LINK));
            after[..end] == Joined(front + [last]) + tail && after[end..] == data[end..]
  {
    hide *;
    LinkedLength(link, last);
    ChainGrows(front, link, last, tail);
    PatchedFront(data, |Joined(front)|, Little(LINK + |last|, LINK), end);
  }

  lemma KeptOneMore(data: seq<Byte>, was: seq<Byte>, kept: seq<seq<Byte>>, body: seq<Byte>, next: nat, input: nat, end: nat)
    requires end <= input <= |was| == |data| < LINK_LIMIT
    requires data[end..] == was[end..] && data[..end] == Joined(kept) + Linked(next, body)
    ensures Compacting(data, was, kept + [body], next, input, end, |Joined(kept)|)
  {
    hide Joined, Linked;
    assert (kept + [body])[..|kept|] == kept;
  }

  /** Moves one record to the front and links the record before it to it. */
  method KeepRecord(data: array<Byte>, input: nat, output: nat, previous: nat, span: nat,
                    ghost was: seq<Byte>, ghost kept: seq<seq<Byte>>, ghost link: nat)
    requires Compacting(data[..], was, kept, link, input, output, previous)
    requires LINK <= span && input + span <= data.Length < LINK_LIMIT
    modifies data
    ensures Compacting(data[..], was, kept + [was[input + LINK..input + span]], LinkAt(was, input),
                       input + span, output + span, output)
  {
    ghost var before, body, next := data[..], was[input + LINK..input + span], LinkAt(was, input);
    hide *;
    CompactingSays(before, was, kept, link, input, output, previous);
    MovedFront(before, was, input, output, span);
    MoveWithin(data, output, input, span);
    if previous != SIZE_MAX {
      LastKept(before, was, kept, link, input, output, previous);
      LinkedUp(data[..], kept[..|kept| - 1], link, kept[|kept| - 1], Linked(next, body), output + span);
      WriteAt(data, previous, Little(output - previous, LINK));
    } else {
      NothingKept(before, was, kept, link, input, output, previous, Linked(next, body));
    }
    KeptOneMore(data[..], was, kept, body, next, input + span, output + span);
  }

  lemma CompactingSays(data: seq<Byte>, was: seq<Byte>, kept: seq<seq<Byte>>, link: nat, input: nat, output: nat, previous: nat)
    requires Compacting(data, was, kept, link, input, output, previous)
    ensures output <= input <= |was| == |data| && data[output..] == was[output..]
    ensures previous == SIZE_MAX <==> kept == []
  {
    hide FrontIs, Joined;
  }

  lemma NothingKept(data: seq<Byte>, was: seq<Byte>, kept: seq<seq<Byte>>, link: nat, input: nat, output: nat,
                    previous: nat, tail: seq<Byte>)
    requires Compacting(data, was, kept, link, input, output, previous) && previous == SIZE_MAX
    ensures data[..output] + tail == Joined(kept) + tail && |Joined(kept)| == output
  {
  }

  lemma LinkedLength(link: nat, body: seq<Byte>)
    ensures |Linked(link, body)| == LINK + |body|
  {
  }

  lemma FieldsOfBody(page: seq<Byte>, pos: nat, span: nat, at: nat, width: nat)
    requires LINK <= at && at + width <= span && pos + span <= |page|
    ensures Field(page[pos + LINK..pos + span], at - LINK, width) == Field(page, pos + at, width)
  {
    SliceOfSlice(page, pos + LINK, pos + span, at - LINK, at - LINK + width);
  }

  lemma KeepsRecord(c: Choice, page: seq<Byte>, pos: nat)
    requires c.off >= LENGTH_AT + 4 && RecordOk(page, pos, c.off)
    ensures c.Keeps(page[pos + LINK..pos + Span(page, pos)])
         == (|| Number(Field(page, pos + ATTRIBUTES_AT, 4)) / 16 % 2 == 1
             || Accepts(c.filters, c.index, c.spec, WideOf(Field(page, pos + c.off, NameLength(page, pos)))))
  {
    hide Number, Accepts;
    var span := Span(page, pos);
    FieldsOfBody(page, pos, span, ATTRIBUTES_AT, 4);
    FieldsOfBody(page, pos, span, LENGTH_AT, 4);
    FieldsOfBody(page, pos, span, c.off, NameLength(page, pos));
  }

  lemma KeptNone(c: Choice)
    ensures Kept(c, []) == []
  {
  }

  lemma KeptNext(c: Choice, kept: seq<seq<Byte>>, body: seq<Byte>, rest: seq<seq<Byte>>)
    ensures kept + Kept(c, [body] + rest) == (if c.Keeps(body) then kept + [body] else kept) + Kept(c, rest)
  {
    assert ([body] + rest)[1..] == rest;
  }

  lemma AtRecord(page: seq<Byte>, pos: nat, off: nat)
    requires off >= LENGTH_AT + 4
    ensures pos < |page| && !RecordOk(page, pos, off) ==> !Clean(page, pos, off)
    ensures RecordOk(page, pos, off) ==>
              var span := Span(page, pos);
              && LINK <= span && pos + span <= |page|
              && (if LinkAt(page, pos) == 0 then pos + span == |page| else LinkAt(page, pos) == span)
  {
  }

  lemma MetSplits(page: seq<Byte>, pos: nat, off: nat)
    requires off >= LENGTH_AT + 4 && RecordOk(page, pos, off)
    ensures var next := LinkAt(page, pos);
            && Clean(page, pos, off) == (next == 0 || Clean(page, pos + next, off))
            && Met(page, pos, off)
               == [page[pos + LINK..pos + Span(page, pos)]] + (if next == 0 then [] else Met(page, pos + next, off))
  {
  }

  lemma AtEnd(c: Choice, page: seq<Byte>)
    requires c.off >= LENGTH_AT + 4
    ensures Clean(page, |page|, c.off) && Kept(c, Met(page, |page|, c.off)) == []
  {
  }

  /** The records before `input` have been met, and these of them are kept. */
  ghost predicate Sofar(c: Choice, page: seq<Byte>, kept: seq<seq<Byte>>, input: nat)
    requires c.off >= LENGTH_AT + 4
  {
    && Clean(page, 0, c.off) == Clean(page, input, c.off)
    && Kept(c, Met(page, 0, c.off)) == kept + Kept(c, Met(page, input, c.off))
  }

  lemma SofarGrows(c: Choice, page: seq<Byte>, kept: seq<seq<Byte>>, pos: nat)
    requires c.off >= LENGTH_AT + 4 && RecordOk(page, pos, c.off) && Sofar(c, page, kept, pos)
    ensures var body := page[pos + LINK..pos + Span(page, pos)];
            Sofar(c, page, if c.Keeps(body) then kept + [body] else kept, pos + Span(page, pos))
  {
    hide Clean, Met, Kept, Choice.Keeps, Number, Field, RecordOk, LinkAt, Span;
    MetSplits(page, pos, c.off);
    AtRecord(page, pos, c.off);
    var body, next := page[pos + LINK..pos + Span(page, pos)], LinkAt(page, pos);
    if next == 0 {
      AtEnd(c, page);
      KeptNext(c, kept, body, []);
      assert [body] + [] == [body];
      KeptNone(c);
    } else {
      KeptNext(c, kept, body, Met(page, pos + next, c.off));
    }
  }

  lemma SofarEnds(c: Choice, page: seq<Byte>, kept: seq<seq<Byte>>, pos: nat)
    requires c.off >= LENGTH_AT + 4 && Sofar(c, page, kept, pos) && pos <= |page|
    ensures pos == |page| ==> Clean(page, 0, c.off) && Kept(c, Met(page, 0, c.off)) == kept
    ensures pos < |page| && !RecordOk(page, pos, c.off) ==> !Clean(page, 0, c.off) && Kept(c, Met(page, 0, c.off)) == kept
  {
    AtRecord(page, pos, c.off);
    AtEnd(c, page);
  }

  lemma RecordInPrefix(s: seq<Byte>, info: nat, pos: nat, span: nat)
    requires LINK <= span && pos + span <= info <= |s|
    ensures LinkAt(s[..info], pos) == LinkAt(s, pos)
    ensures s[..info][pos + LINK..pos + span] == s[pos + LINK..pos + span]
  {
    SliceOfTake(s, info, pos, pos + LINK);
    SliceOfTake(s, info, pos + LINK, pos + span);
  }

  /** The data from the current record on is untouched, so its fields are those of the page. */
  lemma FieldUnread(data: seq<Byte>, was: seq<Byte>, info: nat, input: nat, at: nat, n: nat)
    requires input <= at && at + n <= info <= |was| == |data| && data[input..] == was[input..]
    ensures data[at..at + n] == Field(was[..info], at, n)
  {
    SameTail(data, was, input, at, at + n);
    SliceOfTake(was, info, at, at + n);
  }

  method NumberAt(data: array<Byte>, at: nat, ghost was: seq<Byte>, ghost info: nat, ghost input: nat) returns (n: nat)
    requires input <= at && at + 4 <= info <= |was| == data.Length && data[input..] == was[input..]
    ensures n == Number(Field(was[..info], at, 4))
  {
    FieldUnread(data[..], was, info, input, at, 4);
    n := Number(data[at..at + 4]);
  }

  /** What the loop reads of the record at the current position. */
  method Inspect(data: array<Byte>, info: nat, input: nat, c: Choice, ghost was: seq<Byte>)
    returns (ok: bool, next: nat, span: nat, keep: bool)
    requires c.off >= LENGTH_AT + 4 && input < info <= |was| == data.Length && data[input..] == was[input..]
    ensures var page := was[..info];
            && ok == RecordOk(page, input, c.off)
            && (ok ==>
                  && next == LinkAt(page, input) && span == Span(page, input)
                  && keep == c.Keeps(page[input + LINK..input + span]))
  {
    hide Number, Field, Accepts, Choice.Keeps;
    ghost var page := was[..info];
    next, span, keep := 0, 0, false;
    if input + c.off > info {
      return false, next, span, keep;
    }
    next := NumberAt(data, input, was, info, input);
    var n := NumberAt(data, input + LENGTH_AT, was, info, input);
    var flags := NumberAt(data, input + ATTRIBUTES_AT, was, info, input);
    if n % 2 != 0 || input + c.off + n > info {
      return false, next, span, keep;
    }
    span := if next != 0 then next else info - input;
    if span < c.off + n || input + span > info {
      return false, next, span, keep;
    }
    KeepsRecord(c, page, input);
    FieldUnread(data[..], was, info, input, input + c.off, n);
    if flags / 16 % 2 == 1 {
      keep := true;
    } else {
      keep := NameMatches(c.filters, c.index, c.spec, WideOf(data[input + c.off..input + c.off + n]));
    }
    ok := true;
  }

  lemma Skipped(data: seq<Byte>, was: seq<Byte>, kept: seq<seq<Byte>>, link: nat,
                input: nat, output: nat, previous: nat, span: nat)
    requires Compacting(data, was, kept, link, input, output, previous) && input + span <= |was|
    ensures Compacting(data, was, kept, link, input + span, output, previous)
  {
  }

  lemma Untouched(data: seq<Byte>, was: seq<Byte>, kept: seq<seq<Byte>>, link: nat, input: nat, output: nat, previous: nat)
    requires Compacting(data, was, kept, link, input, output, previous)
    ensures output <= input <= |data| == |was| && data[output..] == was[output..] && data[input..] == was[input..]
    ensures output == 0 <==> kept == []
  {
    CompactingSays(data, was, kept, link, input, output, previous);
    hide Joined, Linked;
    SameTail(data, was, output, input, input);
    if kept != [] {
      LinkedLength(link, kept[|kept| - 1]);
    }
  }

  lemma FrontOf(data: seq<Byte>, was: seq<Byte>, kept: seq<seq<Byte>>, link: nat, input: nat, output: nat, previous: nat)
    requires Compacting(data, was, kept, link, input, output, previous)
    ensures output <= |data| && FrontIs(data[..output], kept, link)
  {
    hide FrontIs;
  }

  /** Keeps the record or passes over it. */
  method Place(data: array<Byte>, keep: bool, input: nat, span: nat, output: nat, previous: nat,
               ghost was: seq<Byte>, ghost kept: seq<seq<Byte>>, ghost link: nat)
    returns (end: nat, last: nat, ghost now: seq<seq<Byte>>, ghost open: nat)
    requires Compacting(data[..], was, kept, link, input, output, previous)
    requires LINK <= span && input + span <= data.Length < LINK_LIMIT
    modifies data
    ensures now == if keep then kept + [was[input + LINK..input + span]] else kept
    ensures Compacting(data[..], was, now, open, input + span, end, last)
  {
    hide Patched, Joined, Linked;
    if keep {
      KeepRecord(data, input, output, previous, span, was, kept, link);
      return output + span, output, kept + [was[input + LINK..input + span]], LinkAt(was, input);
    } else {
      Skipped(data[..], was, kept, link, input, output, previous, span);
      return output, previous, kept, link;
    }
  }

  /** Clears the last link. */
  method Finish(data: array<Byte>, input: nat, output: nat, previous: nat,
                ghost was: seq<Byte>, ghost kept: seq<seq<Byte>>, ghost link: nat)
    requires data.Length < LINK_LIMIT && kept != [] && Compacting(data[..], was, kept, link, input, output, previous)
    modifies data
    ensures data[..output] == Page(kept) && data[output..] == was[output..]
  {
    hide Joined, Linked, Little, Patched, Page;
    ghost var before, front, last := data[..], kept[..|kept| - 1], kept[|kept| - 1];
    assert kept == front + [last];
    LinkedLength(link, last);
    ChainEnds(front, link, last);
    PatchedFront(before, previous, Little(0, LINK), output);
    WriteAt(data, previous, Little(0, LINK));
  }

  /** Compacts a page in place. A record that fails a check ends the whole call, with the kept
      records before it at the front; nothing behind the front is ever written. */
  method Compact(data: array<Byte>, info: nat, c: Choice) returns (ok: bool, output: nat)
    requires c.off >= LENGTH_AT + 4 && info <= data.Length < LINK_LIMIT
    modifies data
    ensures ok == Clean(old(data[..info]), 0, c.off)
    ensures output <= info && data[output..] == old(data[output..])
    ensures !ok ==> exists link: nat :: FrontIs(data[..output], Kept(c, Met(old(data[..info]), 0, c.off)), link)
    ensures ok ==> data[..output] == Page(Kept(c, Met(old(data[..info]), 0, c.off)))
    ensures ok ==> (output == 0 <==> Kept(c, Met(old(data[..info]), 0, c.off)) == [])
  {
    hide Choice.Keeps, Kept, RecordOk, LinkAt, Page, Met, Clean, Span, Field, Sofar, Compacting, FrontIs;
    var input, previous := 0, SIZE_MAX;
    output := 0;
    ghost var was, kept, link := data[..], [], 0;
    ghost var page := was[..info];
    Starts(c, page, was);
    while input < info
      invariant input <= info && |was| == data.Length
      invariant Compacting(data[..], was, kept, link, input, output, previous)
      invariant Sofar(c, page, kept, input)
      decreases info - input
    {
      Untouched(data[..], was, kept, link, input, output, previous);
      var good, next, span, keep := Inspect(data, info, input, c, was);
      if !good {
        SofarEnds(c, page, kept, input);
        FrontOf(data[..], was, kept, link, input, output, previous);
        return false, output;
      }
      SofarGrows(c, page, kept, input);
      AtRecord(page, input, c.off);
      RecordInPrefix(was, info, input, span);
      output, previous, kept, link := Place(data, keep, input, span, output, previous, was, kept, link);
      if next == 0 {
        input := input + span;
        break;
      }
      input := input + next;
    }
    SofarEnds(c, page, kept, input);
    ok := true;
    Untouched(data[..], was, kept, link, input, output, previous);
    if output != 0 {
      Finish(data, input, output, previous, was, kept, link);
    } else {
      NoRecords();
      assert data[..output] == [];
    }
  }

  lemma Starts(c: Choice, page: seq<Byte>, was: seq<Byte>)
    requires c.off >= LENGTH_AT + 4
    ensures Sofar(c, page, [], 0) && Compacting(was, was, [], 0, 0, 0, SIZE_MAX)
  {
  }

  // ----- the query ------------------------------------------------------------

  lemma {:induction false} KeptIsSome(c: Choice, bodies: seq<seq<Byte>>)
    ensures |Kept(c, bodies)| <= |bodies| && forall b :: b in Kept(c, bodies) ==> b in bodies && c.Keeps(b)
  {
    hide Choice.Keeps;
    if bodies != [] {
      KeptIsSome(c, bodies[1..]);
    }
  }

  /** A walk of the compacted page meets exactly the kept records of the page before, in
      order, and nothing of any record has changed but its link. */
  lemma CompactedWalks(c: Choice, before: seq<Byte>)
    requires c.off >= LENGTH_AT + 4 && Clean(before, 0, c.off)
    requires |Page(Kept(c, Met(before, 0, c.off)))| < LINK_LIMIT
    ensures WellFormed(before, 0, c.off)
    ensures var kept := Kept(c, Walk(before, 0, c.off));
            && kept == Kept(c, Met(before, 0, c.off))
            && WellFormed(Page(kept), 0, c.off) && Walk(Page(kept), 0, c.off) == kept
  {
    hide Kept, Met, Clean, Page, Walk, WellFormed;
    CleanWalks(before, 0, c.off);
    var kept := Kept(c, Met(before, 0, c.off));
    KeptIsSome(c, Met(before, 0, c.off));
    PageWalks(kept, c.off);
  }

  /** What the system's own query returns: a status, a length, and a page if it fits. */
  datatype Answer = Answer(status: nat, information: nat, page: seq<Byte>)
  {
    predicate Fits(length: nat) {
      status == 0 && information <= length ==> |page| == information
    }

    /** Answers that are passed on as they are. */
    predicate Passed(c: Choice, length: nat)
      requires c.off >= LENGTH_AT + 4
    {
      status != 0 || information > length || !Clean(page, 0, c.off)
    }
  }

  /** The page shows what is kept of the answer. */
  ghost predicate ShowsKept(c: Choice, page: seq<Byte>, a: Answer)
    requires c.off >= LENGTH_AT + 4
  {
    && WellFormed(a.page, 0, c.off) && WellFormed(page, 0, c.off)
    && Walk(page, 0, c.off) == Kept(c, Walk(a.page, 0, c.off))
  }

  /** What a page that fails a check has become: the kept records before the first bad one
      stand at its front, and the rest is as it was. */
  ghost predicate LeftBehind(c: Choice, data: seq<Byte>, page: seq<Byte>)
    requires c.off >= LENGTH_AT + 4
  {
    && |data| == |page|
    && exists output: nat, link: nat ::
         && output <= |page| && data[output..] == page[output..]
         && FrontIs(data[..output], Kept(c, Met(page, 0, c.off)), link)
  }

  lemma IsLeftBehind(c: Choice, data: seq<Byte>, was: seq<Byte>, info: nat, output: nat, link: nat)
    requires c.off >= LENGTH_AT + 4 && output <= info <= |data| == |was| && data[output..] == was[output..]
    requires FrontIs(data[..output], Kept(c, Met(was[..info], 0, c.off)), link)
    ensures LeftBehind(c, data[..info], was[..info])
  {
    hide FrontIs, Kept, Met;
    SameTail(data, was, output, output, info);
    SliceOfTake(data, info, 0, output);
    SliceOfTake(data, info, output, info);
    SliceOfTake(was, info, output, info);
    assert data[..info][..output] == data[..output];
    assert data[..info][output..] == was[..info][output..];
  }

  method CompactAnswer(data: array<Byte>, c: Choice, a: Answer) returns (ok: bool, output: nat)
    requires c.off >= LENGTH_AT + 4 && a.information == |a.page| <= data.Length < LINK_LIMIT
    modifies data
    ensures ok == Clean(a.page, 0, c.off)
    ensures output <= |a.page| && (ok ==> ShowsKept(c, data[..output], a))
    ensures !ok ==> LeftBehind(c, data[..|a.page|], a.page)
    ensures ok ==> (output == 0 <==> Kept(c, Met(a.page, 0, c.off)) == [])
  {
    hide Clean, Met, Kept, Page, Walk, WellFormed, Patched, FrontIs, LeftBehind;
    ghost var was := data[..];
    WriteAt(data, 0, a.page);
    PatchAtEnd(was, 0, a.page);
    assert was[..0] + a.page == a.page;
    assert data[..|a.page|] == a.page;
    ghost var filled := data[..];
    ok, output := Compact(data, |a.page|, c);
    if ok {
      CompactedWalks(c, a.page);
    } else {
      ghost var link: nat :| FrontIs(data[..output], Kept(c, Met(a.page, 0, c.off)), link);
      IsLeftBehind(c, data[..], filled, |a.page|, output, link);
    }
  }

  /** The query of the dialog: it asks the system again until something is kept. native are
      the answers of the system; the last one ends the listing or is passed on. */
  method Query(data: array<Byte>, c: Choice, native: seq<Answer>) returns (status: nat, information: nat, asked: nat)
    requires c.off >= LENGTH_AT + 4 && data.Length < LINK_LIMIT
    requires forall a :: a in native ==> a.Fits(data.Length)
    requires native != [] && (native[|native| - 1].Passed(c, data.Length) || native[|native| - 1].information == 0)
    modifies data
    ensures 0 < asked <= |native|
    ensures forall k :: 0 <= k < asked - 1 ==>
              && !native[k].Passed(c, data.Length) && native[k].information > 0
              && Kept(c, Met(native[k].page, 0, c.off)) == []
    ensures var a := native[asked - 1];
            if a.Passed(c, data.Length) then
              && status == a.status && information == a.information
              && (status == 0 && information <= data.Length ==> LeftBehind(c, data[..information], a.page))
            else
              && status == 0 && information <= data.Length && ShowsKept(c, data[..information], a)
              && (information == 0 ==> a.information == 0)
  {
    hide Clean, Met, Kept, ShowsKept, LeftBehind;
    asked := 0;
    while true
      invariant asked < |native|
      invariant forall k :: 0 <= k < asked ==>
                  && !native[k].Passed(c, data.Length) && native[k].information > 0
                  && Kept(c, Met(native[k].page, 0, c.off)) == []
      decreases |native| - asked
    {
      var a := native[asked];
      assert a in native;
      asked := asked + 1;
      if a.status != 0 || a.information > data.Length {
        return a.status, a.information, asked;
      }
      var ok, output := CompactAnswer(data, c, a);
      if !ok {
        return a.status, a.information, asked;
      }
      if output != 0 {
        return a.status, output, asked;
      }
      if a.information == 0 {
        return a.status, 0, asked;
      }
    }
  }
}
