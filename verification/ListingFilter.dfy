/** The dialog's type filter on the listings of archives: what the page looks like afterwards, in
    terms of the entries instead of bytes. */
module ListingFilter {
  import opened Bytes
  import opened Sequences
  import opened RecordChain
  import opened DirectoryPages
  import opened DirectoryQuery
  import Filter = RecordFilter

  /** Folders stay, and files whose name the chosen filter accepts. */
  predicate Wanted(c: Filter.Choice, e: Entry) {
    e.directory || Filter.Accepts(c.filters, c.index, c.spec, e.path)
  }

  function WantedOf(c: Filter.Choice, entries: seq<Entry>, printed: seq<nat>): (r: seq<nat>)
    requires Listed(entries, printed)
    ensures Listed(entries, r)
  {
    if printed == [] then []
    else (if Wanted(c, entries[printed[0]]) then [printed[0]] else []) + WantedOf(c, entries, printed[1..])
  }

  /** The record has an even length of its name in it, and the whole name. */
  predicate Whole(body: seq<Byte>, off: nat)
    requires off >= Filter.LENGTH_AT + 4
  {
    && |body| + LINK >= off
    && var n := Number(Field(body, Filter.LENGTH_AT - LINK, 4));
    n % 2 == 0 && off + n <= |body| + LINK
  }

  lemma PrintedIsWhole(c: Filter.Choice, cls: nat, e: Entry, number: nat)
    requires cls != NAMES_ONLY && NameOffset(cls) != 0 && c.off == NameOffset(cls) >= Filter.LENGTH_AT + 4 && e.Fits()
    ensures Whole(Body(cls, e, number), c.off)
    ensures c.Keeps(Body(cls, e, number)) <==> Wanted(c, e)
  {
    hide Fields, NameOffset, Body, Number, Little, WideOf, Power256, Filter.Accepts, AllocationSize;
    Widths(e);
    FieldsListed(cls, e, number);
    NumberReadsBack(cls, e, number, 7, 56, Attributes(e), 4);
    NumberReadsBack(cls, e, number, 8, 60, 2 * |e.path|, 4);
    NameReadsBack(cls, e, number);
  }

  lemma {:induction false} WholeRecordsAreClean(page: seq<Byte>, pos: nat, bodies: seq<seq<Byte>>, off: nat)
    requires off >= Filter.LENGTH_AT + 4 && |page| < LINK_LIMIT && pos <= |page| && page[pos..] == Page(bodies)
    requires forall b :: b in bodies ==> Whole(b, off)
    ensures Filter.Clean(page, pos, off)
    decreases |bodies|
  {
    if bodies != [] {
      hide Linked, LinkAt, Page, Whole, Filter.Clean;
      PageStarts(bodies);
      var body, more := bodies[0], bodies[1..];
      var link := if more == [] then 0 else LINK + |body|;
      RecordRead(page, pos, link, body, Page(more));
      if more != [] {
        WholeRecordsAreClean(page, pos + LINK + |body|, more, off);
      }
      assert Whole(body, off);
      CleanFrom(page, pos, body, off);
    }
  }

  lemma CleanFrom(page: seq<Byte>, pos: nat, body: seq<Byte>, off: nat)
    requires off >= Filter.LENGTH_AT + 4 && pos + LINK + |body| <= |page| && Whole(body, off)
    requires page[pos + LINK..pos + LINK + |body|] == body
    requires if LinkAt(page, pos) == 0 then pos + LINK + |body| == |page|
             else LinkAt(page, pos) == LINK + |body| && Filter.Clean(page, pos + LINK + |body|, off)
    ensures Filter.Clean(page, pos, off)
  {
    hide LinkAt, Number;
    Filter.FieldsOfBody(page, pos, LINK + |body|, Filter.LENGTH_AT, 4);
  }

  lemma {:induction false} KeptAreWanted(c: Filter.Choice, cls: nat, entries: seq<Entry>, printed: seq<nat>)
    requires Filter.NameOffset(cls) != 0 && c.off == NameOffset(cls) && Listed(entries, printed)
    requires forall e :: e in entries ==> e.Fits()
    ensures Filter.Kept(c, Bodies(cls, entries, printed)) == Bodies(cls, entries, WantedOf(c, entries, printed))
    ensures forall b :: b in Bodies(cls, entries, printed) ==> Whole(b, c.off)
  {
    hide Body, Wanted, Filter.Choice.Keeps, Whole;
    if printed != [] {
      var k, rest := printed[0], printed[1..];
      KeptAreWanted(c, cls, entries, rest);
      PrintedIsWhole(c, cls, entries[k], FileIndex(k));
      assert Bodies(cls, entries, printed) == [Body(cls, entries[k], FileIndex(k))] + Bodies(cls, entries, rest);
      assert Bodies(cls, entries, [k] + WantedOf(c, entries, rest))
          == [Body(cls, entries[k], FileIndex(k))] + Bodies(cls, entries, WantedOf(c, entries, rest));
      assert [] + WantedOf(c, entries, rest) == WantedOf(c, entries, rest);
    }
  }

  /** Compacting the listing of an archive never fails, and leaves exactly the listing of the
      folders and of the files that the chosen filter accepts, in their order. */
  lemma FilteredListing(c: Filter.Choice, cls: nat, entries: seq<Entry>, printed: seq<nat>)
    requires Filter.NameOffset(cls) != 0 && c.off == NameOffset(cls) && Listed(entries, printed)
    requires (forall e :: e in entries ==> e.Fits()) && |PageOf(cls, entries, printed)| < LINK_LIMIT
    ensures var page := PageOf(cls, entries, printed);
            && Filter.Clean(page, 0, c.off)
            && Page(Filter.Kept(c, Filter.Met(page, 0, c.off))) == PageOf(cls, entries, WantedOf(c, entries, printed))
  {
    hide Body, Page, Whole, WellFormed, Walk, Filter.Clean, Filter.Kept, Filter.Met;
    var page, bodies := PageOf(cls, entries, printed), Bodies(cls, entries, printed);
    KeptAreWanted(c, cls, entries, printed);
    assert page[0..] == page;
    WholeRecordsAreClean(page, 0, bodies, c.off);
    Filter.CleanWalks(page, 0, c.off);
    LongEnough(bodies, c.off);
    PageWalks(bodies, c.off);
  }

  lemma LongEnough(bodies: seq<seq<Byte>>, off: nat)
    requires off >= Filter.LENGTH_AT + 4 && forall b :: b in bodies ==> Whole(b, off)
    ensures forall b :: b in bodies ==> |b| + LINK >= off
  {
  }

  // ----- the dialog's query over an archive -----------------------------------

  /** What the system answers about an archive: its pages, and then that there are no more. */
  function Answers(cls: nat, entries: seq<Entry>, pages: seq<seq<nat>>): (r: seq<Filter.Answer>)
    requires NameOffset(cls) != 0 && forall p :: p in pages ==> Listed(entries, p)
    ensures |r| == |pages| + 1
  {
    seq(|pages|, k requires 0 <= k < |pages| => Answered(cls, entries, pages[k])) + [Filter.Answer(NO_MORE, 0, [])]
  }

  function Answered(cls: nat, entries: seq<Entry>, printed: seq<nat>): Filter.Answer
    requires NameOffset(cls) != 0 && Listed(entries, printed)
  {
    var page := PageOf(cls, entries, printed);
    Filter.Answer(0, |page|, page)
  }

  /** What the filter makes of one page of the archive. */
  lemma PageOfArchive(c: Filter.Choice, cls: nat, entries: seq<Entry>, printed: seq<nat>, length: nat)
    requires Filter.NameOffset(cls) != 0 && c.off == NameOffset(cls) && Listed(entries, printed)
    requires (forall e :: e in entries ==> e.Fits()) && |PageOf(cls, entries, printed)| <= length < LINK_LIMIT && printed != []
    ensures var a, kept := Answered(cls, entries, printed), Bodies(cls, entries, WantedOf(c, entries, printed));
            && a.Fits(length) && !a.Passed(c, length) && a.information > 0
            && Filter.Kept(c, Filter.Met(a.page, 0, c.off)) == kept
            && WellFormed(a.page, 0, c.off) && Filter.Kept(c, Walk(a.page, 0, c.off)) == kept
  {
    hide Body, Page, Whole, WellFormed, Walk, Filter.Clean, Filter.Kept, Filter.Met;
    FilteredListing(c, cls, entries, printed);
    KeptAreWanted(c, cls, entries, printed);
    var bodies := Bodies(cls, entries, printed);
    Filter.CleanWalks(PageOf(cls, entries, printed), 0, c.off);
    LongEnough(bodies, c.off);
    PageWalks(bodies, c.off);
    PageStarts(bodies);
    NotEmpty(bodies);
  }

  lemma NotEmpty(bodies: seq<seq<Byte>>)
    requires bodies != []
    ensures |Page(bodies)| > 0
  {
  }

  lemma WalkMeets(page: seq<Byte>, least: nat)
    requires page != [] && WellFormed(page, 0, least)
    ensures Walk(page, 0, least) != []
  {
    hide LinkAt;
  }

  /** The dialog asks again until something is wanted: it gets the first page of the archive with
      wanted entries, reduced to these; and it hears that there are no more exactly if no page
      has any. */
  method QueryArchive(data: array<Byte>, c: Filter.Choice, cls: nat, entries: seq<Entry>, pages: seq<seq<nat>>)
    returns (status: nat, information: nat, asked: nat)
    requires Filter.NameOffset(cls) != 0 && c.off == NameOffset(cls) && data.Length < LINK_LIMIT
    requires forall e :: e in entries ==> e.Fits()
    requires forall p :: p in pages ==> p != [] && Listed(entries, p) && |PageOf(cls, entries, p)| <= data.Length
    modifies data
    ensures 0 < asked <= |pages| + 1 && forall k :: 0 <= k < asked - 1 ==> WantedOf(c, entries, pages[k]) == []
    ensures if asked <= |pages| then
              && status == 0 && 0 < information <= data.Length && WantedOf(c, entries, pages[asked - 1]) != []
              && WellFormed(data[..information], 0, c.off)
              && Walk(data[..information], 0, c.off) == Bodies(cls, entries, WantedOf(c, entries, pages[asked - 1]))
            else status == NO_MORE && information == 0
  {
    hide PageOf, WellFormed, Walk, WantedOf, Bodies, Filter.Clean, Filter.Kept, Filter.Met, Filter.LeftBehind;
    var native := Answers(cls, entries, pages);
    forall k | 0 <= k < |pages|
      ensures native[k] == Answered(cls, entries, pages[k]) && native[k].Fits(data.Length) && !native[k].Passed(c, data.Length)
      ensures native[k].information > 0
      ensures Filter.Kept(c, Filter.Met(native[k].page, 0, c.off)) == Bodies(cls, entries, WantedOf(c, entries, pages[k]))
      ensures WellFormed(native[k].page, 0, c.off)
      ensures Filter.Kept(c, Walk(native[k].page, 0, c.off)) == Bodies(cls, entries, WantedOf(c, entries, pages[k]))
    {
      assert pages[k] in pages;
      PageOfArchive(c, cls, entries, pages[k], data.Length);
    }
    assert native[|pages|] == Filter.Answer(NO_MORE, 0, []);
    status, information, asked := Filter.Query(data, c, native);
    if asked <= |pages| {
      WalkMeets(data[..information], c.off);
    }
  }
}
