/** Chains of variable-length directory records: every record starts with a 32-bit link, which
    is the distance to the next record, or zero in the last one. */
module RecordChain {
  import opened Bytes
  import opened Sequences

  const LINK: nat := 4
  const LINK_LIMIT: nat := 0x1_0000_0000

  /** A record with the given link; its body is everything after the link. */
  function Linked(link: nat, body: seq<Byte>): seq<Byte> {
    Little(link, LINK) + body
  }

  /** Records that are all followed by another one. */
  function Joined(bodies: seq<seq<Byte>>): seq<Byte> {
    if bodies == [] then []
    else Linked(LINK + |bodies[0]|, bodies[0]) + Joined(bodies[1..])
  }

  /** A whole page: the links lead from record to record, and the last one is zero. */
  function Page(bodies: seq<seq<Byte>>): seq<Byte> {
    if bodies == [] then []
    else if |bodies| == 1 then Linked(0, bodies[0])
    else Linked(LINK + |bodies[0]|, bodies[0]) + Page(bodies[1..])
  }

  lemma NoRecords()
    ensures Joined([]) == [] && Page([]) == []
  {
  }

  function LinkAt(page: seq<Byte>, pos: nat): nat
    requires pos + LINK <= |page|
  {
    Number(Field(page, pos, LINK))
  }

  /** The links can be followed from pos: every record holds at least `least` bytes, no link
      leads outside the page, and the chain ends in a zero link or exactly at the end. */
  predicate WellFormed(page: seq<Byte>, pos: nat, least: nat)
    decreases |page| - pos
  {
    pos == |page| ||
    (&& least >= LINK && pos + least <= |page|
     && var link := LinkAt(page, pos);
     link == 0 || (link >= least && pos + link <= |page| && WellFormed(page, pos + link, least)))
  }

  /** The bodies of the records a walker meets that follows the links from pos. */
  function Walk(page: seq<Byte>, pos: nat, least: nat): seq<seq<Byte>>
    requires WellFormed(page, pos, least)
    decreases |page| - pos
  {
    if pos == |page| then []
    else
      var link := LinkAt(page, pos);
      if link == 0 then [page[pos + LINK..]]
      else [page[pos + LINK..pos + link]] + Walk(page, pos + link, least)
  }

  /** What a walker reads where a record stands. */
  lemma RecordRead(page: seq<Byte>, pos: nat, link: nat, body: seq<Byte>, rest: seq<Byte>)
    requires pos <= |page| && page[pos..] == Linked(link, body) + rest && link < LINK_LIMIT
    ensures pos + LINK + |body| <= |page| && LinkAt(page, pos) == link
    ensures page[pos + LINK..pos + LINK + |body|] == body && page[pos + LINK + |body|..] == rest
  {
    hide Little, Number;
    PowerOf4();
    NumberOfLittle(link, LINK);
    var bytes, s := Little(link, LINK), page[pos..];
    Assoc(bytes, body, rest);
    Parts(bytes, body, rest);
    SliceOfDrop(page, pos, 0, LINK);
    SliceOfDrop(page, pos, LINK, LINK + |body|);
    SliceOfDrop(page, pos, LINK + |body|, |s|);
  }

  lemma Parts(a: seq<Byte>, b: seq<Byte>, c: seq<Byte>)
    ensures var s := a + b + c;
            s[0..|a|] == a && s[|a|..|a| + |b|] == b && s[|a| + |b|..] == c
  {
  }

  /** One step of a walker, in the last record and in any other. */
  lemma LastStep(page: seq<Byte>, pos: nat, body: seq<Byte>, least: nat)
    requires LINK <= least <= LINK + |body| && pos + LINK + |body| == |page|
    requires LinkAt(page, pos) == 0 && page[pos + LINK..pos + LINK + |body|] == body
    ensures WellFormed(page, pos, least) && Walk(page, pos, least) == [body]
  {
    hide LinkAt;
    assert page[pos + LINK..] == page[pos + LINK..pos + LINK + |body|];
  }

  lemma NextStep(page: seq<Byte>, pos: nat, least: nat)
    requires LINK <= least && pos + LINK <= |page| && pos + least <= pos + LinkAt(page, pos) <= |page|
    requires WellFormed(page, pos + LinkAt(page, pos), least)
    ensures WellFormed(page, pos, least)
    ensures var next := pos + LinkAt(page, pos);
            Walk(page, pos, least) == [page[pos + LINK..next]] + Walk(page, next, least)
  {
    hide LinkAt;
  }

  /** A walker on a page meets exactly the records that were put there, in order. */
  lemma PageWalks(bodies: seq<seq<Byte>>, least: nat)
    requires least >= LINK && |Page(bodies)| < LINK_LIMIT
    requires forall b :: b in bodies ==> |b| + LINK >= least
    ensures WellFormed(Page(bodies), 0, least) && Walk(Page(bodies), 0, least) == bodies
  {
    hide Page, WellFormed, Walk;
    assert Page(bodies)[0..] == Page(bodies);
    PageWalksFrom(Page(bodies), 0, bodies, least);
  }

  lemma {:induction false} PageWalksFrom(page: seq<Byte>, pos: nat, bodies: seq<seq<Byte>>, least: nat)
    requires least >= LINK && |page| < LINK_LIMIT && pos <= |page| && page[pos..] == Page(bodies)
    requires forall b :: b in bodies ==> |b| + LINK >= least
    ensures WellFormed(page, pos, least) && Walk(page, pos, least) == bodies
    decreases |bodies|
  {
    if bodies != [] {
      hide *;
      PageStarts(bodies);
      HeadAndTail(bodies);
      var body, more := bodies[0], bodies[1..];
      var link := if more == [] then 0 else LINK + |body|;
      RecordRead(page, pos, link, body, Page(more));
      if more == [] {
        LastStep(page, pos, body, least);
      } else {
        PageWalksFrom(page, pos + LINK + |body|, more, least);
        NextStep(page, pos, least);
      }
    }
  }

  lemma PageStarts(bodies: seq<seq<Byte>>)
    requires bodies != []
    ensures var link := if bodies[1..] == [] then 0 else LINK + |bodies[0]|;
            Page(bodies) == Linked(link, bodies[0]) + Page(bodies[1..]) && |Page(bodies)| >= link
    ensures Page([]) == []
  {
    if |bodies| == 1 {
      assert Linked(0, bodies[0]) + [] == Linked(0, bodies[0]);
    }
  }

  lemma {:induction false} PageSplits(bodies: seq<seq<Byte>>, last: seq<Byte>)
    ensures Page(bodies + [last]) == Joined(bodies) + Linked(0, last)
    ensures Joined(bodies + [last]) == Joined(bodies) + Linked(LINK + |last|, last)
  {
    if bodies != [] {
      hide Linked;
      var b := Linked(LINK + |bodies[0]|, bodies[0]);
      assert (bodies + [last])[1..] == bodies[1..] + [last];
      PageSplits(bodies[1..], last);
      Assoc(b, Joined(bodies[1..]), Linked(0, last));
      Assoc(b, Joined(bodies[1..]), Linked(LINK + |last|, last));
    } else {
      assert bodies + [last] == [last];
      assert [last][1..] == bodies;
    }
  }

  /** Linking the last record to what follows it makes it one more joined record. */
  lemma ChainGrows(front: seq<seq<Byte>>, link: nat, b: seq<Byte>, rest: seq<Byte>)
    ensures Patched(Joined(front) + Linked(link, b) + rest, |Joined(front)|, Little(LINK + |b|, LINK))
            == Joined(front + [b]) + rest
  {
    hide Little, Page, Joined, Patched;
    PageSplits(front, b);
    var before, after := Little(link, LINK), Little(LINK + |b|, LINK);
    Regroup(Joined(front), before, b, rest);
    PatchMiddle(Joined(front), before, after, b + rest);
    Regroup(Joined(front), after, b, rest);
  }

  /** Clearing the last link turns the chain into a page. */
  lemma ChainEnds(front: seq<seq<Byte>>, link: nat, b: seq<Byte>)
    ensures Patched(Joined(front) + Linked(link, b), |Joined(front)|, Little(0, LINK)) == Page(front + [b])
  {
    hide Little, Page, Joined, Patched;
    PageSplits(front, b);
    PatchMiddle(Joined(front), Little(link, LINK), Little(0, LINK), b);
  }

  /** Adding a record to a page rewrites the link of the record before it and nothing else. */
  lemma PageGrows(front: seq<seq<Byte>>, b: seq<Byte>, body: seq<Byte>)
    ensures var last, page := |Joined(front)|, Page(front + [b]);
            && last + LINK <= |page|
            && Page(front + [b] + [body]) == Patched(page + Linked(0, body), last, Little(|page| - last, LINK))
  {
    hide Little, Page, Joined, Patched;
    PageSplits(front, b);
    PageSplits(front + [b], body);
    ChainGrows(front, 0, b, Linked(0, body));
  }

  lemma Regroup(a: seq<Byte>, b: seq<Byte>, c: seq<Byte>, d: seq<Byte>)
    ensures a + (b + c) + d == a + (b + (c + d))
  {
  }

  lemma PatchMiddle(front: seq<Byte>, before: seq<Byte>, after: seq<Byte>, rest: seq<Byte>)
    requires |before| == |after|
    ensures Patched(front + (before + rest), |front|, after) == front + (after + rest)
  {
    var s := front + (before + rest);
    assert s[..|front|] == front && s[|front| + |after|..] == rest;
  }
}
