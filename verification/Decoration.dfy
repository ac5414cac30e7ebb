/** Listings of real directories: archives in them are marked as directories
    (patcher/archive/winfs.cpp). The walker changes attributes in place, record by record. */
module Decoration {
  import opened Bytes
  import opened Sequences
  import opened RecordChain
  import opened DirectoryPages

  const ATTRIBUTES_AT: nat := 56
  const LENGTH_AT: nat := 60
  const DIRECTORY: nat := 16

  /** What is known of names: which are archives by their extension, which look like the
      metadata of the recycle bin; and whether the listed directory belongs to that. */
  datatype Knowledge = Knowledge(archive: seq<Wchar> -> bool, metadata: seq<Wchar> -> bool, recycle: bool)
  {
    predicate Marks(name: seq<Wchar>, attributes: nat) {
      !(metadata(name) && recycle) && attributes / DIRECTORY % 2 == 0 && archive(name)
    }
  }

  function NameLength(page: seq<Byte>, pos: nat): nat
    requires pos + LENGTH_AT + 4 <= |page|
  {
    Number(Field(page, pos + LENGTH_AT, 4))
  }

  function AttributesOf(page: seq<Byte>, pos: nat): nat
    requires pos + ATTRIBUTES_AT + 4 <= |page|
  {
    Number(Field(page, pos + ATTRIBUTES_AT, 4))
  }

  /** The page with one record marked, if it is to be. */
  function Marked(k: Knowledge, page: seq<Byte>, pos: nat, off: nat): (r: seq<Byte>)
    requires off >= LENGTH_AT + 4 && pos + off <= |page| && NameLength(page, pos) <= |page| - pos - off
    ensures |r| == |page|
  {
    var name, attributes := WideOf(Field(page, pos + off, NameLength(page, pos))), AttributesOf(page, pos);
    if k.Marks(name, attributes) then Patched(page, pos + ATTRIBUTES_AT, Little(attributes + DIRECTORY, 4)) else page
  }

  /** The page after the walk from a position on; the walk ends where a record does not fit or
      a link leads nowhere. */
  function Decorated(k: Knowledge, page: seq<Byte>, pos: nat, off: nat): (r: seq<Byte>)
    requires off >= LENGTH_AT + 4
    ensures |r| == |page|
    decreases |page| - pos
  {
    if pos + off > |page| || NameLength(page, pos) > |page| - pos - off then page
    else
      var marked := Marked(k, page, pos, off);
      var next := LinkAt(marked, pos);
      if next == 0 || next > |page| - pos then marked else Decorated(k, marked, pos + next, off)
  }

  // ----- the walk in place ----------------------------------------------------

  lemma FieldOfPrefix(data: seq<Byte>, bytes: nat, at: nat, n: nat)
    requires at + n <= bytes <= |data|
    ensures Field(data[..bytes], at, n) == data[at..at + n]
  {
    SliceOfTake(data, bytes, at, at + n);
  }

  lemma PatchInPrefix(data: seq<Byte>, bytes: nat, at: nat, part: seq<Byte>)
    requires at + |part| <= bytes <= |data|
    ensures Patched(data, at, part)[..bytes] == Patched(data[..bytes], at, part)
    ensures Patched(data, at, part)[bytes..] == data[bytes..]
  {
    forall i | 0 <= i < bytes ensures Patched(data, at, part)[..bytes][i] == Patched(data[..bytes], at, part)[i] {
    }
    assert Patched(data, at, part)[..bytes] == Patched(data[..bytes], at, part);
  }

  /** Looks at one record and marks it; checked and recycle remember what the directory is. */
  method MarkRecord(data: array<Byte>, bytes: nat, pos: nat, off: nat, length: nat, k: Knowledge, checked: bool, recycle: bool)
    returns (nowChecked: bool, nowRecycle: bool)
    requires off >= LENGTH_AT + 4 && pos + off + length <= bytes <= data.Length
    requires length == NameLength(data[..bytes], pos) && (checked ==> recycle == k.recycle)
    modifies data
    ensures data[bytes..] == old(data[bytes..]) && data[..bytes] == Marked(k, old(data[..bytes]), pos, off)
    ensures nowChecked ==> nowRecycle == k.recycle
  {
    hide Patched, Number, Little, WideOf;
    nowChecked, nowRecycle := checked, recycle;
    ghost var before := data[..];
    FieldOfPrefix(before, bytes, pos + off, length);
    FieldOfPrefix(before, bytes, pos + ATTRIBUTES_AT, 4);
    var name := WideOf(data[pos + off..pos + off + length]);
    var metadata := k.metadata(name);
    if metadata && !checked {
      nowRecycle := k.recycle;
      nowChecked := true;
    }
    var attributes := Number(data[pos + ATTRIBUTES_AT..pos + ATTRIBUTES_AT + 4]);
    if !(metadata && nowRecycle) && attributes / DIRECTORY % 2 == 0 && k.archive(name) {
      PatchInPrefix(before, bytes, pos + ATTRIBUTES_AT, Little(attributes + DIRECTORY, 4));
      WriteAt(data, pos + ATTRIBUTES_AT, Little(attributes + DIRECTORY, 4));
    }
  }

  method Decorate(data: array<Byte>, bytes: nat, cls: nat, k: Knowledge)
    requires bytes <= data.Length
    modifies data
    ensures data[bytes..] == old(data[bytes..])
    ensures data[..bytes] ==
            if NameOffset(cls) == 0 || cls == NAMES_ONLY then old(data[..bytes])
            else Decorated(k, old(data[..bytes]), 0, NameOffset(cls))
  {
    hide Number, Marked, Decorated;
    var off := NameOffset(cls);
    if off == 0 || cls == NAMES_ONLY {
      return;
    }
    ghost var page := data[..bytes];
    var pos, checked, recycle := 0, false, false;
    while pos + off <= bytes
      invariant Decorated(k, page, 0, off) == Decorated(k, data[..bytes], pos, off)
      invariant data[bytes..] == old(data[bytes..])
      invariant checked ==> recycle == k.recycle
      decreases bytes - pos
    {
      DecoratedNext(k, data[..bytes], pos, off);
      FieldOfPrefix(data[..], bytes, pos + LENGTH_AT, 4);
      var length := Number(data[pos + LENGTH_AT..pos + LENGTH_AT + 4]);
      if length > bytes - pos - off {
        return;
      }
      checked, recycle := MarkRecord(data, bytes, pos, off, length, k, checked, recycle);
      FieldOfPrefix(data[..], bytes, pos, LINK);
      var next := Number(data[pos..pos + LINK]);
      if next == 0 || next > bytes - pos {
        return;
      }
      pos := pos + next;
    }
    DecoratedNext(k, data[..bytes], pos, off);
  }

  lemma DecoratedNext(k: Knowledge, page: seq<Byte>, pos: nat, off: nat)
    requires off >= LENGTH_AT + 4
    ensures pos + off > |page| ==> Decorated(k, page, pos, off) == page
    ensures pos + off <= |page| ==>
              if NameLength(page, pos) > |page| - pos - off then Decorated(k, page, pos, off) == page
              else
                var marked := Marked(k, page, pos, off);
                var next := LinkAt(marked, pos);
                Decorated(k, page, pos, off) ==
                if next == 0 || next > |page| - pos then marked else Decorated(k, marked, pos + next, off)
  {
    hide Number, Marked;
  }

  // ----- what the walk means --------------------------------------------------

  /** The records can be walked, and every name lies within its record. */
  predicate Named(page: seq<Byte>, pos: nat, off: nat)
    requires off >= LENGTH_AT + 4
    decreases |page| - pos
  {
    pos == |page| ||
    (&& pos + off <= |page|
     && var link := LinkAt(page, pos);
     if link == 0 then pos + off + NameLength(page, pos) <= |page|
     else off + NameLength(page, pos) <= link && pos + link <= |page| && Named(page, pos + link, off))
  }

  /** What becomes of the body of one record. */
  function MarkedBody(k: Knowledge, body: seq<Byte>, off: nat): seq<Byte>
    requires off >= LENGTH_AT + 4 && |body| + LINK >= off
  {
    var length := Number(Field(body, LENGTH_AT - LINK, 4));
    if off + length > |body| + LINK then body
    else
      var attributes := Number(Field(body, ATTRIBUTES_AT - LINK, 4));
      if k.Marks(WideOf(Field(body, off - LINK, length)), attributes) then
        Patched(body, ATTRIBUTES_AT - LINK, Little(attributes + DIRECTORY, 4))
      else body
  }

  /** Of a record only the directory bit is touched: it is set if it was set before, and for
      archives that are not metadata of the recycle bin; everything else stays. */
  lemma MarkingSetsOneBit(k: Knowledge, body: seq<Byte>, off: nat)
    requires off >= LENGTH_AT + 4 && |body| + LINK >= off
    requires off + Number(Field(body, LENGTH_AT - LINK, 4)) <= |body| + LINK
    ensures var after, name := MarkedBody(k, body, off), WideOf(Field(body, off - LINK, Number(Field(body, LENGTH_AT - LINK, 4))));
            && |after| == |body|
            && (forall i :: 0 <= i < |body| && !(52 <= i < 56) ==> after[i] == body[i])
            && var before, now := Number(Field(body, 52, 4)), Number(Field(after, 52, 4));
            && (now / 16 % 2 == 1 <==> before / 16 % 2 == 1 || (k.archive(name) && !(k.metadata(name) && k.recycle)))
            && now % 16 == before % 16 && now / 32 == before / 32
  {
    hide Number, Little, WideOf;
    var length := Number(Field(body, LENGTH_AT - LINK, 4));
    var attributes := Number(Field(body, 52, 4));
    NumberBound(Field(body, 52, 4));
    PowerOf4();
    if k.Marks(WideOf(Field(body, off - LINK, length)), attributes) {
      NumberOfLittle(attributes + 16, 4);
      PatchedField(body, 52, Little(attributes + 16, 4));
    }
  }

  function MarkedBodies(k: Knowledge, bodies: seq<seq<Byte>>, off: nat): seq<seq<Byte>>
    requires off >= LENGTH_AT + 4 && forall b :: b in bodies ==> |b| + LINK >= off
  {
    seq(|bodies|, i requires 0 <= i < |bodies| => MarkedBody(k, bodies[i], off))
  }

  lemma {:induction false} NamedIsWellFormed(page: seq<Byte>, pos: nat, off: nat)
    requires off >= LENGTH_AT + 4 && pos <= |page| && Named(page, pos, off)
    ensures WellFormed(page, pos, off) && forall b :: b in Walk(page, pos, off) ==> |b| + LINK >= off
    decreases |page| - pos
  {
    hide Number, Field;
    if pos < |page| && LinkAt(page, pos) != 0 {
      NamedIsWellFormed(page, pos + LinkAt(page, pos), off);
    }
  }

  /** A walk sees only what comes after its start. */
  lemma {:induction false} TailDecides(p: seq<Byte>, q: seq<Byte>, pos: nat, off: nat)
    requires off >= LENGTH_AT + 4 && |p| == |q| && pos <= |p| && p[pos..] == q[pos..]
    ensures Named(p, pos, off) == Named(q, pos, off)
    ensures Named(p, pos, off) ==> WellFormed(p, pos, off) && WellFormed(q, pos, off) && Walk(p, pos, off) == Walk(q, pos, off)
    decreases |p| - pos
  {
    hide Number;
    if pos + off <= |p| {
      SameTail(p, q, pos, pos, pos + LINK);
      SameTail(p, q, pos, pos + LENGTH_AT, pos + LENGTH_AT + 4);
      SameTail(p, q, pos, pos + LINK, |p|);
      var link := LinkAt(p, pos);
      if link != 0 && off <= link && pos + link <= |p| {
        SameTail(p, q, pos, pos + link, |p|);
        SameTail(p, q, pos, pos + LINK, pos + link);
        TailDecides(p, q, pos + link, off);
      }
    }
  }

  /** Nothing before the position changes. */
  lemma {:induction false} FrontStays(k: Knowledge, page: seq<Byte>, pos: nat, off: nat)
    requires off >= LENGTH_AT + 4 && pos <= |page|
    ensures Decorated(k, page, pos, off)[..pos] == page[..pos]
    decreases |page| - pos
  {
    hide Number, Field, Little, WideOf, Knowledge.Marks;
    if pos + off <= |page| && NameLength(page, pos) <= |page| - pos - off {
      var marked := Marked(k, page, pos, off);
      assert marked[..pos] == page[..pos];
      var next := LinkAt(marked, pos);
      if next != 0 && next <= |page| - pos {
        FrontStays(k, marked, pos + next, off);
        var after := Decorated(k, marked, pos + next, off);
        SliceOfTake(after, pos + next, 0, pos);
        SliceOfTake(marked, pos + next, 0, pos);
      }
    }
  }

  lemma SubPatch(s: seq<Byte>, from: nat, to: nat, at: nat, part: seq<Byte>)
    requires from + at + |part| <= to <= |s|
    ensures Patched(s, from + at, part)[from..to] == Patched(s[from..to], at, part)
    ensures Patched(s, from + at, part)[to..] == s[to..]
  {
    var left, right := Patched(s, from + at, part)[from..to], Patched(s[from..to], at, part);
    forall i | 0 <= i < to - from ensures left[i] == right[i] {
    }
    assert left == right;
  }

  /** Marking a record changes its body as it should, and neither its link nor the length of
      its name nor anything behind it. */
  lemma MarkedRecord(k: Knowledge, page: seq<Byte>, pos: nat, off: nat, end: nat)
    requires off >= LENGTH_AT + 4 && pos + off <= end <= |page| && pos + off + NameLength(page, pos) <= end
    ensures var marked := Marked(k, page, pos, off);
            && marked[pos + LINK..end] == MarkedBody(k, page[pos + LINK..end], off)
            && LinkAt(marked, pos) == LinkAt(page, pos) && NameLength(marked, pos) == NameLength(page, pos)
            && marked[end..] == page[end..]
  {
    hide Patched, Number, Little, WideOf, Knowledge.Marks;
    var length, attributes := NameLength(page, pos), AttributesOf(page, pos);
    SliceOfSlice(page, pos + LINK, end, LENGTH_AT - LINK, LENGTH_AT - LINK + 4);
    SliceOfSlice(page, pos + LINK, end, ATTRIBUTES_AT - LINK, ATTRIBUTES_AT - LINK + 4);
    SliceOfSlice(page, pos + LINK, end, off - LINK, off - LINK + length);
    var part := Little(attributes + DIRECTORY, 4);
    SubPatch(page, pos + LINK, end, ATTRIBUTES_AT - LINK, part);
    PatchedElsewhere(page, pos + ATTRIBUTES_AT, part, pos, LINK);
    PatchedElsewhere(page, pos + ATTRIBUTES_AT, part, pos + LENGTH_AT, 4);
  }

  lemma WalkCons(page: seq<Byte>, pos: nat, off: nat)
    requires off >= LENGTH_AT + 4 && pos + off <= |page| && off <= LinkAt(page, pos) && pos + LinkAt(page, pos) <= |page|
    ensures var next := pos + LinkAt(page, pos);
            && WellFormed(page, pos, off) == WellFormed(page, next, off)
            && (WellFormed(page, next, off) ==> Walk(page, pos, off) == [page[pos + LINK..next]] + Walk(page, next, off))
  {
    hide Number, Field;
  }

  lemma BodiesCons(k: Knowledge, body: seq<Byte>, rest: seq<seq<Byte>>, off: nat)
    requires off >= LENGTH_AT + 4 && |body| + LINK >= off && forall b :: b in rest ==> |b| + LINK >= off
    ensures MarkedBodies(k, [body] + rest, off) == [MarkedBody(k, body, off)] + MarkedBodies(k, rest, off)
  {
    hide MarkedBody;
  }

  lemma LastRecord(k: Knowledge, page: seq<Byte>, marked: seq<Byte>, pos: nat, off: nat)
    requires off >= LENGTH_AT + 4 && pos + off <= |page| == |marked| && LinkAt(page, pos) == 0 == LinkAt(marked, pos)
    requires marked[pos + LINK..|page|] == MarkedBody(k, page[pos + LINK..|page|], off)
    ensures WellFormed(page, pos, off) && WellFormed(marked, pos, off)
    ensures forall b :: b in Walk(page, pos, off) ==> |b| + LINK >= off
    ensures Walk(marked, pos, off) == MarkedBodies(k, Walk(page, pos, off), off)
  {
    hide Number, Field, MarkedBody;
    assert page[pos + LINK..] == page[pos + LINK..|page|] && marked[pos + LINK..] == marked[pos + LINK..|page|];
    BodiesCons(k, page[pos + LINK..], [], off);
  }

  lemma NothingToMark(k: Knowledge, page: seq<Byte>, off: nat)
    requires off >= LENGTH_AT + 4
    ensures WellFormed(page, |page|, off) && Walk(page, |page|, off) == [] && MarkedBodies(k, [], off) == []
  {
  }

  /** A walk of the page afterwards meets the same records, each with its mark: nothing else
      has changed, and no link. */
  lemma {:induction false} DecoratedWalks(k: Knowledge, page: seq<Byte>, pos: nat, off: nat)
    requires off >= LENGTH_AT + 4 && pos <= |page| && Named(page, pos, off)
    ensures var after := Decorated(k, page, pos, off);
            && WellFormed(page, pos, off) && WellFormed(after, pos, off)
            && (forall b :: b in Walk(page, pos, off) ==> |b| + LINK >= off)
            && Walk(after, pos, off) == MarkedBodies(k, Walk(page, pos, off), off)
    decreases |page| - pos
  {
    hide Number, Field, LinkAt, Marked, MarkedBody, Decorated, Walk, WellFormed, MarkedBodies;
    DecoratedNext(k, page, pos, off);
    if pos == |page| {
      NothingToMark(k, page, off);
    } else {
      var link := LinkAt(page, pos);
      var end := if link == 0 then |page| else pos + link;
      var marked := Marked(k, page, pos, off);
      MarkedRecord(k, page, pos, off, end);
      if link == 0 {
        LastRecord(k, page, marked, pos, off);
      } else {
        var after := Decorated(k, marked, end, off);
        TailDecides(page, marked, end, off);
        DecoratedWalks(k, marked, end, off);
        FrontStays(k, marked, end, off);
        SamePrefix(marked, after, pos, end);
        WalkCons(page, pos, off);
        WalkCons(after, pos, off);
        BodiesCons(k, page[pos + LINK..end], Walk(page, end, off), off);
      }
    }
  }

  lemma SamePrefix(p: seq<Byte>, q: seq<Byte>, pos: nat, end: nat)
    requires pos + LINK <= end <= |p| == |q| && p[..end] == q[..end]
    ensures LinkAt(p, pos) == LinkAt(q, pos) && p[pos + LINK..end] == q[pos + LINK..end]
  {
    hide Number;
    SliceOfTake(p, end, pos, pos + LINK);
    SliceOfTake(q, end, pos, pos + LINK);
    SliceOfTake(p, end, pos + LINK, end);
    SliceOfTake(q, end, pos + LINK, end);
  }
}
