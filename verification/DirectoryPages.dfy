/** Directory listings of an archive (patcher/archive/winfs.cpp): entries are printed as
    linked records into the caller's buffer, page after page, and a cursor remembers where the
    next page starts. */
module DirectoryPages {
  import opened Bytes
  import opened RecordChain

  const NOT_SUPPORTED: nat := 0xc0000003
  const NOT_A_DIRECTORY: nat := 0xc0000103
  const OVERFLOW: nat := 0x80000005
  const NO_MORE: nat := 0x80000006
  const NAMES_ONLY: nat := 12
  const NATIVE: nat := 60

  datatype Entry = Entry(path: seq<Wchar>, index: nat, size: nat, time: nat, directory: bool)
  {
    /** The widths of the fields in the source, and a path short enough for 32-bit sums. */
    predicate Fits() {
      && |path| < 0x4000_0000 && index < 0x1_0000_0000
      && size < 0x1_0000_0000_0000_0000 && time < 0x1_0000_0000_0000_0000
    }
  }

  /** Where the name starts in a record of this information class; 0 for other classes. */
  function NameOffset(cls: nat): nat {
    match cls
    case 1 => 64
    case 2 => 68
    case 3 => 94
    case 12 => 12
    case 37 => 104
    case 38 => 80
    case 60 => 88
    case 63 => 114
    case _ => 0
  }

  /** The bytes before the name, from the fields of the structures of the file system: link and
      number, four times, two sizes, attributes and the length of the name, and then what the
      class adds. */
  function FieldBytes(cls: nat): nat {
    var common := 4 + 4 + 4 * 8 + 8 + 8 + 4 + 4;
    var extended, shortName, id, longId := 4, 1 + 1 + 24, 8, 16;
    match cls
    case 1 => common
    case 2 => common + extended
    case 3 => common + extended + shortName
    case 12 => 4 + 4 + 4
    case 37 => common + extended + shortName + 2 + id
    case 38 => common + extended + 4 + id
    case 60 => common + extended + 4 + longId
    case 63 => common + extended + 4 + longId + shortName
    case _ => 0
  }

  /** The name stands right behind them. */
  lemma NameFollowsTheFields(cls: nat)
    ensures NameOffset(cls) == FieldBytes(cls)
  {
  }

  function Attributes(e: Entry): nat {
    1 + (if e.directory then 16 else 32)
  }

  function AllocationSize(size: nat): nat {
    ((size + 4095) % 0x1_0000_0000_0000_0000) / 4096 * 4096
  }

  function RecordLength(cls: nat, e: Entry): nat {
    (NameOffset(cls) + 2 * |e.path| + 7) / 8 * 8
  }

  // ----- the fields of a record -----------------------------------------------

  datatype Patch = Patch(at: nat, bytes: seq<Byte>)
  {
    function End(): nat {
      at + |bytes|
    }
  }

  /** The fields in the order of their offsets. */
  function Fields(cls: nat, e: Entry, number: nat): seq<Patch> {
    var size := Little(2 * |e.path|, 4);
    var name := [Patch(NameOffset(cls), WideBytes(e.path))];
    if cls == NAMES_ONLY then [Patch(4, Little(number, 4)), Patch(8, size)] + name
    else
      var time := Little(e.time, 8);
      [Patch(4, Little(number, 4)), Patch(8, time), Patch(16, time), Patch(24, time), Patch(32, time),
       Patch(40, Little(e.size, 8)), Patch(48, Little(AllocationSize(e.size), 8)),
       Patch(56, Little(Attributes(e), 4)), Patch(60, size)]
      + (if cls == NATIVE then [Patch(72, Little((e.index + 1) % 0x1_0000_0000, 8))] else []) + name
  }

  /** The patches lie one after the other inside a record of this length. */
  predicate Ordered(patches: seq<Patch>, length: nat) {
    && (forall i :: 0 <= i < |patches| ==> patches[i].End() <= length)
    && (forall i, j :: 0 <= i < j < |patches| ==> patches[i].End() <= patches[j].at)
  }

  function PatchAll(s: seq<Byte>, patches: seq<Patch>): (r: seq<Byte>)
    requires forall i :: 0 <= i < |patches| ==> patches[i].End() <= |s|
    ensures |r| == |s|
  {
    if patches == [] then s
    else
      var n := |patches| - 1;
      assert patches[n].End() <= |s|;
      Patched(PatchAll(s, patches[..n]), patches[n].at, patches[n].bytes)
  }

  lemma {:induction false} PatchAllField(s: seq<Byte>, patches: seq<Patch>, k: nat)
    requires Ordered(patches, |s|) && k < |patches|
    ensures Field(PatchAll(s, patches), patches[k].at, |patches[k].bytes|) == patches[k].bytes
  {
    var n := |patches| - 1;
    var before, p := PatchAll(s, patches[..n]), patches[n];
    if k == n {
      PatchedField(before, p.at, p.bytes);
    } else {
      PatchAllField(s, patches[..n], k);
      PatchedElsewhere(before, p.at, p.bytes, patches[k].at, |patches[k].bytes|);
    }
  }

  lemma {:induction false} PatchAllBefore(s: seq<Byte>, patches: seq<Patch>, at: nat, width: nat)
    requires Ordered(patches, |s|) && at + width <= |s|
    requires forall i :: 0 <= i < |patches| ==> at + width <= patches[i].at
    ensures Field(PatchAll(s, patches), at, width) == Field(s, at, width)
  {
    if patches != [] {
      var n := |patches| - 1;
      PatchAllBefore(s, patches[..n], at, width);
      PatchedElsewhere(PatchAll(s, patches[..n]), patches[n].at, patches[n].bytes, at, width);
    }
  }

  lemma FieldsListed(cls: nat, e: Entry, number: nat)
    ensures var f := Fields(cls, e, number);
            && |f| == (if cls == NAMES_ONLY then 3 else if cls == NATIVE then 11 else 10)
            && f[0] == Patch(4, Little(number, 4))
            && f[|f| - 1] == Patch(NameOffset(cls), WideBytes(e.path))
            && (if cls == NAMES_ONLY then f[1] == Patch(8, Little(2 * |e.path|, 4))
                else
                  && (forall t :: 1 <= t < 5 ==> f[t] == Patch(8 * t, Little(e.time, 8)))
                  && f[5] == Patch(40, Little(e.size, 8)) && f[6] == Patch(48, Little(AllocationSize(e.size), 8))
                  && f[7] == Patch(56, Little(Attributes(e), 4)) && f[8] == Patch(60, Little(2 * |e.path|, 4))
                  && (cls == NATIVE ==> f[9] == Patch(72, Little((e.index + 1) % 0x1_0000_0000, 8))))
  {
    hide Little, WideBytes, AllocationSize, Attributes, NameOffset;
    if cls == NAMES_ONLY {
    } else if cls == NATIVE {
    } else {
    }
  }

  lemma {:induction false} InOrder(patches: seq<Patch>, i: nat, j: nat)
    requires i < j < |patches|
    requires forall k :: 0 <= k < |patches| - 1 ==> patches[k].End() <= patches[k + 1].at
    ensures patches[i].End() <= patches[j].at
  {
    assert patches[j - 1].End() <= patches[j - 1 + 1].at;
    if i < j - 1 {
      InOrder(patches, i, j - 1);
    }
  }

  lemma OrderedIfNeighboursAre(patches: seq<Patch>, length: nat)
    requires forall k :: 0 <= k < |patches| - 1 ==> patches[k].End() <= patches[k + 1].at
    requires patches != [] ==> patches[|patches| - 1].End() <= length
    ensures Ordered(patches, length)
  {
    forall i, j | 0 <= i < j < |patches| ensures patches[i].End() <= patches[j].at {
      InOrder(patches, i, j);
    }
    forall i | 0 <= i < |patches| ensures patches[i].End() <= length {
      if i < |patches| - 1 {
        InOrder(patches, i, |patches| - 1);
      }
    }
  }

  lemma NameBehindFields(cls: nat)
    requires NameOffset(cls) != 0
    ensures NameOffset(cls) >= (if cls == NAMES_ONLY then 12 else if cls == NATIVE then 80 else 64)
  {
  }

  /** A record has room for its name, and is padded to a multiple of eight bytes and no more. */
  lemma RecordIsAligned(cls: nat, e: Entry)
    requires NameOffset(cls) != 0
    ensures NameOffset(cls) + 2 * |e.path| <= RecordLength(cls, e) < NameOffset(cls) + 2 * |e.path| + 8
    ensures RecordLength(cls, e) % 8 == 0
  {
    hide NameOffset;
  }

  lemma FieldsOrdered(cls: nat, e: Entry, number: nat)
    requires NameOffset(cls) != 0
    ensures Ordered(Fields(cls, e, number), RecordLength(cls, e))
  {
    hide Fields, Ordered, NameOffset, RecordLength, Little, WideBytes, AllocationSize, Attributes;
    FieldsListed(cls, e, number);
    NameBehindFields(cls);
    RecordIsAligned(cls, e);
    OrderedIfNeighboursAre(Fields(cls, e, number), RecordLength(cls, e));
  }

  /** The printed record, with a zero link. */
  function Record(cls: nat, e: Entry, number: nat): (r: seq<Byte>)
    requires NameOffset(cls) != 0
    ensures |r| == RecordLength(cls, e)
  {
    FieldsOrdered(cls, e, number);
    PatchAll(Zeros(RecordLength(cls, e)), Fields(cls, e, number))
  }

  function Body(cls: nat, e: Entry, number: nat): seq<Byte>
    requires NameOffset(cls) != 0
  {
    Record(cls, e, number)[LINK..]
  }

  lemma RecordIsLinked(cls: nat, e: Entry, number: nat)
    requires NameOffset(cls) != 0
    ensures Record(cls, e, number) == Linked(0, Body(cls, e, number))
  {
    var zeros, fields := Zeros(RecordLength(cls, e)), Fields(cls, e, number);
    FieldsOrdered(cls, e, number);
    PatchAllBefore(zeros, fields, 0, LINK);
    var r := PatchAll(zeros, fields);
    assert r == Field(r, 0, LINK) + r[LINK..];
    ZeroLink();
    assert Field(zeros, 0, LINK) == Little(0, LINK);
  }

  lemma ZeroLink()
    ensures Little(0, LINK) == [0, 0, 0, 0]
  {
    assert Little(0, 1) == [0];
    assert Little(0, 2) == [0, 0];
    assert Little(0, 3) == [0, 0, 0];
  }

  // ----- what a reader of a record sees ---------------------------------------

  /** A record of names only has the first two fields; the id is there in native records. */
  datatype Listing =
    | Named(number: nat, name: seq<nat>)
    | Full(number: nat, name: seq<nat>, times: seq<nat>, size: nat, allocation: nat, attributes: nat, id: nat)

  /** Reads the body of a record as any consumer of the information class does. */
  function Read(cls: nat, body: seq<Byte>): Listing
    requires |body| + LINK >= NameOffset(cls) != 0
  {
    var sizeAt := if cls == NAMES_ONLY then 8 else 60;
    var size := Number(Field(body, sizeAt - LINK, 4));
    var name := if NameOffset(cls) - LINK + size <= |body| then WideOf(Field(body, NameOffset(cls) - LINK, size)) else [];
    var number := Number(Field(body, 0, 4));
    if cls == NAMES_ONLY then Named(number, name)
    else
      Full(number, name,
           [Number(Field(body, 8 - LINK, 8)), Number(Field(body, 16 - LINK, 8)),
            Number(Field(body, 24 - LINK, 8)), Number(Field(body, 32 - LINK, 8))],
           Number(Field(body, 40 - LINK, 8)), Number(Field(body, 48 - LINK, 8)), Number(Field(body, 56 - LINK, 4)),
           if cls == NATIVE then Number(Field(body, 72 - LINK, 8)) else 0)
  }

  /** What a consumer has to see: the one time of an entry stands for all four. */
  function Shown(cls: nat, e: Entry, number: nat): Listing {
    if cls == NAMES_ONLY then Named(number, e.path)
    else
      Full(number, e.path, [e.time, e.time, e.time, e.time], e.size, AllocationSize(e.size), Attributes(e),
           if cls == NATIVE then (e.index + 1) % 0x1_0000_0000 else 0)
  }

  /** What every consumer of a full record relies on: folders have the directory bit, all other
      entries the archive bit, everything is read-only; and the space taken is the size rounded
      up to whole blocks of 4096 bytes, as long as that fits into 64 bits. */
  predicate TellsKind(listing: Listing, e: Entry) {
    listing.Full? ==>
      && (listing.attributes / 16 % 2 == 1 <==> e.directory)
      && (listing.attributes / 32 % 2 == 1 <==> !e.directory)
      && listing.attributes % 2 == 1 && listing.attributes < 64
      && listing.allocation % 4096 == 0
      && (if listing.size <= 0xFFFF_FFFF_FFFF_F000 then listing.size <= listing.allocation < listing.size + 4096
          else listing.allocation == 0)
  }

  lemma WholeBlocks(n: nat)
    ensures n / 4096 * 4096 <= n < n / 4096 * 4096 + 4096 && n / 4096 * 4096 % 4096 == 0
  {
  }

  lemma RoundedUp(size: nat)
    requires size < 0x1_0000_0000_0000_0000
    ensures AllocationSize(size) % 4096 == 0
    ensures if size <= 0xFFFF_FFFF_FFFF_F000 then size <= AllocationSize(size) < size + 4096
            else AllocationSize(size) == 0
  {
    var n := (size + 4095) % 0x1_0000_0000_0000_0000;
    WholeBlocks(n);
    if size <= 0xFFFF_FFFF_FFFF_F000 {
      assert n == size + 4095;
    } else {
      assert n == size + 4095 - 0x1_0000_0000_0000_0000;
    }
  }

  lemma AttributeBits(e: Entry)
    ensures var a := Attributes(e);
            && (a / 16 % 2 == 1 <==> e.directory) && (a / 32 % 2 == 1 <==> !e.directory) && a % 2 == 1 && a < 64
  {
  }

  lemma ShownTellsKind(cls: nat, e: Entry, number: nat)
    requires e.Fits()
    ensures TellsKind(Shown(cls, e, number), e)
  {
    hide AllocationSize, Attributes;
    RoundedUp(e.size);
    AttributeBits(e);
  }

  lemma BodyField(r: seq<Byte>, at: nat, width: nat)
    requires LINK <= at && at + width <= |r|
    ensures Field(r[LINK..], at - LINK, width) == Field(r, at, width)
  {
  }

  lemma OrderedAt(patches: seq<Patch>, length: nat, k: nat)
    requires Ordered(patches, length) && k < |patches|
    ensures patches[k].End() <= length && patches[0].at <= patches[k].at
  {
  }

  /** A field that stands in the list reads back from the body of the record. */
  lemma RecordField(cls: nat, e: Entry, number: nat, k: nat, at: nat, bytes: seq<Byte>)
    requires NameOffset(cls) != 0 && k < |Fields(cls, e, number)| && Fields(cls, e, number)[k] == Patch(at, bytes)
    ensures LINK <= at && at - LINK + |bytes| <= |Body(cls, e, number)|
    ensures Field(Body(cls, e, number), at - LINK, |bytes|) == bytes
  {
    hide Fields, Ordered, NameOffset, RecordLength, Little, WideBytes, AllocationSize, Attributes, PatchAll;
    var fields := Fields(cls, e, number);
    FieldsOrdered(cls, e, number);
    FieldsListed(cls, e, number);
    OrderedAt(fields, RecordLength(cls, e), k);
    PatchAllField(Zeros(RecordLength(cls, e)), fields, k);
    BodyField(Record(cls, e, number), at, |bytes|);
  }

  /** A number that stands in the list reads back from the body of the record. */
  lemma NumberReadsBack(cls: nat, e: Entry, number: nat, k: nat, at: nat, value: nat, width: nat)
    requires NameOffset(cls) != 0 && value < Power256(width)
    requires k < |Fields(cls, e, number)| && Fields(cls, e, number)[k] == Patch(at, Little(value, width))
    ensures LINK <= at && at - LINK + width <= |Body(cls, e, number)|
    ensures Number(Field(Body(cls, e, number), at - LINK, width)) == value
  {
    hide Fields, NameOffset, Body, Number, Little, Power256;
    RecordField(cls, e, number, k, at, Little(value, width));
    NumberOfLittle(value, width);
  }

  lemma NameReadsBack(cls: nat, e: Entry, number: nat)
    requires NameOffset(cls) != 0
    ensures var body := Body(cls, e, number);
            && LINK <= NameOffset(cls) && NameOffset(cls) - LINK + 2 * |e.path| <= |body|
            && WideOf(Field(body, NameOffset(cls) - LINK, 2 * |e.path|)) == e.path
  {
    hide Fields, NameOffset, Body, Number, Little, WideOf, WideBytes;
    FieldsListed(cls, e, number);
    RecordField(cls, e, number, |Fields(cls, e, number)| - 1, NameOffset(cls), WideBytes(e.path));
    WideOfWideBytes(e.path);
  }

  lemma Widths(e: Entry)
    requires e.Fits()
    ensures Power256(4) == 0x1_0000_0000 && Power256(8) == 0x1_0000_0000_0000_0000
    ensures e.size < Power256(8) && AllocationSize(e.size) < Power256(8) && e.time < Power256(8)
    ensures (e.index + 1) % 0x1_0000_0000 < Power256(8) && Attributes(e) < Power256(4) && 2 * |e.path| < Power256(4)
  {
    PowerOf4();
    PowerOf8();
  }

  /** Every field of a printed entry reads back as it was. */
  lemma PrintedReadsBack(cls: nat, e: Entry, number: nat)
    requires NameOffset(cls) != 0 && e.Fits() && number < 0x1_0000_0000
    ensures |Body(cls, e, number)| + LINK >= NameOffset(cls)
    ensures Read(cls, Body(cls, e, number)) == Shown(cls, e, number)
  {
    hide Little, Number, WideOf, WideBytes, Body, Fields, Field, NameOffset, Power256, AllocationSize, Attributes;
    Widths(e);
    FieldsListed(cls, e, number);
    NameReadsBack(cls, e, number);
    NumberReadsBack(cls, e, number, 0, 4, number, 4);
    if cls == NAMES_ONLY {
      NumberReadsBack(cls, e, number, 1, 8, 2 * |e.path|, 4);
    } else {
      NumberReadsBack(cls, e, number, 1, 8, e.time, 8);
      NumberReadsBack(cls, e, number, 2, 16, e.time, 8);
      NumberReadsBack(cls, e, number, 3, 24, e.time, 8);
      NumberReadsBack(cls, e, number, 4, 32, e.time, 8);
      NumberReadsBack(cls, e, number, 5, 40, e.size, 8);
      NumberReadsBack(cls, e, number, 6, 48, AllocationSize(e.size), 8);
      NumberReadsBack(cls, e, number, 7, 56, Attributes(e), 4);
      NumberReadsBack(cls, e, number, 8, 60, 2 * |e.path|, 4);
      if cls == NATIVE {
        NumberReadsBack(cls, e, number, 9, 72, (e.index + 1) % 0x1_0000_0000, 8);
      }
    }
  }
}
