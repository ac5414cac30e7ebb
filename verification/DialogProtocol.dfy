/** Requests and results of the file dialog as packets (patcher/dialogs/protocol.h). */
module DialogProtocol {
  import opened Bytes
  import opened Sequences
  import opened Packets

  type Dword = x: int | 0 <= x < 0x1_0000_0000

  const MOST: nat := 128
  const FOLDER_MODE: Dword := 2

  datatype Filter = Filter(caption: Text, pattern: Text)

  datatype Request = Request(mode: Dword, options: Dword, index: Dword,
                             title: Text, folder: Text, filename: Text, extension: Text, okLabel: Text,
                             filters: seq<Filter>, testPaths: seq<Text>,
                             testCancel: bool, showReadOnly: bool, readOnly: bool)

  datatype Result = Result(paths: seq<Text>, folder: Text, index: Dword, readOnly: bool)

  function Flag(b: bool): Dword {
    if b then 1 else 0
  }

  // ----- the items of a packet ------------------------------------------------

  function TextItems(texts: seq<Text>): (r: seq<Item>)
    ensures |r| == |texts|
  {
    seq(|texts|, i requires 0 <= i < |texts| => Str(texts[i]))
  }

  function FilterItems(filters: seq<Filter>): seq<Item> {
    if filters == [] then []
    else FilterItems(filters[..|filters| - 1]) + [Str(filters[|filters| - 1].caption), Str(filters[|filters| - 1].pattern)]
  }

  function NumberItems(q: Request): (r: seq<Item>)
    ensures |r| == 3
  {
    [Num(q.mode), Num(q.options), Num(q.index)]
  }

  function NameItems(q: Request): seq<Item> {
    TextItems([q.title, q.folder, q.filename, q.extension, q.okLabel])
  }

  function HeadItems(q: Request): seq<Item> {
    NumberItems(q) + NameItems(q)
  }

  function TailItems(flags: seq<Dword>): (r: seq<Item>)
    ensures |r| == |flags|
  {
    seq(|flags|, i requires 0 <= i < |flags| => Num(flags[i]))
  }

  /** The flags are numbers in a packet; the writer writes 0 or 1. */
  function RequestItems(q: Request, flags: seq<Dword>): seq<Item> {
    HeadItems(q) + ([Num(|q.filters|)]
                    + (FilterItems(q.filters) + ([Num(|q.testPaths|)] + (TextItems(q.testPaths) + TailItems(flags)))))
  }

  function ResultItems(q: Result, flags: seq<Dword>): seq<Item> {
    ResultHead(q) + (TextItems(q.paths) + TailItems(flags))
  }

  function RequestFlags(q: Request): seq<Dword> {
    [Flag(q.testCancel), Flag(q.showReadOnly), Flag(q.readOnly)]
  }

  // ----- writing and reading lists --------------------------------------------

  lemma ListNext(list: seq<Item>, k: nat, rest: seq<Item>)
    requires k < |list|
    ensures var todo := list[k..] + rest; todo != [] && todo[0] == list[k] && todo[1..] == list[k + 1..] + rest
    ensures list[|list|..] + rest == rest && list[0..] + rest == list + rest
  {
    assert (list[k..] + rest)[1..] == list[k + 1..] + rest;
    assert list[|list|..] + rest == rest;
    assert list[0..] == list;
  }

  lemma NothingNext(list: seq<Item>, rest: seq<Item>)
    ensures list[|list|..] + rest == rest && list[0..] + rest == list + rest && [] + rest == rest
  {
    assert list[0..] == list;
  }

  method WriteTexts(w: Writer, texts: seq<Text>, ghost rest: seq<Item>) returns (ok: bool)
    requires w.Valid() && w.todo == TextItems(texts) + rest
    modifies w
    ensures w.Possible() ==> ok
    ensures ok ==> w.Valid() && w.todo == rest
  {
    NothingNext(TextItems(texts), rest);
    for i := 0 to |texts|
      invariant w.Valid() && w.todo == TextItems(texts)[i..] + rest
    {
      ListNext(TextItems(texts), i, rest);
      ok := w.String(texts[i]);
      if !ok {
        return;
      }
    }
    ok := true;
  }

  /** The strings read so far are the first of these, and the others are still to come. */
  ghost predicate Midway(r: Reader, texts: seq<Text>, rest: seq<Item>, read: seq<Text>)
    reads r
  {
    && |read| <= |texts| && read == texts[..|read|]
    && r.right && r.todo == TextItems(texts)[|read|..] + rest
  }

  method ReadOne(r: Reader, read: seq<Text>, ghost before: seq<Item>, ghost texts: seq<Text>, ghost rest: seq<Item>)
    returns (ok: bool, longer: seq<Text>)
    requires r.Valid() && r.seen == before + TextItems(read)
    modifies r
    ensures ok ==> r.Valid() && |longer| == |read| + 1 && r.seen == before + TextItems(longer)
    ensures |read| < |texts| && old(Midway(r, texts, rest, read)) ==> ok && Midway(r, texts, rest, longer)
  {
    hide Reader.Valid, TextItems;
    if |read| < |texts| {
      TextNext(texts, |read|, rest);
    }
    var s;
    ok, s := r.String();
    longer := read + [s];
    MoreTexts(before, read, s);
  }

  lemma TextNext(texts: seq<Text>, k: nat, rest: seq<Item>)
    requires k < |texts|
    ensures var todo := TextItems(texts)[k..] + rest;
            todo != [] && todo[0] == Str(texts[k]) && todo[1..] == TextItems(texts)[k + 1..] + rest
    ensures texts[..k] + [texts[k]] == texts[..k + 1]
  {
    ListNext(TextItems(texts), k, rest);
  }

  lemma AllTexts(texts: seq<Text>, rest: seq<Item>)
    ensures TextItems(texts)[0..] + rest == TextItems(texts) + rest && TextItems(texts)[|texts|..] + rest == rest
    ensures texts[..0] == [] && texts[..|texts|] == texts
  {
    NothingNext(TextItems(texts), rest);
  }

  /** Reads as many strings as the count says. */
  method ReadTexts(r: Reader, count: nat, ghost texts: seq<Text>, ghost rest: seq<Item>) returns (ok: bool, read: seq<Text>)
    requires r.Valid()
    modifies r
    ensures ok ==> r.Valid() && |read| == count && r.seen == old(r.seen) + TextItems(read)
    ensures old(r.right) && count == |texts| && old(r.todo) == TextItems(texts) + rest ==>
              ok && r.right && read == texts && r.todo == rest
  {
    hide Reader.Valid, TextItems;
    ghost var expected := r.right && count == |texts| && r.todo == TextItems(texts) + rest;
    ghost var before := r.seen;
    AllTexts(texts, rest);
    NoTexts(before);
    read := [];
    while |read| < count
      invariant |read| <= count && r.Valid() && r.seen == before + TextItems(read)
      invariant expected ==> count == |texts| && Midway(r, texts, rest, read)
      decreases count - |read|
    {
      ok, read := ReadOne(r, read, before, texts, rest);
      if !ok {
        return;
      }
    }
    ok := true;
  }

  lemma NoTexts(seen: seq<Item>)
    ensures seen + TextItems([]) == seen && seen + FilterItems([]) == seen
  {
  }

  lemma MoreTexts(seen: seq<Item>, texts: seq<Text>, s: Text)
    ensures seen + TextItems(texts) + [Str(s)] == seen + TextItems(texts + [s])
  {
    assert TextItems(texts + [s]) == TextItems(texts) + [Str(s)];
  }

  lemma MoreFilters(seen: seq<Item>, filters: seq<Filter>, f: Filter)
    ensures seen + FilterItems(filters) + [Str(f.caption)] + [Str(f.pattern)] == seen + FilterItems(filters + [f])
  {
    assert (filters + [f])[..|filters|] == filters;
    assert FilterItems(filters + [f]) == FilterItems(filters) + [Str(f.caption), Str(f.pattern)];
    assert [Str(f.caption), Str(f.pattern)] == [Str(f.caption)] + [Str(f.pattern)];
  }

  /** The items of the filters from the i-th on stand at the front. */
  lemma {:induction false} FilterAt(filters: seq<Filter>, i: nat)
    requires i < |filters|
    ensures |FilterItems(filters)| == 2 * |filters|
    ensures FilterItems(filters)[2 * i] == Str(filters[i].caption) && FilterItems(filters)[2 * i + 1] == Str(filters[i].pattern)
  {
    var n := |filters| - 1;
    if i < n {
      FilterAt(filters[..n], i);
    } else if n > 0 {
      FilterAt(filters[..n], 0);
    }
  }

  lemma FiltersNext(filters: seq<Filter>, i: nat, rest: seq<Item>)
    requires i < |filters|
    ensures |FilterItems(filters)| == 2 * |filters|
    ensures var todo := FilterItems(filters)[2 * i..] + rest;
            && |todo| >= 2 && todo[0] == Str(filters[i].caption) && todo[1..] != [] && todo[1..][0] == Str(filters[i].pattern)
            && todo[1..][1..] == FilterItems(filters)[2 * (i + 1)..] + rest
  {
    hide FilterItems;
    FilterAt(filters, i);
    ListNext(FilterItems(filters), 2 * i, rest);
    ListNext(FilterItems(filters), 2 * i + 1, rest);
  }

  lemma FiltersDone(filters: seq<Filter>, rest: seq<Item>)
    ensures |FilterItems(filters)| == 2 * |filters|
    ensures FilterItems(filters)[2 * |filters|..] + rest == rest && FilterItems(filters)[0..] + rest == FilterItems(filters) + rest
  {
    if filters != [] {
      FilterAt(filters, 0);
    }
    NothingNext(FilterItems(filters), rest);
  }

  method WriteFilters(w: Writer, filters: seq<Filter>, ghost rest: seq<Item>) returns (ok: bool)
    requires w.Valid() && w.todo == FilterItems(filters) + rest
    modifies w
    ensures w.Possible() ==> ok
    ensures ok ==> w.Valid() && w.todo == rest
  {
    hide FilterItems, Writer.Valid;
    FiltersDone(filters, rest);
    for i := 0 to |filters|
      invariant w.Valid() && w.todo == FilterItems(filters)[2 * i..] + rest
    {
      FiltersNext(filters, i, rest);
      ok := w.String(filters[i].caption);
      if !ok {
        return;
      }
      ok := w.String(filters[i].pattern);
      if !ok {
        return;
      }
    }
    ok := true;
  }

  method ReadFilters(r: Reader, count: nat, ghost filters: seq<Filter>, ghost rest: seq<Item>) returns (ok: bool, read: seq<Filter>)
    requires r.Valid()
    modifies r
    ensures ok ==> r.Valid() && |read| == count && r.seen == old(r.seen) + FilterItems(read)
    ensures old(r.right) && count == |filters| && old(r.todo) == FilterItems(filters) + rest ==>
              ok && r.right && read == filters && r.todo == rest
  {
    hide Reader.Valid, FilterItems;
    ghost var expected := r.right && count == |filters| && r.todo == FilterItems(filters) + rest;
    ghost var before := r.seen;
    FiltersDone(filters, rest);
    NoTexts(before);
    read := [];
    while |read| < count
      invariant |read| <= count && r.Valid() && r.seen == before + FilterItems(read)
      invariant expected ==>
                  && r.right && count == |filters| && read == filters[..|read|]
                  && r.todo == FilterItems(filters)[2 * |read|..] + rest
      decreases count - |read|
    {
      if expected {
        FiltersNext(filters, |read|, rest);
      }
      var caption, pattern;
      ok, caption := r.String();
      if !ok {
        return;
      }
      ok, pattern := r.String();
      if !ok {
        return;
      }
      MoreFilters(before, read, Filter(caption, pattern));
      read := read + [Filter(caption, pattern)];
    }
    ok := true;
  }

  // ----- requests -------------------------------------------------------------

  method WriteHead(w: Writer, q: Request, ghost rest: seq<Item>) returns (ok: bool)
    requires w.Valid() && w.todo == HeadItems(q) + rest
    modifies w
    ensures w.Possible() ==> ok
    ensures ok ==> w.Valid() && w.todo == rest
  {
    hide Writer.Valid, NameItems;
    ok := w.Number(q.mode);
    if !ok { return; }
    ok := w.Number(q.options);
    if !ok { return; }
    ok := w.Number(q.index);
    if !ok { return; }
    assert w.todo == NameItems(q) + rest;
    ok := WriteNames(w, q, rest);
  }

  method WriteNames(w: Writer, q: Request, ghost rest: seq<Item>) returns (ok: bool)
    requires w.Valid() && w.todo == NameItems(q) + rest
    modifies w
    ensures w.Possible() ==> ok
    ensures ok ==> w.Valid() && w.todo == rest
  {
    hide Writer.Valid;
    ghost var list := NameItems(q);
    NothingNext(list, rest);
    ListNext(list, 0, rest);
    ok := w.String(q.title);
    if !ok { return; }
    ListNext(list, 1, rest);
    ok := w.String(q.folder);
    if !ok { return; }
    ListNext(list, 2, rest);
    ok := w.String(q.filename);
    if !ok { return; }
    ListNext(list, 3, rest);
    ok := w.String(q.extension);
    if !ok { return; }
    ListNext(list, 4, rest);
    ok := w.String(q.okLabel);
  }

  method ReadNumbers(r: Reader, ghost q: Request, ghost rest: seq<Item>)
    returns (ok: bool, mode: Dword, options: Dword, index: Dword)
    requires r.Valid()
    modifies r
    ensures ok ==> r.Valid() && mode <= FOLDER_MODE && r.seen == old(r.seen) + [Num(mode), Num(options), Num(index)]
    ensures old(r.right) && old(r.todo) == NumberItems(q) + rest && q.mode <= FOLDER_MODE ==>
              ok && r.right && mode == q.mode && options == q.options && index == q.index && r.todo == rest
  {
    hide Reader.Valid;
    ghost var list, before := NumberItems(q), r.seen;
    NothingNext(list, rest);
    mode, options, index := 0, 0, 0;
    var n;
    ListNext(list, 0, rest);
    ok, n := r.Number();
    if !ok { return; }
    if n > FOLDER_MODE { return false, 0, 0, 0; }
    mode := n;
    ListNext(list, 1, rest);
    ok, n := r.Number();
    if !ok { return; }
    options := n;
    ListNext(list, 2, rest);
    ok, n := r.Number();
    if !ok { return; }
    index := n;
    assert r.seen == before + [Num(mode), Num(options), Num(index)];
  }

  method ReadNames(r: Reader, ghost q: Request, ghost rest: seq<Item>) returns (ok: bool, names: seq<Text>)
    requires r.Valid()
    modifies r
    ensures ok ==> r.Valid() && |names| == 5 && r.seen == old(r.seen) + TextItems(names)
    ensures old(r.right) && old(r.todo) == NameItems(q) + rest ==>
              ok && r.right && names == [q.title, q.folder, q.filename, q.extension, q.okLabel] && r.todo == rest
  {
    hide Reader.Valid, TextItems, Midway;
    ghost var before := r.seen;
    ghost var all: seq<Text> := [q.title, q.folder, q.filename, q.extension, q.okLabel];
    NoTexts(before);
    NoneRead(r, all, rest);
    names := [];
    ok, names := ReadOne(r, names, before, all, rest);
    if !ok { return; }
    ok, names := ReadOne(r, names, before, all, rest);
    if !ok { return; }
    ok, names := ReadOne(r, names, before, all, rest);
    if !ok { return; }
    ok, names := ReadOne(r, names, before, all, rest);
    if !ok { return; }
    ok, names := ReadOne(r, names, before, all, rest);
    AllTaken(r, all, rest, names);
  }

  lemma NoneRead(r: Reader, texts: seq<Text>, rest: seq<Item>)
    ensures r.right && r.todo == TextItems(texts) + rest ==> Midway(r, texts, rest, [])
  {
    AllTexts(texts, rest);
  }

  lemma AllTaken(r: Reader, texts: seq<Text>, rest: seq<Item>, read: seq<Text>)
    ensures Midway(r, texts, rest, read) && |read| == |texts| ==> r.right && read == texts && r.todo == rest
  {
    AllTexts(texts, rest);
  }

  /** A request with a head only. */
  function Bare(mode: Dword, options: Dword, index: Dword, names: seq<Text>): Request
    requires |names| == 5
  {
    Request(mode, options, index, names[0], names[1], names[2], names[3], names[4], [], [], false, false, false)
  }

  method ReadHead(r: Reader, ghost q: Request, ghost rest: seq<Item>) returns (ok: bool, head: Request)
    requires r.Valid()
    modifies r
    ensures ok ==> r.Valid() && head.mode <= FOLDER_MODE && r.seen == old(r.seen) + HeadItems(head)
    ensures old(r.right) && old(r.todo) == HeadItems(q) + rest && q.mode <= FOLDER_MODE ==>
              ok && r.right && SameHead(head, q) && r.todo == rest
  {
    hide Reader.Valid, TextItems;
    ghost var before := r.seen;
    head := Bare(0, 0, 0, [[], [], [], [], []]);
    Assoc(NumberItems(q), NameItems(q), rest);
    var mode, options, index, names;
    ok, mode, options, index := ReadNumbers(r, q, NameItems(q) + rest);
    if !ok { return; }
    ok, names := ReadNames(r, q, rest);
    if !ok { return; }
    head := Bare(mode, options, index, names);
    assert [names[0], names[1], names[2], names[3], names[4]] == names;
    Assoc(before, NumberItems(head), NameItems(head));
  }

  /** The two requests have the same head. */
  predicate SameHead(p: Request, q: Request) {
    && p.mode == q.mode && p.options == q.options && p.index == q.index && p.title == q.title && p.folder == q.folder
    && p.filename == q.filename && p.extension == q.extension && p.okLabel == q.okLabel
  }

  /** Three flags at the end of a packet. */
  method WriteFlags(w: Writer, a: bool, b: bool, c: bool) returns (ok: bool)
    requires w.Valid() && w.todo == TailItems([Flag(a), Flag(b), Flag(c)])
    modifies w
    ensures w.Possible() ==> ok
    ensures ok ==> w.Valid() && w.todo == []
  {
    hide Writer.Valid;
    ok := w.Number(Flag(a));
    if !ok { return; }
    ok := w.Number(Flag(b));
    if !ok { return; }
    ok := w.Number(Flag(c));
  }

  method ReadFlags(r: Reader, ghost expected: seq<Dword>) returns (ok: bool, flags: seq<Dword>)
    requires r.Valid()
    modifies r
    ensures ok ==> r.Valid() && |flags| == 3 && r.seen == old(r.seen) + TailItems(flags)
    ensures old(r.right) && |expected| == 3 && old(r.todo) == TailItems(expected) ==>
              ok && r.right && flags == expected && r.todo == []
  {
    hide Reader.Valid;
    ghost var before := r.seen;
    flags := [];
    var a, b, c;
    ok, a := r.Number();
    if !ok { return; }
    ok, b := r.Number();
    if !ok { return; }
    ok, c := r.Number();
    if !ok { return; }
    flags := [a, b, c];
    assert r.seen == before + TailItems(flags);
  }

  /** What the encoder can encode. */
  predicate CanEncode(q: Request) {
    && |q.filters| <= MOST && |q.testPaths| <= MOST
    && AllWritable(RequestItems(q, RequestFlags(q))) && |PacketBytes(RequestItems(q, RequestFlags(q)))| <= CAPACITY
  }

  /** The bytes are a packet for the request, with these numbers for its flags. */
  predicate IsRequestPacket(data: seq<Byte>, q: Request, flags: seq<Dword>) {
    && |flags| == 3 && |data| <= CAPACITY && data == PacketBytes(RequestItems(q, flags)) && AllReadable(RequestItems(q, flags))
    && q.mode <= FOLDER_MODE && |q.filters| <= MOST && |q.testPaths| <= MOST
    && q.testCancel == (flags[0] != 0) && q.showReadOnly == (flags[1] != 0) && q.readOnly == (flags[2] != 0)
  }

  /** No string of the request holds a zero, and its mode is one of the three. */
  predicate Regular(q: Request) {
    && q.mode <= 2
    && 0 !in q.title && 0 !in q.folder && 0 !in q.filename && 0 !in q.extension && 0 !in q.okLabel
    && (forall i :: 0 <= i < |q.filters| ==> 0 !in q.filters[i].caption && 0 !in q.filters[i].pattern)
    && (forall i :: 0 <= i < |q.testPaths| ==> 0 !in q.testPaths[i])
  }

  predicate FiltersShort(filters: seq<Filter>) {
    forall i :: 0 <= i < |filters| ==> |filters[i].caption| <= 32767 && |filters[i].pattern| <= 32767
  }

  /** No list and no string is longer than a packet can say. */
  predicate Short(q: Request) {
    && |q.title| <= 32767 && |q.folder| <= 32767 && |q.filename| <= 32767 && |q.extension| <= 32767 && |q.okLabel| <= 32767
    && |q.filters| <= 128 && |q.testPaths| <= 128
    && FiltersShort(q.filters)
    && (forall i :: 0 <= i < |q.testPaths| ==> |q.testPaths[i]| <= 32767)
  }

  lemma ReadableBoth(a: seq<Item>, b: seq<Item>)
    requires AllReadable(a + b)
    ensures AllReadable(a) && AllReadable(b)
  {
    hide Readable;
    assert forall k :: 0 <= k < |a| ==> a[k] == (a + b)[k];
    assert forall k :: 0 <= k < |b| ==> b[k] == (a + b)[|a| + k];
  }

  lemma ReadableTexts(texts: seq<Text>)
    requires AllReadable(TextItems(texts))
    ensures forall i :: 0 <= i < |texts| ==> 0 !in texts[i] && |texts[i]| <= 32767
  {
    forall i | 0 <= i < |texts| ensures 0 !in texts[i] && |texts[i]| <= 32767 {
      assert Readable(TextItems(texts)[i]);
    }
  }

  lemma ReadableFilters(filters: seq<Filter>)
    requires AllReadable(FilterItems(filters))
    ensures forall i :: 0 <= i < |filters| ==>
              && 0 !in filters[i].caption && 0 !in filters[i].pattern
              && |filters[i].caption| <= 32767 && |filters[i].pattern| <= 32767
  {
    hide FilterItems;
    forall i | 0 <= i < |filters|
      ensures 0 !in filters[i].caption && 0 !in filters[i].pattern
      ensures |filters[i].caption| <= 32767 && |filters[i].pattern| <= 32767
    {
      FilterAt(filters, i);
      assert Readable(FilterItems(filters)[2 * i]) && Readable(FilterItems(filters)[2 * i + 1]);
    }
  }

  /** What a packet can mean: nothing with a zero in it, and nothing too long. */
  lemma PacketsAreRegular(data: seq<Byte>, q: Request, flags: seq<Dword>)
    requires IsRequestPacket(data, q, flags)
    ensures Regular(q) && Short(q)
  {
    hide PacketBytes, AllReadable, FilterItems, TextItems, TailItems;
    var paths := TextItems(q.testPaths) + TailItems(flags);
    var filters := FilterItems(q.filters) + ([Num(|q.testPaths|)] + paths);
    ReadableBoth(HeadItems(q), [Num(|q.filters|)] + filters);
    ReadableBoth(NumberItems(q), NameItems(q));
    ReadableBoth([Num(|q.filters|)], filters);
    ReadableBoth(FilterItems(q.filters), [Num(|q.testPaths|)] + paths);
    ReadableBoth([Num(|q.testPaths|)], paths);
    ReadableBoth(TextItems(q.testPaths), TailItems(flags));
    var names := [q.title, q.folder, q.filename, q.extension, q.okLabel];
    ReadableTexts(names);
    assert names[0] == q.title && names[1] == q.folder && names[2] == q.filename && names[3] == q.extension && names[4] == q.okLabel;
    ReadableTexts(q.testPaths);
    ReadableFilters(q.filters);
  }

  method EncodeRequest(q: Request) returns (ok: bool, data: seq<Byte>)
    ensures ok == CanEncode(q)
    ensures ok ==> data == PacketBytes(RequestItems(q, RequestFlags(q)))
  {
    hide Writer.Valid, PacketBytes, AllWritable, FilterItems, TextItems, TailItems;
    ghost var tail := TailItems(RequestFlags(q));
    ghost var paths := TextItems(q.testPaths) + tail;
    ghost var filters := FilterItems(q.filters) + ([Num(|q.testPaths|)] + paths);
    var w := new Writer(RequestItems(q, RequestFlags(q)));
    data := [];
    ok := WriteHead(w, q, [Num(|q.filters|)] + filters);
    if !ok { return; }
    if |q.filters| > MOST { return false, data; }
    ListNext([Num(|q.filters|)], 0, filters);
    NothingNext([Num(|q.filters|)], filters);
    ok := w.Number(|q.filters|);
    if !ok { return; }
    ok := WriteFilters(w, q.filters, [Num(|q.testPaths|)] + paths);
    if !ok { return; }
    if |q.testPaths| > MOST { return false, data; }
    ListNext([Num(|q.testPaths|)], 0, paths);
    NothingNext([Num(|q.testPaths|)], paths);
    ok := w.Number(|q.testPaths|);
    if !ok { return; }
    ok := WriteTexts(w, q.testPaths, tail);
    if !ok { return; }
    ok := WriteFlags(w, q.testCancel, q.showReadOnly, q.readOnly);
    if !ok { return; }
    Finished(w);
    data := w.data;
  }

  lemma Finished(w: Writer)
    requires w.Valid() && w.todo == []
    ensures w.data == PacketBytes(w.plan) && |w.data| <= CAPACITY && AllWritable(w.plan)
  {
    assert w.written + [] == w.written;
  }

  /** The filters and the paths, each with their number before them. */
  method ReadLists(r: Reader, ghost claim: Request, ghost tail: seq<Item>)
    returns (ok: bool, filters: seq<Filter>, paths: seq<Text>)
    requires r.Valid()
    modifies r
    ensures ok ==> r.Valid() && |filters| <= MOST && |paths| <= MOST
    ensures ok ==> r.seen == old(r.seen) + [Num(|filters|)] + FilterItems(filters) + [Num(|paths|)] + TextItems(paths)
    ensures && old(r.right) && |claim.filters| <= MOST && |claim.testPaths| <= MOST
            && old(r.todo) == [Num(|claim.filters|)]
                              + (FilterItems(claim.filters) + ([Num(|claim.testPaths|)] + (TextItems(claim.testPaths) + tail)))
            ==> ok && r.right && filters == claim.filters && paths == claim.testPaths && r.todo == tail
  {
    hide *;
    filters, paths := [], [];
    ghost var more := TextItems(claim.testPaths) + tail;
    var count;
    ok, count := r.Number();
    if !ok { return; }
    if count > MOST { return false, filters, paths; }
    ListNext([Num(|claim.filters|)], 0, FilterItems(claim.filters) + ([Num(|claim.testPaths|)] + more));
    ok, filters := ReadFilters(r, count, claim.filters, [Num(|claim.testPaths|)] + more);
    if !ok { return; }
    ok, count := r.Number();
    if !ok { return; }
    if count > MOST { return false, filters, paths; }
    ListNext([Num(|claim.testPaths|)], 0, more);
    ok, paths := ReadTexts(r, count, claim.testPaths, tail);
  }

  /** Decodes a packet. Whatever is accepted is a packet for the result; and any packet for any
      request (such as the ghost parameters) is accepted, with that request as the result. */
  method DecodeRequest(data: seq<Byte>, ghost claim: Request, ghost flags: seq<Dword>) returns (ok: bool, q: Request)
    ensures ok ==> Regular(q) && Short(q) && exists numbers: seq<Dword> :: IsRequestPacket(data, q, numbers)
    ensures IsRequestPacket(data, claim, flags) ==> ok && q == claim
  {
    hide Reader.Valid, PacketBytes, AllReadable, FilterItems, TextItems, TailItems, HeadItems, Regular, Short;
    q := Bare(0, 0, 0, [[], [], [], [], []]);
    if |data| > CAPACITY { return false, q; }
    ghost var tail := TailItems(flags);
    ghost var lists := [Num(|claim.filters|)] + (FilterItems(claim.filters) + ([Num(|claim.testPaths|)] + (TextItems(claim.testPaths) + tail)));
    var r := new Reader(data, RequestItems(claim, flags));
    var head, filters, paths, numbers;
    ok, head := ReadHead(r, claim, lists);
    if !ok { return; }
    ok, filters, paths := ReadLists(r, claim, tail);
    if !ok { return; }
    ok, numbers := ReadFlags(r, flags);
    if !ok { return; }
    ok := r.End();
    if !ok { return; }
    q := head.(filters := filters, testPaths := paths,
               testCancel := numbers[0] != 0, showReadOnly := numbers[1] != 0, readOnly := numbers[2] != 0);
    HeadsAlike(head, q);
    Assembled(q, numbers);
    AllRead(r);
    assert IsRequestPacket(data, q, numbers);
    PacketsAreRegular(data, q, numbers);
  }

  lemma Assembled(q: Request, flags: seq<Dword>)
    ensures [] + HeadItems(q) + [Num(|q.filters|)] + FilterItems(q.filters) + [Num(|q.testPaths|)]
            + TextItems(q.testPaths) + TailItems(flags)
            == RequestItems(q, flags)
  {
    hide HeadItems, FilterItems, TextItems, TailItems;
    var h, f, t, l := HeadItems(q), FilterItems(q.filters), TextItems(q.testPaths), TailItems(flags);
    var m, n := [Num(|q.filters|)], [Num(|q.testPaths|)];
    assert [] + h == h;
    Assoc(h + m + f + n, t, l);
    Assoc(h + m + f, n, t + l);
    Assoc(h + m, f, n + (t + l));
    Assoc(h, m, f + (n + (t + l)));
  }

  lemma HeadsAlike(p: Request, q: Request)
    requires SameHead(p, q)
    ensures HeadItems(p) == HeadItems(q)
  {
  }

  lemma AllRead(r: Reader)
    requires r.Valid()
    ensures AllReadable(r.seen)
  {
  }

  // ----- results --------------------------------------------------------------

  predicate CanEncodeResult(q: Result) {
    && |q.paths| <= MOST
    && AllWritable(ResultItems(q, [Flag(q.readOnly)])) && |PacketBytes(ResultItems(q, [Flag(q.readOnly)]))| <= CAPACITY
  }

  predicate IsResultPacket(data: seq<Byte>, q: Result, flags: seq<Dword>) {
    && |flags| == 1 && |data| <= CAPACITY && data == PacketBytes(ResultItems(q, flags)) && AllReadable(ResultItems(q, flags))
    && |q.paths| <= MOST && q.readOnly == (flags[0] != 0)
  }

  method EncodeResult(q: Result) returns (ok: bool, data: seq<Byte>)
    ensures ok == CanEncodeResult(q)
    ensures ok ==> data == PacketBytes(ResultItems(q, [Flag(q.readOnly)]))
  {
    hide Writer.Valid, PacketBytes, AllWritable, TextItems, TailItems;
    ghost var tail := TailItems([Flag(q.readOnly)]);
    var w := new Writer(ResultItems(q, [Flag(q.readOnly)]));
    data := [];
    ok := w.Number(q.index);
    if !ok { return; }
    ok := w.String(q.folder);
    if !ok { return; }
    if |q.paths| > MOST { return false, data; }
    ok := w.Number(|q.paths|);
    if !ok { return; }
    assert w.todo == TextItems(q.paths) + tail;
    ok := WriteTexts(w, q.paths, tail);
    if !ok { return; }
    OneFlag([Flag(q.readOnly)]);
    ok := w.Number(Flag(q.readOnly));
    if !ok { return; }
    Finished(w);
    data := w.data;
  }

  function ResultHead(q: Result): (r: seq<Item>)
    ensures |r| == 3
  {
    [Num(q.index), Str(q.folder), Num(|q.paths|)]
  }

  method ReadResultHead(r: Reader, ghost q: Result, ghost rest: seq<Item>)
    returns (ok: bool, index: Dword, folder: Text, count: nat)
    requires r.Valid()
    modifies r
    ensures ok ==> r.Valid() && r.seen == old(r.seen) + [Num(index), Str(folder), Num(count)]
    ensures old(r.right) && old(r.todo) == ResultHead(q) + rest ==>
              ok && r.right && index == q.index && folder == q.folder && count == |q.paths| && r.todo == rest
  {
    hide Reader.Valid;
    ghost var list, before := ResultHead(q), r.seen;
    NothingNext(list, rest);
    index, folder, count := 0, [], 0;
    var n;
    ListNext(list, 0, rest);
    ok, n := r.Number();
    if !ok { return; }
    index := n;
    ListNext(list, 1, rest);
    ok, folder := r.String();
    if !ok { return; }
    ListNext(list, 2, rest);
    ok, count := r.Number();
    if !ok { return; }
    assert r.seen == before + [Num(index), Str(folder), Num(count)];
  }

  method DecodeResult(data: seq<Byte>, ghost claim: Result, ghost flags: seq<Dword>) returns (ok: bool, q: Result)
    ensures ok ==> exists numbers: seq<Dword> :: IsResultPacket(data, q, numbers)
    ensures IsResultPacket(data, claim, flags) ==> ok && q == claim
  {
    hide Reader.Valid, PacketBytes, AllReadable, TextItems, TailItems;
    q := Result([], [], 0, false);
    if |data| > CAPACITY { return false, q; }
    ghost var tail := TailItems(flags);
    var r := new Reader(data, ResultItems(claim, flags));
    var index, folder, count, paths, number;
    ok, index, folder, count := ReadResultHead(r, claim, TextItems(claim.paths) + tail);
    if !ok { return; }
    if count > MOST { return false, q; }
    ok, paths := ReadTexts(r, count, claim.paths, tail);
    if !ok { return; }
    OneFlag(flags);
    ok, number := r.Number();
    if !ok { return; }
    ok := r.End();
    if !ok { return; }
    q := Result(paths, folder, index, number != 0);
    ResultAssembled(q, number);
    AllRead(r);
    assert IsResultPacket(data, q, [number]);
  }

  lemma OneFlag(flags: seq<Dword>)
    ensures |flags| == 1 ==> TailItems(flags) == [Num(flags[0])]
  {
  }

  lemma ResultAssembled(q: Result, number: Dword)
    ensures [] + ResultHead(q) + TextItems(q.paths) + [Num(number)] == ResultItems(q, [number])
  {
    hide TextItems;
    OneFlag([number]);
    assert [] + ResultHead(q) == ResultHead(q);
    Assoc(ResultHead(q), TextItems(q.paths), [Num(number)]);
  }

  // ----- round trips ----------------------------------------------------------

  lemma {:induction false} RegularFilters(filters: seq<Filter>)
    requires forall i :: 0 <= i < |filters| ==> 0 !in filters[i].caption && 0 !in filters[i].pattern
    ensures forall k :: 0 <= k < |FilterItems(filters)| && FilterItems(filters)[k].Str? ==> 0 !in FilterItems(filters)[k].s
  {
    if filters != [] {
      RegularFilters(filters[..|filters| - 1]);
    }
  }

  /** An encoded request is a packet. */
  lemma EncodedIsPacket(q: Request)
    requires CanEncode(q) && Regular(q)
    ensures IsRequestPacket(PacketBytes(RequestItems(q, RequestFlags(q))), q, RequestFlags(q))
  {
    hide PacketBytes, FilterItems;
    RegularFilters(q.filters);
    var items := RequestItems(q, RequestFlags(q));
    forall k | 0 <= k < |items| ensures Readable(items[k]) {
      assert Writable(items[k]);
    }
  }

  /** Encoding and decoding gives the request back; what cannot be encoded is refused. */
  method SendRequest(q: Request) returns (ok: bool, received: Request)
    ensures ok <== CanEncode(q) && Regular(q)
    ensures ok && Regular(q) ==> received == q
    ensures !CanEncode(q) ==> !ok
  {
    hide CanEncode, Regular, IsRequestPacket, PacketBytes;
    received := q;
    var data;
    ok, data := EncodeRequest(q);
    if ok {
      if Regular(q) {
        EncodedIsPacket(q);
      }
      ok, received := DecodeRequest(data, q, RequestFlags(q));
    }
  }

  predicate RegularResult(q: Result) {
    0 !in q.folder && forall i :: 0 <= i < |q.paths| ==> 0 !in q.paths[i]
  }

  lemma EncodedResultIsPacket(q: Result)
    requires CanEncodeResult(q) && RegularResult(q)
    ensures IsResultPacket(PacketBytes(ResultItems(q, [Flag(q.readOnly)])), q, [Flag(q.readOnly)])
  {
    hide PacketBytes;
    var items := ResultItems(q, [Flag(q.readOnly)]);
    forall k | 0 <= k < |items| ensures Readable(items[k]) {
      assert Writable(items[k]);
    }
  }

  method SendResult(q: Result) returns (ok: bool, received: Result)
    ensures ok <== CanEncodeResult(q) && RegularResult(q)
    ensures ok && RegularResult(q) ==> received == q
    ensures !CanEncodeResult(q) ==> !ok
  {
    hide CanEncodeResult, RegularResult, IsResultPacket, PacketBytes, ResultItems;
    received := q;
    var data;
    ok, data := EncodeResult(q);
    if ok {
      if RegularResult(q) {
        EncodedResultIsPacket(q);
      }
      ok, received := DecodeResult(data, q, [Flag(q.readOnly)]);
    }
  }

  // ----- accepted packets -----------------------------------------------------

  lemma {:induction false} PacketBoth(a: seq<Item>, b: seq<Item>)
    ensures PacketBytes(a + b) == PacketBytes(a) + PacketBytes(b)
  {
    hide ItemBytes;
    if a == [] {
      assert a + b == b;
    } else {
      PacketBoth(a[1..], b);
      assert (a + b)[1..] == a[1..] + b;
      Assoc(ItemBytes(a[0]), PacketBytes(a[1..]), PacketBytes(b));
    }
  }

  lemma {:induction false} TailLength(flags: seq<Dword>)
    ensures |PacketBytes(TailItems(flags))| == 4 * |flags|
  {
    if flags != [] {
      TailLength(flags[1..]);
      assert TailItems(flags)[1..] == TailItems(flags[1..]);
    }
  }

  lemma TailWritable(items: seq<Item>, before: seq<Dword>, flags: seq<Dword>)
    requires AllReadable(items + TailItems(before))
    ensures AllWritable(items + TailItems(flags))
  {
    forall k | 0 <= k < |items + TailItems(flags)| ensures Writable((items + TailItems(flags))[k]) {
      if k < |items| {
        assert Readable((items + TailItems(before))[k]);
      }
    }
  }

  // ----- the size of a packet -------------------------------------------------

  /** Four bytes for the length of every string, and two for each of its characters. */
  function Size(texts: seq<Text>): nat {
    if texts == [] then 0 else 4 + 2 * |texts[0]| + Size(texts[1..])
  }

  function FilterSize(filters: seq<Filter>): nat {
    if filters == [] then 0
    else FilterSize(filters[..|filters| - 1]) + 8 + 2 * |filters[|filters| - 1].caption| + 2 * |filters[|filters| - 1].pattern|
  }

  /** Three numbers, five names, two counted lists and three flags. */
  function RequestSize(q: Request): nat {
    12 + Size([q.title, q.folder, q.filename, q.extension, q.okLabel]) + 4 + FilterSize(q.filters) + 4 + Size(q.testPaths) + 12
  }

  lemma {:induction false} TextsTake(texts: seq<Text>)
    ensures |PacketBytes(TextItems(texts))| == Size(texts)
    ensures AllWritable(TextItems(texts)) <==> forall i :: 0 <= i < |texts| ==> |texts[i]| <= 32767
  {
    if texts != [] {
      TextsTake(texts[1..]);
      assert TextItems(texts)[1..] == TextItems(texts[1..]);
    }
    assert forall i :: 0 <= i < |texts| ==> (Writable(TextItems(texts)[i]) <==> |texts[i]| <= 32767);
  }

  lemma WritableBoth(a: seq<Item>, b: seq<Item>)
    ensures AllWritable(a + b) <==> AllWritable(a) && AllWritable(b)
  {
    hide Writable;
    assert forall k :: 0 <= k < |a| ==> a[k] == (a + b)[k];
    assert forall k :: 0 <= k < |b| ==> b[k] == (a + b)[|a| + k];
  }

  lemma Glued(a: seq<Item>, b: seq<Item>)
    ensures |PacketBytes(a + b)| == |PacketBytes(a)| + |PacketBytes(b)|
    ensures AllWritable(a + b) <==> AllWritable(a) && AllWritable(b)
  {
    hide PacketBytes, AllWritable;
    PacketBoth(a, b);
    WritableBoth(a, b);
  }

  lemma OneString(s: Text)
    ensures |PacketBytes([Str(s)])| == 4 + 2 * |s| && (AllWritable([Str(s)]) <==> |s| <= 32767)
  {
    assert PacketBytes([]) == [];
    assert AllWritable([Str(s)]) <==> Writable([Str(s)][0]);
  }

  lemma OneFilter(f: Filter)
    ensures var pair := [Str(f.caption), Str(f.pattern)];
            && |PacketBytes(pair)| == 8 + 2 * |f.caption| + 2 * |f.pattern|
            && (AllWritable(pair) <==> |f.caption| <= 32767 && |f.pattern| <= 32767)
  {
    hide *;
    OneString(f.caption);
    OneString(f.pattern);
    Glued([Str(f.caption)], [Str(f.pattern)]);
    assert [Str(f.caption)] + [Str(f.pattern)] == [Str(f.caption), Str(f.pattern)];
  }

  lemma NoFilters()
    ensures FilterItems([]) == [] && PacketBytes([]) == [] && FilterSize([]) == 0 && AllWritable([])
  {
  }

  lemma LastFilter(filters: seq<Filter>)
    requires filters != []
    ensures var front, last := filters[..|filters| - 1], filters[|filters| - 1];
            && FilterItems(filters) == FilterItems(front) + [Str(last.caption), Str(last.pattern)]
            && FilterSize(filters) == FilterSize(front) + 8 + 2 * |last.caption| + 2 * |last.pattern|
  {
  }

  lemma LastFilterShort(filters: seq<Filter>)
    requires filters != []
    ensures FiltersShort(filters) <==>
              && FiltersShort(filters[..|filters| - 1])
              && |filters[|filters| - 1].caption| <= 32767 && |filters[|filters| - 1].pattern| <= 32767
  {
    var n := |filters| - 1;
    assert forall i :: 0 <= i < n ==> filters[..n][i] == filters[i];
  }

  lemma {:induction false} FiltersTake(filters: seq<Filter>)
    ensures |PacketBytes(FilterItems(filters))| == FilterSize(filters)
    ensures AllWritable(FilterItems(filters)) <==> FiltersShort(filters)
  {
    if filters == [] {
      NoFilters();
    } else {
      hide *;
      var front, last := filters[..|filters| - 1], filters[|filters| - 1];
      FiltersTake(front);
      LastFilter(filters);
      LastFilterShort(filters);
      OneFilter(last);
      Glued(FilterItems(front), [Str(last.caption), Str(last.pattern)]);
    }
  }

  lemma OneNumber(n: Dword)
    ensures |PacketBytes([Num(n)])| == 4 && AllWritable([Num(n)])
  {
    assert PacketBytes([]) == [];
  }

  lemma NumbersTake(q: Request)
    ensures |PacketBytes(NumberItems(q))| == 12 && AllWritable(NumberItems(q))
  {
    hide PacketBytes, AllWritable;
    OneNumber(q.mode);
    OneNumber(q.options);
    OneNumber(q.index);
    Glued([Num(q.mode)], [Num(q.options)]);
    Glued([Num(q.mode)] + [Num(q.options)], [Num(q.index)]);
    assert [Num(q.mode)] + [Num(q.options)] + [Num(q.index)] == NumberItems(q);
  }

  lemma FlagsTake(flags: seq<Dword>)
    ensures |PacketBytes(TailItems(flags))| == 4 * |flags| && AllWritable(TailItems(flags))
  {
    TailLength(flags);
  }

  lemma HeadTakes(q: Request)
    ensures var names := [q.title, q.folder, q.filename, q.extension, q.okLabel];
            && |PacketBytes(HeadItems(q))| == 12 + Size(names)
            && (AllWritable(HeadItems(q)) <==> forall i :: 0 <= i < 5 ==> |names[i]| <= 32767)
  {
    hide PacketBytes, AllWritable, TextItems, Size, NumberItems;
    NumbersTake(q);
    TextsTake([q.title, q.folder, q.filename, q.extension, q.okLabel]);
    Glued(NumberItems(q), NameItems(q));
  }

  lemma PathsTake(paths: seq<Text>, flags: seq<Dword>)
    requires |paths| <= MOST && |flags| == 3
    ensures var items := [Num(|paths|)] + (TextItems(paths) + TailItems(flags));
            && |PacketBytes(items)| == 4 + Size(paths) + 12
            && (AllWritable(items) <==> forall i :: 0 <= i < |paths| ==> |paths[i]| <= 32767)
  {
    hide PacketBytes, AllWritable, TextItems, TailItems, Size;
    OneNumber(|paths|);
    TextsTake(paths);
    FlagsTake(flags);
    Glued(TextItems(paths), TailItems(flags));
    Glued([Num(|paths|)], TextItems(paths) + TailItems(flags));
  }

  /** A request can be encoded exactly if nothing in it is too long and its packet has at most
      512 KiB. */
  lemma CanEncodeExactly(q: Request)
    ensures CanEncode(q) <==> Short(q) && RequestSize(q) <= 524288
  {
    if |q.filters| <= MOST && |q.testPaths| <= MOST {
      hide PacketBytes, AllWritable, FilterItems, TextItems, TailItems, HeadItems, Size, FilterSize;
      var paths := [Num(|q.testPaths|)] + (TextItems(q.testPaths) + TailItems(RequestFlags(q)));
      HeadTakes(q);
      FiltersTake(q.filters);
      PathsTake(q.testPaths, RequestFlags(q));
      OneNumber(|q.filters|);
      Glued(FilterItems(q.filters), paths);
      Glued([Num(|q.filters|)], FilterItems(q.filters) + paths);
      Glued(HeadItems(q), [Num(|q.filters|)] + (FilterItems(q.filters) + paths));
      FiveNames(q);
    }
  }

  lemma FiveNames(q: Request)
    ensures var names := [q.title, q.folder, q.filename, q.extension, q.okLabel];
            (forall i :: 0 <= i < 5 ==> |names[i]| <= 32767) <==>
              |q.title| <= 32767 && |q.folder| <= 32767 && |q.filename| <= 32767 && |q.extension| <= 32767 && |q.okLabel| <= 32767
  {
    var names := [q.title, q.folder, q.filename, q.extension, q.okLabel];
    assert names[0] == q.title && names[1] == q.folder && names[2] == q.filename && names[3] == q.extension && names[4] == q.okLabel;
  }

  /** The packet of the same items with other flags at the end. */
  lemma OtherFlags(items: seq<Item>, before: seq<Dword>, after: seq<Dword>)
    requires |before| == |after|
    ensures var data, again := PacketBytes(items + TailItems(before)), PacketBytes(items + TailItems(after));
            var cut := |data| - 4 * |before|;
            && cut >= 0 && |again| == |data| && again[..cut] == data[..cut]
            && data[cut..] == PacketBytes(TailItems(before)) && again[cut..] == PacketBytes(TailItems(after))
  {
    hide PacketBytes, TailItems;
    PacketBoth(items, TailItems(before));
    PacketBoth(items, TailItems(after));
    TailLength(before);
    TailLength(after);
  }

  /** All items of a request but its flags. */
  function FrontItems(q: Request): seq<Item> {
    HeadItems(q) + ([Num(|q.filters|)] + (FilterItems(q.filters) + ([Num(|q.testPaths|)] + TextItems(q.testPaths))))
  }

  lemma FrontAndFlags(q: Request, flags: seq<Dword>)
    ensures RequestItems(q, flags) == FrontItems(q) + TailItems(flags)
  {
    hide HeadItems, FilterItems, TextItems, TailItems;
    var h, f, t, l := HeadItems(q), FilterItems(q.filters), TextItems(q.testPaths), TailItems(flags);
    var m, n := [Num(|q.filters|)], [Num(|q.testPaths|)];
    Assoc(h, m + (f + (n + t)), l);
    Assoc(m, f + (n + t), l);
    Assoc(f, n + t, l);
    Assoc(n, t, l);
  }

  /** Encoding an accepted request again gives the same bytes, but for the three flags at the
      end, which become 0 or 1. */
  lemma AcceptedEncodesAgain(data: seq<Byte>, q: Request, flags: seq<Dword>)
    requires IsRequestPacket(data, q, flags)
    ensures CanEncode(q)
    ensures var again := PacketBytes(RequestItems(q, RequestFlags(q)));
            && |again| == |data| >= 12 && again[..|data| - 12] == data[..|data| - 12]
            && data[|data| - 12..] == PacketBytes(TailItems(flags)) && again[|data| - 12..] == PacketBytes(TailItems(RequestFlags(q)))
  {
    hide PacketBytes, FrontItems, RequestItems, AllWritable, AllReadable;
    FrontAndFlags(q, flags);
    FrontAndFlags(q, RequestFlags(q));
    TailWritable(FrontItems(q), flags, RequestFlags(q));
    OtherFlags(FrontItems(q), flags, RequestFlags(q));
  }

  lemma {:induction false} TailField(flags: seq<Dword>, k: nat)
    requires k < |flags|
    ensures |PacketBytes(TailItems(flags))| == 4 * |flags|
    ensures Field(PacketBytes(TailItems(flags)), 4 * k, 4) == Little(flags[k], 4)
  {
    hide Little;
    TailLength(flags);
    TailLength(flags[1..]);
    var first, rest := Little(flags[0], 4), PacketBytes(TailItems(flags[1..]));
    assert PacketBytes(TailItems(flags)) == first + rest by {
      assert TailItems(flags)[1..] == TailItems(flags[1..]);
    }
    if k > 0 {
      TailField(flags[1..], k - 1);
      assert (first + rest)[4..] == rest;
      SliceOfDrop(first + rest, 4, 4 * (k - 1), 4 * k);
    }
  }

  /** One of the flags at the end of a packet. */
  function FlagAt(data: seq<Byte>, k: nat): nat
    requires k < 3 && |data| >= 12
  {
    Number(Field(data, |data| - 12 + 4 * k, 4))
  }

  lemma FlagIs(data: seq<Byte>, flags: seq<Dword>, k: nat)
    requires k < 3 == |flags| && |data| >= 12 && data[|data| - 12..] == PacketBytes(TailItems(flags))
    ensures FlagAt(data, k) == flags[k]
  {
    hide Number, Little, PacketBytes, TailItems;
    TailField(flags, k);
    SliceOfDrop(data, |data| - 12, 4 * k, 4 * k + 4);
    PowerOf4();
    NumberOfLittle(flags[k], 4);
  }

  /** What a process sends on when it has decoded a request and encodes it again. */
  method ResendRequest(data: seq<Byte>) returns (ok: bool, again: seq<Byte>)
    ensures ok ==> |again| == |data| >= 12 && again[..|data| - 12] == data[..|data| - 12]
    ensures ok ==> forall k :: 0 <= k < 3 ==> FlagAt(again, k) == if FlagAt(data, k) == 0 then 0 else 1
  {
    hide IsRequestPacket, CanEncode, PacketBytes, RequestItems, TailItems, FlagAt;
    var q;
    again := [];
    ok, q := DecodeRequest(data, Bare(0, 0, 0, [[], [], [], [], []]), []);
    if ok {
      ghost var flags: seq<Dword> :| IsRequestPacket(data, q, flags);
      AcceptedEncodesAgain(data, q, flags);
      FlagsOf(data, q, flags);
      ok, again := EncodeRequest(q);
      forall k | 0 <= k < 3 ensures FlagAt(again, k) == if FlagAt(data, k) == 0 then 0 else 1 {
        FlagIs(data, flags, k);
        FlagIs(again, RequestFlags(q), k);
      }
    }
  }

  lemma FlagsOf(data: seq<Byte>, q: Request, flags: seq<Dword>)
    requires IsRequestPacket(data, q, flags)
    ensures |flags| == |RequestFlags(q)| == 3 && forall k :: 0 <= k < 3 ==> RequestFlags(q)[k] == Flag(flags[k] != 0)
  {
    hide PacketBytes, AllReadable, RequestItems;
  }

  /** The same for results, with one flag. */
  lemma AcceptedResultEncodesAgain(data: seq<Byte>, q: Result, flags: seq<Dword>)
    requires IsResultPacket(data, q, flags)
    ensures CanEncodeResult(q)
    ensures var again := PacketBytes(ResultItems(q, [Flag(q.readOnly)]));
            && |again| == |data| >= 4 && again[..|data| - 4] == data[..|data| - 4]
            && data[|data| - 4..] == PacketBytes(TailItems(flags)) && again[|data| - 4..] == PacketBytes(TailItems([Flag(q.readOnly)]))
  {
    hide PacketBytes, AllWritable, AllReadable, TextItems, TailItems;
    var front, after := ResultHead(q) + TextItems(q.paths), [Flag(q.readOnly)];
    Assoc(ResultHead(q), TextItems(q.paths), TailItems(flags));
    Assoc(ResultHead(q), TextItems(q.paths), TailItems(after));
    TailWritable(front, flags, after);
    OtherFlags(front, flags, after);
  }
}
