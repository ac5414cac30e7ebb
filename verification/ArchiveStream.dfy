/** A seekable stream over one archive entry (patcher/archive/shell_transfer.cpp) and the range
    extractor below it (patcher/archive/backend.cpp), against one flat sequence of bytes. */
module ArchiveStream {
  import opened Bytes
  import opened Sequences

  const WHOLE_LIMIT: nat := 32 * 1024 * 1024
  const WINDOW_SIZE: nat := 8 * 1024 * 1024
  const COPY_BUFFER: nat := 65536
  const POSITION_MAX: nat := 0xFFFF_FFFF_FFFF_FFFF

  // ----- extracting a range from a decoder ------------------------------------

  function Flatten(chunks: seq<seq<Byte>>): seq<Byte> {
    if chunks == [] then [] else Flatten(chunks[..|chunks| - 1]) + chunks[|chunks| - 1]
  }

  lemma {:induction false} FlattenGrows(chunks: seq<seq<Byte>>, i: nat)
    requires i <= |chunks|
    ensures |Flatten(chunks[..i])| <= |Flatten(chunks)|
    ensures Flatten(chunks[..i]) == Flatten(chunks)[..|Flatten(chunks[..i])|]
    decreases |chunks| - i
  {
    if i == |chunks| {
      assert chunks[..i] == chunks;
    } else {
      FlattenGrows(chunks, i + 1);
      assert chunks[..i + 1][..i] == chunks[..i];
    }
  }

  /** The part of the bytes seen so far that lies in the range. */
  function InRange(fed: seq<Byte>, offset: nat, length: nat): seq<Byte> {
    fed[Min(offset, |fed|)..Min(offset + length, |fed|)]
  }

  /** How many they are. */
  function CountInRange(n: nat, offset: nat, length: nat): nat {
    Min(offset + length, n) - Min(offset, n)
  }

  lemma InRangeGrows(fed: seq<Byte>, chunk: seq<Byte>, offset: nat, length: nat, bypass: nat, take: nat)
    requires bypass == Min(offset - Min(offset, |fed|), |chunk|)
    requires take == Min(length - CountInRange(|fed|, offset, length), |chunk| - bypass)
    ensures InRange(fed + chunk, offset, length) == InRange(fed, offset, length) + chunk[bypass..bypass + take]
    ensures |InRange(fed, offset, length)| == CountInRange(|fed|, offset, length)
    ensures |InRange(fed + chunk, offset, length)| == CountInRange(|fed + chunk|, offset, length)
  {
    var all, part := fed + chunk, chunk[bypass..bypass + take];
    var start, left, right := Min(offset, |all|), InRange(all, offset, length), InRange(fed, offset, length) + part;
    assert |left| == |right|;
    forall i | 0 <= i < |left| ensures left[i] == right[i] {
      assert left[i] == all[start + i];
      if start + i < |fed| {
        assert all[start + i] == fed[start + i] && start == Min(offset, |fed|);
      } else {
        assert all[start + i] == chunk[start + i - |fed|];
        assert i - |InRange(fed, offset, length)| == start + i - |fed| - bypass;
      }
    }
  }

  /** The counters of the sink go on in step. */
  lemma CountersGoOn(n: nat, m: nat, offset: nat, length: nat, bypass: nat, take: nat)
    requires length > 0 && bypass == Min(offset - Min(offset, n), m)
    requires take == Min(length - CountInRange(n, offset, length), m - bypass)
    ensures offset - Min(offset, n) - bypass == offset - Min(offset, n + m)
    ensures length - CountInRange(n, offset, length) - take == length - CountInRange(n + m, offset, length)
    ensures CountInRange(n + m, offset, length) == length <==> n + m >= offset + length
  {
  }

  /** Nothing that comes after the range changes it. */
  lemma RangeIsComplete(fed: seq<Byte>, all: seq<Byte>, offset: nat, length: nat)
    requires |fed| <= |all| && fed == all[..|fed|] && (|fed| >= offset + length || |fed| == |all|)
    ensures InRange(fed, offset, length) == InRange(all, offset, length)
    ensures length == 0 ==> InRange(all, offset, length) == []
  {
    var a, b := Min(offset, |fed|), Min(offset + length, |fed|);
    SliceOfTake(all, |fed|, a, b);
    assert a == Min(offset, |all|) && b == Min(offset + length, |all|);
  }

  /** The sink of a ranged extraction. fed is everything the decoder has written to it. */
  class Output {
    var bytes: seq<Byte>
    var skip: nat
    var remaining: nat
    var rangeComplete: bool
    const stopAfterRange: bool
    ghost const offset: nat
    ghost const length: nat
    ghost var fed: seq<Byte>

    ghost predicate Valid()
      reads this
    {
      && length > 0
      && bytes == InRange(fed, offset, length)
      && skip == offset - Min(offset, |fed|)
      && remaining == length - CountInRange(|fed|, offset, length)
      && rangeComplete == (|fed| >= offset + length)
    }

    constructor (offset: nat, length: nat, stopAfterRange: bool)
      requires length > 0
      ensures Valid() && fed == [] && this.offset == offset && this.length == length && this.stopAfterRange == stopAfterRange
    {
      bytes, skip, remaining, rangeComplete := [], offset, length, false;
      this.stopAfterRange := stopAfterRange;
      this.offset, this.length, fed := offset, length, [];
    }

    /** Takes one chunk, of any length; the result says whether the decoder has to stop. */
    method Write(chunk: seq<Byte>) returns (abort: bool)
      requires Valid()
      modifies this
      ensures Valid() && fed == old(fed) + chunk
      ensures abort == (|fed| >= offset + length && stopAfterRange)
    {
      hide InRange, CountInRange;
      var bypass := Min(skip, |chunk|);
      skip := skip - bypass;
      var take := Min(remaining, |chunk| - bypass);
      InRangeGrows(fed, chunk, offset, length, bypass, take);
      CountersGoOn(|fed|, |chunk|, offset, length, bypass, take);
      hide Min;
      bytes := bytes + chunk[bypass..bypass + take];
      remaining := remaining - take;
      fed := fed + chunk;
      if remaining == 0 {
        rangeComplete := true;
        if stopAfterRange {
          return true;
        }
      }
      return false;
    }
  }

  /** Archive::readRange over a decoder that writes the entry in the given chunks. However it
      splits them, the result is the range cut out of the whole entry. */
  method ReadRange(chunks: seq<seq<Byte>>, size: nat, offset: nat, length: nat) returns (r: seq<Byte>)
    requires |Flatten(chunks)| == size
    ensures r == InRange(Flatten(chunks), offset, length)
  {
    if length == 0 {
      RangeIsComplete(Flatten(chunks), Flatten(chunks), offset, 0);
      return [];
    }
    var output := new Output(offset, length, offset + length < size);
    var i, stopped := 0, false;
    while i < |chunks| && !stopped
      invariant i <= |chunks|
      invariant output.Valid() && output.offset == offset && output.length == length
      invariant output.fed == Flatten(chunks[..i])
      invariant stopped ==> |output.fed| >= offset + length
    {
      assert chunks[..i + 1][..i] == chunks[..i];
      stopped := output.Write(chunks[i]);
      i := i + 1;
    }
    FlattenGrows(chunks, i);
    if !stopped {
      assert chunks[..i] == chunks;
    }
    RangeIsComplete(output.fed, Flatten(chunks), offset, length);
    r := output.bytes;
  }

  // ----- the flat reference ---------------------------------------------------

  datatype Op = ReadOp(size: nat) | SeekOp(delta: int, origin: nat) | CloneOp

  datatype Reply = Got(data: seq<Byte>, complete: bool) | At(position: nat) | Refused | Cloned

  /** Reading never goes past the end, and is complete when all that was asked for came. */
  function FlatRead(content: seq<Byte>, position: nat, size: nat): seq<Byte> {
    content[Min(position, |content|)..Min(position + size, |content|)]
  }

  /** Seeking may go past the end, but not before the beginning or beyond 64 bits. */
  function FlatSeek(size: nat, position: nat, delta: int, origin: nat): Reply {
    if origin > 2 then Refused
    else
      var target := (if origin == 0 then 0 else if origin == 1 then position else size) + delta;
      if 0 <= target <= POSITION_MAX then At(target) else Refused
  }

  /** Consecutive reads deliver what one longer read delivers, and a read of the right length
      from the beginning delivers everything. */
  lemma ReadsGoOn(content: seq<Byte>, position: nat, m: nat, n: nat)
    ensures var first := FlatRead(content, position, m);
            first + FlatRead(content, position + |first|, n) == FlatRead(content, position, if |first| == m then m + n else m)
    ensures FlatRead(content, 0, |content|) == content
    ensures |FlatRead(content, position, 1)| == (if position < |content| then 1 else 0)
  {
  }

  /** Seeking by nothing tells the beginning, the position and the end; every other distance
      counts from there, in both directions. */
  lemma SeeksCountFromTheirOrigin(size: nat, position: nat, delta: int, origin: nat)
    requires size <= POSITION_MAX && position <= POSITION_MAX
    ensures FlatSeek(size, position, 0, 0) == At(0)
    ensures FlatSeek(size, position, 0, 1) == At(position)
    ensures FlatSeek(size, position, 0, 2) == At(size)
    ensures var from, reply := FlatSeek(size, position, 0, origin), FlatSeek(size, position, delta, origin);
            && (from.At? <==> origin <= 2)
            && (reply.At? ==> from.At? && reply.position - from.position == delta && reply.position < 0x1_0000_0000_0000_0000)
            && (reply.Refused? <==> from.At? ==> !(0 <= from.position + delta < 0x1_0000_0000_0000_0000))
  {
  }

  /** One operation on one of a family of flat streams, which are known by their positions: the
      answer, and the positions afterwards. A clone joins the family at the end, with the
      position of its original. */
  function FlatStep(content: seq<Byte>, positions: seq<nat>, k: nat, op: Op): (Reply, seq<nat>) {
    if k >= |positions| then (Refused, positions)
    else
      match op
      case ReadOp(size) =>
        var data := FlatRead(content, positions[k], size);
        (Got(data, |data| == size), positions[k := positions[k] + |data|])
      case SeekOp(delta, origin) =>
        var reply := FlatSeek(|content|, positions[k], delta, origin);
        (reply, if reply.At? then positions[k := reply.position] else positions)
      case CloneOp => (Cloned, positions + [positions[k]])
  }

  /** What a family of flat streams answers. */
  function FlatPlay(content: seq<Byte>, positions: seq<nat>, ops: seq<(nat, Op)>): seq<Reply>
    decreases |ops|
  {
    if ops == [] then []
    else
      var (reply, after) := FlatStep(content, positions, ops[0].0, ops[0].1);
      [reply] + FlatPlay(content, after, ops[1..])
  }

  lemma FlatPlayStep(content: seq<Byte>, positions: seq<nat>, ops: seq<(nat, Op)>, i: nat)
    requires i < |ops|
    ensures var (reply, after) := FlatStep(content, positions, ops[i].0, ops[i].1);
            FlatPlay(content, positions, ops[i..]) == [reply] + FlatPlay(content, after, ops[i + 1..])
  {
    hide FlatStep;
    assert ops[i..][1..] == ops[i + 1..];
  }

  lemma NothingPlayed(content: seq<Byte>, positions: seq<nat>, ops: seq<(nat, Op)>)
    ensures ops[0..] == ops && FlatPlay(content, positions, ops[|ops|..]) == []
  {
  }

  // ----- the stream -----------------------------------------------------------

  /** Where the bytes come from: a file on disk, of which every read delivers some but perhaps
      not all of the bytes asked for, or an archive entry, decoded anew each time in chunks
      that may differ from one decoding to the next. */
  datatype Source =
    | File(content: seq<Byte>, portion: nat -> nat)
    | Entry(content: seq<Byte>, decode: nat -> seq<seq<Byte>>)
  {
    ghost predicate Right() {
      Entry? ==> forall n :: Flatten(decode(n)) == content
    }
  }

  datatype Whole = NotRead | Held(bytes: seq<Byte>)

  class EntryStream {
    const source: Source
    var position: nat
    var windowStart: nat
    var window: seq<Byte>
    var whole: Whole
    var calls: nat

    ghost predicate Valid()
      reads this
    {
      && source.Right()
      && position <= POSITION_MAX && |source.content| <= POSITION_MAX
      && windowStart + |window| <= |source.content| + (if window == [] then windowStart else 0)
      && (window != [] ==> window == source.content[windowStart..windowStart + |window|])
      && (whole.Held? ==> whole.bytes == source.content)
    }

    constructor (source: Source)
      requires source.Right() && |source.content| <= POSITION_MAX
      ensures Valid() && position == 0 && this.source == source
    {
      this.source := source;
      position, windowStart, window, whole, calls := 0, 0, [], NotRead, 0;
    }

    method Clone() returns (clone: EntryStream)
      requires Valid()
      ensures fresh(clone) && clone.Valid() && clone.source == source && clone.position == position
    {
      clone := new EntryStream(source);
      clone.position := position;
      clone.whole := whole;
    }

    method Seek(delta: int, origin: nat) returns (r: Reply)
      requires Valid() && -0x8000_0000_0000_0000 <= delta < 0x8000_0000_0000_0000
      modifies this`position
      ensures Valid()
      ensures r == FlatSeek(|source.content|, old(position), delta, origin)
      ensures position == if r.At? then r.position else old(position)
    {
      var base: nat;
      if origin == 0 {
        base := 0;
      } else if origin == 1 {
        base := position;
      } else if origin == 2 {
        base := |source.content|;
      } else {
        return Refused;
      }
      if delta < 0 {
        var back := -delta;
        if back > base {
          return Refused;
        }
        position := base - back;
      } else {
        if delta > POSITION_MAX - base {
          return Refused;
        }
        position := base + delta;
      }
      return At(position);
    }

    /** One turn of the read loop: the next bytes from the position on, at least one and at
        most n of them, by whichever of the three ways applies. */
    method Some(n: nat) returns (part: seq<Byte>)
      requires Valid() && 0 < n && position + n <= |source.content|
      modifies this`windowStart, this`window, this`whole, this`calls
      ensures Valid()
      ensures 0 < |part| <= n && part == source.content[position..position + |part|]
    {
      calls := calls + 1;
      if source.File? {
        var count := 1 + source.portion(calls) % n;
        part := source.content[position..position + count];
      } else if |source.content| <= WHOLE_LIMIT {
        if whole.NotRead? {
          whole := Held(Flatten(source.decode(calls)));
        }
        part := whole.bytes[position..position + n];
      } else {
        part := SomeOfWindow(n);
      }
    }

    method SomeOfWindow(n: nat) returns (part: seq<Byte>)
      requires Valid() && source.Entry? && 0 < n && position + n <= |source.content|
      modifies this`windowStart, this`window
      ensures Valid()
      ensures 0 < |part| <= n && part == source.content[position..position + |part|]
    {
      if window == [] || position < windowStart || position >= windowStart + |window| {
        FillWindow();
      }
      var from := position - windowStart;
      var count := Min(n, |window| - from);
      WindowPart(source.content, windowStart, window, from, count);
      part := window[from..from + count];
    }

    method FillWindow()
      requires Valid() && source.Entry? && position < |source.content|
      modifies this`windowStart, this`window
      ensures Valid() && windowStart <= position < windowStart + |window|
    {
      var size := |source.content|;
      windowStart := position;
      window := ReadRange(source.decode(calls), size, position, Min(WINDOW_SIZE, size - position));
    }

    /** Reads into the front of the buffer. */
    method Read(dest: array<Byte>, size: nat) returns (done: nat, complete: bool)
      requires Valid() && size <= dest.Length
      modifies this, dest
      ensures Valid() && done <= size
      ensures dest[..done] == FlatRead(source.content, old(position), size)
      ensures dest[done..] == old(dest[done..])
      ensures position == old(position) + done && complete == (done == size)
    {
      hide FlatRead;
      var total := 0;
      ghost var start, initial := position, dest[..];
      FlatReadEnds(source.content, start, 0, size);
      while total < size && position < |source.content|
        invariant Valid() && total <= size && position == start + total
        invariant total > 0 ==> position <= |source.content|
        invariant dest[..total] == FlatRead(source.content, start, total)
        invariant dest[total..] == initial[total..]
      {
        var n := Min(size - total, |source.content| - position);
        var part := Some(n);
        SameTail(dest[..], initial, total, total + |part|, dest.Length);
        CopyInto(dest, total, part);
        FlatReadGrows(source.content, start, total, |part|);
        position := position + |part|;
        total := total + |part|;
      }
      FlatReadEnds(source.content, start, total, size);
      return total, total == size;
    }
  }

  lemma WindowPart(content: seq<Byte>, start: nat, window: seq<Byte>, from: nat, count: nat)
    requires start + |window| <= |content| && window == content[start..start + |window|] && from + count <= |window|
    ensures window[from..from + count] == content[start + from..start + from + count]
  {
    SliceOfSlice(content, start, start + |window|, from, from + count);
  }

  lemma FlatReadGrows(content: seq<Byte>, start: nat, total: nat, n: nat)
    requires start + total + n <= |content|
    ensures FlatRead(content, start, total) + content[start + total..start + total + n] == FlatRead(content, start, total + n)
  {
  }

  lemma FlatReadEnds(content: seq<Byte>, start: nat, total: nat, size: nat)
    requires total <= size
    ensures FlatRead(content, start, 0) == []
    ensures start + total >= |content| ==> FlatRead(content, start, size) == FlatRead(content, start, total)
  {
  }

  method CopyInto(dest: array<Byte>, at: nat, part: seq<Byte>)
    requires at + |part| <= dest.Length
    modifies dest
    ensures dest[..at + |part|] == old(dest[..at]) + part
    ensures dest[at + |part|..] == old(dest[at + |part|..])
  {
    forall i | 0 <= i < |part| {
      dest[at + i] := part[i];
    }
  }

  // ----- the family of streams ------------------------------------------------

  /** Distinct streams over the same content, at the given positions. */
  ghost predicate Family(streams: seq<EntryStream>, content: seq<Byte>, positions: seq<nat>)
    reads set s | s in streams
  {
    && |streams| == |positions|
    && (forall k :: 0 <= k < |streams| ==>
          streams[k].Valid() && streams[k].source.content == content && streams[k].position == positions[k])
    && (forall k, l :: 0 <= k < l < |streams| ==> streams[k] != streams[l])
  }

  predicate OpFits(op: Op) {
    op.SeekOp? ==> -0x8000_0000_0000_0000 <= op.delta < 0x8000_0000_0000_0000
  }

  /** One operation on one stream of the family. */
  method PlayOne(streams: seq<EntryStream>, k: nat, op: Op, ghost content: seq<Byte>, ghost positions: seq<nat>)
    returns (reply: Reply, next: seq<EntryStream>)
    requires Family(streams, content, positions) && OpFits(op)
    modifies set s | s in streams
    ensures reply == FlatStep(content, positions, k, op).0 && Family(next, content, FlatStep(content, positions, k, op).1)
    ensures forall s :: s in next ==> s in streams || fresh(s)
  {
    hide FlatRead, FlatSeek, EntryStream.Valid;
    next := streams;
    if k >= |streams| {
      return Refused, next;
    }
    var s := streams[k];
    match op
    case ReadOp(size) =>
      var dest := new Byte[size](_ => 0);
      var done, complete := s.Read(dest, size);
      reply := Got(dest[..done], complete);
    case SeekOp(delta, origin) =>
      reply := s.Seek(delta, origin);
    case CloneOp =>
      var clone := s.Clone();
      next := streams + [clone];
      reply := Cloned;
  }

  /** Any sequence of reads, seeks and clones on a stream, in any order over the whole family
      of clones, gets exactly the answers that flat byte sequences would give. */
  method Play(stream: EntryStream, ops: seq<(nat, Op)>) returns (replies: seq<Reply>)
    requires stream.Valid() && forall i :: 0 <= i < |ops| ==> OpFits(ops[i].1)
    modifies stream
    ensures replies == FlatPlay(stream.source.content, [old(stream.position)], ops)
  {
    var streams := [stream];
    ghost var content, positions := stream.source.content, [stream.position];
    ghost var goal := FlatPlay(content, positions, ops);
    NothingPlayed(content, positions, ops);
    hide EntryStream.Valid, FlatStep, FlatPlay;
    replies := [];
    for i := 0 to |ops|
      invariant Family(streams, content, positions)
      invariant forall s :: s in streams ==> s == stream || fresh(s)
      invariant replies + FlatPlay(content, positions, ops[i..]) == goal
    {
      FlatPlayStep(content, positions, ops, i);
      var reply, next := PlayOne(streams, ops[i].0, ops[i].1, content, positions);
      streams, positions := next, FlatStep(content, positions, ops[i].0, ops[i].1).1;
      Assoc(replies, [reply], FlatPlay(content, positions, ops[i + 1..]));
      replies := replies + [reply];
    }
    NothingPlayed(content, positions, ops);
  }

  /** A target that takes some but perhaps not all of the bytes offered to it. */
  class Target {
    var data: seq<Byte>
    const accept: nat -> nat
    var calls: nat

    constructor (accept: nat -> nat)
      ensures data == []
    {
      data, calls := [], 0;
      this.accept := accept;
    }

    method Write(part: seq<Byte>) returns (n: nat)
      requires part != []
      modifies this
      ensures 0 < n <= |part| && data == old(data) + part[..n]
    {
      calls := calls + 1;
      n := 1 + accept(calls) % |part|;
      data := data + part[..n];
    }
  }

  /** CopyTo moves the bytes from the position on, up to the amount or the end of the entry,
      to the target, each once and in order, whatever portions the target takes. */
  method CopyTo(stream: EntryStream, target: Target, amount: nat) returns (read: nat, written: nat, complete: bool)
    requires stream.Valid()
    modifies stream, target
    ensures stream.Valid()
    ensures target.data == old(target.data) + FlatRead(stream.source.content, old(stream.position), amount)
    ensures read == written == |FlatRead(stream.source.content, old(stream.position), amount)|
    ensures stream.position == old(stream.position) + read && complete == (read == amount)
  {
    hide FlatRead;
    read, written := 0, 0;
    var total := 0;
    var buffer := new Byte[COPY_BUFFER](_ => 0);
    ghost var start, content := stream.position, stream.source.content;
    FlatReadEnds(content, start, 0, amount);
    while total < amount
      invariant stream.Valid() && total <= amount && read == written == total && stream.position == start + total
      invariant total == |FlatRead(content, start, total)|
      invariant target.data == old(target.data) + FlatRead(content, start, total)
    {
      var want := Min(COPY_BUFFER, amount - total);
      var n, whole := stream.Read(buffer, want);
      read := read + n;
      Forward(target, buffer, n);
      written := written + n;
      FlatReadJoins(content, start, total, want);
      total := total + n;
      if !whole {
        FlatReadEnds(content, start, total, amount);
        return read, written, false;
      }
    }
    return read, written, true;
  }

  /** Offers the bytes again and again until the target has taken all of them. */
  method Forward(target: Target, buffer: array<Byte>, n: nat)
    requires n <= buffer.Length
    modifies target
    ensures target.data == old(target.data) + buffer[..n]
  {
    var off := 0;
    while off < n
      invariant off <= n
      invariant target.data == old(target.data) + buffer[..off]
    {
      var w := target.Write(buffer[off..n]);
      SliceOfSlice(buffer[..], off, n, 0, w);
      assert buffer[off..n][..w] == buffer[..][off..n][0..w];
      off := off + w;
    }
  }

  lemma FlatReadJoins(content: seq<Byte>, start: nat, total: nat, want: nat)
    requires |FlatRead(content, start, total)| == total
    ensures var n := |FlatRead(content, start + total, want)|;
            && FlatRead(content, start, total) + FlatRead(content, start + total, want) == FlatRead(content, start, total + n)
            && |FlatRead(content, start, total + n)| == total + n
            && (n < want ==> start + total + n >= |content|)
  {
  }
}
