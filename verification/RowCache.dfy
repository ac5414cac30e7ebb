/** The cache of rasterised text rows (patcher/unicode_payload.cpp): 256 slots, a byte budget,
    and rows that must stay where they are while the current frame refers to them. */
module RowCache {
  import opened Sequences

  const SLOTS: nat := 256
  const LARGE_BUDGET: nat := 8 * 1024 * 1024
  const SMALL_BUDGET: nat := 2 * 1024 * 1024
  const MAX_PIXELS: nat := 4 * 1024 * 1024
  const HEADER: nat := 1104
  const STALE: int := -1

  /** A row with hash 0 counts as an empty slot, whatever is in it; shape stands for the text, its length, the font and the
      width; pixels identifies the memory a descriptor points to. */
  datatype Row = Row(hash: nat, stamp: nat, emSize: int, shape: nat, bytes: nat, frame: nat, pixels: nat)

  const EMPTY: Row := Row(0, 0, 0, 0, 0, 0, 0)

  datatype Packet = Packet(hash: nat, emSize: int, shape: nat)

  /** What the shared mapping offers: the pixels of a row, already rasterised. */
  datatype Shared = NotShared | SharedRow(size: nat, pixels: nat)

  /** What rasterising a row comes to. */
  datatype Raster =
    | NoGlyphs
    | Sized(width: nat, height: nat, storage: bool, drawn: bool, own: nat, published: Shared)

  function Accounted(size: nat): (r: nat)
    ensures size + HEADER <= r < size + HEADER + 4096 && r % 4096 == 0 && r > 0
  {
    (size + HEADER + 4095) / 4096 * 4096
  }

  predicate Pinned(row: Row, frame: nat) {
    row.hash != 0 && row.frame == frame
  }

  /** Eviction passes over this row: the frame refers to it, or its hash says it is empty. */
  predicate Kept(row: Row, frame: nat) {
    row.hash == 0 || row.frame == frame
  }

  function Share(row: Row, keptOnly: bool, frame: nat): nat {
    if keptOnly && !Kept(row, frame) then 0 else row.bytes
  }

  /** The bytes of all the rows, or only of those that eviction passes over. */
  function Total(rows: seq<Row>, keptOnly: bool, frame: nat): nat {
    if rows == [] then 0 else Total(rows[..|rows| - 1], keptOnly, frame) + Share(rows[|rows| - 1], keptOnly, frame)
  }

  lemma {:induction false} TotalChanges(rows: seq<Row>, i: nat, row: Row, keptOnly: bool, frame: nat)
    requires i < |rows|
    ensures Total(rows[i := row], keptOnly, frame)
            == Total(rows, keptOnly, frame) - Share(rows[i], keptOnly, frame) + Share(row, keptOnly, frame)
  {
    hide Share;
    var n := |rows| - 1;
    if i < n {
      TotalChanges(rows[..n], i, row, keptOnly, frame);
      assert rows[i := row][..n] == rows[..n][i := row];
    } else {
      assert rows[i := row][..n] == rows[..n];
    }
  }

  lemma {:induction false} KeptAtMostAll(rows: seq<Row>, frame: nat)
    ensures Total(rows, true, frame) <= Total(rows, false, frame)
    ensures (forall i :: 0 <= i < |rows| ==> Kept(rows[i], frame)) ==> Total(rows, true, frame) == Total(rows, false, frame)
  {
    if rows != [] {
      var n := |rows| - 1;
      KeptAtMostAll(rows[..n], frame);
      if forall i :: 0 <= i < |rows| ==> Kept(rows[i], frame) {
        assert forall i :: 0 <= i < n ==> rows[..n][i] == rows[i];
      }
    }
  }

  lemma {:induction false} RowWithinTotal(rows: seq<Row>, i: nat, frame: nat)
    requires i < |rows|
    ensures rows[i].bytes <= Total(rows, false, frame)
  {
    hide Kept;
    var n := |rows| - 1;
    if i < n {
      RowWithinTotal(rows[..n], i, frame);
    }
  }

  // ----- what eviction does ---------------------------------------------------

  /** Some rows are gone, none of them pinned, and nothing else has changed. */
  ghost predicate Thinned(before: seq<Row>, after: seq<Row>, frame: nat) {
    && |before| == |after|
    && forall i :: 0 <= i < |before| ==>
         after[i] == before[i] || (after[i] == EMPTY && before[i].hash != 0 && !Pinned(before[i], frame))
  }

  /** Every row that went was used no later than every row that stayed without being pinned. */
  ghost predicate OldestWent(before: seq<Row>, after: seq<Row>, frame: nat)
    requires |before| == |after|
  {
    forall i, j :: 0 <= i < |before| && 0 <= j < |before| ==>
      before[i].hash != 0 && after[i].hash == 0 && after[j].hash != 0 && !Pinned(after[j], frame) ==>
        before[i].stamp <= before[j].stamp
  }

  ghost predicate AllPinned(rows: seq<Row>, frame: nat) {
    forall i :: 0 <= i < |rows| ==> Pinned(rows[i], frame)
  }

  /** The slot that is used next: the first empty one, or else the one unused for longest. */
  ghost predicate IsVictim(rows: seq<Row>, frame: nat, v: int) {
    if exists i :: 0 <= i < |rows| && rows[i].hash == 0 then
      0 <= v < |rows| && rows[v].hash == 0 && forall i :: 0 <= i < v ==> rows[i].hash != 0
    else if AllPinned(rows, frame) then v == -1
    else 0 <= v < |rows| && IsOldest(rows, frame, v)
  }

  ghost predicate IsOldest(rows: seq<Row>, frame: nat, v: int)
    requires 0 <= v < |rows|
  {
    && rows[v].hash != 0 && rows[v].frame != frame
    && forall i :: 0 <= i < |rows| && rows[i].hash != 0 && rows[i].frame != frame ==> rows[v].stamp <= rows[i].stamp
  }

  // ----- what a request is answered with --------------------------------------

  predicate Matches(row: Row, p: Packet) {
    row.hash == p.hash && row.emSize == p.emSize && row.shape == p.shape
  }

  function Staled(rows: seq<Row>): seq<Row> {
    seq(|rows|, i requires 0 <= i < |rows| => if rows[i].hash == 0 then rows[i] else rows[i].(emSize := STALE))
  }

  /** After new fonts no row is found again: no text is drawn with a negative size. */
  lemma StaledAreNotFound(rows: seq<Row>, p: Packet)
    requires p.hash != 0 && p.emSize >= 0
    ensures forall k :: 0 <= k < |rows| ==> !Matches(Staled(rows)[k], p)
  {
  }

  /** There is room for this many bytes beside the rows of the frame. */
  ghost predicate HasRoom(rows: seq<Row>, frame: nat, budget: nat, bytes: nat) {
    bytes <= MAX_PIXELS && Total(rows, true, frame) + bytes <= budget && !AllPinned(rows, frame)
  }

  function RasterBytes(r: Raster): nat
    requires r.Sized?
  {
    (r.width + 2) * (r.height + 2)
  }

  predicate Drawn(r: Raster) {
    r.Sized? && 0 < r.width <= 4094 && 0 < r.height <= 254 && r.storage && r.drawn
  }

  /** One byte for each pixel and for a border of one pixel; what can be drawn takes 1 MiB at
      most and at least nine bytes. */
  lemma RasterHasBorder(r: Raster)
    requires r.Sized?
    ensures RasterBytes(r) == r.width * r.height + 2 * r.width + 2 * r.height + 4
    ensures Drawn(r) ==> 9 <= RasterBytes(r) <= 1048576
  {
    if Drawn(r) {
      assert (r.width + 2) * (r.height + 2) <= 4096 * (r.height + 2);
      assert (r.width + 2) * (r.height + 2) >= 3 * (r.height + 2);
    }
  }

  /** Evictions do not change how much room there can be. */
  lemma SameRoom(before: seq<Row>, after: seq<Row>, frame: nat, budget: nat, bytes: nat)
    requires Thinned(before, after, frame)
    ensures HasRoom(before, frame, budget, bytes) == HasRoom(after, frame, budget, bytes)
  {
    SamePinning(before, after, frame);
    SameKeptTotal(before, after, frame);
  }

  lemma {:induction false} SameKeptTotal(before: seq<Row>, after: seq<Row>, frame: nat)
    requires Thinned(before, after, frame)
    ensures Total(before, true, frame) == Total(after, true, frame)
  {
    if before != [] {
      SameKeptTotal(before[..|before| - 1], after[..|before| - 1], frame);
    }
  }

  lemma ThinnedTwice(a: seq<Row>, b: seq<Row>, c: seq<Row>, frame: nat)
    requires Thinned(a, b, frame) && Thinned(b, c, frame)
    ensures Thinned(a, c, frame)
  {
  }

  // ----- the cache ------------------------------------------------------------

  /** The slots that must stay as they are, after one more row has been handed out. */
  function Handing(handed: map<nat, nat>, p: Packet, slot: nat, pixels: nat): map<nat, nat> {
    if p.hash == 0 then handed else handed[slot := pixels]
  }

  ghost predicate Extends(before: map<nat, nat>, after: map<nat, nat>) {
    forall s :: s in before ==> s in after && after[s] == before[s]
  }

  class NativeRows {
    const rows: array<Row>
    const enabled: bool
    var rowBytes: nat
    var rowBudget: nat
    var rowFrame: nat
    var clock: nat
    var stale: bool
    /** The slots handed out since the frame counter advanced, and the memory they showed; but
        a row with hash 0 is not kept for the frame. */
    ghost var handed: map<nat, nat>

    ghost predicate RowOk(row: Row)
      reads this
    {
      row.stamp <= clock && row.frame <= rowFrame && (row.hash != 0 ==> row.bytes > 0)
    }

    ghost predicate Accounts()
      reads this, rows
    {
      && rows.Length == SLOTS && rowFrame > 0
      && rowBytes == Total(rows[..], false, rowFrame)
      && (forall i :: 0 <= i < SLOTS ==> RowOk(rows[i]))
    }

    /** No other row has been used since. */
    ghost predicate IsNewest(slot: int)
      reads this, rows
    {
      && 0 <= slot < rows.Length && rows[slot].stamp == clock
      && forall k :: 0 <= k < rows.Length && k != slot ==> rows[k].stamp < clock
    }

    /** Nothing the current frame refers to has been freed or replaced. */
    ghost predicate Stable()
      reads this, rows
    {
      forall s :: s in handed ==> s < rows.Length && Pinned(rows[s], rowFrame) && rows[s].pixels == handed[s]
    }

    ghost predicate Valid()
      reads this, rows
    {
      && Accounts() && Stable()
      && rowBudget in {SMALL_BUDGET, LARGE_BUDGET}
      && (enabled ==> rowBytes <= LARGE_BUDGET)
    }

    constructor (enabled: bool)
      ensures Valid() && fresh(rows) && this.enabled == enabled && handed == map[]
    {
      this.enabled := enabled;
      rows := new Row[SLOTS](_ => EMPTY);
      rowBytes, rowBudget, rowFrame, clock, stale, handed := 0, LARGE_BUDGET, 1, 0, false, map[];
      new;
      NothingYet(rows[..], rowFrame);
    }

    method ReleaseRow(i: nat)
      requires Accounts() && i < SLOTS
      modifies this`rowBytes, rows
      ensures Accounts() && rows[..] == old(rows[..])[i := EMPTY]
      ensures rowBytes == old(rowBytes) - old(rows[i].bytes)
    {
      RowWithinTotal(rows[..], i, rowFrame);
      TotalChanges(rows[..], i, EMPTY, false, rowFrame);
      if rows[i].bytes <= rowBytes {
        rowBytes := rowBytes - rows[i].bytes;
      }
      rows[i] := EMPTY;
      assert rows[..] == old(rows[..])[i := EMPTY];
    }

    method RowVictim() returns (v: int)
      requires rows.Length == SLOTS
      ensures IsVictim(rows[..], rowFrame, v)
    {
      v := -1;
      for i := 0 to SLOTS
        invariant -1 <= v < i
        invariant forall k :: 0 <= k < i ==> rows[k].hash != 0
        invariant v == -1 ==> forall k :: 0 <= k < i ==> rows[k].frame == rowFrame
        invariant v >= 0 ==>
                    && rows[v].frame != rowFrame
                    && forall k :: 0 <= k < i && rows[k].frame != rowFrame ==> rows[v].stamp <= rows[k].stamp
      {
        if rows[i].hash == 0 {
          return i;
        }
        if rows[i].frame != rowFrame && (v < 0 || rows[i].stamp < rows[v].stamp) {
          v := i;
        }
      }
      if v < 0 {
        assert AllPinned(rows[..], rowFrame);
      } else {
        assert !Pinned(rows[..][v], rowFrame);
      }
    }

    /** The row to evict next, if any row may go. */
    method Oldest() returns (v: int)
      requires rows.Length == SLOTS
      ensures -1 <= v < SLOTS
      ensures if v < 0 then forall i :: 0 <= i < SLOTS && rows[i].hash != 0 ==> Pinned(rows[i], rowFrame)
              else IsOldest(rows[..], rowFrame, v)
    {
      v := -1;
      for i := 0 to SLOTS
        invariant -1 <= v < i
        invariant v == -1 ==> forall k :: 0 <= k < i && rows[k].hash != 0 ==> rows[k].frame == rowFrame
        invariant v >= 0 ==>
                    && rows[v].hash != 0 && rows[v].frame != rowFrame
                    && forall k :: 0 <= k < i && rows[k].hash != 0 && rows[k].frame != rowFrame ==> rows[v].stamp <= rows[k].stamp
      {
        if rows[i].hash != 0 && rows[i].frame != rowFrame && (v < 0 || rows[i].stamp < rows[v].stamp) {
          v := i;
        }
      }
    }

    /** Evicts until the bytes fit. It succeeds exactly when they fit beside the rows of the
        current frame and not all the slots are taken by those. */
    method MakeRowRoom(bytes: nat) returns (ok: bool)
      requires Valid()
      modifies this`rowBytes, rows
      ensures Valid() && rowBytes <= old(rowBytes)
      ensures Thinned(old(rows[..]), rows[..], rowFrame) && OldestWent(old(rows[..]), rows[..], rowFrame)
      ensures ok <==> HasRoom(old(rows[..]), rowFrame, rowBudget, bytes)
      ensures ok ==> rowBytes + bytes <= rowBudget && !AllPinned(rows[..], rowFrame)
    {
      hide Total, Kept, OldestWent, Thinned, AllPinned, IsVictim, RowOk, Stable;
      ghost var before := rows[..];
      NothingWent(before, rowFrame);
      if bytes > MAX_PIXELS {
        return false;
      }
      while rowBytes + bytes > rowBudget
        invariant Valid() && rowBytes <= old(rowBytes)
        invariant Thinned(before, rows[..], rowFrame) && OldestWent(before, rows[..], rowFrame)
        decreases rowBytes
      {
        var gone := EvictOldest(before);
        if !gone {
          SameKeptTotal(before, rows[..], rowFrame);
          return false;
        }
      }
      KeptFit(rowFrame);
      var v := RowVictim();
      SamePinning(before, rows[..], rowFrame);
      SameKeptTotal(before, rows[..], rowFrame);
      VictimUnpinned(rows[..], rowFrame, v);
      ok := v >= 0;
    }

    lemma KeptFit(frame: nat)
      requires Valid() && frame == rowFrame
      ensures Total(rows[..], true, frame) <= rowBytes
    {
      KeptAtMostAll(rows[..], frame);
    }

    /** Lets the oldest row go, if any row may. */
    method EvictOldest(ghost before: seq<Row>) returns (gone: bool)
      requires Valid() && Thinned(before, rows[..], rowFrame) && OldestWent(before, rows[..], rowFrame)
      modifies this`rowBytes, rows
      ensures Valid() && Thinned(before, rows[..], rowFrame) && OldestWent(before, rows[..], rowFrame)
      ensures if gone then rowBytes < old(rowBytes) else rowBytes == old(rowBytes) == Total(rows[..], true, rowFrame)
    {
      hide Total, OldestWent, Thinned;
      ghost var current := rows[..];
      var oldest := Oldest();
      if oldest < 0 {
        KeptAtMostAll(current, rowFrame);
        return false;
      }
      ReleaseRow(oldest);
      EvictionGoesOn(before, current, oldest, rowFrame);
      gone := true;
    }

    /** The maintenance entry: 3 ends a frame, 2 reports new fonts, 1 and others set the budget. */
    method Maintain(mode: nat)
      requires Valid()
      modifies this
      ensures Valid() && rows[..] == old(rows[..]) && rowBytes == old(rowBytes)
      ensures rowFrame == old(rowFrame) + (if mode == 3 then 1 else 0)
      ensures handed == if mode == 3 then map[] else old(handed)
      ensures stale == (old(stale) || mode == 2)
      ensures rowBudget == if mode in {2, 3} then old(rowBudget) else if mode == 1 then 2097152 else 8388608
    {
      if mode == 3 {
        AdvanceFrame();
        return;
      }
      if mode == 2 {
        stale := true;
        return;
      }
      if mode == 1 {
        rowBudget := SMALL_BUDGET;
      } else {
        rowBudget := LARGE_BUDGET;
      }
    }

    method AdvanceFrame()
      requires Valid()
      modifies this`rowFrame, this`handed
      ensures Valid() && rowFrame == old(rowFrame) + 1 && handed == map[]
      ensures !AllPinned(rows[..], rowFrame)
    {
      SameTotal(rows[..], rowFrame, rowFrame + 1);
      rowFrame := rowFrame + 1;
      handed := map[];
      assert !Pinned(rows[..][0], rowFrame) by { assert RowOk(rows[0]); }
    }

    /** New fonts: no row may be found again, but none is freed. */
    method DropKeys()
      requires Valid()
      modifies rows, this`stale
      ensures Valid() && rows[..] == Staled(old(rows[..])) && !stale
    {
      ghost var before := rows[..];
      for i := 0 to SLOTS
        invariant rows.Length == SLOTS
        invariant forall k :: 0 <= k < SLOTS ==> rows[k] == if k < i then Staled(before)[k] else before[k]
      {
        if rows[i].hash != 0 {
          rows[i] := rows[i].(emSize := STALE);
        }
      }
      assert rows[..] == Staled(before);
      StalingKeepsTotal(before, rowFrame);
      stale := false;
    }

    method Find(p: Packet) returns (slot: int)
      requires rows.Length == SLOTS
      ensures -1 <= slot < SLOTS
      ensures forall k :: 0 <= k < (if slot < 0 then SLOTS else slot) ==> !Matches(rows[k], p)
      ensures slot >= 0 ==> Matches(rows[slot], p)
    {
      for i := 0 to SLOTS
        invariant forall k :: 0 <= k < i ==> !Matches(rows[k], p)
      {
        if Matches(rows[i], p) {
          return i;
        }
      }
      return -1;
    }

    /** Puts a new row into the next slot. */
    method Insert(p: Packet, bytes: nat, pixels: nat) returns (slot: int)
      requires Valid() && bytes > 0
      requires enabled ==> rowBytes + bytes <= rowBudget
      modifies this`rowBytes, this`clock, this`handed, rows
      ensures Valid() && clock == old(clock) + (if slot < 0 then 0 else 1)
      ensures -1 <= slot < SLOTS && IsVictim(old(rows[..]), rowFrame, slot) && (slot < 0 <==> AllPinned(old(rows[..]), rowFrame))
      ensures rowBytes <= old(rowBytes) + bytes && (slot >= 0 ==> IsNewest(slot))
      ensures if slot < 0 then rows[..] == old(rows[..]) && handed == old(handed)
              else
                && !Pinned(old(rows[slot]), rowFrame) && slot !in old(handed)
                && rows[..] == old(rows[..])[slot := Row(p.hash, clock, p.emSize, p.shape, bytes, rowFrame, pixels)]
                && handed == Handing(old(handed), p, slot, pixels)
    {
      hide Total, AllPinned, IsVictim;
      slot := RowVictim();
      VictimUnpinned(rows[..], rowFrame, slot);
      if slot < 0 {
        return;
      }
      ReleaseRow(slot);
      ghost var cleared := rows[..];
      clock := clock + 1;
      var row := Row(p.hash, clock, p.emSize, p.shape, bytes, rowFrame, pixels);
      TotalChanges(cleared, slot, row, false, rowFrame);
      rows[slot] := row;
      rowBytes := rowBytes + bytes;
      handed := Handing(handed, p, slot, pixels);
      assert rows[..] == cleared[slot := row];
    }

    /** The slot holds the new row of the packet; the rest of the cache is as `base`, thinned. */
    ghost predicate Built(base: seq<Row>, was: map<nat, nat>, p: Packet, slot: int, bytes: nat)
      reads this, rows
    {
      && |base| == rows.Length == SLOTS && 0 <= slot < SLOTS && !Pinned(base[slot], rowFrame)
      && rows[slot] == Row(p.hash, clock, p.emSize, p.shape, bytes, rowFrame, rows[slot].pixels)
      && Thinned(base[slot := rows[slot]], rows[..], rowFrame)
      && slot !in was && handed == Handing(was, p, slot, rows[slot].pixels)
      && (enabled ==> rowBytes <= rowBudget) && IsNewest(slot)
    }

    /** Makes room in a cache from which rows have gone already. */
    method RoomFor(bytes: nat, ghost base: seq<Row>) returns (ok: bool)
      requires Valid() && Thinned(base, rows[..], rowFrame)
      modifies this`rowBytes, rows
      ensures Valid() && Thinned(base, rows[..], rowFrame)
      ensures ok <==> HasRoom(base, rowFrame, rowBudget, bytes)
      ensures ok ==> rowBytes + bytes <= rowBudget
    {
      hide *;
      ghost var before := rows[..];
      SameRoom(base, before, rowFrame, rowBudget, bytes);
      ok := MakeRowRoom(bytes);
      ThinnedTwice(base, before, rows[..], rowFrame);
    }

    /** Puts a new row into a cache from which rows have gone already. */
    method Put(p: Packet, bytes: nat, pixels: nat, ghost base: seq<Row>) returns (slot: int)
      requires Valid() && bytes > 0 && Thinned(base, rows[..], rowFrame)
      requires enabled ==> rowBytes + bytes <= rowBudget
      modifies this`rowBytes, this`clock, this`handed, rows
      ensures Valid() && -1 <= slot < SLOTS && (slot < 0 <==> AllPinned(base, rowFrame))
      ensures if slot < 0 then Thinned(base, rows[..], rowFrame) && handed == old(handed)
              else Built(base, old(handed), p, slot, bytes) && rows[slot].pixels == pixels
    {
      hide Total, AllPinned, IsVictim, Stable, RowOk;
      ghost var room := rows[..];
      SamePinning(base, room, rowFrame);
      slot := Insert(p, bytes, pixels);
      if slot >= 0 {
        ThinnedElsewhere(base, room, rowFrame, slot, rows[slot]);
      }
    }

    /** Makes room and inserts, under the budget. */
    method Admit(p: Packet, bytes: nat, pixels: nat, ghost base: seq<Row>) returns (slot: int)
      requires Valid() && enabled && bytes > 0 && Thinned(base, rows[..], rowFrame)
      modifies this`rowBytes, this`clock, this`handed, rows
      ensures Valid() && -1 <= slot < SLOTS && (slot >= 0 <==> HasRoom(base, rowFrame, rowBudget, bytes))
      ensures if slot < 0 then Thinned(base, rows[..], rowFrame) && handed == old(handed)
              else Built(base, old(handed), p, slot, bytes) && rows[slot].pixels == pixels
      ensures slot >= 0 ==> rows[slot].bytes <= 4194304
    {
      hide *;
      RoomNotPinned(base, rowFrame, rowBudget, bytes);
      var ok := RoomFor(bytes, base);
      if !ok {
        return -1;
      }
      slot := Put(p, bytes, pixels, base);
      BuiltBytes(base, old(handed), p, slot, bytes);
    }

    lemma BuiltBytes(base: seq<Row>, was: map<nat, nat>, p: Packet, slot: int, bytes: nat)
      ensures Built(base, was, p, slot, bytes) ==> 0 <= slot < rows.Length && rows[slot].bytes == bytes
    {
    }

    /** Rasterises the row; room is made before the pixels are allocated. */
    method Rasterise(p: Packet, raster: Raster, ghost base: seq<Row>) returns (slot: int)
      requires Valid() && Thinned(base, rows[..], rowFrame)
      modifies this`rowBytes, this`clock, this`handed, rows
      ensures Valid() && -1 <= slot < SLOTS
      ensures slot >= 0 <==>
                && Drawn(raster)
                && if enabled then HasRoom(base, rowFrame, rowBudget, Accounted(RasterBytes(raster)))
                   else !AllPinned(base, rowFrame)
      ensures if slot < 0 then Thinned(base, rows[..], rowFrame) && handed == old(handed)
              else Built(base, old(handed), p, slot, Accounted(RasterBytes(raster)))
      ensures slot >= 0 && enabled ==> rows[slot].bytes <= 4194304
    {
      hide Total, HasRoom, RasterBytes, AllPinned, Built, Valid, Thinned, Accounted;
      if raster.NoGlyphs? || raster.width == 0 || raster.height == 0 || raster.width > 4094 || raster.height > 254 {
        return -1;
      }
      var bytes := Accounted(RasterBytes(raster));
      RoomNotPinned(base, rowFrame, rowBudget, bytes);
      if enabled {
        var ok := RoomFor(bytes, base);
        if !ok {
          return -1;
        }
      }
      if !raster.storage || !raster.drawn {
        return -1;
      }
      slot := Put(p, bytes, raster.own, base);
      if slot >= 0 && enabled && raster.published.SharedRow? {
        ShowPublished(p, slot, raster.published.pixels, base, old(handed), bytes);
      }
      BuiltBytes(base, old(handed), p, slot, bytes);
    }

    /** The row just built shows the shared copy of its pixels from now on. */
    method ShowPublished(p: Packet, slot: nat, pixels: nat, ghost base: seq<Row>, ghost was: map<nat, nat>, ghost bytes: nat)
      requires Valid() && Built(base, was, p, slot, bytes)
      modifies rows, this`handed
      ensures Valid() && Built(base, was, p, slot, bytes) && rows[slot].pixels == pixels
    {
      hide Total;
      ghost var before := rows[..];
      var row := rows[slot].(pixels := pixels);
      TotalChanges(before, slot, row, false, rowFrame);
      ThinnedElsewhere(base[slot := rows[slot]], before, rowFrame, slot, row);
      rows[slot] := row;
      handed := Handing(handed, p, slot, pixels);
      assert rows[..] == before[slot := row];
      assert base[slot := before[slot]][slot := row] == base[slot := row];
    }

    /** Marks the row as used by this frame. */
    method Touch(p: Packet, slot: nat)
      requires Valid() && slot < SLOTS && Matches(rows[slot], p)
      modifies rows, this`clock, this`handed
      ensures Valid() && clock == old(clock) + 1 && IsNewest(slot)
      ensures rows[..] == old(rows[..])[slot := old(rows[slot]).(stamp := clock, frame := rowFrame)]
      ensures handed == Handing(old(handed), p, slot, rows[slot].pixels) && Extends(old(handed), handed)
    {
      clock := clock + 1;
      TotalChanges(rows[..], slot, rows[slot].(stamp := clock, frame := rowFrame), false, rowFrame);
      rows[slot] := rows[slot].(stamp := clock, frame := rowFrame);
      handed := Handing(handed, p, slot, rows[slot].pixels);
      assert rows[..] == old(rows[..])[slot := old(rows[slot]).(stamp := clock, frame := rowFrame)];
    }

    /** Whether a request first drops the keys of all the rows. */
    predicate Refreshes(available: bool, epochMoved: bool)
      reads this
    {
      enabled && available && (epochMoved || stale)
    }

    /** Finds the row of a packet or builds it. The first one that matches is returned as it
        is. Otherwise a row is built, exactly when the shared or the new pixels fit beside the
        rows of the frame; the rows that went were not in use by the frame. */
    method FindOrCreate(p: Packet, available: bool, epochMoved: bool, shared: Shared, raster: Raster)
      returns (slot: int, built: bool)
      requires Valid()
      modifies this, rows
      ensures Valid() && -1 <= slot < SLOTS && rowBudget == old(rowBudget) && (slot >= 0 ==> IsNewest(slot))
      ensures enabled && available && (epochMoved || old(stale)) && p.hash != 0 && p.emSize >= 0 ==> built == (slot >= 0)
      ensures rowFrame == old(rowFrame) + (if enabled then 0 else 1)
      ensures var was := if enabled then old(handed) else map[];
              handed == (if slot < 0 then was else Handing(was, p, slot, rows[slot].pixels)) && Extends(was, handed)
      ensures slot >= 0 ==> rows[slot].hash == p.hash && rows[slot].emSize == p.emSize && rows[slot].shape == p.shape
      ensures enabled && built ==> slot >= 0 && rows[slot].bytes <= 4194304
      ensures var base := if enabled && available && (epochMoved || old(stale)) then Staled(old(rows[..])) else old(rows[..]);
              if exists k :: 0 <= k < |base| && Matches(base[k], p) then
                && slot >= 0 && !built && Matches(base[slot], p) && (forall k :: 0 <= k < slot ==> !Matches(base[k], p))
                && rows[..] == base[slot := base[slot].(stamp := clock, frame := rowFrame)]
              else
                && built == (slot >= 0)
                && (enabled ==>
                      built == ((shared.SharedRow? && HasRoom(base, rowFrame, rowBudget, Accounted(shared.size)))
                                || (Drawn(raster) && HasRoom(base, rowFrame, rowBudget, Accounted(RasterBytes(raster))))))
                && (!enabled ==> built == Drawn(raster))
                && if built then
                     && Matches(rows[slot], p) && rows[slot].stamp == clock && !Pinned(base[slot], rowFrame)
                     && Thinned(base[slot := rows[slot]], rows[..], rowFrame)
                     && (enabled ==> rowBytes <= rowBudget)
                   else Thinned(base, rows[..], rowFrame)
    {
      hide Total, HasRoom, RasterBytes, AllPinned, RowOk, Built, Thinned, Stable;
      built := false;
      if !enabled {
        AdvanceFrame();
      }
      if Refreshes(available, epochMoved) {
        if p.hash != 0 && p.emSize >= 0 {
          StaledAreNotFound(rows[..], p);
        }
        DropKeys();
      }
      ghost var base := rows[..];
      slot := Find(p);
      if slot >= 0 {
        Touch(p, slot);
        return;
      }
      slot := Build(p, shared, raster, base);
      built := slot >= 0;
      if built {
        BuiltRow(base, if enabled then old(handed) else map[], p, slot);
      }
    }

    lemma BuiltRow(base: seq<Row>, was: map<nat, nat>, p: Packet, slot: int)
      requires exists bytes :: Built(base, was, p, slot, bytes)
      ensures |base| == rows.Length && 0 <= slot < rows.Length
      ensures Matches(rows[slot], p) && rows[slot].stamp == clock && !Pinned(base[slot], rowFrame)
      ensures Thinned(base[slot := rows[slot]], rows[..], rowFrame) && (enabled ==> rowBytes <= rowBudget) && IsNewest(slot)
      ensures handed == Handing(was, p, slot, rows[slot].pixels) && Extends(was, handed)
    {
      hide Thinned;
    }

    /** A new row, with the shared pixels if they fit, or else with its own. */
    method Build(p: Packet, shared: Shared, raster: Raster, ghost base: seq<Row>) returns (slot: int)
      requires Valid() && base == rows[..] && (!enabled ==> !AllPinned(base, rowFrame))
      modifies this`rowBytes, this`clock, this`handed, rows
      ensures Valid() && -1 <= slot < SLOTS
      ensures slot >= 0 <==>
                if enabled then
                  || (shared.SharedRow? && HasRoom(base, rowFrame, rowBudget, Accounted(shared.size)))
                  || (Drawn(raster) && HasRoom(base, rowFrame, rowBudget, Accounted(RasterBytes(raster))))
                else Drawn(raster)
      ensures if slot < 0 then Thinned(base, rows[..], rowFrame) && handed == old(handed)
              else exists bytes :: Built(base, old(handed), p, slot, bytes)
      ensures slot >= 0 && enabled ==> rows[slot].bytes <= 4194304
    {
      hide *;
      NothingWent(base, rowFrame);
      if enabled && shared.SharedRow? {
        slot := Admit(p, Accounted(shared.size), shared.pixels, base);
        if slot >= 0 {
          return;
        }
      }
      slot := Rasterise(p, raster, base);
    }
  }

  // ----- a whole frame --------------------------------------------------------

  datatype Event =
    | Ask(p: Packet, available: bool, epochMoved: bool, shared: Shared, raster: Raster)
    | Notify(mode: nat)

  /** Without a budget every request begins a frame of its own. */
  predicate EndsFrame(e: Event, enabled: bool) {
    match e
    case Ask(_, _, _, _, _) => !enabled
    case Notify(mode) => mode == 3
  }

  /** No frame ends between the two events. */
  ghost predicate SameFrame(events: seq<Event>, i: nat, end: nat, enabled: bool)
    requires end <= |events|
  {
    forall j :: i <= j < end ==> !EndsFrame(events[j], enabled)
  }

  /** Any requests and notices: every descriptor handed out still shows the same memory
      afterwards, in the same slot, unless a frame has ended since or its hash was 0; and the
      cache is within its limit. */
  method DuringFrame(cache: NativeRows, events: seq<Event>) returns (slots: seq<Option<nat>>, ghost shown: seq<nat>)
    requires cache.Valid()
    modifies cache, cache.rows
    ensures cache.Valid() && (cache.enabled ==> cache.rowBytes <= 8388608)
    ensures |slots| == |shown| == |events|
    ensures forall i :: 0 <= i < |events| && events[i].Ask? && events[i].p.hash != 0 && slots[i].Some?
                        && SameFrame(events, i + 1, |events|, cache.enabled) ==>
              var s := slots[i].value;
              s < cache.rows.Length && cache.rows[s].pixels == shown[i] && Pinned(cache.rows[s], cache.rowFrame)
    ensures SameFrame(events, 0, |events|, cache.enabled) ==>
              && cache.rowFrame == old(cache.rowFrame)
              && forall s :: s in old(cache.handed) ==> s in cache.handed && cache.handed[s] == old(cache.handed)[s]
  {
    hide HasRoom, Thinned, Matches, Total, Staled, Drawn, Accounted, RasterBytes, NativeRows.RowOk, NativeRows.IsNewest;
    slots, shown := [], [];
    for i := 0 to |events|
      invariant cache.Valid() && |slots| == |shown| == i
      invariant forall k :: 0 <= k < i && events[k].Ask? && events[k].p.hash != 0 && slots[k].Some?
                            && SameFrame(events, k + 1, i, cache.enabled) ==>
                  slots[k].value in cache.handed && cache.handed[slots[k].value] == shown[k]
      invariant SameFrame(events, 0, i, cache.enabled) ==>
                  cache.rowFrame == old(cache.rowFrame) && Extends(old(cache.handed), cache.handed)
    {
      ghost var before := cache.handed;
      match events[i] {
        case Ask(p, available, epochMoved, shared, raster) =>
          var slot, _ := cache.FindOrCreate(p, available, epochMoved, shared, raster);
          slots := slots + [if slot >= 0 then Some(slot) else None];
          shown := shown + [if slot >= 0 then cache.rows[slot].pixels else 0];
        case Notify(mode) =>
          cache.Maintain(mode);
          slots, shown := slots + [None], shown + [0];
      }
      assert !EndsFrame(events[i], cache.enabled) ==> Extends(before, cache.handed);
    }
  }

  /** A row with hash 0 is replaced by the very next row that is put in, in the same frame. */
  method ZeroHashIsReplaced(cache: NativeRows, p: Packet, bytes: nat, pixels: nat, q: Packet, more: nat, others: nat)
    returns (first: int, second: int)
    requires cache.Valid() && p.hash == 0 && bytes > 0 && more > 0
    requires cache.enabled ==> cache.rowBytes + bytes + more <= cache.rowBudget
    modifies cache, cache.rows
    ensures -1 <= first < cache.rows.Length
    ensures first >= 0 ==> second == first && cache.rowFrame == old(cache.rowFrame) && cache.rows[first].pixels == others
  {
    first := cache.Insert(p, bytes, pixels);
    assert first >= 0 ==> cache.rows[..][first].hash == 0;
    second := cache.Insert(q, more, others);
  }

  lemma RoomNotPinned(rows: seq<Row>, frame: nat, budget: nat, bytes: nat)
    ensures HasRoom(rows, frame, budget, bytes) ==> !AllPinned(rows, frame) && bytes <= 4194304
  {
  }

  lemma ThinnedElsewhere(before: seq<Row>, after: seq<Row>, frame: nat, slot: nat, row: Row)
    requires Thinned(before, after, frame) && slot < |before|
    ensures Thinned(before[slot := row], after[slot := row], frame)
  {
  }

  lemma {:induction false} SameTotal(rows: seq<Row>, frame: nat, next: nat)
    ensures Total(rows, false, frame) == Total(rows, false, next)
  {
    if rows != [] {
      SameTotal(rows[..|rows| - 1], frame, next);
    }
  }

  lemma {:induction false} StalingKeepsTotal(rows: seq<Row>, frame: nat)
    ensures Total(Staled(rows), false, frame) == Total(rows, false, frame)
  {
    if rows != [] {
      StalingKeepsTotal(rows[..|rows| - 1], frame);
      assert Staled(rows)[..|rows| - 1] == Staled(rows[..|rows| - 1]);
    }
  }

  lemma {:induction false} NothingYet(rows: seq<Row>, frame: nat)
    requires forall i :: 0 <= i < |rows| ==> rows[i] == EMPTY
    ensures Total(rows, false, frame) == 0
  {
    if rows != [] {
      NothingYet(rows[..|rows| - 1], frame);
    }
  }

  lemma NothingWent(rows: seq<Row>, frame: nat)
    ensures Thinned(rows, rows, frame) && OldestWent(rows, rows, frame)
  {
  }

  lemma VictimUnpinned(rows: seq<Row>, frame: nat, v: int)
    requires IsVictim(rows, frame, v)
    ensures v < 0 <==> AllPinned(rows, frame)
    ensures v >= 0 ==> v < |rows| && !Pinned(rows[v], frame)
  {
  }

  lemma EvictionGoesOn(before: seq<Row>, current: seq<Row>, v: nat, frame: nat)
    requires v < |current| && Thinned(before, current, frame) && OldestWent(before, current, frame)
    requires IsOldest(current, frame, v)
    ensures Thinned(before, current[v := EMPTY], frame) && OldestWent(before, current[v := EMPTY], frame)
  {
  }

  lemma SamePinning(before: seq<Row>, after: seq<Row>, frame: nat)
    requires Thinned(before, after, frame)
    ensures AllPinned(before, frame) == AllPinned(after, frame)
  {
  }
}
