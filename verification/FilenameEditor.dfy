/** The filename editor of the file dialog (patcher/dialogs/native_ui.cpp): UTF-8 text in a
    fixed buffer, a selection, and undo. */
module FilenameEditor {
  import opened Bytes
  import opened Sequences
  import opened Utf8
  import opened FilenameText
  import opened EditHistory
  import WideText

  const CAPACITY: nat := 65536
  const LONGEST: nat := 65532
  const DOT: Byte := 46
  const SLASH: Byte := 47
  const BACKSLASH: Byte := 92
  const SPACE: Byte := 32

  /** The UTF-8 form of UTF-16 text, or nothing if a surrogate stands alone in it. */
  function EncodeWide(value: seq<nat>): seq<Byte> {
    var points := WideText.FromUtf16(value);
    if Scalars(points) then EncodeAll(points) else []
  }

  predicate HasControls(value: seq<nat>) {
    13 in value || 10 in value || 9 in value
  }

  lemma EncodeWideIsWellFormed(value: seq<nat>)
    ensures WellFormed(EncodeWide(value))
  {
    hide EncodeAll, WideText.FromUtf16;
    WellFormedPoint(0);
    if Scalars(WideText.FromUtf16(value)) {
      WellFormedAll(WideText.FromUtf16(value));
    }
  }

  /** A state the editor can be in: well-formed text that fits, and a selection that splits no
      code point. */
  ghost predicate Sound(s: Snapshot) {
    |s.bytes| <= LONGEST && WellFormed(s.bytes) && Boundary(s.bytes, s.anchor) && Boundary(s.bytes, s.cursor)
  }

  ghost predicate SoundHistory(h: History) {
    && Sound(h.current) && WithinDepth(h)
    && (forall i :: 0 <= i < |h.undo| ==> Sound(h.undo[i])) && (forall i :: 0 <= i < |h.redo| ==> Sound(h.redo[i]))
  }

  /** One undo, or one redo. */
  function Stepped(h: History, backwards: bool): History {
    if backwards then Undone(h) else Redone(h)
  }

  lemma StepIs(h: History, backwards: bool)
    requires SoundHistory(h)
    ensures var source := if backwards then h.undo else h.redo;
            if source == [] then Stepped(h, backwards) == h
            else Stepped(h, backwards).current == source[|source| - 1] && |source[|source| - 1].bytes| <= LONGEST
  {
    hide WellFormed, Boundary;
  }

  lemma HistoryStaysSound(h: History, next: Snapshot)
    requires SoundHistory(h)
    ensures Sound(next) ==> SoundHistory(Edited(h, next)) && SoundHistory(h.(current := next))
    ensures forall backwards :: SoundHistory(Stepped(h, backwards))
  {
    hide Sound;
    DepthIsKept(h, next);
  }

  /** The state after the selection has been replaced. */
  function Replaced(s: Snapshot, bytes: seq<Byte>): Snapshot
    requires s.anchor <= |s.bytes| && s.cursor <= |s.bytes|
  {
    var a, b := Min(s.anchor, s.cursor), Max(s.anchor, s.cursor);
    Snapshot(s.bytes[..a] + bytes + s.bytes[b..], a + |bytes|, a + |bytes|)
  }

  lemma ReplacedIsSound(s: Snapshot, bytes: seq<Byte>)
    requires Sound(s) && WellFormed(bytes)
    ensures s.anchor <= |s.bytes| && s.cursor <= |s.bytes|
    ensures |Replaced(s, bytes).bytes| <= LONGEST ==> Sound(Replaced(s, bytes))
  {
    hide WellFormed;
    Spliced(s.bytes, Min(s.anchor, s.cursor), Max(s.anchor, s.cursor), bytes);
  }

  lemma ReplacedIs(s: Snapshot, bytes: seq<Byte>)
    requires s.anchor <= |s.bytes| && s.cursor <= |s.bytes|
    ensures var a, b, r := Min(s.anchor, s.cursor), Max(s.anchor, s.cursor), Replaced(s, bytes);
            && r.bytes == s.bytes[..a] + bytes + s.bytes[b..] && r.anchor == r.cursor == a + |bytes|
            && |r.bytes| == |s.bytes| - (b - a) + |bytes|
  {
  }

  // ----- parts of a name ------------------------------------------------------

  /** The last position of one of the bytes, or -1. */
  function LastOf(s: seq<Byte>, bytes: set<Byte>): (i: int)
    ensures -1 <= i < |s| && (i >= 0 ==> s[i] in bytes) && forall k :: i < k < |s| ==> s[k] !in bytes
  {
    if s == [] || s[|s| - 1] in bytes then |s| - 1 else LastOf(s[..|s| - 1], bytes)
  }

  /** Where the name starts behind its folder. */
  function BaseOf(s: seq<Byte>): nat {
    LastOf(s, {BACKSLASH, SLASH}) + 1
  }

  /** Where its extension starts, at the dot; a dot at either end of the name does not count. */
  function StemOf(s: seq<Byte>): nat {
    var dot := LastOf(s, {DOT});
    if dot > BaseOf(s) && dot + 1 < |s| then dot else |s|
  }

  /** What the parts are: no folder and no extension is left in the selected part. */
  lemma NameParts(s: seq<Byte>)
    ensures BaseOf(s) <= StemOf(s) <= |s|
    ensures SLASH !in s[BaseOf(s)..] && BACKSLASH !in s[BaseOf(s)..]
    ensures BaseOf(s) > 0 ==> s[BaseOf(s) - 1] in {SLASH, BACKSLASH}
    ensures StemOf(s) < |s| ==> s[StemOf(s)] == DOT && StemOf(s) + 1 < |s| && StemOf(s) > BaseOf(s) && DOT !in s[StemOf(s) + 1..]
    ensures StemOf(s) == |s| ==> forall k :: BaseOf(s) < k < |s| - 1 && s[k] == DOT ==> s[|s| - 1] == DOT
  {
  }

  lemma NamePartsAreBoundaries(s: seq<Byte>)
    requires WellFormed(s)
    ensures Boundary(s, BaseOf(s)) && Boundary(s, StemOf(s)) && Boundary(s, |s|)
    ensures StemOf(s) < |s| ==> Boundary(s, StemOf(s) + 1)
  {
    hide WellFormed, Boundary;
    EndsAreBoundaries(s);
    if BaseOf(s) > 0 {
      AsciiStandsAlone(s, |s|, BaseOf(s) - 1);
    }
    if StemOf(s) < |s| {
      AsciiStandsAlone(s, |s|, StemOf(s));
    }
  }

  predicate Delimits(b: Byte) {
    b == SPACE || b == BACKSLASH || b == SLASH
  }

  /** One code point lies between p and r, or p is the end already. */
  ghost predicate IsBeside(s: seq<Byte>, p: nat, r: nat, left: bool) {
    if left then (if p == 0 then r == 0 else PointBetween(s, r, p))
    else if p == |s| then r == p else PointBetween(s, p, r)
  }

  /** From a position on to the nearest delimiter, or to the end if there is none. */
  ghost predicate SkipsTo(s: seq<Byte>, first: nat, r: nat, left: bool) {
    && Skips(s, first, r, left)
    && (0 < r < |s| ==> s[r] in {32, 47, 92})
  }

  /** No delimiter is left behind on the way. */
  ghost predicate Skips(s: seq<Byte>, first: nat, r: nat, left: bool) {
    && first <= |s| && r <= |s|
    && if left then r <= first && forall i :: r < i <= first && i < |s| ==> s[i] !in {32, 47, 92}
       else first <= r && forall i :: first <= i < r ==> s[i] !in {32, 47, 92}
  }

  /** Only the first byte of a code point can be a delimiter. */
  lemma SkipsPoint(s: seq<Byte>, first: nat, p: nat, r: nat, left: bool)
    requires Skips(s, first, p, left) && p < |s| && !Delimits(s[p]) && IsBeside(s, p, r, left)
    ensures Skips(s, first, r, left)
  {
    hide Encode, Boundary;
    var lo, hi := Min(p, r), Max(p, r);
    if lo < hi {
      var c :| Scalar(c) && s[lo..hi] == Encode(c);
      EncodeShape(c);
      forall i | lo < i < hi ensures !Delimits(s[i]) {
        assert s[i] == Encode(c)[i - lo];
      }
    }
  }

  lemma BesideMoves(s: seq<Byte>, p: nat, r: nat, left: bool)
    requires IsBeside(s, p, r, left) && p <= |s|
    ensures r <= |s| && if left then (r < p || r == p == 0) else (p < r || r == p == |s|)
  {
  }

  lemma Inside(s: seq<Byte>, p: nat)
    requires Boundary(s, p)
    ensures p <= |s|
  {
  }

  lemma BetweenBounds(s: seq<Byte>, p: nat, q: nat)
    requires PointBetween(s, p, q)
    ensures p < q <= |s|
  {
  }

  lemma CurrentIsSound(h: History)
    requires SoundHistory(h)
    ensures Sound(h.current)
  {
  }

  lemma NothingEncoded()
    ensures EncodeWide([]) == [] && !HasControls([])
  {
  }

  lemma Shrinks(s: Snapshot)
    requires s.anchor <= |s.bytes| && s.cursor <= |s.bytes|
    ensures |Replaced(s, []).bytes| <= |s.bytes|
  {
  }

  /** What a character message inserts, after a first half of a pair or none. */
  function Typed(high: nat, unit: nat): seq<nat> {
    if unit < 32 || unit == 127 || WideText.HighHalf(unit) then []
    else if WideText.LowHalf(unit) then (if high == 0 then [] else [high, unit])
    else [unit]
  }

  /** Of a single character message: control characters insert nothing, a first half waits for
      its second half, a second half needs one, and any other unit stands for itself. */
  lemma TypedIsOneCharacter(high: nat, unit: nat)
    requires unit < 65536 && (high == 0 || 0xD800 <= high < 0xDC00)
    ensures Typed(high, unit) ==
            if unit < 32 || unit == 127 || 0xD800 <= unit < 0xDC00 || (0xDC00 <= unit < 0xE000 && high == 0) then []
            else if 0xDC00 <= unit < 0xE000 then [high, unit] else [unit]
    ensures Typed(high, unit) != [] ==> |WideText.FromUtf16(Typed(high, unit))| == 1 && EncodeWide(Typed(high, unit)) != []
  {
    hide EncodeAll, Encode;
    var value := Typed(high, unit);
    if value != [] {
      assert value[..0] == [];
      var c := if |value| == 2 then 0x1_0000 + (high - 0xD800) * 1024 + (unit - 0xDC00) else unit;
      assert WideText.FromUtf16(value) == [] + [c] == [c];
      OnePoint(c);
    }
  }

  lemma OnePoint(c: nat)
    requires Scalar(c)
    ensures Scalars([c]) && EncodeAll([c]) != []
  {
    assert [c][..0] == [];
  }

  predicate Accepts(s: Snapshot, value: seq<nat>)
    requires s.anchor <= |s.bytes| && s.cursor <= |s.bytes|
  {
    (value == [] || EncodeWide(value) != []) && !HasControls(value) && |Replaced(s, EncodeWide(value)).bytes| <= LONGEST
  }

  class Editor {
    const buffer: array<Byte>
    var length: nat
    var anchor: nat
    var cursor: nat
    var undo: seq<Snapshot>
    var redo: seq<Snapshot>
    var highSurrogate: nat

    ghost predicate Shaped()
      reads `length, buffer
    {
      buffer.Length == CAPACITY && length <= LONGEST && buffer[length] == 0
    }

    ghost function Now(): Snapshot
      requires Shaped()
      reads `length, `anchor, `cursor, buffer
    {
      Snapshot(buffer[..length], anchor, cursor)
    }

    ghost function Past(): History
      requires Shaped()
      reads `length, `anchor, `cursor, `undo, `redo, buffer
    {
      History(Now(), undo, redo)
    }

    ghost predicate Valid()
      reads `length, `anchor, `cursor, `undo, `redo, buffer
    {
      Shaped() && SoundHistory(Past())
    }

    constructor ()
      ensures Valid() && fresh(buffer) && Past() == History(Snapshot([], 0, 0), [], [])
    {
      buffer := new Byte[CAPACITY](_ => 0);
      length, anchor, cursor, undo, redo, highSurrogate := 0, 0, 0, [], [], 0;
      new;
      WellFormedPoint(0);
      EndsAreBoundaries([]);
      assert buffer[..0] == [];
    }

    /** A new name; it replaces the history as well. */
    method SetName(name: seq<nat>) returns (ok: bool)
      requires Valid()
      modifies this, buffer
      ensures Valid()
      ensures var bytes := EncodeWide(name);
              && ok == ((name == [] || bytes != []) && |bytes| <= LONGEST)
              && Past() == if ok then History(Snapshot(bytes, |bytes|, |bytes|), [], []) else old(Past())
    {
      hide EncodeWide, WellFormed;
      var bytes := EncodeWide(name);
      if (name != [] && bytes == []) || |bytes| > LONGEST {
        return false;
      }
      EncodeWideIsWellFormed(name);
      EndsAreBoundaries(bytes);
      PutText(bytes);
      anchor, cursor := |bytes|, |bytes|;
      undo, redo := [], [];
      ok := true;
    }

    /** Fills the buffer with a whole text. */
    method PutText(bytes: seq<Byte>)
      requires buffer.Length == CAPACITY && |bytes| <= LONGEST
      modifies this`length, buffer
      ensures Shaped() && buffer[..length] == bytes
    {
      WriteAt(buffer, 0, bytes);
      length := |bytes|;
      assert buffer[..length] == bytes;
      buffer[length] := 0;
    }

    method Remember()
      requires Valid()
      modifies this`undo, this`redo
      ensures Valid() && Past() == Edited(old(Past()), old(Now()))
    {
      HistoryStaysSound(Past(), Now());
      undo := undo + [Snapshot(buffer[..length], anchor, cursor)];
      if |undo| > DEPTH {
        undo := undo[1..];
      }
      redo := [];
      assert undo == Kept(old(undo) + [old(Now())]);
    }

    /** Undo or redo. */
    method Restore(backwards: bool)
      requires Valid()
      modifies this, buffer
      ensures Valid() && Past() == Stepped(old(Past()), backwards)
    {
      hide SoundHistory, Stepped;
      ghost var was := Past();
      HistoryStaysSound(was, Now());
      StepIs(was, backwards);
      var source := if backwards then undo else redo;
      if source == [] {
        return;
      }
      var state := source[|source| - 1];
      PushPop(backwards);
      PutText(state.bytes);
      anchor, cursor := state.anchor, state.cursor;
      assert Now() == state;
    }

    /** Moves between the stacks: the present state goes onto one, the top leaves the other. */
    method PushPop(backwards: bool)
      requires Shaped() && (if backwards then undo else redo) != []
      modifies this`undo, this`redo
      ensures undo == Stepped(old(Past()), backwards).undo && redo == Stepped(old(Past()), backwards).redo
    {
      var left := Snapshot(buffer[..length], anchor, cursor);
      if backwards {
        redo := redo + [left];
        undo := undo[..|undo| - 1];
      } else {
        undo := undo + [left];
        redo := redo[..|redo| - 1];
      }
    }

    /** The start of the code point before a position. */
    method Previous(p: nat) returns (r: nat)
      requires Shaped() && Boundary(buffer[..length], p)
      ensures if p == 0 then r == 0 else PointBetween(buffer[..length], r, p)
    {
      hide WellFormed, PointBetween, Boundary;
      ghost var s := buffer[..length];
      Inside(s, p);
      assert forall i :: 0 <= i < length ==> s[i] == buffer[i];
      if p == 0 {
        return 0;
      }
      ghost var start := PointBefore(s, p);
      BetweenBounds(s, start, p);
      r := p - 1;
      while r > 0 && Continues(buffer[r])
        invariant start <= r < p
      {
        r := r - 1;
      }
    }

    /** The end of the code point behind a position. */
    method Next(p: nat) returns (r: nat)
      requires Shaped() && Boundary(buffer[..length], p)
      ensures if p == length then r == p else PointBetween(buffer[..length], p, r)
    {
      hide WellFormed, PointBetween, Boundary;
      ghost var s := buffer[..length];
      Inside(s, p);
      assert forall i :: 0 <= i < length ==> s[i] == buffer[i];
      r := p;
      if p == length {
        return;
      }
      ghost var end := PointAfter(s, p);
      BetweenBounds(s, p, end);
      r := p + 1;
      while r < length && Continues(buffer[r])
        invariant p < r <= end
      {
        r := r + 1;
      }
    }

    method Move(p: nat, extend: bool)
      requires Valid() && Boundary(buffer[..length], p)
      modifies this`anchor, this`cursor
      ensures Valid() && Past() == old(Past()).(current := old(Now()).(cursor := p, anchor := if extend then old(anchor) else p))
    {
      HistoryStaysSound(Past(), Now().(cursor := p, anchor := if extend then anchor else p));
      cursor := p;
      if !extend {
        anchor := cursor;
      }
    }

    /** Replaces the selection. Text that cannot be encoded, has line breaks or tabs, or would
        make the name too long, is refused, and then nothing changes at all. */
    method Replace(value: seq<nat>, save: bool) returns (done: bool)
      requires Valid()
      modifies this`length, this`anchor, this`cursor, this`undo, this`redo, buffer
      ensures Valid()
      ensures anchor <= length && cursor <= length
      ensures old(anchor) <= old(length) && old(cursor) <= old(length)
      ensures var bytes := EncodeWide(value);
              var next := Replaced(old(Now()), bytes);
              && done == Accepts(old(Now()), value)
              && Past() == if !done then old(Past())
                           else if save then Edited(old(Past()), next) else old(Past()).(current := next)
    {
      hide EncodeWide, WellFormed, SoundHistory, HasControls, Edited, Replaced, Sound;
      var bytes := EncodeWide(value);
      ghost var before, past := Now(), Past();
      EncodeWideIsWellFormed(value);
      CurrentIsSound(Past());
      ReplacedIsSound(before, bytes);
      ReplacedIs(before, bytes);
      if (value != [] && bytes == []) || HasControls(value) {
        return false;
      }
      var count := length - (Max(anchor, cursor) - Min(anchor, cursor)) + |bytes|;
      if count > LONGEST {
        return false;
      }
      HistoryStaysSound(past, Replaced(before, bytes));
      EditedSplits(past, Replaced(before, bytes));
      if save {
        Remember();
      }
      Overwrite(bytes);
      done := true;
    }

    method Overwrite(bytes: seq<Byte>)
      requires Shaped() && anchor <= length && cursor <= length
      requires length - (Max(anchor, cursor) - Min(anchor, cursor)) + |bytes| <= LONGEST
      modifies this`length, this`anchor, this`cursor, buffer
      ensures Shaped() && Now() == Replaced(old(Now()), bytes)
    {
      hide Replaced;
      ReplacedIs(Now(), bytes);
      var a, b := Min(anchor, cursor), Max(anchor, cursor);
      ghost var before := buffer[..length];
      assert before[..a] == buffer[..a] && before[b..] == buffer[b..length];
      Splice(a, b, bytes);
      anchor, cursor := a + |bytes|, a + |bytes|;
    }

    method Select(from: nat, to: nat)
      requires Valid() && Boundary(buffer[..length], from) && Boundary(buffer[..length], to)
      modifies this`anchor, this`cursor
      ensures Valid() && Past() == old(Past()).(current := old(Now()).(anchor := from, cursor := to))
    {
      HistoryStaysSound(Past(), Now().(anchor := from, cursor := to));
      anchor, cursor := from, to;
    }

    /** Selects the name without its folder and its extension, or the extension. */
    method SelectFilename(extension: bool)
      requires Valid()
      modifies this`anchor, this`cursor
      ensures Valid()
      ensures var text := old(buffer[..length]);
              var base, stem := BaseOf(text), StemOf(text);
              Past() == old(Past()).(current :=
                if extension && stem < |text| then Snapshot(text, stem + 1, |text|) else Snapshot(text, base, stem))
    {
      hide BaseOf, StemOf, SoundHistory, Boundary;
      ghost var text := buffer[..length];
      CurrentIsSound(Past());
      NamePartsAreBoundaries(text);
      var start, end := BaseOf(buffer[..length]), StemOf(buffer[..length]);
      if extension && end < length {
        start := end + 1;
        end := length;
      }
      Select(start, end);
    }

    method SelectAll()
      requires Valid()
      modifies this`anchor, this`cursor
      ensures Valid() && Past() == old(Past()).(current := old(Now()).(anchor := 0, cursor := old(length)))
    {
      hide SoundHistory;
      CurrentIsSound(Past());
      EndsAreBoundaries(buffer[..length]);
      Select(0, length);
    }

    /** One step to the left or to the right. */
    method Beside(p: nat, left: bool) returns (r: nat)
      requires Shaped() && Boundary(buffer[..length], p)
      ensures Boundary(buffer[..length], r)
      ensures IsBeside(buffer[..length], p, r, left)
    {
      hide WellFormed;
      if left {
        r := Previous(p);
      } else {
        r := Next(p);
      }
    }

    /** The left and right keys. Without shift a selection collapses to its end; otherwise the
        cursor goes over one code point, or with control to the next delimiter. */
    method Arrow(left: bool, control: bool, shift: bool)
      requires Valid()
      modifies this`anchor, this`cursor
      ensures Valid()
      ensures Past() == old(Past()).(current := old(Now()).(cursor := cursor, anchor := if shift then old(anchor) else cursor))
      ensures var text := old(buffer[..length]);
              && old(anchor) <= |text| && old(cursor) <= |text| && cursor <= |text|
              && if !shift && old(anchor) != old(cursor) then
                   cursor == if left then Min(old(anchor), old(cursor)) else Max(old(anchor), old(cursor))
                 else if !control then IsBeside(text, old(cursor), cursor, left)
                 else exists first :: IsBeside(text, old(cursor), first, left) && SkipsTo(text, first, cursor, left)
    {
      hide SoundHistory, Boundary, WellFormed, PointBetween;
      ghost var text := buffer[..length];
      CurrentIsSound(Past());
      Inside(text, anchor);
      Inside(text, cursor);
      var pos: nat := cursor;
      if !shift && anchor != cursor {
        pos := if left then Min(anchor, cursor) else Max(anchor, cursor);
      } else {
        pos := Beside(pos, left);
        BesideMoves(text, cursor, pos, left);
        if control {
          ghost var first := pos;
          while 0 < pos < length && !Delimits(buffer[pos])
            invariant Boundary(text, pos) && Skips(text, first, pos, left)
            decreases if left then pos else length - pos
            modifies {}
          {
            var from := pos;
            pos := Beside(pos, left);
            BesideMoves(text, from, pos, left);
            SkipsPoint(text, first, from, pos, left);
          }
        }
      }
      Move(pos, shift);
    }

    /** Backspace and delete: the selection, or the code point beside the cursor. Undoing gives
        the bytes and the cursor back; the anchor only if there was a selection. */
    method Erase(back: bool) returns (done: bool)
      requires Valid()
      modifies this`length, this`anchor, this`cursor, this`undo, this`redo, buffer
      ensures Valid() && anchor <= length && cursor <= length
      ensures old(anchor) <= old(length) && old(cursor) <= old(length)
      ensures exists from: nat ::
                && (if old(anchor) != old(cursor) then from == old(anchor)
                    else IsBeside(old(buffer[..length]), old(cursor), from, back))
                && from <= old(length)
                && done == (from != old(cursor))
                && var selected := old(Now()).(anchor := from);
                   Past() == if done then Edited(old(Past()).(current := selected), Replaced(selected, [])) else old(Past())
      ensures done ==> Undone(Past()).current.bytes == old(buffer[..length]) && Undone(Past()).current.cursor == old(cursor)
      ensures done ==> (Undone(Past()).current == old(Now()) <==> old(anchor) != old(cursor))
    {
      hide SoundHistory, Boundary, WellFormed, PointBetween, Replaced, EncodeWide;
      CurrentIsSound(Past());
      Inside(buffer[..length], anchor);
      Inside(buffer[..length], cursor);
      ghost var before := Now();
      if anchor == cursor {
        var from := Beside(cursor, back);
        BesideMoves(buffer[..length], cursor, from, back);
        Select(from, cursor);
      }
      ghost var selected := Now();
      assert selected == before.(anchor := anchor);
      if anchor != cursor {
        NothingEncoded();
        Shrinks(selected);
        done := Replace([], true);
        UndoRevertsEdit(old(Past()).(current := selected), Replaced(selected, []));
      } else {
        done := false;
      }
      ghost var from := selected.anchor;
    }

    lemma InsideNow()
      requires Valid()
      ensures anchor <= length && cursor <= length && WellFormed(buffer[..length])
    {
      hide WellFormed;
      assert Sound(Now());
    }

    /** A character message: control characters are ignored, and the halves of a pair are
        put together. */
    method Type(unit: nat) returns (done: bool)
      requires Valid() && unit < 65536
      modifies this, buffer
      ensures Valid()
      ensures var value := Typed(old(highSurrogate), unit);
              && highSurrogate == (if unit < 32 || unit == 127 || (WideText.LowHalf(unit) && old(highSurrogate) == 0)
                                   then old(highSurrogate)
                                   else if WideText.HighHalf(unit) then unit else 0)
              && (value == [] ==> !done)
              && (value != [] ==> done == Accepts(old(Now()), value))
              && (done ==> Past() == Edited(old(Past()), Replaced(old(Now()), EncodeWide(value))))
              && (!done ==> Past() == old(Past()))
    {
      hide SoundHistory, Sound, Accepts, Edited, Replaced, EncodeWide, HasControls;
      InsideNow();
      done := false;
      if unit < 32 || unit == 127 {
        return;
      }
      if WideText.HighHalf(unit) {
        highSurrogate := unit;
        return;
      }
      var value: seq<nat> := [];
      if WideText.LowHalf(unit) {
        if highSurrogate == 0 {
          return;
        }
        value := [highSurrogate];
      }
      highSurrogate := 0;
      value := value + [unit];
      assert value == Typed(old(highSurrogate), unit);
      done := Replace(value, true);
    }

    /** Moves the tail of the text and writes the new part. */
    method Splice(a: nat, b: nat, bytes: seq<Byte>)
      requires Shaped() && a <= b <= length && length - (b - a) + |bytes| <= LONGEST
      modifies this`length, buffer
      ensures Shaped() && buffer[..length] == old(buffer[..a]) + bytes + old(buffer[b..length])
    {
      ghost var before := buffer[..];
      MoveWithin(buffer, a + |bytes|, b, length - b);
      ghost var moved := buffer[..];
      WriteAt(buffer, a, bytes);
      length := length - (b - a) + |bytes|;
      SplicedBytes(before, moved, buffer[..], a, b, b + (length - a - |bytes|), bytes);
      buffer[length] := 0;
    }
  }

  lemma SplicedBytes(before: seq<Byte>, moved: seq<Byte>, after: seq<Byte>, a: nat, b: nat, end: nat, bytes: seq<Byte>)
    requires a <= b <= end <= |before| && a + |bytes| + (end - b) <= |before|
    requires moved == Patched(before, a + |bytes|, before[b..end]) && after == Patched(moved, a, bytes)
    ensures after[..a + |bytes| + (end - b)] == before[..a] + bytes + before[b..end]
  {
  }

  lemma EditedSplits(h: History, next: Snapshot)
    ensures Edited(h, next) == Edited(h, h.current).(current := next)
  {
  }
}
