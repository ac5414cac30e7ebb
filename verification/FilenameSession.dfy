/** Whole sessions of the filename editor: any keys, one after the other. */
module FilenameSession {
  import opened Bytes
  import opened Sequences
  import opened Utf8
  import opened FilenameText
  import opened EditHistory
  import opened FilenameEditor
  import WideText

  // ----- line breaks and tabs -------------------------------------------------

  predicate Breakless(bytes: seq<nat>) {
    forall i :: 0 <= i < |bytes| ==> bytes[i] != 9 && bytes[i] != 10 && bytes[i] != 13
  }

  predicate BreaklessHistory(h: History) {
    && Breakless(h.current.bytes)
    && (forall i :: 0 <= i < |h.undo| ==> Breakless(h.undo[i].bytes))
    && (forall i :: 0 <= i < |h.redo| ==> Breakless(h.redo[i].bytes))
  }

  lemma {:induction false} BreaklessPoints(value: seq<nat>)
    requires Breakless(value)
    ensures Breakless(WideText.FromUtf16(value))
  {
    if value != [] {
      var n := |value| - 1;
      BreaklessPoints(value[..n]);
      if n > 0 {
        BreaklessPoints(value[..n - 1]);
      }
    }
  }

  lemma EncodedAscii(c: nat)
    requires Scalar(c) && c != 9 && c != 10 && c != 13
    ensures Breakless(Encode(c))
  {
  }

  lemma {:induction false} EncodedBreakless(points: seq<nat>)
    requires Scalars(points) && Breakless(points)
    ensures Breakless(EncodeAll(points))
  {
    hide Encode, Scalar;
    if points != [] {
      EncodedBreakless(points[..|points| - 1]);
      EncodedAscii(points[|points| - 1]);
    }
  }

  /** Text without line breaks and tabs is encoded without them. */
  lemma EncodeWideBreakless(value: seq<nat>)
    requires Breakless(value)
    ensures Breakless(EncodeWide(value))
  {
    hide EncodeAll, WideText.FromUtf16;
    BreaklessPoints(value);
    if Scalars(WideText.FromUtf16(value)) {
      EncodedBreakless(WideText.FromUtf16(value));
    }
  }

  lemma WithoutControls(value: seq<nat>)
    ensures HasControls(value) <==> !Breakless(value)
  {
  }

  lemma OnePointAtLeast(points: seq<nat>)
    requires Scalars(points)
    ensures EncodeAll(points) == [] <==> points == []
  {
  }

  lemma SomePoints(value: seq<nat>)
    ensures WideText.FromUtf16(value) == [] <==> value == []
    ensures value == [] ==> Scalars(WideText.FromUtf16(value))
  {
  }

  /** Text is accepted in place of the selection exactly if no half of a pair stands alone in it,
      it has no line break and no tab, and the name does not get longer than 65532 bytes. */
  lemma AcceptsExactly(s: Snapshot, value: seq<nat>)
    requires s.anchor <= |s.bytes| && s.cursor <= |s.bytes|
    ensures var points := WideText.FromUtf16(value);
            Accepts(s, value) <==>
              && Scalars(points) && Breakless(value)
              && |s.bytes| - (Max(s.anchor, s.cursor) - Min(s.anchor, s.cursor)) + |EncodeAll(points)| <= 65532
  {
    hide EncodeAll, Scalars, Replaced, HasControls, Breakless;
    var points := WideText.FromUtf16(value);
    WithoutControls(value);
    SomePoints(value);
    hide WideText.FromUtf16;
    if Scalars(points) {
      OnePointAtLeast(points);
    }
    ReplacedIs(s, EncodeWide(value));
  }

  lemma EditKeepsBreakless(h: History, s: Snapshot, bytes: seq<Byte>)
    requires BreaklessHistory(h) && s.bytes == h.current.bytes && Breakless(bytes)
    requires s.anchor <= |s.bytes| && s.cursor <= |s.bytes|
    ensures BreaklessHistory(Edited(h.(current := s), Replaced(s, bytes)))
  {
  }

  lemma StepKeepsBreakless(h: History, backwards: bool)
    requires BreaklessHistory(h)
    ensures BreaklessHistory(Stepped(h, backwards))
  {
  }

  // ----- any session ----------------------------------------------------------

  datatype Key =
    | Named(name: seq<nat>)
    | Char(unit: nat)
    | Paste(value: seq<nat>)
    | Sideways(left: bool, control: bool, shift: bool)
    | ToEdge(home: bool, shift: bool)
    | Remove(back: bool)
    | Everything
    | NamePart(extension: bool)
    | Revert(backwards: bool)

  lemma Inserting(e: Editor, value: seq<nat>)
    requires e.Valid()
    ensures e.anchor <= e.length && e.cursor <= e.length
    ensures BreaklessHistory(e.Past()) && Accepts(e.Now(), value) ==>
              BreaklessHistory(Edited(e.Past(), Replaced(e.Now(), EncodeWide(value))))
  {
    hide EncodeWide, Edited, Replaced, HasControls, Sound, Breakless;
    e.InsideNow();
    if BreaklessHistory(e.Past()) && Accepts(e.Now(), value) {
      WithoutControls(value);
      EncodeWideBreakless(value);
      EditKeepsBreakless(e.Past(), e.Now(), EncodeWide(value));
    }
  }

  lemma ErasingKeepsBreakless(e: Editor)
    requires e.Valid()
    ensures e.cursor <= e.length
    ensures forall from: nat :: BreaklessHistory(e.Past()) && from <= e.length ==>
              var s := e.Now().(anchor := from); BreaklessHistory(Edited(e.Past().(current := s), Replaced(s, [])))
  {
    hide Edited, Replaced, Sound;
    e.InsideNow();
    forall from: nat | BreaklessHistory(e.Past()) && from <= e.length
      ensures var s := e.Now().(anchor := from); BreaklessHistory(Edited(e.Past().(current := s), Replaced(s, [])))
    {
      EditKeepsBreakless(e.Past(), e.Now().(anchor := from), []);
    }
  }

  method Press(e: Editor, key: Key)
    requires e.Valid() && (key.Char? ==> key.unit < 65536)
    modifies e, e.buffer
    ensures e.Valid()
    ensures old(BreaklessHistory(e.Past())) && (key.Named? ==> Breakless(key.name)) ==> BreaklessHistory(e.Past())
  {
    hide EncodeWide, Sound, Edited, Replaced, HasControls, Breakless, Stepped;
    match key {
      case Named(name) =>
        if Breakless(name) {
          EncodeWideBreakless(name);
        }
        var _ := e.SetName(name);
      case Char(unit) =>
        var value := Typed(e.highSurrogate, unit);
        Inserting(e, value);
        var _ := e.Type(unit);
      case Paste(value) =>
        if value != [] {
          Inserting(e, value);
          var _ := e.Replace(value, true);
        }
      case Sideways(left, control, shift) =>
        e.Arrow(left, control, shift);
      case ToEdge(home, shift) =>
        e.InsideNow();
        EndsAreBoundaries(e.buffer[..e.length]);
        e.Move(if home then 0 else e.length, shift);
      case Remove(back) =>
        ErasingKeepsBreakless(e);
        var _ := e.Erase(back);
      case Everything =>
        e.SelectAll();
      case NamePart(extension) =>
        e.SelectFilename(extension);
      case Revert(backwards) =>
        if BreaklessHistory(e.Past()) {
          StepKeepsBreakless(e.Past(), backwards);
        }
        e.Restore(backwards);
    }
  }

  /** No name that is set from outside has line breaks or tabs in it. */
  predicate BreaklessNames(keys: seq<Key>) {
    forall key :: key in keys && key.Named? ==> Breakless(key.name)
  }

  /** After any keys at all: the text is well-formed and at most 65532 bytes long, anchor and
      cursor split no code point, and at most 32 states are kept. Typing and pasting never
      bring a line break or a tab into the name, nor does undoing. */
  method Session(keys: seq<Key>) returns (e: Editor)
    requires forall key :: key in keys ==> key.Char? ==> key.unit < 65536
    ensures fresh(e) && fresh(e.buffer) && e.Valid()
    ensures WellFormed(e.buffer[..e.length]) && e.length <= 65532 && |e.undo| + |e.redo| <= 32
    ensures Boundary(e.buffer[..e.length], e.anchor) && Boundary(e.buffer[..e.length], e.cursor)
    ensures BreaklessNames(keys) ==> forall i :: 0 <= i < e.length ==> e.buffer[i] != 9 && e.buffer[i] != 10 && e.buffer[i] != 13
  {
    hide WellFormed, Boundary;
    e := new Editor();
    for i := 0 to |keys|
      invariant e.Valid() && fresh(e) && fresh(e.buffer)
      invariant BreaklessNames(keys) ==> BreaklessHistory(e.Past())
    {
      assert keys[i] in keys;
      Press(e, keys[i]);
    }
    assert forall i :: 0 <= i < e.length ==> e.buffer[..e.length][i] == e.buffer[i];
  }
}
