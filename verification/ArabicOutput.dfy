/** The shaping of a UTF-8 string as the renderer runs it: count, decode, shape run by run,
    and write the mirrored runs into the output buffer (patcher/unicode_payload.cpp). */
module ArabicOutput {
  import opened Bytes
  import opened Sequences
  import opened Utf8
  import opened ArabicForms
  import opened ArabicJoining
  import opened ArabicOrder
  import opened ArabicText

  // ----- the two decoding passes ----------------------------------------------

  /** The first pass counts and looks for letters; it gives up where the decoder is stuck. */
  method CountPoints(text: seq<Byte>) returns (ok: bool, letters: bool, count: nat)
    ensures if ok then Complete(text, count) && letters == HasLetters(Points(text, count)) else Stuck(text, count)
    ensures count <= |text|
  {
    hide Decode, Find;
    var cursor := 0;
    letters, count := false, 0;
    while cursor < |text|
      invariant Moves(text, count) && cursor == Offset(text, count) && count <= cursor
      invariant letters == HasLetters(Points(text, count))
      decreases |text| - cursor
    {
      var d := Decode(text[cursor..]);
      if d.consumed == 0 {
        return false, letters, count;
      }
      var form := FindArabicForm(d.codepoint);
      OneMoreStep(text, count, d);
      LettersGrow(Points(text, count), d.codepoint);
      if form.Some? {
        letters := true;
      }
      cursor := cursor + d.consumed;
      count := count + 1;
    }
    ok := true;
  }

  lemma LettersGrow(points: seq<nat>, c: nat)
    ensures HasLetters(points + [c]) == (HasLetters(points) || Find(c).Some?)
  {
    hide Find;
    assert (points + [c])[|points|] == c;
    forall i | 0 <= i < |points| ensures (points + [c])[i] == points[i] {
    }
  }

  /** The second pass: every unit starts out unshaped. */
  method ReadUnits(text: seq<Byte>, count: nat) returns (units: array<ShapeUnit>)
    requires Complete(text, count)
    ensures fresh(units) && units.Length == count && Holds(units, Points(text, count))
    ensures forall k :: 0 <= k < count ==> units[k].shaped == PointAt(text, k)
  {
    hide Decode;
    units := new ShapeUnit[count](_ => ShapeUnit(0, 0));
    var cursor := 0;
    for index := 0 to count
      invariant cursor == Offset(text, index)
      invariant forall k :: 0 <= k < index ==> units[k] == ShapeUnit(PointAt(text, k), PointAt(text, k))
    {
      var d := Decode(text[cursor..]);
      units[index] := ShapeUnit(d.codepoint, d.codepoint);
      cursor := cursor + d.consumed;
    }
  }

  // ----- shaping --------------------------------------------------------------

  method FindEnd(units: array<ShapeUnit>, start: nat, ghost points: seq<nat>) returns (end: nat)
    requires Holds(units, points) && |points| == units.Length && start < |points| && InRun(points[start])
    ensures end == EndOfRun(points, start) && start < end
  {
    hide InRun;
    end := start + 1;
    while end < units.Length && InRun(units[end].codepoint)
      invariant start < end <= |points| && forall k :: start <= k < end ==> InRun(points[k])
    {
      end := end + 1;
    }
    EndIs(points, start, end);
  }

  lemma EndIs(points: seq<nat>, start: nat, end: nat)
    requires start <= end <= |points| && forall k :: start <= k < end ==> InRun(points[k])
    requires end < |points| ==> !InRun(points[end])
    ensures end == EndOfRun(points, start)
  {
    hide InRun;
    var e := EndOfRun(points, start);
  }

  method ShapeRuns(units: array<ShapeUnit>, ghost points: seq<nat>)
    requires Holds(units, points) && |points| == units.Length < NOBODY
    requires forall k :: 0 <= k < |points| ==> units[k].shaped == points[k]
    modifies units
    ensures Holds(units, points)
    ensures forall k :: 0 <= k < |points| ==> units[k].shaped == ShapedAt(points, k)
  {
    hide InRun, ShapedAt;
    var segment := 0;
    while segment < units.Length
      invariant segment <= |points| && Holds(units, points) && BetweenRuns(points, segment)
      invariant forall k :: 0 <= k < |points| ==> units[k].shaped == if k < segment then ShapedAt(points, k) else points[k]
    {
      if !InRun(units[segment].codepoint) {
        NoLetter(points, segment);
        segment := segment + 1;
      } else {
        var end := FindEnd(units, segment, points);
        ShapeArabicSegment(units, segment, end, points);
        segment := end;
      }
    }
  }

  lemma NoLetter(points: seq<nat>, i: nat)
    requires i < |points| && !InRun(points[i])
    ensures ShapedAt(points, i) == points[i]
  {
  }

  // ----- writing --------------------------------------------------------------

  /** The first k units of the order have been written. */
  ghost predicate Written(output: array<Byte>, length: nat, points: seq<nat>, order: seq<nat>, k: nat)
    reads output
  {
    && Scalars(points) && InText(points, order) && k <= |order| && length <= output.Length
    && output[..length] == Shown(points, order[..k])
  }

  lemma {:induction false} EncodeAllStarts(points: seq<nat>, k: nat)
    requires Scalars(points) && k <= |points|
    ensures |EncodeAll(points[..k])| <= |EncodeAll(points)|
  {
    hide Encode, Scalar;
    if k < |points| {
      EncodeAllStarts(points[..|points| - 1], k);
      assert points[..|points| - 1][..k] == points[..k];
    } else {
      assert points[..k] == points;
    }
  }

  lemma ShownGrows(points: seq<nat>, order: seq<nat>, k: nat)
    requires Scalars(points) && InText(points, order) && k < |order|
    ensures Scalar(ShapedAt(points, order[k]))
    ensures Shown(points, order[..k + 1]) == Shown(points, order[..k]) + Encode(ShapedAt(points, order[k]))
    ensures |Shown(points, order[..k + 1])| <= |Shown(points, order)|
  {
    hide Encode, Scalar, ShapedAt;
    ShapesScalar(points, order);
    assert Shapes(points, order[..k + 1])[..k] == Shapes(points, order[..k]);
    EncodeAllStarts(Shapes(points, order), k + 1);
    assert Shapes(points, order)[..k + 1] == Shapes(points, order[..k + 1]);
    assert ShapedAt(points, order[k]) == Shapes(points, order)[k];
  }

  ghost predicate Shaped(units: array<ShapeUnit>, points: seq<nat>)
    reads units
  {
    Holds(units, points) && |points| == units.Length && forall k :: 0 <= k < |points| ==> units[k].shaped == ShapedAt(points, k)
  }

  /** Writes one unit. */
  method Emit(output: array<Byte>, length: nat, units: array<ShapeUnit>, unit: nat,
              ghost points: seq<nat>, ghost order: seq<nat>, ghost k: nat) returns (end: nat)
    requires Shaped(units, points) && Written(output, length, points, order, k)
    requires k < |order| && order[k] == unit && |Shown(points, order)| <= output.Length
    modifies output
    ensures Written(output, end, points, order, k + 1)
  {
    hide Encode, ShapedAt, Scalars, Shown, Patched;
    ShownGrows(points, order, k);
    var bytes := Encode(units[unit].shaped);
    PatchAtEnd(output[..], length, bytes);
    WriteAt(output, length, bytes);
    end := length + |bytes|;
  }

  lemma RangeNext(order: seq<nat>, k: nat, a: nat, b: nat, tail: seq<nat>)
    requires k <= |order| && a < b && order[k..] == Range(a, b) + tail
    ensures k < |order| && order[k] == a && order[k + 1..] == Range(a + 1, b) + tail
  {
    assert order[k..][0] == a;
    assert order[k + 1..] == order[k..][1..];
    assert Range(a, b)[1..] == Range(a + 1, b);
  }

  lemma RangeDone(order: seq<nat>, k: nat, a: nat, tail: seq<nat>)
    requires k <= |order| && order[k..] == Range(a, a) + tail
    ensures order[k..] == tail
  {
  }

  /** Writes a cluster: its base, and the marks behind it. */
  method EmitCluster(output: array<Byte>, length: nat, units: array<ShapeUnit>, clusterStart: nat, clusterEnd: nat,
                     ghost points: seq<nat>, ghost order: seq<nat>, ghost k: nat, ghost tail: seq<nat>) returns (end: nat)
    requires Shaped(units, points) && Written(output, length, points, order, k)
    requires |Shown(points, order)| <= output.Length
    requires clusterStart < clusterEnd && order[k..] == Range(clusterStart, clusterEnd) + tail
    modifies output
    ensures k + (clusterEnd - clusterStart) <= |order|
    ensures Written(output, end, points, order, k + (clusterEnd - clusterStart))
    ensures order[k + (clusterEnd - clusterStart)..] == tail
  {
    hide Written, Shown, Range, Shaped;
    Bound(output, length, points, order, k);
    RangeNext(order, k, clusterStart, clusterEnd, tail);
    end := Emit(output, length, units, clusterStart, points, order, k);
    ghost var at := k + 1;
    for mark := clusterStart + 1 to clusterEnd
      invariant at == k + (mark - clusterStart) <= |order| && order[at..] == Range(mark, clusterEnd) + tail
      invariant Written(output, end, points, order, at)
    {
      RangeNext(order, at, mark, clusterEnd, tail);
      end := Emit(output, end, units, mark, points, order, at);
      at := at + 1;
    }
    RangeDone(order, at, clusterEnd, tail);
  }

  lemma Bound(output: array<Byte>, length: nat, points: seq<nat>, order: seq<nat>, k: nat)
    requires Written(output, length, points, order, k)
    ensures k <= |order|
  {
  }

  lemma ReversedNext(points: seq<nat>, start: nat, e: nat, tail: seq<nat>)
    requires start < e <= |points|
    ensures var c := ClusterStart(points, start, e);
            Reversed(points, start, e) + tail == Range(c, e) + (Reversed(points, start, c) + tail)
  {
    hide Range, ClusterStart;
    var c := ClusterStart(points, start, e);
    Assoc(Range(c, e), Reversed(points, start, c), tail);
  }

  lemma ReversedDone(points: seq<nat>, start: nat, tail: seq<nat>)
    requires start <= |points|
    ensures Reversed(points, start, start) + tail == tail
  {
  }

  method FindClusterStart(units: array<ShapeUnit>, index: nat, clusterEnd: nat, ghost points: seq<nat>) returns (clusterStart: nat)
    requires Holds(units, points) && index < clusterEnd <= |points|
    ensures clusterStart == ClusterStart(points, index, clusterEnd)
  {
    hide Transparent, ClusterStart;
    clusterStart := clusterEnd - 1;
    while clusterStart > index && Transparent(units[clusterStart].codepoint)
      invariant index <= clusterStart < clusterEnd
      invariant forall j :: clusterStart < j < clusterEnd ==> Transparent(points[j])
    {
      clusterStart := clusterStart - 1;
    }
    ClusterStartIs(points, index, clusterEnd, clusterStart);
  }

  lemma ShapedHolds(units: array<ShapeUnit>, points: seq<nat>)
    requires Shaped(units, points)
    ensures Holds(units, points) && |points| == units.Length
  {
  }

  /** Writes a run, its clusters from the last to the first. */
  method EmitRun(output: array<Byte>, length: nat, units: array<ShapeUnit>, index: nat, end: nat,
                 ghost points: seq<nat>, ghost order: seq<nat>, ghost tail: seq<nat>) returns (next: nat)
    requires Shaped(units, points) && Written(output, length, points, order, index)
    requires |Shown(points, order)| <= output.Length
    requires index < end <= |points| == |order| && order[index..] == Reversed(points, index, end) + tail
    modifies output
    ensures Written(output, next, points, order, end) && order[end..] == tail
  {
    hide Written, Shown, Range, Reversed, ClusterStart, Shaped, Holds;
    next := length;
    var cursorIndex := end;
    ghost var k := index;
    while cursorIndex > index
      invariant index <= cursorIndex <= end && k == index + (end - cursorIndex)
      invariant order[k..] == Reversed(points, index, cursorIndex) + tail
      invariant Written(output, next, points, order, k)
    {
      var clusterEnd := cursorIndex;
      ShapedHolds(units, points);
      var clusterStart := FindClusterStart(units, index, clusterEnd, points);
      ReversedNext(points, index, cursorIndex, tail);
      next := EmitCluster(output, next, units, clusterStart, clusterEnd, points, order, k,
                          Reversed(points, index, clusterStart) + tail);
      k := k + (clusterEnd - clusterStart);
      cursorIndex := clusterStart;
    }
    ReversedDone(points, index, tail);
  }

  lemma ClusterStartIs(points: seq<nat>, start: nat, e: nat, c: nat)
    requires start <= c < e <= |points| && (c == start || !Transparent(points[c]))
    requires forall k :: c < k < e ==> Transparent(points[k])
    ensures c == ClusterStart(points, start, e)
  {
    hide Transparent;
    var s := ClusterStart(points, start, e);
  }

  lemma OrderNext(points: seq<nat>, from: nat)
    requires from < |points|
    ensures var e := EndOfRun(points, from);
            Order(points, from) == if InRun(points[from]) then Reversed(points, from, e) + Order(points, e)
                                   else [from] + Order(points, from + 1)
    ensures InRun(points[from]) <==> from < EndOfRun(points, from)
  {
    hide InRun, Reversed;
  }

  /** Writes the whole text in its visual order, one byte behind the other. */
  method EmitAll(output: array<Byte>, units: array<ShapeUnit>, ghost points: seq<nat>) returns (length: nat)
    requires Shaped(units, points) && Scalars(points) && Needed(points) <= output.Length
    modifies output
    ensures InText(points, Order(points, 0)) && length == Needed(points) <= output.Length
    ensures output[..length] == Shown(points, Order(points, 0))
  {
    hide Written, Shown, Reversed, Order, InRun, EndOfRun, Scalar, Scalars, Needed;
    ghost var order := Order(points, 0);
    OutputSize(points);
    Nothing(output, points, order);
    length := 0;
    var index := 0;
    while index < units.Length
      invariant index <= |points| && order[index..] == Order(points, index)
      invariant Written(output, length, points, order, index)
    {
      OrderNext(points, index);
      if !InRun(units[index].codepoint) {
        assert order[index] == order[index..][0];
        assert order[index + 1..] == order[index..][1..];
        length := Emit(output, length, units, index, points, order, index);
        index := index + 1;
      } else {
        var end := FindEnd(units, index, points);
        length := EmitRun(output, length, units, index, end, points, order, Order(points, end));
        index := end;
      }
    }
    assert order[..|points|] == order;
    AllWritten(output, length, points, order);
  }

  lemma AllWritten(output: array<Byte>, length: nat, points: seq<nat>, order: seq<nat>)
    requires Written(output, length, points, order, |order|)
    ensures InText(points, order) && length <= output.Length && output[..length] == Shown(points, order)
  {
    assert order[..|order|] == order;
  }

  lemma Nothing(output: array<Byte>, points: seq<nat>, order: seq<nat>)
    requires Scalars(points) && InText(points, order)
    ensures Written(output, 0, points, order, 0)
  {
    assert order[..0] == [];
    assert Shown(points, []) == [];
  }

  // ----- the whole ------------------------------------------------------------

  lemma StepNeeds(s: seq<Byte>)
    requires Decode(s).consumed > 0
    ensures Scalar(Decode(s).codepoint) && Width(Decode(s).codepoint) <= 3 * Decode(s).consumed
  {
    hide Decode, Find, Patterned;
    EncodeOfDecode(s);
  }

  /** No text needs more than three bytes for one of its own. */
  lemma {:induction false} NeededAtMost(text: seq<Byte>, k: nat)
    requires Moves(text, k)
    ensures Scalars(Points(text, k)) && Needed(Points(text, k)) <= 3 * Offset(text, k)
  {
    hide Decode, Width, Scalar;
    PointsAreScalars(text, k);
    if k > 0 {
      NeededAtMost(text, k - 1);
      StepNeeds(text[Offset(text, k - 1)..]);
      assert Points(text, k)[..k - 1] == Points(text, k - 1);
    }
  }

  /** Shapes a text of reasonable length that has letters in it; anything else is left as it
      is. The output is the shaped text in its visual order, exactly. The array stands for the
      buffer and the memory behind it, because nothing stops the writing at the end of the
      buffer; it stays inside exactly if the text does not need more, and well-formed text
      never does. */
  method ShapeArabic(text: seq<Byte>, memory: bool) returns (shaped: bool, output: array<Byte>, length: nat, count: nat)
    ensures shaped ==> 0 < |text| <= 0x1_0000 && memory && Complete(text, count) && HasLetters(Points(text, count))
    ensures !shaped && memory && 0 < |text| <= 0x1_0000 ==>
              Stuck(text, count) || (Complete(text, count) && !HasLetters(Points(text, count)))
    ensures shaped ==>
              && fresh(output) && 2 * |text| + 4 <= output.Length && length <= output.Length
              && var points := Points(text, count);
              && Scalars(points) && InText(points, Order(points, 0))
              && output[..length] == Shown(points, Order(points, 0))
              && length == Needed(points) && (WellFormed(text) ==> length <= 2 * |text| + 4)
  {
    hide Decode, Shown, Order, Scalar, Needed, Complete, Stuck, HasLetters, WellFormed;
    output := new Byte[0];
    shaped, length, count := false, 0, 0;
    if text == [] || |text| > LIMIT {
      return;
    }
    var ok, letters;
    ok, letters, count := CountPoints(text);
    if !ok || !letters || !memory {
      return;
    }
    var units := ReadUnits(text, count);
    output := new Byte[2 * |text| + 4 + |text|](_ => 0);
    ghost var points := Points(text, count);
    TextNeeds(text, count);
    ShapeRuns(units, points);
    length := EmitAll(output, units, points);
    shaped := true;
  }

  lemma TextNeeds(text: seq<Byte>, n: nat)
    requires Complete(text, n)
    ensures Scalars(Points(text, n)) && Needed(Points(text, n)) <= 3 * |text| + 4
    ensures WellFormed(text) ==> Needed(Points(text, n)) <= 2 * |text| + 4
  {
    hide Decode, Needed, WellFormed;
    NeededAtMost(text, n);
    if WellFormed(text) {
      WellFormedFits(text, n);
    }
  }
}
