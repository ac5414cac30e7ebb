/** The conversion of UTF-8 text to UTF-16 for the system's text layout, and the way back from
    a visible part of it to a part of the text (patcher/unicode_payload.cpp). */
module WideText {
  import opened Bytes
  import opened Utf8

  predicate HighHalf(u: nat) {
    0xD800 <= u <= 0xDBFF
  }

  predicate LowHalf(u: nat) {
    0xDC00 <= u <= 0xDFFF
  }

  /** One unit, or a surrogate pair. */
  function Units(c: nat): (r: seq<nat>)
    requires c < 0x11_0000
    ensures 1 <= |r| <= 2 && forall i :: 0 <= i < |r| ==> r[i] < 65536
  {
    if c < 0x1_0000 then [c] else [0xD800 + (c - 0x1_0000) / 1024, 0xDC00 + (c - 0x1_0000) % 1024]
  }

  function Utf16(points: seq<nat>): (r: seq<nat>)
    requires Scalars(points)
    ensures |r| >= |points|
  {
    if points == [] then [] else Utf16(points[..|points| - 1]) + Units(points[|points| - 1])
  }

  /** The code points that the units mean, by the rules of section 2.2 of RFC 2781. */
  function FromUtf16(units: seq<nat>): seq<nat> {
    if units == [] then []
    else
      var n := |units| - 1;
      if n > 0 && LowHalf(units[n]) && HighHalf(units[n - 1]) then
        FromUtf16(units[..n - 1]) + [0x1_0000 + (units[n - 1] - 0xD800) * 1024 + (units[n] - 0xDC00)]
      else FromUtf16(units[..n]) + [units[n]]
  }

  lemma NoUnits()
    ensures FromUtf16([]) == []
  {
  }

  lemma FromUtf16Step(front: seq<nat>, c: nat)
    requires Scalar(c)
    ensures FromUtf16(front + Units(c)) == FromUtf16(front) + [c]
  {
    var units := front + Units(c);
    var n := |units| - 1;
    if c < 0x1_0000 {
      assert units[..n] == front && units[n] == c;
    } else {
      assert units[..n - 1] == front && units[n - 1] == Units(c)[0] && units[n] == Units(c)[1];
    }
  }

  /** UTF-16 loses nothing. */
  lemma {:induction false} FromUtf16OfUtf16(points: seq<nat>)
    requires Scalars(points)
    ensures FromUtf16(Utf16(points)) == points
  {
    hide FromUtf16, Units;
    if points == [] {
      NoUnits();
    } else {
      var n := |points| - 1;
      FromUtf16OfUtf16(points[..n]);
      FromUtf16Step(Utf16(points[..n]), points[n]);
    }
  }

  lemma {:induction false} Utf16Starts(points: seq<nat>, k: nat)
    requires Scalars(points) && k <= |points|
    ensures |Utf16(points[..k])| <= |Utf16(points)| && Utf16(points[..k]) == Utf16(points)[..|Utf16(points[..k])|]
  {
    hide Scalar, Units;
    if k == |points| {
      assert points[..k] == points;
    } else {
      var front := points[..|points| - 1];
      Utf16Starts(front, k);
      assert front[..k] == points[..k];
      assert Utf16(points)[..|Utf16(front)|] == Utf16(front);
    }
  }

  /** The units of the first k steps over a text. */
  function Wide(s: seq<Byte>, k: nat): seq<nat>
    requires Scalars(Points(s, k))
  {
    Utf16(Points(s, k))
  }

  lemma WideGrows(s: seq<Byte>, k: nat)
    requires Moves(s, k + 1)
    ensures Scalars(Points(s, k)) && Scalars(Points(s, k + 1)) && Scalar(PointAt(s, k))
    ensures Wide(s, k + 1) == Wide(s, k) + Units(PointAt(s, k))
  {
    hide Units, Decode, Scalar;
    PointsAreScalars(s, k + 1);
    assert Points(s, k + 1)[..k] == Points(s, k);
  }

  lemma WideStarts(s: seq<Byte>, k: nat, n: nat)
    requires Moves(s, n) && k <= n
    ensures Scalars(Points(s, k)) && Scalars(Points(s, n))
    ensures |Wide(s, k)| <= |Wide(s, n)| && Wide(s, k) == Wide(s, n)[..|Wide(s, k)|]
  {
    hide Decode;
    PointsAreScalars(s, n);
    assert Points(s, n)[..k] == Points(s, k);
    Utf16Starts(Points(s, n), k);
  }

  // ----- the conversion -------------------------------------------------------

  lemma NothingRead(s: seq<Byte>)
    ensures Moves(s, 0) && Offset(s, 0) == 0 && Scalars(Points(s, 0)) && Wide(s, 0) == []
  {
  }

  /** The first loop: the number of units, or nothing when the decoder is stuck. */
  method CountUnits(text: seq<Byte>) returns (ok: bool, units: nat, ghost n: nat)
    ensures if ok then Complete(text, n) && Scalars(Points(text, n)) && units == |Wide(text, n)| else Stuck(text, n)
  {
    hide Decode, Units, Scalar, Utf16;
    units, n := 0, 0;
    var offset := 0;
    NothingRead(text);
    while offset < |text|
      invariant Moves(text, n) && offset == Offset(text, n)
      invariant Scalars(Points(text, n)) && units == |Wide(text, n)|
      decreases |text| - offset
    {
      var d := Decode(text[offset..]);
      if d.consumed == 0 {
        return false, 0, n;
      }
      OneMoreStep(text, n, d);
      WideGrows(text, n);
      units := units + if d.codepoint >= 0x1_0000 then 2 else 1;
      UnitsCounted(d.codepoint);
      offset := offset + d.consumed;
      n := n + 1;
    }
    ok := true;
  }

  lemma UnitsCounted(c: nat)
    requires Scalar(c)
    ensures |Units(c)| == if c >= 0x1_0000 then 2 else 1
  {
  }

  method AppendUnits(data: array<Wchar>, length: nat, c: nat) returns (end: nat)
    requires Scalar(c) && length + |Units(c)| <= data.Length
    modifies data
    ensures end == length + |Units(c)| && data[..end] == old(data[..length]) + Units(c)
  {
    if c < 0x1_0000 {
      data[length] := c;
      end := length + 1;
    } else {
      var codepoint := c - 0x1_0000;
      data[length] := 0xD800 + codepoint / 1024;
      data[length + 1] := 0xDC00 + codepoint % 1024;
      end := length + 2;
    }
  }

  lemma StepTaken(s: seq<Byte>, k: nat, n: nat)
    requires Complete(s, n) && Moves(s, k) && Offset(s, k) < |s|
    ensures k < n && Decode(s[Offset(s, k)..]).consumed > 0
  {
    hide Decode;
    EndIsLast(s, n, k);
  }

  /** The second loop writes exactly as many units as the first one counted, and a zero. */
  method FillUnits(text: seq<Byte>, data: array<Wchar>, ghost n: nat) returns (length: nat)
    requires Complete(text, n) && Scalars(Points(text, n)) && |Wide(text, n)| + 1 <= data.Length
    modifies data
    ensures length == |Wide(text, n)| && data[..length] == Wide(text, n) && data[length] == 0
  {
    hide Decode, Scalar, Scalars, Utf16, Wide, Units, Offset, Points, Moves;
    length := 0;
    var offset := 0;
    ghost var k := 0;
    NothingRead(text);
    while offset < |text|
      invariant k <= n && offset == Offset(text, k) && Moves(text, k) && Scalars(Points(text, k))
      invariant length == |Wide(text, k)| <= |Wide(text, n)| && data[..length] == Wide(text, k)
      decreases |text| - offset
    {
      var d := Decode(text[offset..]);
      StepTaken(text, k, n);
      OneMoreStep(text, k, d);
      WideGrows(text, k);
      WideStarts(text, k + 1, n);
      length := AppendUnits(data, length, d.codepoint);
      offset := offset + d.consumed;
      k := k + 1;
    }
    EndsOneWay(text, n, k);
    data[length] := 0;
  }

  /** Converts a text, into the caller's array when it fits there. It fails exactly when the
      decoder is stuck, or when it needs memory and gets none. */
  method ConvertUtf8ToWide(text: seq<Byte>, stack: array<Wchar>, memory: bool)
    returns (ok: bool, data: array<Wchar>, length: nat, ghost n: nat)
    modifies stack
    ensures Complete(text, n) || Stuck(text, n)
    ensures data == stack || fresh(data)
    ensures Complete(text, n) ==> Scalars(Points(text, n))
    ensures ok <==> Complete(text, n) && (memory || |Wide(text, n)| + 1 <= stack.Length)
    ensures ok ==> length < data.Length && data[..length] == Wide(text, n) && data[length] == 0
  {
    hide Decode, Wide;
    data, length := stack, 0;
    var units;
    ok, units, n := CountUnits(text);
    if !ok {
      return;
    }
    if units + 1 > stack.Length {
      if !memory {
        return false, data, 0, n;
      }
      data := new Wchar[units + 1](_ => 0);
    }
    length := FillUnits(text, data, n);
  }

  // ----- the visible part -----------------------------------------------------

  /** The position does not split a surrogate pair. */
  predicate PairBoundary(wide: seq<nat>, v: nat) {
    v <= |wide| && !(0 < v < |wide| && HighHalf(wide[v - 1]) && LowHalf(wide[v]))
  }

  /** The units that are not the second half of a pair. */
  function Leads(units: seq<nat>): nat {
    if units == [] then 0
    else Leads(units[..|units| - 1]) + if LowHalf(units[|units| - 1]) then 0 else 1
  }

  lemma NoLeads()
    ensures Leads([]) == 0
  {
  }

  lemma BoundaryWithin(wide: seq<nat>, v: nat)
    requires PairBoundary(wide, v)
    ensures v <= |wide|
  {
  }

  lemma EndIsBoundary(wide: seq<nat>)
    ensures PairBoundary(wide, |wide|)
  {
  }

  lemma LeadsOfUnits(front: seq<nat>, c: nat)
    requires Scalar(c)
    ensures Leads(front + Units(c)) == Leads(front) + 1
  {
    var units := front + Units(c);
    var n := |units| - 1;
    if c < 0x1_0000 {
      assert units[..n] == front;
    } else {
      assert units[..n][..n - 1] == front && units[..n][n - 1] == Units(c)[0] && units[n] == Units(c)[1];
    }
  }

  lemma {:induction false} LeadsOfUtf16(points: seq<nat>)
    requires Scalars(points)
    ensures Leads(Utf16(points)) == |points|
  {
    hide Leads, Units;
    if points == [] {
      NoLeads();
    } else {
      LeadsOfUtf16(points[..|points| - 1]);
      LeadsOfUnits(Utf16(points[..|points| - 1]), points[|points| - 1]);
    }
  }

  lemma LastUnits(front: seq<nat>, c: nat, v: nat)
    requires Scalar(c) && PairBoundary(front + Units(c), v)
    ensures v == |front + Units(c)| || (v <= |front| && PairBoundary(front, v) && (front + Units(c))[..v] == front[..v])
  {
    var units := front + Units(c);
    if v <= |front| {
      assert forall i :: 0 <= i < |front| ==> units[i] == front[i];
    } else {
      assert units[|front|] == Units(c)[0];
      assert |Units(c)| == 2 ==> units[|front| + 1] == Units(c)[1];
    }
  }

  /** Every position that splits no pair is the end of some code point. */
  lemma {:induction false} BoundaryIsPoint(points: seq<nat>, v: nat) returns (k: nat)
    requires Scalars(points) && PairBoundary(Utf16(points), v)
    ensures k <= |points| && Utf16(points[..k]) == Utf16(points)[..v]
  {
    hide Units, PairBoundary, Scalar;
    BoundaryWithin(Utf16(points), v);
    if v == |Utf16(points)| {
      k := |points|;
      assert points[..k] == points;
    } else {
      var front := points[..|points| - 1];
      LastUnits(Utf16(front), points[|points| - 1], v);
      k := BoundaryIsPoint(front, v);
      assert front[..k] == points[..k];
    }
  }

  /** Every visible part that splits no pair belongs to the first bytes of the text: as many
      code points of it as there are leads, and converting them gives just that part. */
  lemma VisiblePartOfText(text: seq<Byte>, n: nat, v: nat)
    requires Complete(text, n) && Scalars(Points(text, n)) && PairBoundary(Wide(text, n), v)
    ensures var k := Leads(Wide(text, n)[..v]);
            var t := text[..Offset(text, k)];
            k <= n && Complete(t, k) && Scalars(Points(t, k)) && Wide(t, k) == Wide(text, n)[..v]
  {
    hide Decode, Leads, PairBoundary, Utf16;
    var k := BoundaryIsPoint(Points(text, n), v);
    assert Points(text, n)[..k] == Points(text, k);
    LeadsOfUtf16(Points(text, k));
    PrefixIsComplete(text, k);
  }

  lemma {:induction false} StandsStill(s: seq<Byte>, k: nat, m: nat)
    requires k <= m && Decode(s[Offset(s, k)..]).consumed == 0
    ensures Offset(s, m) == Offset(s, k)
  {
    hide Decode;
    if k < m {
      StandsStill(s, k, m - 1);
    }
  }

  method ByteOffsetAfterCodepoints(text: seq<Byte>, count: nat) returns (offset: nat)
    ensures offset == Offset(text, count)
  {
    hide Decode;
    offset := 0;
    var index := 0;
    while index < count && offset < |text|
      invariant index <= count && offset == Offset(text, index)
    {
      var consumed := Decode(text[offset..]).consumed;
      if consumed == 0 {
        StandsStill(text, index, count);
        break;
      }
      offset := offset + consumed;
      index := index + 1;
    }
    if index < count && offset == |text| {
      NothingToDecode();
      assert text[offset..] == [];
      StandsStill(text, index, count);
    }
  }

  /** How many units fit: reach says whether the text up to a position does. Pairs are taken
      whole. */
  method VisibleUnits(wide: seq<nat>, reach: nat -> bool) returns (visible: nat)
    ensures PairBoundary(wide, visible)
    ensures visible == 0 || reach(visible)
    ensures forall v :: 0 < v <= visible && PairBoundary(wide, v) ==> reach(v)
    ensures visible < |wide| ==> exists v :: visible < v <= visible + 2 && PairBoundary(wide, v) && !reach(v)
  {
    visible := 0;
    while visible < |wide|
      invariant PairBoundary(wide, visible) && (visible == 0 || reach(visible))
      invariant forall v :: 0 < v <= visible && PairBoundary(wide, v) ==> reach(v)
    {
      var next := visible + 1;
      if HighHalf(wide[visible]) && next < |wide| && LowHalf(wide[next]) {
        next := next + 1;
        assert !PairBoundary(wide, visible + 1);
      }
      assert PairBoundary(wide, next);
      if !reach(next) {
        return;
      }
      visible := next;
    }
  }

  /** The part of the text that fits into the width, in bytes. */
  method VisibleText(text: seq<Byte>, wide: seq<nat>, tooWide: bool, reach: nat -> bool, ghost n: nat)
    returns (bytes: nat, ghost visible: nat)
    requires Complete(text, n) && Scalars(Points(text, n)) && wide == Wide(text, n)
    ensures PairBoundary(wide, visible) && (!tooWide ==> visible == |wide| && bytes == |text|)
    ensures tooWide ==> forall v :: 0 < v <= visible && PairBoundary(wide, v) ==> reach(v)
    ensures bytes <= |text| && exists k :: Converts(text[..bytes], k, wide[..visible])
  {
    hide Decode, Leads, PairBoundary, Wide;
    var units := |wide|;
    EndIsBoundary(wide);
    if tooWide {
      units := VisibleUnits(wide, reach);
    }
    BoundaryWithin(wide, units);
    visible := units;
    var codepoints := 0;
    NoLeads();
    assert wide[..0] == [];
    for unit := 0 to units
      invariant codepoints == Leads(wide[..unit])
    {
      LeadsNext(wide, unit);
      if !LowHalf(wide[unit]) {
        codepoints := codepoints + 1;
      }
    }
    VisiblePartOfText(text, n, units);
    bytes := ByteOffsetAfterCodepoints(text, codepoints);
    assert Converts(text[..bytes], codepoints, wide[..visible]);
    if !tooWide {
      AllLeads(text, n);
    }
  }

  /** The text is k code points, and these are its units. */
  ghost predicate Converts(text: seq<Byte>, k: nat, wide: seq<nat>) {
    Complete(text, k) && Scalars(Points(text, k)) && Wide(text, k) == wide
  }

  lemma LeadsNext(units: seq<nat>, i: nat)
    requires i < |units|
    ensures Leads(units[..i + 1]) == Leads(units[..i]) + if LowHalf(units[i]) then 0 else 1
  {
    assert units[..i + 1][..i] == units[..i];
  }

  lemma AllLeads(text: seq<Byte>, n: nat)
    requires Complete(text, n) && Scalars(Points(text, n))
    ensures var wide := Wide(text, n); Offset(text, Leads(wide[..|wide|])) == |text|
  {
    hide Decode, Leads;
    var wide := Wide(text, n);
    assert wide[..|wide|] == wide;
    LeadsOfUtf16(Points(text, n));
  }
}
