/** Shaping a whole UTF-8 string: the letters take their forms, runs are mirrored, and the
    result is written into a buffer of a fixed size (patcher/unicode_payload.cpp). */
module ArabicText {
  import opened Bytes
  import opened Utf8
  import opened ArabicForms
  import opened ArabicJoining
  import opened ArabicOrder

  const LIMIT: nat := 0x1_0000

  predicate HasLetters(points: seq<nat>) {
    exists i :: 0 <= i < |points| && Find(points[i]).Some?
  }

  predicate InText(points: seq<nat>, list: seq<nat>) {
    forall k :: 0 <= k < |list| ==> list[k] < |points|
  }

  function Shapes(points: seq<nat>, list: seq<nat>): (r: seq<nat>)
    requires InText(points, list)
    ensures |r| == |list|
  {
    seq(|list|, k requires 0 <= k < |list| => ShapedAt(points, list[k]))
  }

  lemma ShapedScalar(points: seq<nat>, i: nat)
    requires Scalars(points) && i < |points|
    ensures Scalar(ShapedAt(points, i))
  {
    hide Find, RoleAt;
    Found(points[i]);
  }

  lemma ShapesScalar(points: seq<nat>, list: seq<nat>)
    requires Scalars(points) && InText(points, list)
    ensures Scalars(Shapes(points, list))
  {
    hide Scalar, ShapedAt;
    forall k | 0 <= k < |list| ensures Scalar(Shapes(points, list)[k]) {
      ShapedScalar(points, list[k]);
    }
  }

  /** The shaped text in the order in which it is shown. */
  function Shown(points: seq<nat>, list: seq<nat>): seq<Byte>
    requires Scalars(points) && InText(points, list)
  {
    ShapesScalar(points, list);
    EncodeAll(Shapes(points, list))
  }

  // ----- the size of the output -----------------------------------------------

  /** The bytes that a code point takes after shaping, whatever stands beside it. */
  function Width(c: nat): nat
    requires Scalar(c)
  {
    if Find(c).Some? && c != TATWEEL then 3 else |Encode(c)|
  }

  function Needed(points: seq<nat>): nat
    requires Scalars(points)
  {
    if points == [] then 0 else Needed(points[..|points| - 1]) + Width(points[|points| - 1])
  }

  lemma ShapedWidth(points: seq<nat>, i: nat)
    requires Scalars(points) && i < |points|
    ensures Scalar(ShapedAt(points, i)) && |Encode(ShapedAt(points, i))| == Width(points[i])
  {
    hide Find, Before, After, Joins;
    Found(points[i]);
  }

  function WidthOf(points: seq<nat>, list: seq<nat>): nat
    requires Scalars(points) && InText(points, list)
  {
    if list == [] then 0 else WidthOf(points, list[..|list| - 1]) + Width(points[list[|list| - 1]])
  }

  lemma {:induction false} ShownLength(points: seq<nat>, list: seq<nat>)
    requires Scalars(points) && InText(points, list)
    ensures |Shown(points, list)| == WidthOf(points, list)
  {
    hide ShapedAt, Width, Encode, Scalar;
    if list != [] {
      var n := |list| - 1;
      ShownLength(points, list[..n]);
      ShapedWidth(points, list[n]);
      assert Shapes(points, list)[..n] == Shapes(points, list[..n]);
    }
  }

  lemma {:induction false} WidthOfBoth(points: seq<nat>, a: seq<nat>, b: seq<nat>)
    requires Scalars(points) && InText(points, a) && InText(points, b)
    ensures InText(points, a + b) && WidthOf(points, a + b) == WidthOf(points, a) + WidthOf(points, b)
  {
    hide Width, Scalars;
    if b == [] {
      assert a + b == a;
    } else {
      var n := |b| - 1;
      WidthOfBoth(points, a, b[..n]);
      assert (a + b)[..|a| + n] == a + b[..n];
    }
  }

  lemma {:induction false} WidthOfRange(points: seq<nat>, a: nat, b: nat)
    requires Scalars(points) && a <= b <= |points|
    ensures InText(points, Range(a, b)) && Scalars(points[..a]) && Scalars(points[..b])
    ensures Needed(points[..b]) == Needed(points[..a]) + WidthOf(points, Range(a, b))
  {
    hide Width, Scalar;
    if a < b {
      WidthOfRange(points, a, b - 1);
      assert Range(a, b)[..b - 1 - a] == Range(a, b - 1);
      assert points[..b][..b - 1] == points[..b - 1];
    }
  }

  lemma {:induction false} WidthOfReversed(points: seq<nat>, start: nat, e: nat)
    requires Scalars(points) && start <= e <= |points|
    ensures InText(points, Reversed(points, start, e)) && Scalars(points[..start]) && Scalars(points[..e])
    ensures Needed(points[..e]) == Needed(points[..start]) + WidthOf(points, Reversed(points, start, e))
  {
    hide Width, Scalar, ClusterStart, Range;
    if start < e {
      var c := ClusterStart(points, start, e);
      WidthOfReversed(points, start, c);
      WidthOfRange(points, c, e);
      WidthOfBoth(points, Range(c, e), Reversed(points, start, c));
    }
  }

  lemma {:induction false} WidthOfOrder(points: seq<nat>, from: nat)
    requires Scalars(points) && from <= |points|
    ensures InText(points, Order(points, from)) && Scalars(points[..from])
    ensures Needed(points) == Needed(points[..from]) + WidthOf(points, Order(points, from))
    decreases |points| - from
  {
    hide *;
    OrderStarts(points, from);
    if from == |points| {
      NothingShown(points);
      assert points[..from] == points;
    } else {
      var e := EndOfRun(points, from);
      if e == from {
        WidthOfOrder(points, from + 1);
        WidthOfOne(points, from);
        WidthOfBoth(points, [from], Order(points, from + 1));
      } else {
        WidthOfOrder(points, e);
        WidthOfReversed(points, from, e);
        WidthOfBoth(points, Reversed(points, from, e), Order(points, e));
      }
    }
  }

  lemma OrderStarts(points: seq<nat>, from: nat)
    requires from <= |points|
    ensures if from == |points| then Order(points, from) == []
            else
              var e := EndOfRun(points, from);
              Order(points, from) == if e == from then [from] + Order(points, from + 1) else Reversed(points, from, e) + Order(points, e)
  {
    hide Reversed, EndOfRun;
  }

  lemma NothingShown(points: seq<nat>)
    requires Scalars(points)
    ensures InText(points, []) && WidthOf(points, []) == 0
  {
  }

  lemma WidthOfOne(points: seq<nat>, i: nat)
    requires Scalars(points) && i < |points|
    ensures InText(points, [i]) && Scalars(points[..i]) && Scalars(points[..i + 1])
    ensures Needed(points[..i + 1]) == Needed(points[..i]) + WidthOf(points, [i])
  {
    hide Width, Scalar;
    assert points[..i + 1][..i] == points[..i];
    assert [i][..0] == [];
  }

  /** The output of a text takes exactly as many bytes as its code points do, one by one: the
      context changes forms and order, but never the size. */
  lemma OutputSize(points: seq<nat>)
    requires Scalars(points)
    ensures InText(points, Order(points, 0)) && |Shown(points, Order(points, 0))| == Needed(points)
  {
    hide Width, Scalar, Order, Encode;
    WidthOfOrder(points, 0);
    ShownLength(points, Order(points, 0));
    assert points[..0] == [];
  }

  /** Decoding the output gives back the shaped units in their visual order, all of them. */
  lemma OutputDecodes(points: seq<nat>)
    requires Scalars(points)
    ensures InText(points, Order(points, 0))
    ensures var text := Shown(points, Order(points, 0));
            Complete(text, |points|) && Points(text, |points|) == Shapes(points, Order(points, 0))
  {
    hide Decode, Order, ShapedAt, Needed;
    OutputSize(points);
    var order := Order(points, 0);
    ShapesScalar(points, order);
    DecodeOfEncodeAll(Shapes(points, order), []);
    assert Shown(points, order) + [] == Shown(points, order);
  }

  /** The output tells the text: its code points, turned back into letters, are those of the
      text in visual order, each once, if the text has no presentation forms of its own. */
  lemma OutputTellsTheText(points: seq<nat>, k: nat)
    requires Scalars(points) && k < |points| && forall c :: c in points ==> !PresentationForm(c)
    ensures InText(points, Order(points, 0))
    ensures var text := Shown(points, Order(points, 0));
            Moves(text, |points|) && Unshaped(PointAt(text, k)) == points[Order(points, 0)[k]]
  {
    hide Decode, Order, ShapedAt, Needed, Unshaped, PresentationForm;
    OutputDecodes(points);
    var order := Order(points, 0);
    var text := Shown(points, order);
    assert PointAt(text, k) == Points(text, |points|)[k] == Shapes(points, order)[k];
    ShapingLosesNothing(points, order[k]);
  }

  lemma {:induction false} WellFormedNeeds(points: seq<nat>)
    requires Scalars(points)
    ensures Needed(points) <= 2 * |EncodeAll(points)|
  {
    hide Find;
    if points != [] {
      WellFormedNeeds(points[..|points| - 1]);
      Found(points[|points| - 1]);
    }
  }

  /** Well-formed text always fits into the buffer. */
  lemma WellFormedFits(text: seq<Byte>, n: nat)
    requires WellFormed(text) && Complete(text, n)
    ensures Scalars(Points(text, n)) && Needed(Points(text, n)) <= 2 * |text| + 4
  {
    hide Decode, Needed, Encode, Scalar;
    var points: seq<nat> :| Scalars(points) && text == EncodeAll(points);
    DecodeOfEncodeAll(points, []);
    assert EncodeAll(points) + [] == text;
    EndsOneWay(text, n, |points|);
    WellFormedNeeds(points);
  }

  // ----- malformed text -------------------------------------------------------

  /** A letter and k stray bytes. */
  function Stray(k: nat): seq<Byte> {
    [0xD8, 0xA8] + seq(k, _ => 0x80)
  }

  lemma StrayDecodes(k: nat, i: nat)
    requires i <= k
    ensures Decode(Stray(k)) == Decoded(2, 0x628)
    ensures |Stray(k)| == k + 2 && (i > 0 ==> Decode(Stray(k)[i + 1..]) == Decoded(1, REPLACEMENT))
  {
    if i > 0 {
      assert Stray(k)[i + 1..][0] == 0x80;
    }
  }

  lemma {:induction false} StrayPoints(text: seq<Byte>, k: nat, i: nat)
    requires text == Stray(k) && i <= k
    ensures Moves(text, i + 1) && Offset(text, i + 1) == i + 2 && Points(text, i + 1) == [0x628] + seq(i, _ => REPLACEMENT)
  {
    hide Decode, Stray;
    StrayDecodes(k, i);
    if i == 0 {
      assert text[0..] == text;
      OneMoreStep(text, 0, Decoded(2, 0x628));
      assert [0x628] + seq(i, _ => REPLACEMENT) == [] + [0x628];
    } else {
      StrayPoints(text, k, i - 1);
      OneMoreStep(text, i, Decoded(1, REPLACEMENT));
      assert [0x628] + seq(i, _ => REPLACEMENT) == [0x628] + seq(i - 1, _ => REPLACEMENT) + [REPLACEMENT];
    }
  }

  lemma FindsBeh()
    ensures Find(0x628).Some?
  {
    assert Row(7).codepoint == 0x628;
    FindsRow(0x628, 0, 7);
  }

  lemma {:induction false} StrayNeeds(i: nat)
    ensures Scalars([0x628] + seq(i, _ => REPLACEMENT)) && Needed([0x628] + seq(i, _ => REPLACEMENT)) == 3 * (i + 1)
  {
    hide Find;
    var points := [0x628] + seq(i, _ => REPLACEMENT);
    if i == 0 {
      assert points[..0] == [];
      FindsBeh();
    } else {
      StrayNeeds(i - 1);
      assert points[..i] == [0x628] + seq(i - 1, _ => REPLACEMENT);
    }
  }

  /** Malformed text need not: each stray byte comes to three bytes. A letter and k of them
      fit exactly up to k = 5. */
  lemma StrayBytesOverflow(k: nat)
    ensures var points := Points(Stray(k), k + 1);
            && Complete(Stray(k), k + 1) && Scalars(points) && HasLetters(points)
            && (Needed(points) <= 2 * |Stray(k)| + 4 <==> k <= 5)
  {
    hide Decode, Needed, Find, Row;
    StrayPoints(Stray(k), k, k);
    StrayNeeds(k);
    FindsBeh();
    assert Points(Stray(k), k + 1)[0] == 0x628;
  }
}
