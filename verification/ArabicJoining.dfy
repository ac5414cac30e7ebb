/** Joining: which form every letter of a text takes (patcher/unicode_payload.cpp). The code
    works run by run; the specification looks at the whole text. */
module ArabicJoining {
  import opened Sequences
  import opened ArabicForms

  const NOBODY: nat := 0xFFFF_FFFF

  datatype Role = NotShaped | Isolated | Final | Initial | Medial
  {
    predicate TakesNext() {
      Initial? || Medial?
    }

    predicate TakesPrevious() {
      Final? || Medial?
    }
  }

  // ----- neighbours in the text -----------------------------------------------

  /** The first position after i that no mark stands on, or the length of the text. */
  function After(points: seq<nat>, i: nat): (j: nat)
    requires i < |points|
    ensures i < j <= |points| && (j < |points| ==> !Transparent(points[j]))
    ensures forall k :: i < k < j ==> Transparent(points[k])
    decreases |points| - i
  {
    if i + 1 == |points| || !Transparent(points[i + 1]) then i + 1 else After(points, i + 1)
  }

  /** The last position before i that no mark stands on, or -1. */
  function Before(points: seq<nat>, i: nat): (j: int)
    requires i < |points|
    ensures -1 <= j < i && (j >= 0 ==> !Transparent(points[j]))
    ensures forall k :: j < k < i ==> Transparent(points[k])
  {
    if i == 0 || !Transparent(points[i - 1]) then i - 1 else Before(points, i - 1)
  }

  predicate Joins(left: nat, right: nat) {
    && Find(left).Some? && Find(left).value.JoinsAfter()
    && Find(right).Some? && Find(right).value.JoinsBefore()
  }

  /** The role the branches of the code give to a letter. */
  function RoleOf(form: ArabicForm, joinsPrevious: bool, joinsNext: bool): Role {
    if joinsPrevious && joinsNext && form.medial != 0 then Medial
    else if joinsPrevious && form.final != 0 then Final
    else if joinsNext && form.initial != 0 then Initial
    else Isolated
  }

  function FormOf(form: ArabicForm, role: Role): nat {
    match role
    case Medial => form.medial
    case Final => form.final
    case Initial => form.initial
    case _ => form.isolated
  }

  function RoleAt(points: seq<nat>, i: nat): Role
    requires i < |points|
  {
    var form := Find(points[i]);
    if form.None? then NotShaped
    else
      var p, n := Before(points, i), After(points, i);
      RoleOf(form.value, p >= 0 && Joins(points[p], points[i]), n < |points| && Joins(points[i], points[n]))
  }

  function ShapedAt(points: seq<nat>, i: nat): nat
    requires i < |points|
  {
    var form := Find(points[i]);
    if form.None? then points[i] else FormOf(form.value, RoleAt(points, i))
  }

  lemma Neighbours(points: seq<nat>, i: nat)
    requires i < |points| && !Transparent(points[i]) && After(points, i) < |points|
    ensures Before(points, After(points, i)) == i
  {
  }

  /** Neighbouring letters agree: one takes a form that joins the next if and only if the next
      takes a form that joins it. */
  lemma NeighboursAgree(points: seq<nat>, i: nat)
    requires i < |points| && !Transparent(points[i]) && After(points, i) < |points|
    ensures RoleAt(points, i).TakesNext() <==> RoleAt(points, After(points, i)).TakesPrevious()
    ensures RoleAt(points, i).TakesNext() <==> Joins(points[i], points[After(points, i)])
  {
    hide Find;
    Neighbours(points, i);
    Found(points[i]);
    Found(points[After(points, i)]);
  }

  /** At the ends of the text no letter reaches out. */
  lemma EndsDoNotJoin(points: seq<nat>, i: nat)
    requires i < |points|
    ensures After(points, i) == |points| ==> !RoleAt(points, i).TakesNext()
    ensures Before(points, i) == -1 ==> !RoleAt(points, i).TakesPrevious()
  {
  }

  predicate JoinsOneBefore(points: seq<nat>, i: nat)
    requires i < |points|
  {
    Before(points, i) >= 0 && Joins(points[Before(points, i)], points[i])
  }

  predicate JoinsOneBehind(points: seq<nat>, i: nat)
    requires i < |points|
  {
    After(points, i) < |points| && Joins(points[i], points[After(points, i)])
  }

  /** A letter, other than the stretching line, that has forms of its own. */
  predicate HasForms(c: nat) {
    Find(c).Some? && c != TATWEEL
  }

  /** How far the shaped code point lies behind the isolated form of the letter. */
  function FormNumber(points: seq<nat>, i: nat): int
    requires i < |points| && HasForms(points[i])
  {
    ShapedAt(points, i) - Find(points[i]).value.isolated
  }

  /** The forms of a letter stand in the order isolated, final, initial, medial: the first bit
      of the number says that it joins the letter before it, the second that it joins the one
      behind it. */
  lemma ShapedForm(points: seq<nat>, i: nat)
    requires i < |points| && HasForms(points[i])
    ensures 0 <= FormNumber(points, i) < Find(points[i]).value.Forms() <= 4
    ensures FormNumber(points, i) % 2 == 1 <==> JoinsOneBefore(points, i)
    ensures FormNumber(points, i) / 2 == 1 <==> JoinsOneBehind(points, i)
  {
    hide Find, Before, After;
    Found(points[i]);
  }

  /** Neighbouring letters agree in what is shown: the shaped code point of the first reaches
      out to the second if and only if that of the second reaches back. */
  lemma ShapedNeighboursAgree(points: seq<nat>, i: nat)
    requires i < |points| && HasForms(points[i]) && After(points, i) < |points| && HasForms(points[After(points, i)])
    ensures FormNumber(points, i) / 2 == 1 <==> FormNumber(points, After(points, i)) % 2 == 1
  {
    hide Find, FormNumber;
    Found(points[i]);
    Neighbours(points, i);
    ShapedForm(points, i);
    ShapedForm(points, After(points, i));
  }

  predicate PresentationForm(c: nat) {
    0xFB50 <= c < 0xFC00 || 0xFE80 <= c <= 0xFEF4
  }

  /** The letter of which a code point is a presentation form, if it is one of the table. */
  function Unshaped(c: nat): nat {
    if PresentationForm(c) then Row(RowOfForm(c)).codepoint else c
  }

  /** Shaping loses no letter: the shaped code point tells the code point it was made of, unless
      the text itself contains presentation forms. */
  lemma ShapingLosesNothing(points: seq<nat>, i: nat)
    requires i < |points| && !PresentationForm(points[i])
    ensures Unshaped(ShapedAt(points, i)) == points[i]
  {
    hide Row, RowOfForm, FormNumber, Before, After, Find, IndexOfLetter, IsLetter;
    var c := points[i];
    if HasForms(c) {
      ShapedForm(points, i);
      FindsExactlyLetters(c);
      RowIsItsLetters(IndexOfLetter(c), FormNumber(points, i));
      LetterRow(c);
      FormsLieInTwoBlocks(IndexOfLetter(c));
      assert ShapedAt(points, i) == Row(IndexOfLetter(c)).isolated + FormNumber(points, i) by {
        FormNumberIs(points, i);
      }
    } else {
      Found(c);
    }
  }

  lemma FormNumberIs(points: seq<nat>, i: nat)
    requires i < |points| && HasForms(points[i])
    ensures ShapedAt(points, i) == Find(points[i]).value.isolated + FormNumber(points, i)
  {
  }

  // ----- the code -------------------------------------------------------------

  datatype ShapeUnit = ShapeUnit(codepoint: nat, shaped: nat)

  ghost predicate Holds(units: array<ShapeUnit>, points: seq<nat>)
    reads units
  {
    |points| <= units.Length && forall k :: 0 <= k < |points| ==> units[k].codepoint == points[k]
  }

  /** A maximal stretch of code points that belong to runs. */
  ghost predicate IsRun(points: seq<nat>, start: nat, end: nat) {
    && start < end <= |points| < NOBODY
    && (forall k :: start <= k < end ==> InRun(points[k]))
    && (start == 0 || !InRun(points[start - 1])) && (end == |points| || !InRun(points[end]))
  }

  method PreviousJoinable(units: array<ShapeUnit>, start: nat, index: nat, ghost points: seq<nat>) returns (p: nat)
    requires Holds(units, points) && start <= index < |points| < NOBODY
    ensures p == if Before(points, index) >= start then Before(points, index) else NOBODY
  {
    var i := index;
    while i > start
      invariant start <= i <= index
      invariant forall k :: i <= k < index ==> Transparent(points[k])
    {
      i := i - 1;
      if !Transparent(units[i].codepoint) {
        return i;
      }
    }
    return NOBODY;
  }

  method NextJoinable(units: array<ShapeUnit>, end: nat, index: nat, ghost points: seq<nat>) returns (n: nat)
    requires Holds(units, points) && index < end <= |points| < NOBODY
    ensures n == if After(points, index) < end then After(points, index) else NOBODY
  {
    var i := index + 1;
    while i < end
      invariant index < i <= end
      invariant forall k :: index < k < i ==> Transparent(points[k])
    {
      if !Transparent(units[i].codepoint) {
        return i;
      }
      i := i + 1;
    }
    return NOBODY;
  }

  /** Nobody outside the run joins a letter in it: a neighbour there is no letter. */
  lemma RunIsEnough(points: seq<nat>, start: nat, end: nat, i: nat)
    requires IsRun(points, start, end) && start <= i < end
    ensures 0 <= Before(points, i) < start ==> Find(points[Before(points, i)]).None?
    ensures end <= After(points, i) < |points| ==> Find(points[After(points, i)]).None?
  {
    hide Find;
  }

  method FormAt(units: array<ShapeUnit>, index: nat, ghost points: seq<nat>) returns (form: Option<ArabicForm>)
    requires Holds(units, points) && (index == NOBODY || index < |points|)
    ensures form == if index == NOBODY then None else Find(points[index])
  {
    if index == NOBODY {
      return None;
    }
    form := FindArabicForm(units[index].codepoint);
  }

  /** Shapes the letters of one run. */
  method ShapeArabicSegment(units: array<ShapeUnit>, start: nat, end: nat, ghost points: seq<nat>)
    requires Holds(units, points) && IsRun(points, start, end)
    requires forall k :: start <= k < end ==> units[k].shaped == points[k]
    modifies units
    ensures Holds(units, points)
    ensures forall k :: 0 <= k < units.Length ==>
              units[k].shaped == if start <= k < end then ShapedAt(points, k) else old(units[k].shaped)
  {
    hide Find, After, Before, RoleOf, FormOf;
    for index := start to end
      invariant Holds(units, points)
      invariant forall k :: 0 <= k < units.Length ==>
                  units[k].shaped == if start <= k < index then ShapedAt(points, k) else old(units[k].shaped)
    {
      var current := FindArabicForm(units[index].codepoint);
      if current.Some? {
        var previousIndex := PreviousJoinable(units, start, index, points);
        var nextIndex := NextJoinable(units, end, index, points);
        var previous := FormAt(units, previousIndex, points);
        var next := FormAt(units, nextIndex, points);
        var joinsPrevious := previous.Some? && previous.value.JoinsAfter() && current.value.JoinsBefore();
        var joinsNext := next.Some? && current.value.JoinsAfter() && next.value.JoinsBefore();
        RunIsEnough(points, start, end, index);
        var shaped := Choose(current.value, joinsPrevious, joinsNext);
        units[index] := units[index].(shaped := shaped);
      }
    }
  }

  method Choose(form: ArabicForm, joinsPrevious: bool, joinsNext: bool) returns (shaped: nat)
    ensures shaped == FormOf(form, RoleOf(form, joinsPrevious, joinsNext))
  {
    if joinsPrevious && joinsNext && form.medial != 0 {
      return form.medial;
    } else if joinsPrevious && form.final != 0 {
      return form.final;
    } else if joinsNext && form.initial != 0 {
      return form.initial;
    } else {
      return form.isolated;
    }
  }
}
