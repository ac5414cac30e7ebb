/** The joining forms of Arabic letters (patcher/unicode_payload.cpp), and which form a letter
    takes beside its neighbours. */
module ArabicForms {
  import opened Sequences

  /** Presentation forms, 0 where there is none. joining has bit 0 for letters that join the
      one before, and bit 1 for letters that join the one after. */
  datatype ArabicForm = ArabicForm(codepoint: nat, isolated: nat, final: nat, initial: nat, medial: nat, joining: nat)
  {
    predicate JoinsBefore() {
      joining == 1 || joining == 3
    }

    predicate JoinsAfter() {
      joining == 2 || joining == 3
    }

    /** The number of its forms. */
    function Forms(): nat {
      if medial != 0 then 4 else if final != 0 then 2 else 1
    }

    /** A letter that joins on a side has the forms for it, and the forms follow each other. */
    predicate Sound() {
      && 0x80 <= codepoint < 0x800 && !Transparent(codepoint)
      && (JoinsAfter() ==> JoinsBefore() && initial != 0 && medial != 0)
      && (JoinsBefore() <==> final != 0)
      && (codepoint != TATWEEL ==>
            && (JoinsBefore() ==> final == isolated + 1)
            && (if JoinsAfter() then initial == isolated + 2 && medial == isolated + 3 else initial == 0 && medial == 0))
      && Fit(isolated) && (final != 0 ==> Fit(final)) && (initial != 0 ==> Fit(initial)) && (medial != 0 ==> Fit(medial))
    }

    /** All forms take three bytes in UTF-8; only the stretching line is its own form. */
    predicate Fit(form: nat) {
      if codepoint == TATWEEL then form == TATWEEL else 0x800 <= form < 0x1_0000 && !(0xD800 <= form < 0xE000)
    }
  }

  const TATWEEL: nat := 0x640
  const ROWS: nat := 63

  function RowsTo12(i: nat): ArabicForm {
    match i
    case 0 => ArabicForm(0x0621, 0xFE80, 0, 0, 0, 0)
    case 1 => ArabicForm(0x0622, 0xFE81, 0xFE82, 0, 0, 1)
    case 2 => ArabicForm(0x0623, 0xFE83, 0xFE84, 0, 0, 1)
    case 3 => ArabicForm(0x0624, 0xFE85, 0xFE86, 0, 0, 1)
    case 4 => ArabicForm(0x0625, 0xFE87, 0xFE88, 0, 0, 1)
    case 5 => ArabicForm(0x0626, 0xFE89, 0xFE8A, 0xFE8B, 0xFE8C, 3)
    case 6 => ArabicForm(0x0627, 0xFE8D, 0xFE8E, 0, 0, 1)
    case 7 => ArabicForm(0x0628, 0xFE8F, 0xFE90, 0xFE91, 0xFE92, 3)
    case 8 => ArabicForm(0x0629, 0xFE93, 0xFE94, 0, 0, 1)
    case 9 => ArabicForm(0x062A, 0xFE95, 0xFE96, 0xFE97, 0xFE98, 3)
    case 10 => ArabicForm(0x062B, 0xFE99, 0xFE9A, 0xFE9B, 0xFE9C, 3)
    case 11 => ArabicForm(0x062C, 0xFE9D, 0xFE9E, 0xFE9F, 0xFEA0, 3)
    case _ => ArabicForm(0x062D, 0xFEA1, 0xFEA2, 0xFEA3, 0xFEA4, 3)
  }

  function RowsTo25(i: nat): ArabicForm {
    match i
    case 13 => ArabicForm(0x062E, 0xFEA5, 0xFEA6, 0xFEA7, 0xFEA8, 3)
    case 14 => ArabicForm(0x062F, 0xFEA9, 0xFEAA, 0, 0, 1)
    case 15 => ArabicForm(0x0630, 0xFEAB, 0xFEAC, 0, 0, 1)
    case 16 => ArabicForm(0x0631, 0xFEAD, 0xFEAE, 0, 0, 1)
    case 17 => ArabicForm(0x0632, 0xFEAF, 0xFEB0, 0, 0, 1)
    case 18 => ArabicForm(0x0633, 0xFEB1, 0xFEB2, 0xFEB3, 0xFEB4, 3)
    case 19 => ArabicForm(0x0634, 0xFEB5, 0xFEB6, 0xFEB7, 0xFEB8, 3)
    case 20 => ArabicForm(0x0635, 0xFEB9, 0xFEBA, 0xFEBB, 0xFEBC, 3)
    case 21 => ArabicForm(0x0636, 0xFEBD, 0xFEBE, 0xFEBF, 0xFEC0, 3)
    case 22 => ArabicForm(0x0637, 0xFEC1, 0xFEC2, 0xFEC3, 0xFEC4, 3)
    case 23 => ArabicForm(0x0638, 0xFEC5, 0xFEC6, 0xFEC7, 0xFEC8, 3)
    case 24 => ArabicForm(0x0639, 0xFEC9, 0xFECA, 0xFECB, 0xFECC, 3)
    case _ => ArabicForm(0x063A, 0xFECD, 0xFECE, 0xFECF, 0xFED0, 3)
  }

  function RowsTo38(i: nat): ArabicForm {
    match i
    case 26 => ArabicForm(0x0640, 0x0640, 0x0640, 0x0640, 0x0640, 3)
    case 27 => ArabicForm(0x0641, 0xFED1, 0xFED2, 0xFED3, 0xFED4, 3)
    case 28 => ArabicForm(0x0642, 0xFED5, 0xFED6, 0xFED7, 0xFED8, 3)
    case 29 => ArabicForm(0x0643, 0xFED9, 0xFEDA, 0xFEDB, 0xFEDC, 3)
    case 30 => ArabicForm(0x0644, 0xFEDD, 0xFEDE, 0xFEDF, 0xFEE0, 3)
    case 31 => ArabicForm(0x0645, 0xFEE1, 0xFEE2, 0xFEE3, 0xFEE4, 3)
    case 32 => ArabicForm(0x0646, 0xFEE5, 0xFEE6, 0xFEE7, 0xFEE8, 3)
    case 33 => ArabicForm(0x0647, 0xFEE9, 0xFEEA, 0xFEEB, 0xFEEC, 3)
    case 34 => ArabicForm(0x0648, 0xFEED, 0xFEEE, 0, 0, 1)
    case 35 => ArabicForm(0x0649, 0xFEEF, 0xFEF0, 0, 0, 1)
    case 36 => ArabicForm(0x064A, 0xFEF1, 0xFEF2, 0xFEF3, 0xFEF4, 3)
    case 37 => ArabicForm(0x0671, 0xFB50, 0xFB51, 0, 0, 1)
    case _ => ArabicForm(0x0679, 0xFB66, 0xFB67, 0xFB68, 0xFB69, 3)
  }

  function RowsTo51(i: nat): ArabicForm {
    match i
    case 39 => ArabicForm(0x067A, 0xFB5E, 0xFB5F, 0xFB60, 0xFB61, 3)
    case 40 => ArabicForm(0x067B, 0xFB52, 0xFB53, 0xFB54, 0xFB55, 3)
    case 41 => ArabicForm(0x067E, 0xFB56, 0xFB57, 0xFB58, 0xFB59, 3)
    case 42 => ArabicForm(0x0686, 0xFB7A, 0xFB7B, 0xFB7C, 0xFB7D, 3)
    case 43 => ArabicForm(0x0688, 0xFB88, 0xFB89, 0, 0, 1)
    case 44 => ArabicForm(0x0691, 0xFB8C, 0xFB8D, 0, 0, 1)
    case 45 => ArabicForm(0x0698, 0xFB8A, 0xFB8B, 0, 0, 1)
    case 46 => ArabicForm(0x06A4, 0xFB6A, 0xFB6B, 0xFB6C, 0xFB6D, 3)
    case 47 => ArabicForm(0x06A9, 0xFB8E, 0xFB8F, 0xFB90, 0xFB91, 3)
    case 48 => ArabicForm(0x06AF, 0xFB92, 0xFB93, 0xFB94, 0xFB95, 3)
    case 49 => ArabicForm(0x06BA, 0xFB9E, 0xFB9F, 0, 0, 1)
    case 50 => ArabicForm(0x06BE, 0xFBAA, 0xFBAB, 0xFBAC, 0xFBAD, 3)
    case _ => ArabicForm(0x06C0, 0xFBA4, 0xFBA5, 0, 0, 1)
  }

  function RowsTo62(i: nat): ArabicForm {
    match i
    case 52 => ArabicForm(0x06C1, 0xFBA6, 0xFBA7, 0xFBA8, 0xFBA9, 3)
    case 53 => ArabicForm(0x06C5, 0xFBE0, 0xFBE1, 0, 0, 1)
    case 54 => ArabicForm(0x06C6, 0xFBD9, 0xFBDA, 0, 0, 1)
    case 55 => ArabicForm(0x06C7, 0xFBD7, 0xFBD8, 0, 0, 1)
    case 56 => ArabicForm(0x06C8, 0xFBDB, 0xFBDC, 0, 0, 1)
    case 57 => ArabicForm(0x06C9, 0xFBE2, 0xFBE3, 0, 0, 1)
    case 58 => ArabicForm(0x06CB, 0xFBDE, 0xFBDF, 0, 0, 1)
    case 59 => ArabicForm(0x06CC, 0xFBFC, 0xFBFD, 0xFBFE, 0xFBFF, 3)
    case 60 => ArabicForm(0x06D0, 0xFBE4, 0xFBE5, 0xFBE6, 0xFBE7, 3)
    case 61 => ArabicForm(0x06D2, 0xFBAE, 0xFBAF, 0, 0, 1)
    case _ => ArabicForm(0x06D3, 0xFBB0, 0xFBB1, 0, 0, 1)
  }

  /** The rows of the table. */
  function Row(i: nat): ArabicForm
    requires i < ROWS
  {
    if i < 13 then RowsTo12(i) else if i < 26 then RowsTo25(i) else if i < 39 then RowsTo38(i)
    else if i < 52 then RowsTo51(i) else RowsTo62(i)
  }

  /** Marks, which stand on the letter before them, and the joiner. */
  predicate Transparent(c: nat) {
    0x610 <= c <= 0x61A || 0x64B <= c <= 0x65F || c == 0x670 || 0x6D6 <= c <= 0x6ED || c == 0x200D
  }

  function FindFrom(c: nat, i: nat): Option<ArabicForm>
    requires i <= ROWS
    decreases ROWS - i
  {
    if i == ROWS then None else if Row(i).codepoint == c then Some(Row(i)) else FindFrom(c, i + 1)
  }

  function Find(c: nat): Option<ArabicForm> {
    FindFrom(c, 0)
  }

  method FindArabicForm(c: nat) returns (form: Option<ArabicForm>)
    ensures form == Find(c)
  {
    hide Row;
    for index := 0 to ROWS
      invariant Find(c) == FindFrom(c, index)
    {
      if Row(index).codepoint == c {
        return Some(Row(index));
      }
    }
    return None;
  }

  lemma RowsTo12Sound(i: nat)
    ensures RowsTo12(i).Sound()
  {
  }

  lemma RowsTo25Sound(i: nat)
    ensures RowsTo25(i).Sound()
  {
  }

  lemma RowsTo38Sound(i: nat)
    ensures RowsTo38(i).Sound()
  {
  }

  lemma RowsTo51Sound(i: nat)
    ensures RowsTo51(i).Sound()
  {
  }

  lemma RowsTo62Sound(i: nat)
    ensures RowsTo62(i).Sound()
  {
  }

  lemma RowSound(i: nat)
    requires i < ROWS
    ensures Row(i).Sound()
  {
    hide RowsTo12, RowsTo25, RowsTo38, RowsTo51, RowsTo62, ArabicForm.Sound;
    RowsTo12Sound(i);
    RowsTo25Sound(i);
    RowsTo38Sound(i);
    RowsTo51Sound(i);
    RowsTo62Sound(i);
  }

  lemma {:induction false} FoundFrom(c: nat, i: nat)
    requires i <= ROWS
    ensures var form := FindFrom(c, i); form.Some? ==> form.value.codepoint == c && form.value.Sound()
    decreases ROWS - i
  {
    hide RowsTo12, RowsTo25, RowsTo38, RowsTo51, RowsTo62, ArabicForm.Sound;
    if i < ROWS {
      RowSound(i);
      FoundFrom(c, i + 1);
    }
  }

  /** Every letter of the table is found. */
  lemma {:induction false} FindsRow(c: nat, i: nat, j: nat)
    requires i <= j < ROWS && Row(j).codepoint == c
    ensures FindFrom(c, i).Some?
    decreases j - i
  {
    hide Row;
    if i < j {
      FindsRow(c, i + 1, j);
    }
  }

  /** What every letter of the table has. */
  lemma Found(c: nat)
    ensures Find(c).Some? ==> Find(c).value.codepoint == c && Find(c).value.Sound()
  {
    FoundFrom(c, 0);
  }

  // ----- the letters of the table ---------------------------------------------

  /** The letters of the Arabic block that have presentation forms. */
  predicate IsLetter(c: nat) {
    || 0x621 <= c <= 0x63A || 0x640 <= c <= 0x64A
    || c in {
         0x671, 0x679, 0x67A, 0x67B, 0x67E, 0x686, 0x688, 0x691, 0x698, 0x6A4, 0x6A9, 0x6AF, 0x6BA, 0x6BE,
         0x6C0, 0x6C1, 0x6C5, 0x6C6, 0x6C7, 0x6C8, 0x6C9, 0x6CB, 0x6CC, 0x6D0, 0x6D2, 0x6D3
       }
  }

  function IndexOfLetter(c: nat): (i: nat)
    requires IsLetter(c)
    ensures i < ROWS
  {
    if c <= 0x63A then c - 0x621
    else if c <= 0x64A then c - 0x640 + 26
    else OtherIndex(c)
  }

  function OtherIndex(c: nat): (i: nat)
    ensures 37 <= i < ROWS
  {
    match c
    case 0x0671 => 37
    case 0x0679 => 38
    case 0x067A => 39
    case 0x067B => 40
    case 0x067E => 41
    case 0x0686 => 42
    case 0x0688 => 43
    case 0x0691 => 44
    case 0x0698 => 45
    case 0x06A4 => 46
    case 0x06A9 => 47
    case 0x06AF => 48
    case 0x06BA => 49
    case 0x06BE => 50
    case 0x06C0 => 51
    case 0x06C1 => 52
    case 0x06C5 => 53
    case 0x06C6 => 54
    case 0x06C7 => 55
    case 0x06C8 => 56
    case 0x06C9 => 57
    case 0x06CB => 58
    case 0x06CC => 59
    case 0x06D0 => 60
    case 0x06D2 => 61
    case _ => 62
  }

  /** The row whose forms contain this presentation form. */
  function RowOfForm(f: nat): (i: nat)
    ensures i < ROWS && i != 26
  {
    if f < 0xFE80 then RowOfExtraForm(f) else RowOfCommonForm(f)
  }

  function RowOfExtraForm(f: nat): (i: nat)
    ensures 37 <= i < ROWS
  {
    if f < 0xFB52 then 37 else if f < 0xFB56 then 40 else if f < 0xFB5E then 41 else
    if f < 0xFB66 then 39 else if f < 0xFB6A then 38 else if f < 0xFB7A then 46 else
    if f < 0xFB88 then 42 else if f < 0xFB8A then 43 else if f < 0xFB8C then 45 else
    if f < 0xFB8E then 44 else if f < 0xFB92 then 47 else if f < 0xFB9E then 48 else
    if f < 0xFBA4 then 49 else if f < 0xFBA6 then 51 else if f < 0xFBAA then 52 else
    if f < 0xFBAE then 50 else if f < 0xFBB0 then 61 else if f < 0xFBD7 then 62 else
    if f < 0xFBD9 then 55 else if f < 0xFBDB then 54 else if f < 0xFBDE then 56 else
    if f < 0xFBE0 then 58 else if f < 0xFBE2 then 53 else if f < 0xFBE4 then 57 else
    if f < 0xFBFC then 60 else 59
  }

  function RowOfCommonForm(f: nat): (i: nat)
    ensures i <= 36 && i != 26
  {
    if f < 0xFE81 then 0 else if f < 0xFE83 then 1 else if f < 0xFE85 then 2 else if f < 0xFE87 then 3 else
    if f < 0xFE89 then 4 else if f < 0xFE8D then 5 else if f < 0xFE8F then 6 else if f < 0xFE93 then 7 else
    if f < 0xFE95 then 8 else if f < 0xFE99 then 9 else if f < 0xFE9D then 10 else if f < 0xFEA1 then 11 else
    if f < 0xFEA5 then 12 else if f < 0xFEA9 then 13 else if f < 0xFEAB then 14 else
    if f < 0xFEAD then 15 else if f < 0xFEAF then 16 else if f < 0xFEB1 then 17 else
    if f < 0xFEB5 then 18 else if f < 0xFEB9 then 19 else if f < 0xFEBD then 20 else
    if f < 0xFEC1 then 21 else if f < 0xFEC5 then 22 else if f < 0xFEC9 then 23 else
    if f < 0xFECD then 24 else if f < 0xFED1 then 25 else if f < 0xFED5 then 27 else
    if f < 0xFED9 then 28 else if f < 0xFEDD then 29 else if f < 0xFEE1 then 30 else
    if f < 0xFEE5 then 31 else if f < 0xFEE9 then 32 else if f < 0xFEED then 33 else
    if f < 0xFEEF then 34 else if f < 0xFEF1 then 35 else 36
  }

  lemma RowsTo12Letters(i: nat, k: nat)
    requires 0 <= i <= 12 && k < RowsTo12(i).Forms()
    ensures IsLetter(RowsTo12(i).codepoint) && IndexOfLetter(RowsTo12(i).codepoint) == i
    ensures RowsTo12(i).codepoint != TATWEEL ==> RowOfForm(RowsTo12(i).isolated + k) == i
  {
  }

  lemma RowsTo25Letters(i: nat, k: nat)
    requires 13 <= i <= 25 && k < RowsTo25(i).Forms()
    ensures IsLetter(RowsTo25(i).codepoint) && IndexOfLetter(RowsTo25(i).codepoint) == i
    ensures RowsTo25(i).codepoint != TATWEEL ==> RowOfForm(RowsTo25(i).isolated + k) == i
  {
  }

  lemma RowsTo38Letters(i: nat, k: nat)
    requires 26 <= i <= 38 && k < RowsTo38(i).Forms()
    ensures IsLetter(RowsTo38(i).codepoint) && IndexOfLetter(RowsTo38(i).codepoint) == i
    ensures RowsTo38(i).codepoint != TATWEEL ==> RowOfForm(RowsTo38(i).isolated + k) == i
  {
  }

  lemma RowsTo51Letters(i: nat, k: nat)
    requires 39 <= i <= 51 && k < RowsTo51(i).Forms()
    ensures IsLetter(RowsTo51(i).codepoint) && IndexOfLetter(RowsTo51(i).codepoint) == i
    ensures RowsTo51(i).codepoint != TATWEEL ==> RowOfForm(RowsTo51(i).isolated + k) == i
  {
  }

  lemma RowsTo62Letters(i: nat, k: nat)
    requires 52 <= i <= 62 && k < RowsTo62(i).Forms()
    ensures IsLetter(RowsTo62(i).codepoint) && IndexOfLetter(RowsTo62(i).codepoint) == i
    ensures RowsTo62(i).codepoint != TATWEEL ==> RowOfForm(RowsTo62(i).isolated + k) == i
  {
  }

  /** Every row stands for a letter of its own, and no two rows share a form. */
  lemma RowIsItsLetters(i: nat, k: nat)
    requires i < ROWS && k < Row(i).Forms()
    ensures IsLetter(Row(i).codepoint) && IndexOfLetter(Row(i).codepoint) == i
    ensures Row(i).codepoint != TATWEEL ==> RowOfForm(Row(i).isolated + k) == i
  {
    hide RowsTo12, RowsTo25, RowsTo38, RowsTo51, RowsTo62, IsLetter, IndexOfLetter, RowOfForm;
    if i < 13 {
      RowsTo12Letters(i, k);
    } else if i < 26 {
      RowsTo25Letters(i, k);
    } else if i < 39 {
      RowsTo38Letters(i, k);
    } else if i < 52 {
      RowsTo51Letters(i, k);
    } else {
      RowsTo62Letters(i, k);
    }
  }

  lemma RowLetter(i: nat)
    requires i < ROWS
    ensures IsLetter(Row(i).codepoint) && IndexOfLetter(Row(i).codepoint) == i
  {
    hide Row, IsLetter, IndexOfLetter, RowOfForm;
    RowIsItsLetters(i, 0);
  }

  lemma LetterRow(c: nat)
    requires IsLetter(c)
    ensures Row(IndexOfLetter(c)).codepoint == c
  {
  }

  /** The forms from U+FE80 to U+FEF4 are taken without a gap. */
  lemma CommonFormsAreTaken(f: nat)
    requires 0xFE80 <= f <= 0xFEF4
    ensures var row := Row(RowOfForm(f)); row.isolated <= f < row.isolated + row.Forms()
  {
  }

  lemma FormsLieInTwoBlocks(i: nat)
    requires i < ROWS && Row(i).codepoint != TATWEEL
    ensures var last := Row(i).isolated + Row(i).Forms() - 1;
            (0xFB50 <= Row(i).isolated && last < 0xFC00) || (0xFE80 <= Row(i).isolated && last <= 0xFEF4)
  {
  }

  lemma {:induction false} FindsFrom(c: nat, i: nat)
    requires IsLetter(c) && i <= IndexOfLetter(c)
    ensures FindFrom(c, i) == Some(Row(IndexOfLetter(c)))
    decreases ROWS - i
  {
    hide Row, IsLetter, IndexOfLetter;
    LetterRow(c);
    if i < IndexOfLetter(c) {
      RowLetter(i);
      FindsFrom(c, i + 1);
    }
  }

  /** Exactly the letters are found, each with its own row. */
  lemma FindsExactlyLetters(c: nat)
    ensures Find(c).Some? <==> IsLetter(c)
    ensures IsLetter(c) ==> Find(c) == Some(Row(IndexOfLetter(c)))
  {
    hide Row, IsLetter, IndexOfLetter;
    if IsLetter(c) {
      FindsFrom(c, 0);
    } else if Find(c).Some? {
      FoundIsRow(c, 0);
    }
  }

  lemma {:induction false} FoundIsRow(c: nat, i: nat)
    requires i <= ROWS && FindFrom(c, i).Some?
    ensures IsLetter(c)
    decreases ROWS - i
  {
    hide Row, IsLetter, IndexOfLetter;
    RowLetter(i);
    if Row(i).codepoint != c {
      FoundIsRow(c, i + 1);
    }
  }

  /** What stands in a run, code point by code point: three punctuation marks, the letters, the
      marks and the joiner; in particular no digit and nothing outside the Arabic block but the
      joiner. */
  lemma RunCodePoints(c: nat)
    ensures InRun(c) <==>
            || c == 0x60C || 0x610 <= c <= 0x61B || c == 0x61F || 0x621 <= c <= 0x63A || 0x640 <= c <= 0x65F || 0x670 <= c <= 0x671
            || 0x679 <= c <= 0x67B || c == 0x67E || c == 0x686 || c == 0x688 || c == 0x691 || c == 0x698
            || c == 0x6A4 || c == 0x6A9 || c == 0x6AF || c == 0x6BA || c == 0x6BE || 0x6C0 <= c <= 0x6C1
            || 0x6C5 <= c <= 0x6C9 || 0x6CB <= c <= 0x6CC || c == 0x6D0 || 0x6D2 <= c <= 0x6D3 || 0x6D6 <= c <= 0x6ED
            || c == 0x200D
    ensures InRun(c) ==> !(0x660 <= c <= 0x669) && !(0x6F0 <= c <= 0x6F9) && (0x600 <= c < 0x700 || c == 0x200D)
  {
    hide Row, IndexOfLetter, Find;
    FindsExactlyLetters(c);
  }

  /** The code points that are shaped and reordered together. */
  predicate InRun(c: nat) {
    Find(c).Some? || Transparent(c) || c == 0x60C || c == 0x61B || c == 0x61F
  }
}
