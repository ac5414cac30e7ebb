/** The text of the exclusion policy (patcher/dialogs/agent_shared.cpp): one pattern a line, with
    comments, and blanks around the patterns that do not count. */
module PolicyText {
  import opened Sequences

  const NEWLINE: nat := 10
  const HASH: nat := 35

  /** The system's wildcard match of a name against a pattern. */
  type Wildcard = (seq<nat>, seq<nat>) -> bool

  // ----- what a policy says ---------------------------------------------------

  predicate Blank(c: nat) {
    c == 32 || c == 9 || c == 13
  }

  /** These positions bound one whole line. */
  ghost predicate IsLine(s: seq<nat>, i: int, j: int) {
    && 0 <= i <= j <= |s| && (i == 0 || s[i - 1] == 10) && (j == |s| || s[j] == 10)
    && forall k :: i <= k < j ==> s[k] != 10
  }

  /** These positions bound what is left of a line when the blanks at both of its ends are
      taken off. */
  ghost predicate IsCore(line: seq<nat>, a: int, b: int) {
    && 0 <= a <= b <= |line|
    && (forall k :: 0 <= k < a ==> line[k] in {32, 9, 13}) && (forall k :: b <= k < |line| ==> line[k] in {32, 9, 13})
    && (a < b ==> line[a] !in {32, 9, 13} && line[b - 1] !in {32, 9, 13})
  }

  /** The pattern is no comment, and matches the path or the file name. */
  predicate Hits(pattern: seq<nat>, path: seq<nat>, leaf: seq<nat>, spec: Wildcard) {
    pattern != [] && pattern[0] != HASH && (spec(path, pattern) || spec(leaf, pattern))
  }

  ghost predicate LineExcludes(line: seq<nat>, path: seq<nat>, leaf: seq<nat>, spec: Wildcard) {
    exists a, b :: IsCore(line, a, b) && Hits(line[a..b], path, leaf, spec)
  }

  /** A line of the policy excludes the program. */
  ghost predicate ExcludesAt(patterns: seq<nat>, i: int, j: int, path: seq<nat>, leaf: seq<nat>, spec: Wildcard) {
    IsLine(patterns, i, j) && LineExcludes(patterns[i..j], path, leaf, spec)
  }

  ghost predicate Excluded(patterns: seq<nat>, path: seq<nat>, leaf: seq<nat>, spec: Wildcard) {
    exists i, j :: ExcludesAt(patterns, i, j, path, leaf, spec)
  }

  lemma SameCore(line: seq<nat>, a: int, b: int, c: int, d: int)
    requires IsCore(line, a, b) && IsCore(line, c, d)
    ensures line[a..b] == line[c..d]
  {
    if a < b {
      assert line[a] !in {32, 9, 13} && line[b - 1] !in {32, 9, 13};
    }
    if c < d {
      assert line[c] !in {32, 9, 13} && line[d - 1] !in {32, 9, 13};
    }
  }

  /** A line excludes by its core alone: blank lines and comments exclude nobody. */
  lemma LineByItsCore(line: seq<nat>, a: int, b: int, path: seq<nat>, leaf: seq<nat>, spec: Wildcard)
    requires IsCore(line, a, b)
    ensures LineExcludes(line, path, leaf, spec) <==>
            a < b && line[a] != HASH && (spec(path, line[a..b]) || spec(leaf, line[a..b]))
  {
    assert a < b ==> line[a..b][0] == line[a];
    forall c, d | IsCore(line, c, d) ensures line[c..d] == line[a..b] {
      SameCore(line, a, b, c, d);
    }
  }

  /** The lines of a text that is put together around a line break are those of its parts. */
  lemma LinesOfBoth(a: seq<nat>, b: seq<nat>, i: int, j: int)
    ensures var s := a + [NEWLINE] + b;
            && (IsLine(a, i, j) ==> IsLine(s, i, j) && s[i..j] == a[i..j])
            && (IsLine(b, i, j) ==> IsLine(s, i + |a| + 1, j + |a| + 1) && s[i + |a| + 1..j + |a| + 1] == b[i..j])
            && (IsLine(s, i, j) ==> IsLine(a, i, j) || IsLine(b, i - |a| - 1, j - |a| - 1))
  {
    var s := a + [NEWLINE] + b;
    assert s[|a|] == NEWLINE;
    if IsLine(s, i, j) && i <= |a| {
      assert j <= |a|;
      assert forall k :: i <= k < j ==> a[k] == s[k];
    }
    if IsLine(s, i, j) && i > |a| {
      assert forall k :: i - |a| - 1 <= k < j - |a| - 1 ==> b[k] == s[k + |a| + 1];
    }
  }

  /** A policy in two parts excludes what one of the parts excludes. */
  lemma ExcludedByParts(a: seq<nat>, b: seq<nat>, path: seq<nat>, leaf: seq<nat>, spec: Wildcard)
    ensures Excluded(a + [NEWLINE] + b, path, leaf, spec) <==> Excluded(a, path, leaf, spec) || Excluded(b, path, leaf, spec)
  {
    hide LineExcludes, IsLine;
    var s := a + [NEWLINE] + b;
    if i, j :| ExcludesAt(s, i, j, path, leaf, spec) {
      LinesOfBoth(a, b, i, j);
      LinesOfBoth(a, b, i - |a| - 1, j - |a| - 1);
      assert ExcludesAt(a, i, j, path, leaf, spec) || ExcludesAt(b, i - |a| - 1, j - |a| - 1, path, leaf, spec);
    }
    if i, j :| ExcludesAt(a, i, j, path, leaf, spec) {
      LinesOfBoth(a, b, i, j);
      assert ExcludesAt(s, i, j, path, leaf, spec);
    }
    if i, j :| ExcludesAt(b, i, j, path, leaf, spec) {
      LinesOfBoth(a, b, i, j);
      assert ExcludesAt(s, i + |a| + 1, j + |a| + 1, path, leaf, spec);
    }
  }

  /** A policy without a line break is one line. */
  lemma OneLine(line: seq<nat>, path: seq<nat>, leaf: seq<nat>, spec: Wildcard)
    requires NEWLINE !in line
    ensures Excluded(line, path, leaf, spec) <==> LineExcludes(line, path, leaf, spec)
  {
    hide LineExcludes;
    assert line[0..|line|] == line;
    forall i, j | IsLine(line, i, j) ensures i == 0 && j == |line| {
      assert forall k :: 0 <= k < |line| ==> line[k] in line;
    }
    assert IsLine(line, 0, |line|);
    if LineExcludes(line, path, leaf, spec) {
      assert ExcludesAt(line, 0, |line|, path, leaf, spec);
    }
  }

  // ----- the search -----------------------------------------------------------

  method CoreOf(line: seq<nat>) returns (first: nat, end: nat)
    ensures IsCore(line, first, end)
  {
    first, end := 0, |line|;
    while first < |line| && Blank(line[first])
      invariant first <= |line| && forall k :: 0 <= k < first ==> line[k] in {32, 9, 13}
    {
      first := first + 1;
    }
    while end > first && Blank(line[end - 1])
      invariant first <= end <= |line| && forall k :: end <= k < |line| ==> line[k] in {32, 9, 13}
    {
      end := end - 1;
    }
  }

  /** Goes over the policy line by line. */
  method IsExcluded(patterns: seq<nat>, path: seq<nat>, leaf: seq<nat>, spec: Wildcard) returns (excluded: bool)
    ensures excluded == Excluded(patterns, path, leaf, spec)
  {
    hide LineExcludes, IsCore, IsLine;
    var begin := 0;
    NoLineBefore(patterns);
    while begin < |patterns|
      invariant begin <= |patterns| && (begin == 0 || patterns[begin - 1] == NEWLINE)
      invariant forall i, j :: ExcludesAt(patterns, i, j, path, leaf, spec) ==> i >= begin
    {
      var end := IndexOf(patterns, NEWLINE, begin);
      var line := patterns[begin..end];
      LineFrom(patterns, begin, end);
      var first, last := CoreOf(line);
      LineByItsCore(line, first, last, path, leaf, spec);
      CoreBounds(line, first, last);
      if first < last && line[first] != HASH && (spec(path, line[first..last]) || spec(leaf, line[first..last])) {
        assert ExcludesAt(patterns, begin, end, path, leaf, spec);
        return true;
      }
      if end == |patterns| {
        NoLineBehind(patterns);
        return false;
      }
      begin := end + 1;
    }
    NoLineBehind(patterns);
    EmptyLine(path, leaf, spec);
    assert patterns[|patterns|..|patterns|] == [];
    return false;
  }

  lemma NoLineBefore(s: seq<nat>)
    ensures forall i, j :: IsLine(s, i, j) ==> i >= 0
  {
  }

  lemma NoLineBehind(s: seq<nat>)
    ensures forall i, j :: IsLine(s, i, j) ==> i <= j <= |s|
  {
  }

  lemma EmptyLine(path: seq<nat>, leaf: seq<nat>, spec: Wildcard)
    ensures !LineExcludes([], path, leaf, spec)
  {
  }

  lemma CoreBounds(line: seq<nat>, a: int, b: int)
    requires IsCore(line, a, b)
    ensures a <= b <= |line|
  {
  }

  /** The line that starts here, and the only one up to its end. */
  lemma LineFrom(s: seq<nat>, begin: nat, end: nat)
    requires begin <= |s| && (begin == 0 || s[begin - 1] == NEWLINE) && end == IndexOf(s, NEWLINE, begin)
    ensures IsLine(s, begin, end) && forall i, j :: IsLine(s, i, j) && begin <= i <= end ==> i == begin && j == end
  {
    assert forall k :: begin <= k < end ==> s[begin..end][k - begin] == s[k];
  }
}
