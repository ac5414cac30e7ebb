/** The search for code by a byte signature with wildcards (patcher/patch_filepilot.py): it looks
    for the longest run of fixed bytes and compares the rest around it. */
module MaskedSearch {
  import opened Bytes
  import opened Sequences

  const FIXED: Byte := 0xFF
  const SHORTEST_ANCHOR: nat := 4

  // ----- signatures -----------------------------------------------------------

  predicate Wild(token: string) {
    token == "?" || token == "??"
  }

  predicate IsByte(n: Option<int>) {
    n.Some? && 0 <= n.value < 256
  }

  /** A token says something: it is one of the two wildcards, or a number that fits a byte. */
  predicate Means(token: string, hex: string -> Option<int>) {
    token in {"?", "??"} || (hex(token).Some? && 0 <= hex(token).value <= 0xFF)
  }

  lemma MeansExactly(token: string, hex: string -> Option<int>)
    ensures Means(token, hex) <==> Wild(token) || IsByte(hex(token))
    ensures Wild(token) <==> token in {"?", "??"}
  {
  }

  /** Turns the tokens of a signature into bytes and a mask; hex is the language's own reading
      of a hexadecimal number. It fails exactly if some token is neither a wildcard nor a
      byte. */
  method ParseMaskedPattern(tokens: seq<string>, hex: string -> Option<int>)
    returns (ok: bool, values: seq<Byte>, mask: seq<Byte>)
    ensures ok <==> forall i :: 0 <= i < |tokens| ==> Means(tokens[i], hex)
    ensures ok ==> |values| == |mask| == |tokens|
    ensures ok ==> forall i :: 0 <= i < |tokens| ==>
              if tokens[i] in {"?", "??"} then values[i] == 0 && mask[i] == 0
              else hex(tokens[i]) == Some(values[i] as int) && mask[i] == FIXED
  {
    forall i | 0 <= i < |tokens|
      ensures Means(tokens[i], hex) <==> Wild(tokens[i]) || IsByte(hex(tokens[i]))
      ensures Wild(tokens[i]) <==> tokens[i] in {"?", "??"}
    {
      MeansExactly(tokens[i], hex);
    }
    hide Means, Wild;
    values, mask := [], [];
    for k := 0 to |tokens|
      invariant |values| == |mask| == k
      invariant forall i :: 0 <= i < k ==> Wild(tokens[i]) || IsByte(hex(tokens[i]))
      invariant forall i :: 0 <= i < k ==>
                  if Wild(tokens[i]) then values[i] == 0 && mask[i] == 0 else values[i] == hex(tokens[i]).value && mask[i] == FIXED
    {
      if Wild(tokens[k]) {
        values, mask := values + [0], mask + [0];
      } else {
        var n := hex(tokens[k]);
        if !IsByte(n) {
          return false, values, mask;
        }
        values, mask := values + [n.value], mask + [FIXED];
      }
    }
    ok := true;
  }

  // ----- the anchor -----------------------------------------------------------

  predicate FixedRun(mask: seq<Byte>, start: nat, size: nat) {
    start + size <= |mask| && forall i :: start <= i < start + size ==> mask[i] != 0
  }

  /** The runs that end before the index are no longer than the best one, and shorter if they
      start before it. */
  ghost predicate Best(mask: seq<Byte>, index: nat, start: nat, size: nat) {
    forall s: nat, n: nat :: n > 0 && FixedRun(mask, s, n) && s + n <= index ==> n <= size && (s < start ==> n < size)
  }

  /** The longest run of fixed bytes, the first one of several. */
  method LongestFixedRun(mask: seq<Byte>) returns (start: nat, size: nat)
    ensures FixedRun(mask, start, size)
    ensures forall s: nat, n: nat :: n > 0 && FixedRun(mask, s, n) ==> n <= size && (s < start ==> n < size)
  {
    start, size := 0, 0;
    var currentStart, currentSize := 0, 0;
    var ended := mask + [0];
    for index := 0 to |ended|
      invariant FixedRun(mask, start, size) && (size == 0 ==> start == 0)
      invariant currentSize <= index && (currentSize > 0 ==> currentStart == index - currentSize)
      invariant index <= |mask| ==> FixedRun(mask, index - currentSize, currentSize)
      invariant index <= |mask| && 0 < index - currentSize ==> mask[index - currentSize - 1] == 0
      invariant start + size <= index - currentSize
      invariant Best(mask, if index <= |mask| then index - currentSize else |mask|, start, size)
      invariant index == |ended| ==> currentSize == 0
    {
      if ended[index] != 0 {
        if currentSize == 0 {
          currentStart := index;
        }
        currentSize := currentSize + 1;
      } else {
        RunsUpTo(mask, index, currentSize, start, size);
        if currentSize > size {
          start, size := currentStart, currentSize;
        }
        currentSize := 0;
      }
    }
  }

  /** A run that ends at or before a wildcard lies in the current run, or before it. */
  lemma RunsUpTo(mask: seq<Byte>, index: nat, current: nat, start: nat, size: nat)
    requires current <= index <= |mask| && (index < |mask| ==> mask[index] == 0)
    requires FixedRun(mask, index - current, current) && (0 < index - current ==> mask[index - current - 1] == 0)
    requires Best(mask, index - current, start, size) && start + size <= index - current
    ensures var next := if index < |mask| then index + 1 else |mask|;
            if current > size then Best(mask, next, index - current, current) else Best(mask, next, start, size)
  {
    var next := if index < |mask| then index + 1 else |mask|;
    forall s: nat, n: nat | n > 0 && FixedRun(mask, s, n) && s + n <= next
      ensures s + n <= index - current || (s >= index - current && s + n <= index)
    {
    }
  }

  // ----- the search -----------------------------------------------------------

  predicate StandsAt(data: seq<Byte>, part: seq<Byte>, i: nat) {
    i + |part| <= |data| && data[i..i + |part|] == part
  }

  /** The first place of the bytes from a position on, or -1. */
  method Find(data: seq<Byte>, part: seq<Byte>, cursor: nat) returns (found: int)
    ensures found >= -1 && (found >= 0 ==> found >= cursor && StandsAt(data, part, found))
    ensures forall i :: cursor <= i && (found < 0 || i < found) ==> !StandsAt(data, part, i)
  {
    var at := cursor;
    while at + |part| <= |data|
      invariant cursor <= at
      invariant forall i :: cursor <= i < at ==> !StandsAt(data, part, i)
      decreases |data| - at
    {
      if data[at..at + |part|] == part {
        return at;
      }
      at := at + 1;
    }
    return -1;
  }

  /** The plain masked comparison at one offset. */
  predicate MatchesAt(data: seq<Byte>, values: seq<Byte>, mask: seq<Byte>, c: nat)
    requires |values| == |mask|
  {
    c + |values| <= |data| && forall i :: 0 <= i < |values| ==> mask[i] == 0 || data[c + i] == values[i]
  }

  /** The offsets below a limit at which it succeeds, in increasing order. */
  function Naive(data: seq<Byte>, values: seq<Byte>, mask: seq<Byte>, limit: nat): seq<nat>
    requires |values| == |mask|
  {
    if limit == 0 then []
    else
      Naive(data, values, mask, limit - 1)
      + if MatchesAt(data, values, mask, limit - 1) then [limit - 1] else []
  }

  /** The list is what it says: all the offsets, each once, in order. */
  lemma {:induction false} NaiveIsExact(data: seq<Byte>, values: seq<Byte>, mask: seq<Byte>, limit: nat)
    requires |values| == |mask|
    ensures var r := Naive(data, values, mask, limit);
            && (forall k, l :: 0 <= k < l < |r| ==> r[k] < r[l])
            && (forall c: nat :: c in r <==> c < limit && MatchesAt(data, values, mask, c))
  {
    hide MatchesAt;
    if limit > 0 {
      NaiveIsExact(data, values, mask, limit - 1);
      var before := Naive(data, values, mask, limit - 1);
      assert forall k :: 0 <= k < |before| ==> before[k] in before;
    }
  }

  /** No offset in a stretch matches. */
  lemma {:induction false} NaiveSkips(data: seq<Byte>, values: seq<Byte>, mask: seq<Byte>, from: nat, to: nat)
    requires |values| == |mask| && from <= to
    requires forall c :: from <= c < to ==> !MatchesAt(data, values, mask, c)
    ensures Naive(data, values, mask, to) == Naive(data, values, mask, from)
  {
    hide MatchesAt;
    if from < to {
      NaiveSkips(data, values, mask, from, to - 1);
    }
  }

  /** Where the signature matches, its anchor stands. */
  lemma AnchorStands(data: seq<Byte>, values: seq<Byte>, mask: seq<Byte>, start: nat, size: nat, c: nat)
    requires |values| == |mask| && FixedRun(mask, start, size) && MatchesAt(data, values, mask, c)
    ensures StandsAt(data, values[start..start + size], c + start)
  {
    var anchor := values[start..start + size];
    forall i | 0 <= i < size ensures data[c + start..c + start + size][i] == anchor[i] {
      assert mask[start + i] != 0;
      assert data[c + (start + i)] == values[start + i];
    }
    assert data[c + start..c + start + size] == anchor;
  }

  lemma TooFar(data: seq<Byte>, values: seq<Byte>, mask: seq<Byte>, c: nat)
    requires |values| == |mask| && c + |values| > |data|
    ensures !MatchesAt(data, values, mask, c)
  {
  }

  method Compare(data: seq<Byte>, values: seq<Byte>, mask: seq<Byte>, candidate: nat) returns (all: bool)
    requires |values| == |mask| && candidate + |values| <= |data|
    ensures all == MatchesAt(data, values, mask, candidate)
  {
    for i := 0 to |values|
      invariant forall k :: 0 <= k < i ==> mask[k] == 0 || data[candidate + k] == values[k]
    {
      if mask[i] != 0 && data[candidate + i] != values[i] {
        return false;
      }
    }
    all := true;
  }

  /** Finds the same offsets as comparing at every one, overlapping matches included. It is
      refused exactly if no four bytes in a row are fixed. */
  method FindMasked(data: seq<Byte>, values: seq<Byte>, mask: seq<Byte>) returns (ok: bool, matches: seq<nat>)
    requires |values| == |mask|
    ensures ok <==> exists s: nat :: FixedRun(mask, s, 4)
    ensures ok ==> matches == Naive(data, values, mask, |data| + 1)
  {
    hide MatchesAt;
    matches := [];
    var start, size := LongestFixedRun(mask);
    if size < SHORTEST_ANCHOR {
      return false, matches;
    }
    assert FixedRun(mask, start, SHORTEST_ANCHOR);
    var anchor := values[start..start + size];
    var cursor := 0;
    ghost var done: nat := 0;
    while true
      invariant cursor <= |data| + 1 && done == if cursor < start then 0 else cursor - start
      invariant matches == Naive(data, values, mask, done)
      decreases |data| + 1 - cursor
    {
      var found := Find(data, anchor, cursor);
      ghost var to: nat := if found < 0 then |data| + 1 else if found < start then 0 else found - start;
      forall c | done <= c < to ensures !MatchesAt(data, values, mask, c) {
        if MatchesAt(data, values, mask, c) {
          AnchorStands(data, values, mask, start, size, c);
        }
      }
      if done <= to {
        NaiveSkips(data, values, mask, done, to);
      }
      if found < 0 {
        break;
      }
      var candidate := found - start;
      if 0 <= candidate <= |data| - |values| {
        var all := Compare(data, values, mask, candidate);
        if all {
          matches := matches + [candidate];
        }
      } else if candidate >= 0 {
        TooFar(data, values, mask, candidate);
      }
      cursor := found + 1;
      done := if cursor < start then 0 else cursor - start;
    }
    ok := true;
  }

  /** So many tokens in a row that are no wildcards. */
  predicate NoneWild(tokens: seq<string>, start: nat, size: nat) {
    start + size <= |tokens| && forall i :: start <= i < start + size ==> tokens[i] !in {"?", "??"}
  }

  /** From the tokens of a signature to its matches, in order and each once. It is refused
      exactly if a token is wrong or no four tokens in a row are fixed. */
  method FindSignature(data: seq<Byte>, tokens: seq<string>, hex: string -> Option<int>) returns (ok: bool, matches: seq<nat>)
    ensures ok <==> (forall i :: 0 <= i < |tokens| ==> Means(tokens[i], hex))
                    && exists s: nat :: NoneWild(tokens, s, 4)
    ensures ok ==> forall k, l :: 0 <= k < l < |matches| ==> matches[k] < matches[l]
    ensures ok ==>
              forall c: nat :: c in matches <==>
                c + |tokens| <= |data|
                && forall i :: 0 <= i < |tokens| ==> tokens[i] in {"?", "??"} || hex(tokens[i]) == Some(data[c + i] as int)
  {
    var values, mask;
    ok, values, mask := ParseMaskedPattern(tokens, hex);
    matches := [];
    if !ok {
      return;
    }
    SameRuns(tokens, mask);
    ok, matches := FindMasked(data, values, mask);
    if ok {
      NaiveIsExact(data, values, mask, |data| + 1);
    }
  }

  lemma SameRuns(tokens: seq<string>, mask: seq<Byte>)
    requires |mask| == |tokens| && forall i :: 0 <= i < |tokens| ==> (mask[i] == 0 <==> tokens[i] in {"?", "??"})
    ensures (exists s: nat :: FixedRun(mask, s, SHORTEST_ANCHOR)) <==> (exists s: nat :: NoneWild(tokens, s, SHORTEST_ANCHOR))
  {
    if s: nat :| FixedRun(mask, s, SHORTEST_ANCHOR) {
      assert NoneWild(tokens, s, SHORTEST_ANCHOR);
    }
    if s: nat :| NoneWild(tokens, s, SHORTEST_ANCHOR) {
      assert FixedRun(mask, s, SHORTEST_ANCHOR);
    }
  }
}
