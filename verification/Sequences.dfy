/** A few helpers that several modules share. */
module Sequences {

  datatype Option<T> = None | Some(value: T)

  function Min(a: nat, b: nat): nat {
    if a < b then a else b
  }

  function Max(a: nat, b: nat): nat {
    if a < b then b else a
  }

  /** The first place of an element from a position on, or the length. */
  function IndexOf<T(==)>(s: seq<T>, x: T, from: nat): (i: nat)
    requires from <= |s|
    ensures from <= i <= |s| && (i < |s| ==> s[i] == x) && x !in s[from..i]
    decreases |s| - from
  {
    if from == |s| || s[from] == x then from else IndexOf(s, x, from + 1)
  }

  lemma IndexOfIs<T>(s: seq<T>, x: T, i: nat)
    requires i <= |s| && x !in s[..i] && (i < |s| ==> s[i] == x)
    ensures IndexOf(s, x, 0) == i
  {
    var j := IndexOf(s, x, 0);
    assert forall k :: 0 <= k < i ==> s[..i][k] == s[k];
    assert forall k :: 0 <= k < j ==> s[0..j][k] == s[k];
  }

  /** Slices of slices. */
  lemma SliceOfSlice<T>(s: seq<T>, lo: nat, hi: nat, a: nat, b: nat)
    requires lo <= hi <= |s| && a <= b <= hi - lo
    ensures s[lo..hi][a..b] == s[lo + a..lo + b]
  {
    var left, right := s[lo..hi][a..b], s[lo + a..lo + b];
    forall i | 0 <= i < b - a ensures left[i] == right[i] {
      assert left[i] == s[lo..hi][a + i];
    }
  }

  lemma SliceOfDrop<T>(s: seq<T>, lo: nat, a: nat, b: nat)
    requires lo <= |s| && a <= b <= |s| - lo
    ensures s[lo..][a..b] == s[lo + a..lo + b] && s[lo..][a..] == s[lo + a..]
  {
    assert s[lo..] == s[lo..|s|] && s[lo..][a..] == s[lo..][a..|s| - lo] && s[lo + a..] == s[lo + a..|s|];
    SliceOfSlice(s, lo, |s|, a, b);
    SliceOfSlice(s, lo, |s|, a, |s| - lo);
  }

  lemma SliceOfTake<T>(s: seq<T>, hi: nat, a: nat, b: nat)
    requires hi <= |s| && a <= b <= hi
    ensures s[..hi][a..b] == s[a..b]
  {
    assert s[..hi] == s[0..hi];
    SliceOfSlice(s, 0, hi, a, b);
  }

  /** Two sequences with the same tail have the same slices in it. */
  lemma SameTail<T>(p: seq<T>, q: seq<T>, from: nat, a: nat, b: nat)
    requires |p| == |q| && from <= a <= b <= |p| && p[from..] == q[from..]
    ensures p[a..b] == q[a..b] && p[a..] == q[a..]
  {
    SliceOfDrop(p, from, a - from, b - from);
    SliceOfDrop(q, from, a - from, b - from);
  }

  lemma HeadAndTail<T>(s: seq<T>)
    requires s != []
    ensures s == [s[0]] + s[1..]
  {
  }

  lemma Assoc<T>(a: seq<T>, b: seq<T>, c: seq<T>)
    ensures (a + b) + c == a + (b + c)
  {
  }
}
