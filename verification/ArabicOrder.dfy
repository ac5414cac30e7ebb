/** The visual order of shaped text (patcher/unicode_payload.cpp). */
module ArabicOrder {
  import opened ArabicForms

  // ----- the order in which the code emits the units --------------------------

  function EndOfRun(points: seq<nat>, i: nat): (e: nat)
    requires i <= |points|
    ensures i <= e <= |points| && (forall k :: i <= k < e ==> InRun(points[k])) && (e < |points| ==> !InRun(points[e]))
    decreases |points| - i
  {
    if i < |points| && InRun(points[i]) then EndOfRun(points, i + 1) else i
  }

  /** Where the cluster that ends at e starts: at the last letter that is no mark, or at the
      start of the run. */
  function ClusterStart(points: seq<nat>, start: nat, e: nat): (c: nat)
    requires start < e <= |points|
    ensures start <= c < e && (c == start || !Transparent(points[c]))
    ensures forall k :: c < k < e ==> Transparent(points[k])
  {
    if e - 1 == start || !Transparent(points[e - 1]) then e - 1 else ClusterStart(points, start, e - 1)
  }

  function Range(a: nat, b: nat): (r: seq<nat>)
    requires a <= b
    ensures |r| == b - a
  {
    seq(b - a, k requires 0 <= k < b - a => a + k)
  }

  function Reversed(points: seq<nat>, start: nat, e: nat): (r: seq<nat>)
    requires start <= e <= |points|
    ensures |r| == e - start
  {
    if e == start then []
    else
      var c := ClusterStart(points, start, e);
      Range(c, e) + Reversed(points, start, c)
  }

  function Order(points: seq<nat>, from: nat): (r: seq<nat>)
    requires from <= |points|
    ensures |r| == |points| - from
    decreases |points| - from
  {
    if from == |points| then []
    else
      var e := EndOfRun(points, from);
      if e == from then [from] + Order(points, from + 1) else Reversed(points, from, e) + Order(points, e)
  }

  // ----- where every unit ends up ---------------------------------------------

  function StartOfRun(points: seq<nat>, i: nat): (s: nat)
    requires i < |points| && InRun(points[i])
    ensures s <= i
  {
    if i == 0 || !InRun(points[i - 1]) then i else StartOfRun(points, i - 1)
  }

  lemma {:induction false} RunStarts(points: seq<nat>, i: nat)
    requires i < |points| && InRun(points[i])
    ensures var s := StartOfRun(points, i);
            && (s == 0 || !InRun(points[s - 1]))
            && (forall k :: s <= k <= i ==> InRun(points[k]))
            && EndOfRun(points, s) == EndOfRun(points, i)
  {
    hide InRun;
    if i > 0 && InRun(points[i - 1]) {
      RunStarts(points, i - 1);
    }
  }

  /** The end of the cluster that i is in: the next letter after i, or the end of the run. */
  function ClusterEnd(points: seq<nat>, i: nat, e: nat): (d: nat)
    requires i < e <= |points|
    ensures i < d <= e && (forall k :: i < k < d ==> Transparent(points[k])) && (d < e ==> !Transparent(points[d]))
    decreases e - i
  {
    if i + 1 == e || !Transparent(points[i + 1]) then i + 1 else ClusterEnd(points, i + 1, e)
  }

  /** The place of a unit: its own outside runs. In a run the clusters are mirrored: whatever
      comes after the cluster goes before it, and the cluster keeps its order. */
  function Place(points: seq<nat>, i: nat): (p: nat)
    requires i < |points|
  {
    if !InRun(points[i]) then i
    else
      var a, b := StartOfRun(points, i), EndOfRun(points, i);
      var c, d := ClusterStart(points, a, i + 1), ClusterEnd(points, i, b);
      a + (b - d) + (i - c)
  }

  lemma ClustersMeet(points: seq<nat>, start: nat, i: nat, e: nat)
    requires start <= i < e <= |points| && i >= ClusterStart(points, start, e)
    ensures ClusterStart(points, start, i + 1) == ClusterStart(points, start, e) && ClusterEnd(points, i, e) == e
  {
  }

  /** Mirroring part of a run: position by position. */
  lemma {:induction false} ReversedPlace(points: seq<nat>, start: nat, e: nat, i: nat)
    requires start <= i < e <= |points|
    ensures var c, d := ClusterStart(points, start, i + 1), ClusterEnd(points, i, e);
            && (e - d) + (i - c) < e - start
            && Reversed(points, start, e)[(e - d) + (i - c)] == i
  {
    hide *;
    var c := ClusterStart(points, start, e);
    if i >= c {
      ClustersMeet(points, start, i, e);
      ReversedAt(points, start, e, i - c);
    } else {
      ReversedPlace(points, start, c, i);
      SameClusterEnd(points, i, c, e);
      ReversedAt(points, start, e, (e - ClusterEnd(points, i, e)) + (i - ClusterStart(points, start, i + 1)));
    }
  }

  /** The last cluster comes first, and then the clusters before it. */
  lemma ReversedAt(points: seq<nat>, start: nat, e: nat, k: nat)
    requires start < e <= |points| && k < e - start
    ensures var c := ClusterStart(points, start, e);
            Reversed(points, start, e)[k] == if k < e - c then c + k else Reversed(points, start, c)[k - (e - c)]
  {
    hide ClusterStart;
    var c := ClusterStart(points, start, e);
    var first, rest := Range(c, e), Reversed(points, start, c);
    assert Reversed(points, start, e) == first + rest;
  }

  /** A cluster that ends before a letter does not care where the run ends. */
  lemma {:induction false} SameClusterEnd(points: seq<nat>, i: nat, c: nat, e: nat)
    requires i < c < e <= |points| && !Transparent(points[c])
    ensures ClusterEnd(points, i, c) == ClusterEnd(points, i, e)
    decreases c - i
  {
    if i + 1 < c && Transparent(points[i + 1]) {
      SameClusterEnd(points, i + 1, c, e);
    }
  }

  /** The position does not lie inside a run. */
  predicate BetweenRuns(points: seq<nat>, from: nat) {
    from <= |points| && !(0 < from < |points| && InRun(points[from - 1]) && InRun(points[from]))
  }

  lemma RunAround(points: seq<nat>, from: nat, i: nat)
    requires BetweenRuns(points, from) && from <= i < EndOfRun(points, from)
    ensures InRun(points[i]) && StartOfRun(points, i) == from && EndOfRun(points, i) == EndOfRun(points, from)
  {
    hide InRun;
    SameEnd(points, from, i);
    RunStarts(points, i);
  }

  lemma {:induction false} SameEnd(points: seq<nat>, from: nat, i: nat)
    requires from <= |points| && from <= i <= EndOfRun(points, from)
    ensures EndOfRun(points, i) == EndOfRun(points, from)
  {
    hide InRun;
    if i > from {
      SameEnd(points, from, i - 1);
    }
  }

  /** Every unit is emitted at its place, so all of them are, each once. */
  lemma {:induction false} OrderPlaces(points: seq<nat>, from: nat, i: nat)
    requires BetweenRuns(points, from) && from <= i < |points|
    ensures from <= Place(points, i) < |points| && Order(points, from)[Place(points, i) - from] == i
    decreases |points| - from
  {
    hide InRun, ClusterStart, ClusterEnd, Reversed;
    var e := EndOfRun(points, from);
    if i < e {
      RunAround(points, from, i);
      ReversedPlace(points, from, e, i);
    } else if e == from {
      if i > from {
        OrderPlaces(points, from + 1, i);
      }
    } else {
      OrderPlaces(points, e, i);
    }
  }

  /** The whole text: each position shows one unit, and each unit has one position. */
  lemma VisualOrder(points: seq<nat>)
    ensures |Order(points, 0)| == |points|
    ensures forall i :: 0 <= i < |points| ==> Place(points, i) < |points| && Order(points, 0)[Place(points, i)] == i
  {
    hide Order, Place;
    forall i | 0 <= i < |points| ensures Place(points, i) < |points| && Order(points, 0)[Place(points, i)] == i {
      OrderPlaces(points, 0, i);
    }
  }

  /** Inside a run: a mark stays directly behind what it stood behind, and of two clusters the
      later one is shown first. */
  lemma ClustersStay(points: seq<nat>, i: nat, j: nat)
    requires i < j < |points| && InRun(points[i]) && InRun(points[j]) && StartOfRun(points, i) == StartOfRun(points, j)
    ensures j == i + 1 && Transparent(points[j]) ==> Place(points, j) == Place(points, i) + 1
    ensures (exists k :: i < k <= j && !Transparent(points[k])) ==> Place(points, j) < Place(points, i)
  {
    hide InRun, Transparent;
    RunStarts(points, i);
    RunStarts(points, j);
  }
}
