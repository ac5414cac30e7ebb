/** Positions between the code points of well-formed UTF-8 text. */
module FilenameText {
  import opened Bytes
  import opened Sequences
  import opened Utf8

  /** Nothing is split at this position. */
  ghost predicate Boundary(s: seq<Byte>, p: nat) {
    p <= |s| && WellFormed(s[..p]) && WellFormed(s[p..])
  }

  lemma EmptyText()
    ensures EncodeAll([]) == []
  {
  }

  lemma EncodeAllStep(points: seq<nat>, c: nat)
    requires Scalars(points) && Scalar(c)
    ensures Scalars(points + [c]) && EncodeAll(points + [c]) == EncodeAll(points) + Encode(c)
  {
    hide Encode;
    assert (points + [c])[..|points|] == points;
  }

  lemma {:induction false} EncodeAllBoth(a: seq<nat>, b: seq<nat>)
    requires Scalars(a) && Scalars(b)
    ensures Scalars(a + b) && EncodeAll(a + b) == EncodeAll(a) + EncodeAll(b)
  {
    hide Encode, EncodeAll;
    if b == [] {
      assert a + b == a;
      EmptyText();
    } else {
      var n := |b| - 1;
      EncodeAllBoth(a, b[..n]);
      EncodeAllStep(a + b[..n], b[n]);
      EncodeAllStep(b[..n], b[n]);
      assert a + b == a + b[..n] + [b[n]] && b == b[..n] + [b[n]];
      Assoc(EncodeAll(a), EncodeAll(b[..n]), Encode(b[n]));
    }
  }

  lemma WellFormedBoth(s: seq<Byte>, t: seq<Byte>)
    requires WellFormed(s) && WellFormed(t)
    ensures WellFormed(s + t)
  {
    hide EncodeAll, Scalars;
    var a: seq<nat> :| Scalars(a) && s == EncodeAll(a);
    var b: seq<nat> :| Scalars(b) && t == EncodeAll(b);
    EncodeAllBoth(a, b);
  }

  lemma WellFormedAll(points: seq<nat>)
    requires Scalars(points)
    ensures WellFormed(EncodeAll(points))
  {
    hide EncodeAll, Scalars;
  }

  lemma WellFormedPoint(c: nat)
    requires Scalar(c)
    ensures WellFormed(Encode(c)) && WellFormed([])
  {
    hide Encode;
    WellFormedAll([c]);
    WellFormedAll([]);
    assert [c][..0] == [];
    assert EncodeAll([c]) == [] + Encode(c);
  }

  /** Both ends of a well-formed text are boundaries. */
  lemma EndsAreBoundaries(s: seq<Byte>)
    requires WellFormed(s)
    ensures Boundary(s, 0) && Boundary(s, |s|)
  {
    hide WellFormed;
    WellFormedPoint(0);
    assert s[0..] == s && s[..|s|] == s && s[|s|..] == [] && s[..0] == [];
  }

  /** Replacing what is between two boundaries gives well-formed text again, with a boundary
      behind the new part. */
  lemma Spliced(s: seq<Byte>, a: nat, b: nat, bytes: seq<Byte>)
    requires Boundary(s, a) && Boundary(s, b) && a <= b && WellFormed(bytes)
    ensures WellFormed(s[..a] + bytes + s[b..]) && Boundary(s[..a] + bytes + s[b..], a + |bytes|)
  {
    hide WellFormed;
    WellFormedBoth(s[..a], bytes);
    WellFormedBoth(s[..a] + bytes, s[b..]);
    var t := s[..a] + bytes + s[b..];
    assert t[..a + |bytes|] == s[..a] + bytes && t[a + |bytes|..] == s[b..];
  }

  /** One code point starts at p and ends at q. */
  ghost predicate PointBetween(s: seq<Byte>, p: nat, q: nat) {
    p < q <= |s| && Boundary(s, p) && Boundary(s, q) && exists c :: Scalar(c) && s[p..q] == Encode(c)
  }

  lemma EncodeShape(c: nat)
    requires Scalar(c)
    ensures var e := Encode(c); !Continues(e[0]) && forall i :: 0 < i < |e| ==> Continues(e[i])
  {
  }

  /** Before every boundary but the first there is one code point. */
  lemma PointBefore(s: seq<Byte>, q: nat) returns (p: nat)
    requires Boundary(s, q) && q > 0
    ensures PointBetween(s, p, q) && !Continues(s[p]) && forall i :: p < i < q ==> Continues(s[i])
  {
    hide Encode, Continues;
    var points: seq<nat> :| Scalars(points) && s[..q] == EncodeAll(points);
    var n := |points| - 1;
    var c := points[n];
    p := |EncodeAll(points[..n])|;
    assert s[..q] == EncodeAll(points[..n]) + Encode(c);
    WellFormedAll(points[..n]);
    WellFormedPoint(c);
    assert s[..p] == s[..q][..p] == EncodeAll(points[..n]);
    assert s[p..q] == s[..q][p..] == Encode(c);
    assert s[p..] == s[p..q] + s[q..];
    WellFormedBoth(Encode(c), s[q..]);
    EncodeShape(c);
    forall i | p < i < q ensures Continues(s[i]) {
      assert s[i] == Encode(c)[i - p];
    }
    assert s[p] == Encode(c)[0];
  }

  /** Behind every boundary but the last there is one code point. */
  lemma PointAfter(s: seq<Byte>, p: nat) returns (q: nat)
    requires Boundary(s, p) && p < |s|
    ensures PointBetween(s, p, q) && forall i :: p < i < q ==> Continues(s[i])
    ensures q < |s| ==> !Continues(s[q])
  {
    hide Encode, Continues, EncodeAll, WellFormed;
    var c, rest := TakePoint(s[p..]);
    q := p + |Encode(c)|;
    SliceOfDrop(s, p, 0, q - p);
    SliceOfDrop(s, p, q - p, q - p);
    assert s[p..][0..q - p] == s[p..][..q - p] == Encode(c);
    WellFormedAll(rest);
    WellFormedPoint(c);
    assert s[..q] == s[..p] + s[p..q];
    WellFormedBoth(s[..p], Encode(c));
    EncodeShape(c);
    forall i | p < i < q ensures Continues(s[i]) {
      assert s[i] == Encode(c)[i - p];
    }
    if q < |s| {
      var d, others := TakePoint(s[q..]);
      EncodeShape(d);
      assert s[q] == s[q..][0] == Encode(d)[0];
    }
  }

  /** The first code point of a text, and the others. */
  lemma TakePoint(t: seq<Byte>) returns (c: nat, rest: seq<nat>)
    requires WellFormed(t) && t != []
    ensures Scalar(c) && Scalars(rest) && t == Encode(c) + EncodeAll(rest)
  {
    hide Encode;
    var points: seq<nat> :| Scalars(points) && t == EncodeAll(points);
    c, rest := points[0], points[1..];
    FirstPoint(points);
  }

  lemma FirstPoint(points: seq<nat>)
    requires Scalars(points) && points != []
    ensures Scalars(points[1..]) && EncodeAll(points) == Encode(points[0]) + EncodeAll(points[1..])
  {
    hide Encode;
    EncodeAllBoth([points[0]], points[1..]);
    assert [points[0]] + points[1..] == points;
    assert [points[0]][..0] == [];
    assert EncodeAll([points[0]]) == [] + Encode(points[0]);
  }

  /** An ASCII byte is a code point of its own, wherever it stands. */
  lemma AsciiStandsAlone(s: seq<Byte>, q: nat, i: nat)
    requires Boundary(s, q) && i < q && s[i] < 0x80
    ensures Boundary(s, i) && Boundary(s, i + 1)
    decreases q
  {
    hide Boundary;
    var p := PointBefore(s, q);
    if i < p {
      AsciiStandsAlone(s, p, i);
    } else if i == p {
      assert q == p + 1 by {
        var c :| Scalar(c) && s[p..q] == Encode(c);
        assert Encode(c)[0] == s[p];
      }
    }
  }
}
