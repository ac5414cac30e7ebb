/** The UTF-8 decoder and encoder of the text renderer (patcher/unicode_payload.cpp). */
module Utf8 {
  import opened Bytes

  const REPLACEMENT: nat := 0xFFFD

  /** A Unicode scalar value: a code point that is not a surrogate. */
  predicate Scalar(c: nat) {
    c < 0xD800 || 0xE000 <= c < 0x11_0000
  }

  predicate Continues(b: Byte) {
    0x80 <= b < 0xC0
  }

  datatype Decoded = Decoded(consumed: nat, codepoint: nat)

  /** The low six bits of the byte, put behind the bits so far. */
  function Shift(high: nat, b: Byte): nat {
    high * 64 + b % 64
  }

  /** One step of decoding. Nothing is consumed at the end of the text, and where a sequence
      has the right bytes but means no scalar value, or has a shorter form. Any other byte
      out of place counts as one replacement character. */
  function Decode(s: seq<Byte>): (d: Decoded)
    ensures d.consumed <= |s|
  {
    if s == [] then Decoded(0, 0)
    else
      var first: nat := s[0];
      if first < 0x80 then Decoded(1, first)
      else if 0xC0 <= first < 0xE0 && |s| >= 2 && Continues(s[1]) then
        var c := Shift(first % 32, s[1]);
        Decoded(if c >= 0x80 then 2 else 0, c)
      else if 0xE0 <= first < 0xF0 && |s| >= 3 && Continues(s[1]) && Continues(s[2]) then
        var c := Shift(Shift(first % 16, s[1]), s[2]);
        Decoded(if c >= 0x800 && !(0xD800 <= c <= 0xDFFF) then 3 else 0, c)
      else if 0xF0 <= first < 0xF8 && |s| >= 4 && Continues(s[1]) && Continues(s[2]) && Continues(s[3]) then
        var c := Shift(Shift(Shift(first % 8, s[1]), s[2]), s[3]);
        Decoded(if 0x1_0000 <= c <= 0x10_FFFF then 4 else 0, c)
      else Decoded(1, REPLACEMENT)
  }

  function Encode(c: nat): (s: seq<Byte>)
    requires c < 0x11_0000
    ensures 1 <= |s| <= 4
  {
    if c < 0x80 then [c]
    else if c < 0x800 then [0xC0 + c / 64, 0x80 + c % 64]
    else if c < 0x1_0000 then [0xE0 + c / 4096, 0x80 + c / 64 % 64, 0x80 + c % 64]
    else [0xF0 + c / 262144, 0x80 + c / 4096 % 64, 0x80 + c / 64 % 64, 0x80 + c % 64]
  }

  lemma ShiftBack(c: nat)
    ensures Shift(c / 64, 0x80 + c % 64) == c && c / 64 / 64 == c / 4096 && c / 4096 / 64 == c / 262144
  {
  }

  lemma ShiftApart(high: nat, b: Byte)
    requires Continues(b)
    ensures Shift(high, b) / 64 == high && 0x80 + Shift(high, b) % 64 == b
  {
  }

  lemma DecodeOneOrTwo(c: nat, rest: seq<Byte>)
    requires c < 0x800
    ensures Decode(Encode(c) + rest) == Decoded(if c < 0x80 then 1 else 2, c)
  {
    hide Shift;
    ShiftBack(c);
  }

  lemma DecodeThree(c: nat, rest: seq<Byte>)
    requires Scalar(c) && 0x800 <= c < 0x1_0000
    ensures Decode(Encode(c) + rest) == Decoded(3, c)
  {
    hide Shift;
    ShiftBack(c);
    ShiftBack(c / 64);
  }

  lemma DecodeFour(c: nat, rest: seq<Byte>)
    requires 0x1_0000 <= c < 0x11_0000
    ensures Decode(Encode(c) + rest) == Decoded(4, c)
  {
    hide Shift;
    ShiftBack(c);
    ShiftBack(c / 64);
    ShiftBack(c / 4096);
  }

  /** Encoding and decoding is the identity on every scalar value, whatever follows. */
  lemma DecodeOfEncode(c: nat, rest: seq<Byte>)
    requires Scalar(c)
    ensures Decode(Encode(c) + rest) == Decoded(|Encode(c)|, c)
  {
    hide Decode, Shift;
    if c < 0x800 {
      DecodeOneOrTwo(c, rest);
    } else if c < 0x1_0000 {
      DecodeThree(c, rest);
    } else {
      DecodeFour(c, rest);
    }
  }

  /** The first byte in which the two differ is smaller in the first one. */
  predicate Precedes(s: seq<Byte>, t: seq<Byte>) {
    s != [] && t != [] && (s[0] < t[0] || (s[0] == t[0] && Precedes(s[1..], t[1..])))
  }

  lemma DigitsInOrder(c: nat, d: nat)
    requires c < d
    ensures c / 64 < d / 64 || (c / 64 == d / 64 && c % 64 < d % 64)
  {
  }

  lemma ShorterFirst(c: nat, d: nat)
    requires c < d < 0x11_0000
    ensures |Encode(c)| <= |Encode(d)| && (|Encode(c)| < |Encode(d)| ==> Encode(c)[0] < Encode(d)[0])
  {
  }

  lemma {:induction false} FirstDifference(s: seq<Byte>, t: seq<Byte>, k: nat)
    requires k < |s| && k < |t| && s[k] < t[k] && forall i :: 0 <= i < k ==> s[i] == t[i]
    ensures Precedes(s, t)
  {
    if k > 0 {
      assert s[1..][k - 1] == s[k] && t[1..][k - 1] == t[k];
      FirstDifference(s[1..], t[1..], k - 1);
    }
  }

  /** The first digit of base 64 in which two numbers of up to four digits differ, the highest
      digit taken whole. */
  lemma DigitsDiffer(c: nat, d: nat)
    requires c < d
    ensures || c / 262144 < d / 262144
            || (c / 262144 == d / 262144 && c / 4096 % 64 < d / 4096 % 64)
            || (c / 4096 == d / 4096 && c / 64 % 64 < d / 64 % 64)
            || (c / 64 == d / 64 && c % 64 < d % 64)
    ensures c / 4096 < d / 4096 || (c / 4096 == d / 4096 && c / 64 % 64 < d / 64 % 64) || (c / 64 == d / 64 && c % 64 < d % 64)
    ensures c / 64 <= d / 64 && c / 4096 <= d / 4096 && c / 262144 <= d / 262144
  {
    ShiftBack(c);
    ShiftBack(d);
    DigitsInOrder(c, d);
    if c / 64 < d / 64 {
      DigitsInOrder(c / 64, d / 64);
      if c / 4096 < d / 4096 {
        DigitsInOrder(c / 4096, d / 4096);
      }
    }
  }

  /** The lengths are the same, and so are the bytes up to the first digit that differs. */
  lemma DifferAt(c: nat, d: nat) returns (k: nat)
    requires c < d < 0x11_0000 && |Encode(c)| == |Encode(d)|
    ensures var s, t := Encode(c), Encode(d);
            k < |s| && s[k] < t[k] && forall i :: 0 <= i < k ==> s[i] == t[i]
  {
    var n := |Encode(c)|;
    if n == 1 {
      return 0;
    }
    DigitsDiffer(c, d);
    SameHigher(c, d);
    var first, second, third := c / 262144 == d / 262144, c / 4096 == d / 4096, c / 64 == d / 64;
    k := if n == 2 then (if third then 1 else 0)
         else if n == 3 then (if third then 2 else if second then 1 else 0)
         else if third then 3 else if second then 2 else if first then 1 else 0;
  }

  lemma SameHigher(c: nat, d: nat)
    ensures c / 64 == d / 64 ==> c / 4096 == d / 4096 && c / 64 % 64 == d / 64 % 64
    ensures c / 4096 == d / 4096 ==> c / 262144 == d / 262144 && c / 4096 % 64 == d / 4096 % 64
  {
    ShiftBack(c);
    ShiftBack(d);
  }

  /** Encodings compare byte by byte as the code points do. */
  lemma EncodingKeepsOrder(c: nat, d: nat)
    requires c < d < 0x11_0000
    ensures Precedes(Encode(c), Encode(d)) && !Precedes(Encode(d), Encode(c))
  {
    hide Encode;
    ShorterFirst(c, d);
    var k := 0;
    if |Encode(c)| == |Encode(d)| {
      k := DifferAt(c, d);
    }
    FirstDifference(Encode(c), Encode(d), k);
    NotBoth(Encode(c), Encode(d));
  }

  lemma {:induction false} NotBoth(s: seq<Byte>, t: seq<Byte>)
    ensures !(Precedes(s, t) && Precedes(t, s))
  {
    if s != [] && t != [] {
      NotBoth(s[1..], t[1..]);
    }
  }

  lemma TwoApart(a: nat, b: Byte, c: Byte)
    requires Continues(b) && Continues(c)
    ensures var n := Shift(Shift(a, b), c); n / 4096 == a && 0x80 + n / 64 % 64 == b && 0x80 + n % 64 == c
  {
    hide Shift;
    ShiftApart(a, b);
    ShiftApart(Shift(a, b), c);
    ShiftBack(Shift(Shift(a, b), c));
  }

  lemma EncodeTwo(s: seq<Byte>)
    requires Decode(s).consumed == 2
    ensures Scalar(Decode(s).codepoint) && Encode(Decode(s).codepoint) == s[..2]
  {
    hide Shift;
    ShiftApart(s[0] % 32, s[1]);
  }

  lemma EncodeThree(s: seq<Byte>)
    requires Decode(s).consumed == 3
    ensures Scalar(Decode(s).codepoint) && Encode(Decode(s).codepoint) == s[..3]
  {
    hide Shift;
    TwoApart(s[0] % 16, s[1], s[2]);
  }

  lemma EncodeFour(s: seq<Byte>)
    requires Decode(s).consumed == 4
    ensures Scalar(Decode(s).codepoint) && Encode(Decode(s).codepoint) == s[..4]
  {
    hide Shift;
    ShiftApart(s[0] % 8, s[1]);
    TwoApart(Shift(s[0] % 8, s[1]), s[2], s[3]);
    ShiftBack(Decode(s).codepoint);
  }

  /** Whatever is consumed is the encoding of the scalar value that came out, or it is one byte
      out of place. */
  lemma EncodeOfDecode(s: seq<Byte>)
    ensures var d := Decode(s);
            d.consumed > 0 ==>
              && Scalar(d.codepoint)
              && (Encode(d.codepoint) == s[..d.consumed] || (d == Decoded(1, REPLACEMENT) && s[0] >= 0x80))
  {
    hide Shift;
    var n := Decode(s).consumed;
    if n == 2 {
      EncodeTwo(s);
    } else if n == 3 {
      EncodeThree(s);
    } else if n == 4 {
      EncodeFour(s);
    }
  }

  /** The lead byte is followed by as many continuation bytes as it announces. */
  predicate Patterned(s: seq<Byte>) {
    || (|s| >= 2 && 0xC0 <= s[0] < 0xE0 && Continues(s[1]))
    || (|s| >= 3 && 0xE0 <= s[0] < 0xF0 && Continues(s[1]) && Continues(s[2]))
    || (|s| >= 4 && 0xF0 <= s[0] < 0xF8 && Continues(s[1]) && Continues(s[2]) && Continues(s[3]))
  }

  /** Decoding gives up exactly on sequences of the right pattern that are no scalar value's
      encoding. */
  lemma RejectedExactly(s: seq<Byte>)
    requires s != []
    ensures Decode(s).consumed == 0 <==> Patterned(s) && forall c :: Scalar(c) ==> !(Encode(c) <= s)
  {
    forall c | Scalar(c) && Encode(c) <= s ensures Decode(s).consumed > 0 {
      DecodeOfEncode(c, s[|Encode(c)|..]);
      assert s == Encode(c) + s[|Encode(c)|..];
    }
    if Patterned(s) && Decode(s).consumed > 0 {
      EncodeOfDecode(s);
      assert Encode(Decode(s).codepoint) <= s;
    }
  }

  /** A step does not look beyond what it consumes. */
  lemma DecodeOfPrefix(s: seq<Byte>, m: nat)
    requires 0 < Decode(s).consumed <= m <= |s|
    ensures Decode(s[..m]) == Decode(s)
  {
  }

  // ----- whole texts ----------------------------------------------------------

  /** Where the decoder stands after k steps. */
  function Offset(s: seq<Byte>, k: nat): (o: nat)
    ensures o <= |s|
  {
    if k == 0 then 0
    else
      var before := Offset(s, k - 1);
      before + Decode(s[before..]).consumed
  }

  function PointAt(s: seq<Byte>, k: nat): nat {
    Decode(s[Offset(s, k)..]).codepoint
  }

  function Points(s: seq<Byte>, k: nat): (r: seq<nat>)
    ensures |r| == k
  {
    seq(k, i requires 0 <= i < k => PointAt(s, i))
  }

  /** Each of the first k steps consumes something. */
  ghost predicate Moves(s: seq<Byte>, k: nat) {
    forall i :: 0 <= i < k ==> Decode(s[Offset(s, i)..]).consumed > 0
  }

  /** The text is the k code points, with nothing left over. */
  ghost predicate Complete(s: seq<Byte>, k: nat) {
    Moves(s, k) && Offset(s, k) == |s|
  }

  /** The decoder gives up before the end of the text. */
  ghost predicate Stuck(s: seq<Byte>, k: nat) {
    Moves(s, k) && Offset(s, k) < |s| && Decode(s[Offset(s, k)..]).consumed == 0
  }

  lemma {:induction false} OffsetGrows(s: seq<Byte>, i: nat, k: nat)
    requires i <= k && Moves(s, k)
    ensures Offset(s, i) + (k - i) <= Offset(s, k)
    decreases k - i
  {
    hide Decode;
    if i < k {
      OffsetGrows(s, i + 1, k);
      assert Decode(s[Offset(s, i)..]).consumed > 0;
    }
  }

  /** A text is complete or the decoder is stuck in it, never both, and for one number of
      steps only. */
  lemma EndsOneWay(s: seq<Byte>, k: nat, l: nat)
    requires Complete(s, k) || Stuck(s, k)
    requires Complete(s, l) || Stuck(s, l)
    ensures k == l && Complete(s, k) == Complete(s, l)
  {
    EndIsLast(s, k, l);
    EndIsLast(s, l, k);
  }

  /** Decoding goes on to one of the two ends. */
  lemma {:induction false} EndFrom(s: seq<Byte>, k: nat) returns (l: nat)
    requires Moves(s, k)
    ensures Complete(s, l) || Stuck(s, l)
    decreases |s| - Offset(s, k)
  {
    hide Decode;
    if Offset(s, k) == |s| || Decode(s[Offset(s, k)..]).consumed == 0 {
      return k;
    }
    l := EndFrom(s, k + 1);
  }

  /** Every text is either decoded to its end or left at one place where the decoder gives up,
      and this happens after one number of steps only. */
  lemma EndsExactlyOnce(s: seq<Byte>)
    ensures exists k ::
              && (Complete(s, k) != Stuck(s, k))
              && forall l :: Complete(s, l) || Stuck(s, l) ==> l == k
  {
    NoSteps(s);
    var k := EndFrom(s, 0);
    hide Decode, Moves;
    assert Complete(s, k) != Stuck(s, k);
    forall l | Complete(s, l) || Stuck(s, l) ensures l == k {
      EndsOneWay(s, k, l);
    }
  }

  lemma NothingToDecode()
    ensures Decode([]) == Decoded(0, 0)
  {
  }

  lemma NoSteps(s: seq<Byte>)
    ensures Moves(s, 0) && Offset(s, 0) == 0 && Points(s, 0) == []
  {
  }

  lemma EndIsLast(s: seq<Byte>, k: nat, l: nat)
    requires Complete(s, k) || Stuck(s, k)
    requires Moves(s, l)
    ensures l <= k
  {
    hide Decode;
    NothingToDecode();
    assert Decode(s[Offset(s, k)..]).consumed == 0 by {
      if Complete(s, k) {
        assert s[Offset(s, k)..] == [];
      }
    }
  }

  lemma {:induction false} PointsAreScalars(s: seq<Byte>, k: nat)
    requires Moves(s, k)
    ensures forall i :: 0 <= i < k ==> Scalar(PointAt(s, i))
  {
    forall i | 0 <= i < k ensures Scalar(PointAt(s, i)) {
      EncodeOfDecode(s[Offset(s, i)..]);
    }
  }

  /** The first steps on a prefix that ends where a step ends are the steps on the text. */
  lemma {:induction false} PrefixSteps(s: seq<Byte>, k: nat, i: nat)
    requires Moves(s, k) && i <= k
    ensures var t := s[..Offset(s, k)]; Moves(t, i) && Offset(t, i) == Offset(s, i) && Points(t, i) == Points(s, i)
  {
    hide Decode;
    var t := s[..Offset(s, k)];
    if i > 0 {
      PrefixSteps(s, k, i - 1);
      var o := Offset(s, i - 1);
      OffsetGrows(s, i, k);
      assert Decode(s[o..]).consumed > 0;
      assert t[o..] == s[o..][..Offset(s, k) - o];
      DecodeOfPrefix(s[o..], Offset(s, k) - o);
      forall j | 0 <= j < i ensures PointAt(t, j) == PointAt(s, j) {
        if j < i - 1 {
          assert PointAt(t, j) == Points(t, i - 1)[j] && PointAt(s, j) == Points(s, i - 1)[j];
        }
      }
    }
  }

  lemma PrefixIsComplete(s: seq<Byte>, k: nat)
    requires Moves(s, k)
    ensures var t := s[..Offset(s, k)]; Complete(t, k) && Points(t, k) == Points(s, k)
  {
    PrefixSteps(s, k, k);
  }

  // ----- well-formed texts ----------------------------------------------------

  predicate Scalars(points: seq<nat>) {
    forall i :: 0 <= i < |points| ==> Scalar(points[i])
  }

  function EncodeAll(points: seq<nat>): seq<Byte>
    requires Scalars(points)
  {
    if points == [] then [] else EncodeAll(points[..|points| - 1]) + Encode(points[|points| - 1])
  }

  ghost predicate WellFormed(s: seq<Byte>) {
    exists points: seq<nat> :: Scalars(points) && s == EncodeAll(points)
  }

  lemma OneMoreStep(s: seq<Byte>, k: nat, d: Decoded)
    requires Moves(s, k) && Decode(s[Offset(s, k)..]) == d && d.consumed > 0
    ensures Moves(s, k + 1) && Offset(s, k + 1) == Offset(s, k) + d.consumed && Points(s, k + 1) == Points(s, k) + [d.codepoint]
  {
    hide Decode;
  }

  /** The encoding of any scalar values decodes to just those. */
  lemma {:induction false} DecodeOfEncodeAll(points: seq<nat>, rest: seq<Byte>)
    requires Scalars(points)
    ensures var s := EncodeAll(points) + rest;
            && Moves(s, |points|) && Offset(s, |points|) == |EncodeAll(points)| && Points(s, |points|) == points
  {
    hide Decode, Encode, Moves, Points;
    if points == [] {
      NoSteps(EncodeAll(points) + rest);
    } else {
      var n := |points| - 1;
      var front, last := EncodeAll(points[..n]), Encode(points[n]);
      var s := front + (last + rest);
      DecodeOfEncodeAll(points[..n], last + rest);
      assert EncodeAll(points) + rest == s;
      assert s[|front|..] == last + rest;
      DecodeOfEncode(points[n], rest);
      OneMoreStep(s, n, Decoded(|last|, points[n]));
      assert points == points[..n] + [points[n]];
    }
  }
}
