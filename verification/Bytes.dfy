/** Bytes, 16-bit characters, and little-endian numbers in byte sequences. */
module Bytes {

  type Byte = x: int | 0 <= x < 256

  type Wchar = x: int | 0 <= x < 65536

  function Zeros(n: nat): (s: seq<Byte>)
    ensures |s| == n && forall i :: 0 <= i < n ==> s[i] == 0
  {
    seq(n, _ => 0)
  }

  /** The value modulo 256^width, least significant byte first. */
  function Little(value: nat, width: nat): (s: seq<Byte>)
    ensures |s| == width
  {
    if width == 0 then [] else [value % 256] + Little(value / 256, width - 1)
  }

  function Number(s: seq<Byte>): nat {
    if s == [] then 0 else s[0] + 256 * Number(s[1..])
  }

  function Power256(n: nat): (p: nat)
    ensures p > 0
  {
    if n == 0 then 1 else 256 * Power256(n - 1)
  }

  lemma {:induction false} NumberBound(s: seq<Byte>)
    ensures Number(s) < Power256(|s|)
  {
    if s != [] {
      NumberBound(s[1..]);
    }
  }

  lemma {:induction false} NumberOfLittle(value: nat, width: nat)
    requires value < Power256(width)
    ensures Number(Little(value, width)) == value
  {
    if width > 0 {
      NumberOfLittle(value / 256, width - 1);
      assert Little(value, width)[1..] == Little(value / 256, width - 1);
    }
  }

  lemma LowestByte(b: Byte, n: nat)
    ensures (b + 256 * n) % 256 == b && (b + 256 * n) / 256 == n
  {
  }

  lemma {:induction false} LittleOfNumber(s: seq<Byte>)
    ensures Little(Number(s), |s|) == s
  {
    if s != [] {
      LittleOfNumber(s[1..]);
      LowestByte(s[0], Number(s[1..]));
      assert [s[0]] + s[1..] == s;
    }
  }

  lemma LessByFactor(a: int, b: int, d: nat)
    requires a * d < b * d
    ensures a < b
  {
    assert (b - a) * d > 0;
  }

  lemma OneQuotient(x: nat, d: nat, q: nat, r: nat)
    requires x == q * d + r && r < d
    ensures x / d == q
  {
    var p := x / d;
    assert x == p * d + x % d;
    LessByFactor(p, q + 1, d);
    LessByFactor(q, p + 1, d);
  }

  lemma DividedTwice(x: nat, p: nat)
    requires p > 0
    ensures x / 256 / p == x / (256 * p)
  {
    var q, r := x / 256 / p, x / 256 % p;
    assert x / 256 == q * p + r;
    assert x == 256 * (q * p + r) + x % 256;
    assert 256 * (q * p) == q * (256 * p);
    OneQuotient(x, 256 * p, q, 256 * r + x % 256);
  }

  /** Byte i of a number has the weight 256^i: the least significant byte comes first. */
  lemma {:induction false} ByteOfLittle(value: nat, width: nat, i: nat)
    requires i < width
    ensures Little(value, width)[i] == value / Power256(i) % 256
  {
    if i > 0 {
      ByteOfLittle(value / 256, width - 1, i - 1);
      DividedTwice(value, Power256(i - 1));
    }
  }

  lemma ByteOfNumber(s: seq<Byte>, i: nat)
    requires i < |s|
    ensures s[i] == Number(s) / Power256(i) % 256
  {
    LittleOfNumber(s);
    ByteOfLittle(Number(s), |s|, i);
  }

  /** 16-bit characters, two bytes each. */
  function WideBytes(text: seq<Wchar>): (s: seq<Byte>)
    ensures |s| == 2 * |text|
  {
    if text == [] then [] else Little(text[0], 2) + WideBytes(text[1..])
  }

  /** The characters that bytes mean; an odd last byte means nothing. */
  function WideOf(s: seq<Byte>): (r: seq<Wchar>)
    ensures |r| == |s| / 2
  {
    if |s| < 2 then []
    else
      NumberBound(s[..2]);
      assert Power256(2) == 65536;
      [Number(s[..2])] + WideOf(s[2..])
  }

  lemma {:induction false} WideOfWideBytes(text: seq<Wchar>)
    ensures WideOf(WideBytes(text)) == text
  {
    if text != [] {
      WideOfWideBytes(text[1..]);
      assert Power256(2) == 65536;
      NumberOfLittle(text[0], 2);
      var s := WideBytes(text);
      assert s[..2] == Little(text[0], 2) && s[2..] == WideBytes(text[1..]);
    }
  }

  lemma {:induction false} WideBytesOfWide(s: seq<Byte>)
    requires |s| % 2 == 0
    ensures WideBytes(WideOf(s)) == s
  {
    if s != [] {
      WideBytesOfWide(s[2..]);
      LittleOfNumber(s[..2]);
      assert WideOf(s)[1..] == WideOf(s[2..]);
    }
  }

  lemma PowerOf4()
    ensures Power256(4) == 0x1_0000_0000
  {
    assert Power256(2) == 65536;
    assert Power256(3) == 256 * Power256(2);
  }

  lemma PowerOf8()
    ensures Power256(8) == 0x1_0000_0000_0000_0000
  {
    PowerOf4();
    assert Power256(6) == 65536 * Power256(4) by {
      assert Power256(5) == 256 * Power256(4);
    }
    assert Power256(7) == 256 * Power256(6);
  }

  /** The bytes of the field of this width at this offset. */
  function Field(s: seq<Byte>, at: nat, width: nat): seq<Byte>
    requires at + width <= |s|
  {
    s[at..at + width]
  }

  /** The sequence with some bytes replaced from an offset on. */
  function Patched(s: seq<Byte>, at: nat, bytes: seq<Byte>): (r: seq<Byte>)
    requires at + |bytes| <= |s|
    ensures |r| == |s|
  {
    s[..at] + bytes + s[at + |bytes|..]
  }

  lemma PatchedField(s: seq<Byte>, at: nat, bytes: seq<Byte>)
    requires at + |bytes| <= |s|
    ensures Field(Patched(s, at, bytes), at, |bytes|) == bytes
  {
  }

  lemma PatchedElsewhere(s: seq<Byte>, at: nat, bytes: seq<Byte>, other: nat, width: nat)
    requires at + |bytes| <= |s| && other + width <= |s|
    requires other + width <= at || at + |bytes| <= other
    ensures Field(Patched(s, at, bytes), other, width) == Field(s, other, width)
  {
  }

  lemma PatchAtEnd(s: seq<Byte>, at: nat, bytes: seq<Byte>)
    requires at + |bytes| <= |s|
    ensures Patched(s, at, bytes)[..at + |bytes|] == s[..at] + bytes
    ensures Patched(s, at, bytes)[at + |bytes|..] == s[at + |bytes|..]
  {
  }

  method WriteAt(a: array<Byte>, at: nat, bytes: seq<Byte>)
    requires at + |bytes| <= a.Length
    modifies a
    ensures a[..] == Patched(old(a[..]), at, bytes)
  {
    forall i | 0 <= i < |bytes| {
      a[at + i] := bytes[i];
    }
  }

  /** memmove: the source and the target may overlap. */
  method MoveWithin(a: array<Byte>, target: nat, source: nat, n: nat)
    requires target + n <= a.Length && source + n <= a.Length
    modifies a
    ensures a[..] == Patched(old(a[..]), target, old(a[source..source + n]))
  {
    forall i | 0 <= i < n {
      a[target + i] := a[source + i];
    }
  }
}
