/** UTF-8 encoding of strings (RFC 3629, section 3), as str.encode("utf-8") produces it.
    A Dafny char is a Unicode scalar value, so every string here has an encoding. */
module Utf8 {
  import opened BigEndian

  /** The number of bytes a sequence has, announced by its first byte
      (the table of RFC 3629 section 3); 0 for a byte that cannot begin a sequence. */
  function LeadLength(b: Byte): nat
  {
    if b < 0x80 then 1
    else if b < 0xC0 then 0
    else if b < 0xE0 then 2
    else if b < 0xF0 then 3
    else if b < 0xF8 then 4
    else 0
  }

  /** A continuation byte: bit pattern 10xxxxxx. */
  predicate IsContinuation(b: Byte)
  {
    0x80 <= b < 0xC0
  }

  /** The scalar value spelled by the x bits of a one- to four-byte sequence
      (the table of RFC 3629 section 3 read from right to left). */
  function ScalarBits(b: seq<Byte>): int
    requires 1 <= |b| <= 4
  {
    if |b| == 1 then b[0] as int
    else if |b| == 2 then (b[0] as int % 0x20) * 0x40 + b[1] as int % 0x40
    else if |b| == 3 then (b[0] as int % 0x10) * 0x1000 + (b[1] as int % 0x40) * 0x40 + b[2] as int % 0x40
    else (b[0] as int % 0x08) * 0x40000 + (b[1] as int % 0x40) * 0x1000 + (b[2] as int % 0x40) * 0x40 + b[3] as int % 0x40
  }

  /** The UTF-8 encoding of one character: the shortest form the table allows, whose
      lead byte announces its length, whose other bytes are continuation bytes and
      whose x bits spell the character's scalar value. */
  function EncodeChar(c: char): (b: seq<Byte>)
    ensures 1 <= |b| <= 4
    ensures |b| == (if c as int < 0x80 then 1 else if c as int < 0x800 then 2
                    else if c as int < 0x10000 then 3 else 4)
    ensures LeadLength(b[0]) == |b|
    ensures forall i :: 1 <= i < |b| ==> IsContinuation(b[i])
    ensures ScalarBits(b) == c as int
  {
    var v := c as int;
    if v < 0x80 then [v]
    else if v < 0x800 then [0xC0 + v / 0x40, 0x80 + v % 0x40]
    else if v < 0x10000 then
      ThreeByteBits(v);
      [0xE0 + v / 0x1000, 0x80 + v / 0x40 % 0x40, 0x80 + v % 0x40]
    else
      FourByteBits(v);
      [0xF0 + v / 0x40000, 0x80 + v / 0x1000 % 0x40, 0x80 + v / 0x40 % 0x40, 0x80 + v % 0x40]
  }

  /** The x bits of the three-byte form of v spell v. */
  lemma ThreeByteBits(v: int)
    requires 0x800 <= v < 0x10000
    ensures var b := [0xE0 + v / 0x1000, 0x80 + v / 0x40 % 0x40, 0x80 + v % 0x40];
            (b[0] % 0x10) * 0x1000 + (b[1] % 0x40) * 0x40 + b[2] % 0x40 == v
  {
    var hi, lo := v / 0x1000, v % 0x1000;
    assert v / 0x40 == hi * 0x40 + lo / 0x40;
    assert v / 0x40 % 0x40 == lo / 0x40;
    assert v % 0x40 == lo % 0x40;
  }

  /** The x bits of the four-byte form of v spell v. */
  lemma FourByteBits(v: int)
    requires 0x10000 <= v < 0x110000
    ensures var b := [0xF0 + v / 0x40000, 0x80 + v / 0x1000 % 0x40, 0x80 + v / 0x40 % 0x40, 0x80 + v % 0x40];
            (b[0] % 0x08) * 0x40000 + (b[1] % 0x40) * 0x1000 + (b[2] % 0x40) * 0x40 + b[3] % 0x40 == v
  {
    var hi, lo := v / 0x40000, v % 0x40000;
    assert v / 0x1000 == hi * 0x40 + lo / 0x1000;
    assert v / 0x1000 % 0x40 == lo / 0x1000;
    var lo2 := lo % 0x1000;
    assert lo == (lo / 0x1000) * 0x1000 + lo2;
    assert v / 0x40 == (v / 0x1000) * 0x40 + lo2 / 0x40;
    assert v / 0x40 % 0x40 == lo2 / 0x40;
    assert v % 0x40 == lo2 % 0x40;
    assert (0xF0 + hi) % 0x08 == hi;
    assert lo2 == (lo2 / 0x40) * 0x40 + lo2 % 0x40;
  }

  /** The UTF-8 encoding of a string: its characters' encodings, in order, with nothing between. */
  function Encode(s: string): (b: seq<Byte>)
    ensures |s| <= |b| <= 4 * |s|
  {
    if s == [] then [] else EncodeChar(s[0]) + Encode(s[1..])
  }

  /** Different characters have different encodings. */
  lemma EncodeCharInjective(c: char, d: char)
    requires EncodeChar(c) == EncodeChar(d)
    ensures c == d
  {
    assert c as int == ScalarBits(EncodeChar(c));
  }

  /** The encoding determines the string: UTF-8 is uniquely decodable, because each lead byte
      announces how many bytes its character takes. */
  lemma {:induction false} EncodeInjective(s: string, t: string)
    requires Encode(s) == Encode(t)
    ensures s == t
  {
    if s != [] && t != [] {
      var b := Encode(s);
      var x, y := EncodeChar(s[0]), EncodeChar(t[0]);
      assert b == x + Encode(s[1..]) && b == y + Encode(t[1..]);
      assert x[0] == b[0] == y[0];
      assert |x| == LeadLength(b[0]) == |y|;
      assert x == b[..|x|] == y;
      EncodeCharInjective(s[0], t[0]);
      assert Encode(s[1..]) == b[|x|..] == Encode(t[1..]);
      EncodeInjective(s[1..], t[1..]);
      assert s == [s[0]] + s[1..] && t == [t[0]] + t[1..];
    }
  }

  /** The encoding begins with a zero byte exactly when the string begins with U+0000. */
  lemma LeadingZeroByte(s: string)
    requires s != []
    ensures Encode(s)[0] == 0 <==> s[0] == '\0'
  {
    assert Encode(s)[0] == EncodeChar(s[0])[0];
  }

  /** k characters U+0000. */
  function Nuls(k: nat): (s: string)
    ensures |s| == k && forall i :: 0 <= i < k ==> s[i] == '\0'
  {
    if k == 0 then [] else ['\0'] + Nuls(k - 1)
  }

  /** Each U+0000 in front of a string adds one zero byte in front of its encoding. */
  lemma {:induction false} EncodeNuls(k: nat, s: string)
    ensures Encode(Nuls(k) + s) == Zeros(k) + Encode(s)
  {
    if k > 0 {
      var t := Nuls(k) + s;
      assert t[0] == '\0' && t[1..] == Nuls(k - 1) + s;
      EncodeNuls(k - 1, s);
      assert Zeros(k) == [0] + Zeros(k - 1);
    } else {
      assert Nuls(k) + s == s;
    }
  }
}
