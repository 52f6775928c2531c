/** Unsigned and two's-complement big-endian readings of byte strings:
    the behaviour of int.from_bytes(..., 'big') and int.to_bytes(width, 'big'). */
module BigEndian {

  type Byte = b: int | 0 <= b < 256

  /** 256 to the power k: one more than the largest value k bytes can hold. */
  function Pow256(k: nat): (r: nat)
    ensures r >= 1
  {
    if k == 0 then 1 else 256 * Pow256(k - 1)
  }

  lemma {:induction false} Pow256Monotone(a: nat, b: nat)
    requires a <= b
    ensures Pow256(a) <= Pow256(b)
  {
    if a < b {
      Pow256Monotone(a, b - 1);
    }
  }

  /** Four more bytes multiply the range by 2^32. */
  lemma {:induction false} Pow256Shift(k: nat)
    ensures Pow256(k + 4) == Pow256(k) * 0x1_0000_0000
  {
    if k > 0 {
      Pow256Shift(k - 1);
    } else {
      assert Pow256(4) == 0x1_0000_0000;
    }
  }

  /** The unsigned value of s read most significant byte first (int.from_bytes(s, 'big')):
      every byte but the last, shifted up one byte, plus the last. */
  function FromBigEndian(s: seq<Byte>): (n: nat)
    ensures n < Pow256(|s|)
  {
    if s == [] then 0 else FromBigEndian(s[..|s| - 1]) * 256 + s[|s| - 1]
  }

  /** The width-byte big-endian form of n (n.to_bytes(width, 'big')); defined when n fits. */
  function ToBigEndian(n: nat, width: nat): (s: seq<Byte>)
    requires n < Pow256(width)
    ensures |s| == width
    ensures FromBigEndian(s) == n
  {
    if width == 0 then []
    else
      var s := ToBigEndian(n / 256, width - 1) + [n % 256];
      assert s[..width - 1] == ToBigEndian(n / 256, width - 1);
      s
  }

  /** Reading bytes as a number and writing the number back at the same width gives the bytes. */
  lemma {:induction false} ToFromBigEndian(s: seq<Byte>)
    ensures ToBigEndian(FromBigEndian(s), |s|) == s
  {
    if s != [] {
      var init, last := s[..|s| - 1], s[|s| - 1];
      var n := FromBigEndian(s);
      assert n == FromBigEndian(init) * 256 + last;
      assert n / 256 == FromBigEndian(init) && n % 256 == last;
      ToFromBigEndian(init);
      assert ToBigEndian(n, |s|) == ToBigEndian(n / 256, |s| - 1) + [n % 256];
      assert s == init + [last];
    }
  }

  /** A non-zero leading byte puts the value at or above Pow256(|s| - 1). */
  lemma {:induction false} NonZeroLeadLowerBound(s: seq<Byte>)
    requires |s| > 0 && s[0] != 0
    ensures Pow256(|s| - 1) <= FromBigEndian(s)
  {
    if |s| > 1 {
      NonZeroLeadLowerBound(s[..|s| - 1]);
    }
  }

  /** Two byte strings without a leading zero byte that read as the same number are equal. */
  lemma {:induction false} FromBigEndianInjective(a: seq<Byte>, b: seq<Byte>)
    requires a == [] || a[0] != 0
    requires b == [] || b[0] != 0
    requires FromBigEndian(a) == FromBigEndian(b)
    ensures a == b
  {
    if |a| < |b| {
      NonZeroLeadLowerBound(b);
      Pow256Monotone(|a|, |b| - 1);
    } else if |b| < |a| {
      NonZeroLeadLowerBound(a);
      Pow256Monotone(|b|, |a| - 1);
    } else {
      ToFromBigEndian(a);
      ToFromBigEndian(b);
    }
  }

  /** One zero byte in front does not change the unsigned value. */
  lemma {:induction false} LeadingZeroIgnored(s: seq<Byte>)
    ensures FromBigEndian([0] + s) == FromBigEndian(s)
  {
    if s != [] {
      var z := [0] + s;
      assert z[..|z| - 1] == [0] + s[..|s| - 1];
      LeadingZeroIgnored(s[..|s| - 1]);
    }
  }

  /** k zero bytes. */
  function Zeros(k: nat): (z: seq<Byte>)
    ensures |z| == k && forall i :: 0 <= i < k ==> z[i] == 0
  {
    if k == 0 then [] else [0] + Zeros(k - 1)
  }

  /** Any number of zero bytes in front do not change the unsigned value. */
  lemma {:induction false} LeadingZerosIgnored(k: nat, s: seq<Byte>)
    ensures FromBigEndian(Zeros(k) + s) == FromBigEndian(s)
  {
    if k > 0 {
      var tail: seq<Byte> := Zeros(k - 1) + s;
      assert Zeros(k) + s == [0] + tail;
      LeadingZeroIgnored(tail);
      LeadingZerosIgnored(k - 1, s);
    } else {
      assert Zeros(k) + s == s;
    }
  }

  /** The value of s read as a two's-complement number: the top bit of the leading byte
      weighs -2^(8|s|-1) instead of +2^(8|s|-1). */
  function SignedFromBigEndian(s: seq<Byte>): int
  {
    FromBigEndian(s) - (if |s| > 0 && s[0] >= 128 then Pow256(|s|) else 0)
  }

  /** The top bit of the leading byte is set exactly when the unsigned value is in the upper half. */
  lemma {:induction false} SignBitUpperHalf(s: seq<Byte>)
    requires |s| > 0
    ensures s[0] >= 128 <==> FromBigEndian(s) >= 128 * Pow256(|s| - 1)
  {
    if |s| > 1 {
      SignBitUpperHalf(s[..|s| - 1]);
    }
  }
}
