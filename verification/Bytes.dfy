/** Fixed-width big-endian and little-endian integers. */
module Bytes {
  import opened Foundations
  import opened Arithmetic

  function Pow256(n: nat): (p: nat)
    ensures p > 0
  {
    if n == 0 then 1 else 256 * Pow256(n - 1)
  }

  function BigEndian(n: nat, v: nat): (s: seq<byte>)
    ensures |s| == n
  {
    if n == 0 then [] else BigEndian(n - 1, v / 256) + [v % 256]
  }

  function FromBigEndian(s: seq<byte>): nat {
    if s == [] then 0 else FromBigEndian(s[..|s| - 1]) * 256 + s[|s| - 1]
  }

  lemma {:induction false} BigEndianRoundTrip(n: nat, v: nat)
    requires v < Pow256(n)
    ensures FromBigEndian(BigEndian(n, v)) == v
  {
    if n == 0 {
    } else {
      var s := BigEndian(n, v);
      assert s[..n - 1] == BigEndian(n - 1, v / 256);
      BigEndianRoundTrip(n - 1, v / 256);
    }
  }

  lemma {:induction false} DivTwice(v: nat, p: nat)
    requires 0 < p
    ensures v / 256 / p == v / (256 * p)
  {
    var q, r := v / 256 / p, v / 256 % p;
    assert v / 256 == p * q + r;
    assert v == 256 * (p * q + r) + v % 256;
    assert 256 * (p * q) == 256 * p * q;
    DivModUnique(v, 256 * p, q, 256 * r + v % 256);
  }

  /** The digits in base 256, the highest first. */
  lemma {:induction false} BigEndianDigit(n: nat, v: nat, j: nat)
    requires j < n
    ensures BigEndian(n, v)[n - 1 - j] == v / Pow256(j) % 256
  {
    if j == 0 {
      assert Pow256(0) == 1;
    } else {
      BigEndianDigit(n - 1, v / 256, j - 1);
      DivTwice(v, Pow256(j - 1));
    }
  }

  /** Every byte string is the encoding of the number it decodes to. */
  lemma {:induction false} FromBigEndianRoundTrip(s: seq<byte>)
    ensures BigEndian(|s|, FromBigEndian(s)) == s
  {
    if s == [] {
    } else {
      FromBigEndianRoundTrip(s[..|s| - 1]);
    }
  }

  lemma {:induction false} FromBigEndianBound(s: seq<byte>)
    ensures FromBigEndian(s) < Pow256(|s|)
  {
    if s == [] {
    } else {
      FromBigEndianBound(s[..|s| - 1]);
    }
  }

  lemma {:induction false} Widths()
    ensures Pow256(4) == 0x1_0000_0000
    ensures Pow256(8) == TWO_64
    ensures Pow256(16) == 0x1_0000_0000_0000_0000_0000_0000_0000_0000
  {
    assert Pow256(2) == 65536 by { assert Pow256(1) == 256 * Pow256(0); }
    assert Pow256(4) == 256 * Pow256(3) && Pow256(3) == 256 * Pow256(2);
    assert Pow256(8) == 256 * Pow256(7) && Pow256(7) == 256 * Pow256(6) && Pow256(6) == 256 * Pow256(5);
    assert Pow256(5) == 256 * Pow256(4);
    assert Pow256(12) == 256 * Pow256(11) && Pow256(11) == 256 * Pow256(10) && Pow256(10) == 256 * Pow256(9);
    assert Pow256(9) == 256 * Pow256(8);
    assert Pow256(16) == 256 * Pow256(15) && Pow256(15) == 256 * Pow256(14) && Pow256(14) == 256 * Pow256(13);
    assert Pow256(13) == 256 * Pow256(12);
  }

  /** Two values of the same width with the same bytes are the same value. */
  lemma {:induction false} BigEndianInjective(n: nat, v: nat, w: nat)
    requires v < Pow256(n) && w < Pow256(n) && BigEndian(n, v) == BigEndian(n, w)
    ensures v == w
  {
    BigEndianRoundTrip(n, v);
    BigEndianRoundTrip(n, w);
  }

  /** The bytes of a text whose characters are all below 256. */
  function Ascii(s: string): (r: seq<byte>)
    ensures |r| == |s|
  {
    seq(|s|, i requires 0 <= i < |s| => s[i] as int % 256)
  }
}
