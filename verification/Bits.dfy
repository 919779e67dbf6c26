/** Bytes and byte strings as strings of bits, most significant bit first. */
module Bits {
  type Byte = bv8

  function BitOf(b: Byte, k: nat): bool
    requires k < 8
  {
    (b & (0x80 >> k)) != 0
  }

  /** The first m bits of a byte set, the rest clear. */
  function HighMask(m: nat): Byte
    requires 0 < m < 8
  {
    (0xFF as bv8) << (8 - m)
  }

  /** Bit i of a byte string. */
  function Bit(s: seq<Byte>, i: nat): bool
    requires i < 8 * |s|
  {
    BitOf(s[i / 8], i % 8)
  }

  /** The first n bits are the same. */
  ghost predicate Agree(s: seq<Byte>, t: seq<Byte>, n: nat)
    requires n <= 8 * |s| && n <= 8 * |t|
  {
    forall i | 0 <= i < n :: Bit(s, i) == Bit(t, i)
  }

  lemma MaskedBit(b: Byte, m: nat, k: nat)
    requires 0 < m < 8 && k < 8
    ensures BitOf(b & HighMask(m), k) <==> k < m && BitOf(b, k)
  {}

  lemma SameBits(a: Byte, b: Byte)
    requires forall k | 0 <= k < 8 :: BitOf(a, k) == BitOf(b, k)
    ensures a == b
  {
    assert BitOf(a, 0) == BitOf(b, 0) && BitOf(a, 1) == BitOf(b, 1);
    assert BitOf(a, 2) == BitOf(b, 2) && BitOf(a, 3) == BitOf(b, 3);
    assert BitOf(a, 4) == BitOf(b, 4) && BitOf(a, 5) == BitOf(b, 5);
    assert BitOf(a, 6) == BitOf(b, 6) && BitOf(a, 7) == BitOf(b, 7);
  }

  /** The first m bits of two bytes are the same. */
  ghost predicate SameTop(a: Byte, b: Byte, m: nat)
    requires m <= 8
  {
    forall k | 0 <= k < m :: BitOf(a, k) == BitOf(b, k)
  }

  /** Comparing under a mask compares exactly the bits the mask keeps. */
  lemma MaskedEqual(a: Byte, b: Byte, m: nat)
    requires 0 < m < 8
    ensures a & HighMask(m) == b & HighMask(m) <==> SameTop(a, b, m)
  {
    var x, y := a & HighMask(m), b & HighMask(m);
    if SameTop(a, b, m) {
      forall k | 0 <= k < 8
        ensures BitOf(x, k) == BitOf(y, k)
      {
        MaskedBit(a, m, k);
        MaskedBit(b, m, k);
      }
      SameBits(x, y);
    }
    if x == y {
      forall k | 0 <= k < m
        ensures BitOf(a, k) == BitOf(b, k)
      {
        MaskedBit(a, m, k);
        MaskedBit(b, m, k);
      }
    }
  }

  lemma BitAt(s: seq<Byte>, j: nat, k: nat)
    requires j < |s| && k < 8
    ensures Bit(s, 8 * j + k) == BitOf(s[j], k)
  {}

  /** Bits 8j to 8j + m - 1 are the first m bits of byte j. */
  lemma ByteAgrees(s: seq<Byte>, t: seq<Byte>, j: nat, m: nat)
    requires j < |s| && j < |t| && m <= 8
    ensures SameTop(s[j], t[j], m) <==> forall i | 8 * j <= i < 8 * j + m :: Bit(s, i) == Bit(t, i)
  {
    if SameTop(s[j], t[j], m) {
      forall i | 8 * j <= i < 8 * j + m
        ensures Bit(s, i) == Bit(t, i)
      {
        BitAt(s, j, i - 8 * j);
        BitAt(t, j, i - 8 * j);
        assert BitOf(s[j], i - 8 * j) == BitOf(t[j], i - 8 * j);
      }
    } else {
      var k :| 0 <= k < m && BitOf(s[j], k) != BitOf(t[j], k);
      BitAt(s, j, k);
      BitAt(t, j, k);
      assert Bit(s, 8 * j + k) != Bit(t, 8 * j + k);
    }
  }

  lemma SameByte(a: Byte, b: Byte)
    ensures a == b <==> SameTop(a, b, 8)
  {
    if SameTop(a, b, 8) {
      SameBits(a, b);
    }
  }

  /** The byte-and-mask comparison that the C code makes of the first n bits. */
  predicate SameByBytes(s: seq<Byte>, t: seq<Byte>, n: nat)
    requires n <= 8 * |s| && n <= 8 * |t|
  {
    && s[..n / 8] == t[..n / 8]
    && (n % 8 != 0 ==> s[n / 8] & HighMask(n % 8) == t[n / 8] & HighMask(n % 8))
  }

  lemma BytesFromBits(s: seq<Byte>, t: seq<Byte>, n: nat)
    requires n <= 8 * |s| && n <= 8 * |t| && Agree(s, t, n)
    ensures SameByBytes(s, t, n)
  {
    forall j | 0 <= j < n / 8
      ensures s[j] == t[j]
    {
      ByteAgrees(s, t, j, 8);
      SameByte(s[j], t[j]);
    }
    if n % 8 != 0 {
      ByteAgrees(s, t, n / 8, n % 8);
      MaskedEqual(s[n / 8], t[n / 8], n % 8);
    }
  }

  lemma BitsFromBytes(s: seq<Byte>, t: seq<Byte>, n: nat)
    requires n <= 8 * |s| && n <= 8 * |t| && SameByBytes(s, t, n)
    ensures Agree(s, t, n)
  {
    forall i | 0 <= i < n
      ensures Bit(s, i) == Bit(t, i)
    {
      if i / 8 < n / 8 {
        assert s[..n / 8][i / 8] == t[..n / 8][i / 8];
      } else {
        MaskedEqual(s[n / 8], t[n / 8], n % 8);
        ByteAgrees(s, t, n / 8, n % 8);
      }
    }
  }

  lemma AgreeByBytes(s: seq<Byte>, t: seq<Byte>, n: nat)
    requires n <= 8 * |s| && n <= 8 * |t|
    ensures Agree(s, t, n) <==> SameByBytes(s, t, n)
  {
    if Agree(s, t, n) {
      BytesFromBits(s, t, n);
    } else if SameByBytes(s, t, n) {
      BitsFromBytes(s, t, n);
    }
  }

  function FlipBit(s: seq<Byte>, i: nat): (t: seq<Byte>)
    requires i < 8 * |s|
    ensures |t| == |s|
  {
    s[i / 8 := s[i / 8] ^ (0x80 >> (i % 8))]
  }

  lemma FlippedBit(s: seq<Byte>, i: nat, j: nat)
    requires j <= i < 8 * |s|
    ensures Bit(FlipBit(s, i), j) == (Bit(s, j) != (j == i))
  {}

  /** Flipping bit i is visible at bit i and at no bit before it. */
  lemma FlipAgreesBelow(s: seq<Byte>, i: nat)
    requires i < 8 * |s|
    ensures Agree(FlipBit(s, i), s, i) && !Agree(FlipBit(s, i), s, i + 1)
  {
    var t := FlipBit(s, i);
    forall j | 0 <= j <= i
      ensures Bit(t, j) == (Bit(s, j) != (j == i))
    {
      FlippedBit(s, i, j);
    }
    assert Bit(t, i) != Bit(s, i);
  }
}
