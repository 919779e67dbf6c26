/** IPv4-mapped addresses and martian prefixes of util.c. */
module Martian {
  import opened Arithmetic
  import opened Bits
  import opened Prefix

  type Addr4 = a: seq<Byte> | |a| == 4 witness [0, 0, 0, 0]

  /** The first twelve bytes of v4prefix. */
  const V4HEAD: seq<Byte> := [0, 0, 0, 0, 0, 0, 0, 0, 0, 0, 0xFF, 0xFF]

  const ZEROES15: seq<Byte> := [0, 0, 0, 0, 0, 0, 0, 0, 0, 0, 0, 0, 0, 0, 0]

  function V4ToV6(src: Addr4): Addr {
    V4HEAD + src
  }

  method V4ToV6Into(dst: array<Byte>, src: Addr4)
    requires dst.Length == 16
    modifies dst
    ensures dst[..] == [0, 0, 0, 0, 0, 0, 0, 0, 0, 0, 0xFF, 0xFF, src[0], src[1], src[2], src[3]] == V4ToV6(src)
  {
    forall k | 0 <= k < 12 { dst[k] := V4HEAD[k]; }
    forall k | 0 <= k < 4 { dst[12 + k] := src[k]; }
  }

  predicate V4Mapped(address: Addr) {
    address[..12] == V4HEAD
  }

  /** Mapped addresses are exactly those of the form ::ffff:a.b.c.d. */
  lemma MappedForm(address: Addr)
    ensures V4Mapped(address) <==>
            (forall k | 0 <= k < 10 :: address[k] == 0) && address[10] == 0xFF && address[11] == 0xFF
    ensures V4Mapped(address) <==> exists src: Addr4 :: address == V4ToV6(src)
  {
    assert forall k | 0 <= k < 12 :: address[..12][k] == address[k];
    if V4Mapped(address) {
      assert address == V4ToV6(address[12..]);
    }
  }

  /** martian_prefix. */
  predicate IsMartian(prefix: Addr, plen: int) {
    || (plen >= 8 && prefix[0] == 0xFF)
    || (plen >= 10 && prefix[0] == 0xFE && prefix[1] & 0xC0 == 0x80)
    || (plen >= 128 && prefix[..15] == ZEROES15 && (prefix[15] == 0 || prefix[15] == 1))
    || (plen >= 96 && V4Mapped(prefix) &&
        ((plen >= 104 && (prefix[12] == 127 || prefix[12] == 0)) ||
         (plen >= 100 && prefix[12] & 0xE0 == 0xE0)))
  }

  // ---------------------------------------------------------------- IPv4 inside IPv6

  /** Embedding shifts every bit by 96 places. */
  lemma EmbeddedAgreement(a: Addr4, b: Addr4, n: nat)
    requires n <= 32
    ensures Agree(V4ToV6(a), V4ToV6(b), n + 96) <==> Agree(a, b, n)
  {
    var x, y := V4ToV6(a), V4ToV6(b);
    assert forall i | 0 <= i < 32 :: Bit(x, i + 96) == Bit(a, i) && Bit(y, i + 96) == Bit(b, i);
    if Agree(x, y, n + 96) {
      forall i | 0 <= i < n
        ensures Bit(a, i) == Bit(b, i)
      {
        assert Bit(x, i + 96) == Bit(y, i + 96);
      }
    }
    if Agree(a, b, n) {
      forall i | 0 <= i < n + 96
        ensures Bit(x, i) == Bit(y, i)
      {
        assert i >= 96 ==> Bit(a, i - 96) == Bit(b, i - 96);
      }
    }
  }

  /** Containment and all four outcomes of the comparison are those of the IPv4 addresses. */
  lemma EmbeddingKeepsRelations(p: Addr4, l: nat, q: Addr4, m: nat)
    requires l <= 32 && m <= 32
    ensures InPrefix(V4ToV6(p), V4ToV6(q), m + 96) <==> Agree(p, q, m)
    ensures Compare(V4ToV6(p), l + 96, V4ToV6(q), m + 96) == Compare(p, l, q, m)
  {
    InPrefixIsAgreement(V4ToV6(p), V4ToV6(q), m + 96);
    EmbeddedAgreement(p, q, m);
    EmbeddedAgreement(p, q, Min(l, m));
  }

  lemma MappedByAgreement(x: Addr, p: Addr)
    requires V4Mapped(p)
    ensures V4Mapped(x) <==> Agree(x, p, 96)
  {
    AgreeByBytes(x, p, 96);
  }

  /** A mapped prefix holds mapped addresses only exactly when it is at least 96 bits long. */
  lemma OnlyMappedInside(p: Addr, l: Plen)
    requires V4Mapped(p)
    ensures (forall x: Addr | InPrefix(x, p, l) :: V4Mapped(x)) <==> l >= 96
  {
    if l >= 96 {
      forall x: Addr | InPrefix(x, p, l)
        ensures V4Mapped(x)
      {
        InPrefixIsAgreement(x, p, l);
        MappedByAgreement(x, p);
      }
    } else {
      var x: Addr := FlipBit(p, l);
      FlipAgreesBelow(p, l);
      InPrefixIsAgreement(x, p, l);
      MappedByAgreement(x, p);
      var i :| 0 <= i < l + 1 && Bit(x, i) != Bit(p, i);
      assert InPrefix(x, p, l) && !V4Mapped(x);
    }
  }

  lemma MaskingKeepsMapped(p: Addr, l: Plen)
    requires V4Mapped(p) && l >= 96
    ensures V4Mapped(MaskPrefix(p, l))
  {}

  // ---------------------------------------------------------------- martians

  lemma SameLeadingBytes(p: Addr, q: Addr, n: nat, k: nat)
    requires n <= 128 && k <= n / 8 && Agree(p, q, n)
    ensures p[..k] == q[..k]
  {
    AgreeByBytes(p, q, n);
    assert p[..n / 8][..k] == p[..k] && q[..n / 8][..k] == q[..k];
  }

  lemma SameMaskedByte(p: Addr, q: Addr, j: nat, m: nat)
    requires j < 16 && 0 < m < 8 && Agree(p, q, 8 * j + m)
    ensures p[j] & HighMask(m) == q[j] & HighMask(m)
  {
    AgreeByBytes(p, q, 8 * j + m);
  }

  /** Whether a prefix is martian depends on no bit after its length. */
  lemma MartianDependsOnPrefixBits(p: Addr, q: Addr, plen: int)
    requires Agree(p, q, if plen < 0 then 0 else if plen > 128 then 128 else plen)
    ensures IsMartian(p, plen) <==> IsMartian(q, plen)
  {
    var n := if plen < 0 then 0 else if plen > 128 then 128 else plen;
    if plen >= 8 { SameLeadingBytes(p, q, n, 1); assert p[..1][0] == q[..1][0]; }
    if plen >= 10 { SameMaskedByte(p, q, 1, 2); }
    if plen >= 96 { SameLeadingBytes(p, q, n, 12); }
    if plen >= 100 { SameMaskedByte(p, q, 12, 3); }
    if plen >= 104 { SameLeadingBytes(p, q, n, 13); assert p[..13][12] == q[..13][12]; }
    if plen >= 128 { SameAddress(p, q); }
  }

  lemma MartianUnchangedByMask(p: Addr, l: Plen)
    ensures IsMartian(MaskPrefix(p, l), l) <==> IsMartian(p, l)
  {}

  /** Every prefix equal to or inside a martian prefix is martian. */
  lemma MartianInherited(p: Addr, lp: Plen, q: Addr, lq: Plen)
    requires lp <= 128 && lq <= 128 && IsMartian(p, lp)
    requires Compare(q, lq, p, lp) in {Equals, MoreSpecific}
    ensures IsMartian(q, lq)
  {
    MartianDependsOnPrefixBits(q, p, lp);
  }

  // ---------------------------------------------------------------- which prefixes are martian

  /** Everything the block q/m holds, p/l being any prefix. */
  predicate Inside(p: Addr, l: int, q: Addr, m: Plen) {
    m <= l && InPrefix(p, q, m)
  }

  /** The blocks, independently of the code's tests: multicast, link-local, unspecified, loopback, and four of IPv4. */
  predicate InMartianBlock(p: Addr, l: int) {
    || Inside(p, l, [0xFF, 0, 0, 0, 0, 0, 0, 0, 0, 0, 0, 0, 0, 0, 0, 0], 8)
    || Inside(p, l, [0xFE, 0x80, 0, 0, 0, 0, 0, 0, 0, 0, 0, 0, 0, 0, 0, 0], 10)
    || Inside(p, l, [0, 0, 0, 0, 0, 0, 0, 0, 0, 0, 0, 0, 0, 0, 0, 0], 128)
    || Inside(p, l, [0, 0, 0, 0, 0, 0, 0, 0, 0, 0, 0, 0, 0, 0, 0, 1], 128)
    || Inside(p, l, [0, 0, 0, 0, 0, 0, 0, 0, 0, 0, 0xFF, 0xFF, 127, 0, 0, 0], 104)
    || Inside(p, l, [0, 0, 0, 0, 0, 0, 0, 0, 0, 0, 0xFF, 0xFF, 0, 0, 0, 0], 104)
    || Inside(p, l, [0, 0, 0, 0, 0, 0, 0, 0, 0, 0, 0xFF, 0xFF, 224, 0, 0, 0], 100)
    || Inside(p, l, [0, 0, 0, 0, 0, 0, 0, 0, 0, 0, 0xFF, 0xFF, 240, 0, 0, 0], 100)
  }

  lemma MappedLiteral(b: Byte)
    ensures V4ToV6([b, 0, 0, 0]) == [0, 0, 0, 0, 0, 0, 0, 0, 0, 0, 0xFF, 0xFF, b, 0, 0, 0]
  {}

  /** Inside an IPv4 block of at least a whole byte. */
  lemma InMappedByte(p: Addr, b: Byte)
    ensures InPrefix(p, V4ToV6([b, 0, 0, 0]), 104) <==> V4Mapped(p) && p[12] == b
  {
    var q := V4ToV6([b, 0, 0, 0]);
    assert q[..13] == V4HEAD + [b];
    assert p[..13] == p[..12] + [p[12]];
  }

  lemma InMappedNibble(p: Addr, b: Byte)
    ensures InPrefix(p, V4ToV6([b, 0, 0, 0]), 100) <==> V4Mapped(p) && p[12] & 0xF0 == b & 0xF0
  {
    var q := V4ToV6([b, 0, 0, 0]);
    assert q[..12] == V4HEAD && q[12] == b;
    assert HighMask(4) == 0xF0;
  }

  lemma InWholeAddress(p: Addr, b: Byte)
    ensures InPrefix(p, [0, 0, 0, 0, 0, 0, 0, 0, 0, 0, 0, 0, 0, 0, 0, b], 128) <==> p[..15] == ZEROES15 && p[15] == b
  {
    var q: Addr := [0, 0, 0, 0, 0, 0, 0, 0, 0, 0, 0, 0, 0, 0, 0, b];
    assert q[..16] == q[..15] + [q[15]] && q[..15] == ZEROES15;
    assert p[..16] == p[..15] + [p[15]];
  }

  /** martian_prefix recognises exactly the prefixes that lie inside one of the martian blocks. */
  lemma MartianIsInBlock(p: Addr, l: int)
    ensures IsMartian(p, l) <==> InMartianBlock(p, l)
  {
    InWholeAddress(p, 0);
    InWholeAddress(p, 1);
    MappedBlocks(p);
    InMulticastOrLinkLocal(p);
    TopThreeBits(p[12]);
  }

  lemma InMulticastOrLinkLocal(p: Addr)
    ensures InPrefix(p, [0xFF, 0, 0, 0, 0, 0, 0, 0, 0, 0, 0, 0, 0, 0, 0, 0], 8) <==> p[0] == 0xFF
    ensures InPrefix(p, [0xFE, 0x80, 0, 0, 0, 0, 0, 0, 0, 0, 0, 0, 0, 0, 0, 0], 10) <==>
            p[0] == 0xFE && p[1] & 0xC0 == 0x80
  {
    assert p[..1] == [p[0]];
    assert HighMask(2) == 0xC0;
  }

  lemma MappedBlocks(p: Addr)
    ensures InPrefix(p, [0, 0, 0, 0, 0, 0, 0, 0, 0, 0, 0xFF, 0xFF, 127, 0, 0, 0], 104) <==> V4Mapped(p) && p[12] == 127
    ensures InPrefix(p, [0, 0, 0, 0, 0, 0, 0, 0, 0, 0, 0xFF, 0xFF, 0, 0, 0, 0], 104) <==> V4Mapped(p) && p[12] == 0
    ensures InPrefix(p, [0, 0, 0, 0, 0, 0, 0, 0, 0, 0, 0xFF, 0xFF, 224, 0, 0, 0], 100) <==>
            V4Mapped(p) && p[12] & 0xF0 == 224
    ensures InPrefix(p, [0, 0, 0, 0, 0, 0, 0, 0, 0, 0, 0xFF, 0xFF, 240, 0, 0, 0], 100) <==>
            V4Mapped(p) && p[12] & 0xF0 == 240
  {
    MappedLiteral(127);
    MappedLiteral(0);
    MappedLiteral(224);
    MappedLiteral(240);
    InMappedByte(p, 127);
    InMappedByte(p, 0);
    InMappedNibble(p, 224);
    InMappedNibble(p, 240);
  }

  lemma TopThreeBits(b: Byte)
    ensures b & 0xE0 == 0xE0 <==> b & 0xF0 == 0xE0 || b & 0xF0 == 0xF0
  {}
}
