/** The address-prefix part of util.c, against the address sets that prefixes denote. */
module Prefix {
  import opened Arithmetic
  import opened Bits

  /** A 128-bit address in network order. */
  type Addr = a: seq<Byte> | |a| == 16 witness seq(16, _ => 0)

  /** An unsigned char holding a prefix length. */
  type Plen = l: nat | l < 256

  /** in_prefix. */
  predicate InPrefix(address: Addr, prefix: Addr, plen: Plen) {
    var n := Min(plen, 128);
    && address[..n / 8] == prefix[..n / 8]
    && (n % 8 == 0 || address[n / 8] & HighMask(n % 8) == prefix[n / 8] & HighMask(n % 8))
  }

  /** A prefix holds exactly the addresses that begin with its first plen bits. */
  lemma InPrefixIsAgreement(x: Addr, p: Addr, l: Plen)
    ensures InPrefix(x, p, l) <==> Agree(x, p, Min(l, 128))
  {
    AgreeByBytes(x, p, Min(l, 128));
  }

  // ---------------------------------------------------------------- mask_prefix

  /** The first l bits of p, then zeroes. */
  function MaskPrefix(p: Addr, l: Plen): Addr {
    seq(16, k requires 0 <= k < 16 =>
      if 8 * k + 8 <= l then p[k] else if 8 * k < l then p[k] & HighMask(l - 8 * k) else 0)
  }

  method MaskPrefixInto(ret: array<Byte>, prefix: Addr, plen: Plen)
    requires ret.Length == 16
    modifies ret
    ensures ret[..] == MaskPrefix(prefix, plen)
  {
    if plen >= 128 {
      forall k | 0 <= k < 16 { ret[k] := prefix[k]; }
      return;
    }
    forall k | 0 <= k < 16 { ret[k] := 0; }
    forall k | 0 <= k < plen / 8 { ret[k] := prefix[k]; }
    if plen % 8 != 0 {
      ret[plen / 8] := prefix[plen / 8] & HighMask(plen % 8);
    }
  }

  lemma MaskBit(p: Addr, l: Plen, i: nat)
    requires i < 128
    ensures Bit(MaskPrefix(p, l), i) <==> i < l && Bit(p, i)
  {}

  lemma SameAddress(p: Addr, q: Addr)
    requires Agree(p, q, 128)
    ensures p == q
  {
    AgreeByBytes(p, q, 128);
    assert p == p[..16] && q == q[..16];
  }

  lemma MaskOfMask(p: Addr, a: Plen, b: Plen)
    ensures MaskPrefix(MaskPrefix(p, a), b) == MaskPrefix(p, Min(a, b))
  {
    var x, y := MaskPrefix(MaskPrefix(p, a), b), MaskPrefix(p, Min(a, b));
    forall i | 0 <= i < 128
      ensures Bit(x, i) == Bit(y, i)
    {
      MaskBit(p, a, i);
      MaskBit(MaskPrefix(p, a), b, i);
      MaskBit(p, Min(a, b), i);
    }
    SameAddress(x, y);
  }

  /** Membership is equality after masking. */
  lemma InPrefixIsEqualMasks(x: Addr, p: Addr, l: Plen)
    ensures InPrefix(x, p, l) <==> MaskPrefix(x, l) == MaskPrefix(p, l)
  {
    InPrefixIsAgreement(x, p, l);
    var mx, mp := MaskPrefix(x, l), MaskPrefix(p, l);
    forall i | 0 <= i < 128
      ensures Bit(mx, i) <==> i < l && Bit(x, i)
      ensures Bit(mp, i) <==> i < l && Bit(p, i)
    {
      MaskBit(x, l, i);
      MaskBit(p, l, i);
    }
    if InPrefix(x, p, l) {
      assert forall i | 0 <= i < 128 :: i < l ==> Bit(x, i) == Bit(p, i);
      SameAddress(mx, mp);
    }
    if mx == mp {
      forall i | 0 <= i < Min(l, 128)
        ensures Bit(x, i) == Bit(p, i)
      {
        assert Bit(mx, i) == Bit(mp, i);
      }
    }
  }

  /** A masked prefix denotes the same addresses as the prefix. */
  lemma MaskedPrefixSameSet(x: Addr, p: Addr, l: Plen)
    ensures InPrefix(x, MaskPrefix(p, l), l) <==> InPrefix(x, p, l)
  {}

  // ---------------------------------------------------------------- prefixes_cmp

  datatype Status = Disjoint | Equals | MoreSpecific | LessSpecific

  /** What prefixes_cmp decides, on bits, for addresses of any size. */
  ghost function Compare(p: seq<Byte>, l: nat, q: seq<Byte>, m: nat): Status
    requires Min(l, m) <= 8 * |p| && Min(l, m) <= 8 * |q|
  {
    if !Agree(p, q, Min(l, m)) then Disjoint
    else if l < m then LessSpecific
    else if l > m then MoreSpecific
    else Equals
  }

  /** One arithmetic right shift of a signed char. */
  function ShiftRight(x: Byte, k: nat): Byte {
    if k == 0 then x else var y := ShiftRight(x, k - 1); (y >> 1) | (y & 0x80)
  }

  lemma ShiftKeepsSign(x: Byte)
    ensures ShiftRight(x, 1) == if x < 0x80 then x / 2 else x / 2 + 0x80
  {
    assert ShiftRight(x, 0) == x;
  }

  /** Shifting the sign bit right keeps filling in ones: the mask of the first m bits. */
  lemma {:induction false} ShiftedSignIsHighMask(m: nat)
    requires 0 < m < 8
    ensures ShiftRight(0x80, m - 1) == HighMask(m)
  {
    if m > 1 {
      ShiftedSignIsHighMask(m - 1);
      if m == 2 {} else if m == 3 {} else if m == 4 {} else if m == 5 {} else if m == 6 {} else {}
    }
  }

  /** Whole equal bytes, then the masked byte: the loop and the branch of prefixes_cmp. */
  method PrefixesCmp(p1: Addr, plen1: Plen, p2: Addr, plen2: Plen) returns (status: Status)
    requires Min(plen1, plen2) <= 128
    ensures status == Compare(p1, plen1, p2, plen2)
  {
    var min: nat := Min(plen1, plen2);
    AgreeByBytes(p1, p2, min);
    ghost var agree := SameByBytes(p1, p2, min);
    assert agree == (Compare(p1, plen1, p2, plen2) != Disjoint);
    var differ := FirstBytesDiffer(p1, p2, min);
    if differ {
      return Disjoint;
    }
    if plen1 < plen2 {
      return LessSpecific;
    }
    if plen1 > plen2 {
      return MoreSpecific;
    }
    return Equals;
  }

  /** The part of prefixes_cmp that looks at the addresses. */
  method FirstBytesDiffer(p1: Addr, p2: Addr, n: nat) returns (differ: bool)
    requires n <= 128
    ensures differ <==> !SameByBytes(p1, p2, n)
  {
    var min := n;
    var mask: Byte := 0x80;
    var i := 0;
    while i < min / 8
      invariant i <= min / 8
      invariant p1[..i] == p2[..i]
    {
      if p1[i] != p2[i] {
        assert p1[..n / 8][i] != p2[..n / 8][i];
        return true;
      }
      i := i + 1;
    }
    min := min - i * 8;
    assert i == n / 8 && min == n % 8;
    if min != 0 {
      ShiftedSignIsHighMask(min);
      mask := ShiftRight(mask, min - 1);
      return p1[i] & mask != p2[i] & mask;
    }
    return false;
  }

  /** p/l denotes every address that q/m does. */
  ghost predicate Covers(p: Addr, l: Plen, q: Addr, m: Plen) {
    forall x: Addr :: InPrefix(x, q, m) ==> InPrefix(x, p, l)
  }

  ghost predicate NoCommonAddress(p: Addr, l: Plen, q: Addr, m: Plen) {
    forall x: Addr :: !(InPrefix(x, p, l) && InPrefix(x, q, m))
  }

  lemma AgreementTransfers(x: seq<Byte>, p: seq<Byte>, q: seq<Byte>, n: nat, k: nat)
    requires n <= k && k <= 8 * |x| && k <= 8 * |q| && n <= 8 * |p|
    requires Agree(x, q, k) && Agree(p, q, n)
    ensures Agree(x, p, n)
  {}

  /** The shorter of two agreeing prefixes covers the longer; with room to spare, strictly. */
  lemma ShorterCovers(p: Addr, l: Plen, q: Addr, m: Plen)
    requires l <= m <= 128 && Agree(p, q, l)
    ensures Covers(p, l, q, m)
    ensures l < m ==> !Covers(q, m, p, l)
  {
    forall x: Addr | InPrefix(x, q, m)
      ensures InPrefix(x, p, l)
    {
      InPrefixIsAgreement(x, q, m);
      AgreementTransfers(x, p, q, l, m);
      InPrefixIsAgreement(x, p, l);
    }
    if l < m {
      var x: Addr := FlipBit(q, l);
      FlipAgreesBelow(q, l);
      AgreementTransfers(x, p, q, l, l);
      InPrefixIsAgreement(x, p, l);
      InPrefixIsAgreement(x, q, m);
      var i :| 0 <= i < l + 1 && Bit(x, i) != Bit(q, i);
      assert !Agree(x, q, m);
    }
  }

  lemma DisagreeingDisjoint(p: Addr, l: Plen, q: Addr, m: Plen)
    requires l <= 128 && m <= 128 && !Agree(p, q, Min(l, m))
    ensures NoCommonAddress(p, l, q, m)
  {
    forall x: Addr
      ensures !(InPrefix(x, p, l) && InPrefix(x, q, m))
    {
      InPrefixIsAgreement(x, p, l);
      InPrefixIsAgreement(x, q, m);
      var i :| 0 <= i < Min(l, m) && Bit(p, i) != Bit(q, i);
      assert Bit(x, i) != Bit(p, i) || Bit(x, i) != Bit(q, i);
    }
  }

  lemma AgreeSymmetric(p: seq<Byte>, q: seq<Byte>, n: nat)
    requires n <= 8 * |p| && n <= 8 * |q|
    ensures Agree(p, q, n) <==> Agree(q, p, n)
  {}

  /** For lengths up to 128 the four outcomes are exactly the four relations of the address sets. */
  lemma CompareDecidesSets(p: Addr, l: Plen, q: Addr, m: Plen)
    requires l <= 128 && m <= 128
    ensures Compare(p, l, q, m) == Disjoint <==> NoCommonAddress(p, l, q, m)
    ensures Compare(p, l, q, m) == Equals <==> Covers(p, l, q, m) && Covers(q, m, p, l)
    ensures Compare(p, l, q, m) == LessSpecific <==> Covers(p, l, q, m) && !Covers(q, m, p, l)
    ensures Compare(p, l, q, m) == MoreSpecific <==> Covers(q, m, p, l) && !Covers(p, l, q, m)
  {
    assert InPrefix(p, p, l) && InPrefix(q, q, m);
    AgreeSymmetric(p, q, Min(l, m));
    if !Agree(p, q, Min(l, m)) {
      DisagreeingDisjoint(p, l, q, m);
    } else {
      if l <= m { ShorterCovers(p, l, q, m); }
      if m <= l { ShorterCovers(q, m, p, l); }
    }
  }

  /** Any two prefixes are nested or disjoint. */
  lemma NestedOrDisjoint(p: Addr, l: Plen, q: Addr, m: Plen)
    requires l <= 128 && m <= 128
    ensures Covers(p, l, q, m) || Covers(q, m, p, l) || NoCommonAddress(p, l, q, m)
  {}

  /** Swapping the arguments swaps the two specific outcomes. */
  lemma CompareMirrored(p: seq<Byte>, l: nat, q: seq<Byte>, m: nat)
    requires Min(l, m) <= 8 * |p| && Min(l, m) <= 8 * |q|
    ensures Compare(q, m, p, l) ==
            match Compare(p, l, q, m)
            case LessSpecific => MoreSpecific
            case MoreSpecific => LessSpecific
            case other => other
  {}

  /** "More specific" is a strict partial order. */
  lemma MoreSpecificTransitive(p: Addr, l: Plen, q: Addr, m: Plen, r: Addr, n: Plen)
    requires l <= 128 && m <= 128 && n <= 128
    requires Compare(p, l, q, m) == MoreSpecific && Compare(q, m, r, n) == MoreSpecific
    ensures Compare(p, l, r, n) == MoreSpecific && Compare(r, n, p, l) != MoreSpecific
  {}
}
