/** bits.h: a packed bit array, and the sieve of its main program for any bound. */
module Sieve {
  import opened Arithmetic

  type Byte = bv8

  const CHAR_BIT := 8

  /** The bits of a byte from the least significant on. */
  function BitMask(b: nat): (mask: Byte)
    ensures mask == [1, 2, 4, 8, 16, 32, 64, 128][b % 8]
  {
    (1 as bv8) << (b % CHAR_BIT)
  }

  function BitSlot(b: nat): (slot: nat)
    ensures 8 * slot <= b < 8 * slot + 8
  {
    b / CHAR_BIT
  }

  /** The least number of bytes that hold nb bits. */
  function BitNSlots(nb: nat): (slots: nat)
    ensures 8 * slots - 8 < nb <= 8 * slots
  {
    (nb + CHAR_BIT - 1) / CHAR_BIT
  }

  predicate BitTest(a: seq<Byte>, b: nat)
    requires BitSlot(b) < |a|
  {
    a[BitSlot(b)] & BitMask(b) != 0
  }

  lemma OrMask(x: Byte, i: nat, j: nat)
    ensures (x | BitMask(i)) & BitMask(j) != 0 <==> i % 8 == j % 8 || x & BitMask(j) != 0
  {}

  lemma AndNotMask(x: Byte, i: nat, j: nat)
    ensures (x & !BitMask(i)) & BitMask(j) != 0 <==> i % 8 != j % 8 && x & BitMask(j) != 0
  {}

  /** Bit b is set and no other bit changes. */
  method BitSet(a: array<Byte>, b: nat)
    requires BitSlot(b) < a.Length
    modifies a
    ensures forall c: nat | BitSlot(c) < a.Length :: BitTest(a[..], c) <==> c == b || old(BitTest(a[..], c))
  {
    a[BitSlot(b)] := a[BitSlot(b)] | BitMask(b);
    forall c: nat | BitSlot(c) < a.Length
      ensures BitTest(a[..], c) <==> c == b || old(BitTest(a[..], c))
    {
      OrMask(old(a[BitSlot(b)]), b, c);
    }
  }

  lemma OthersStay(s: seq<Byte>, b: nat, c: nat)
    requires BitSlot(b) < |s| && BitSlot(c) < |s|
    ensures BitTest(s[BitSlot(b) := s[BitSlot(b)] & !BitMask(b)], c) <==> c != b && BitTest(s, c)
  {
    if BitSlot(b) == BitSlot(c) {
      AndNotMask(s[BitSlot(b)], b, c);
    }
  }

  /** Bit b is cleared and no other bit changes. */
  method BitClear(a: array<Byte>, b: nat)
    requires BitSlot(b) < a.Length
    modifies a
    ensures forall c: nat | BitSlot(c) < a.Length :: BitTest(a[..], c) <==> c != b && old(BitTest(a[..], c))
  {
    ghost var before := a[..];
    a[BitSlot(b)] := a[BitSlot(b)] & !BitMask(b);
    assert a[..] == before[BitSlot(b) := before[BitSlot(b)] & !BitMask(b)];
    forall c: nat | BitSlot(c) < a.Length
      ensures BitTest(a[..], c) <==> c != b && BitTest(before, c)
    {
      OthersStay(before, b, c);
    }
  }

  // ---------------------------------------------------------------- the sieve

  predicate Divides(d: nat, n: nat) {
    d != 0 && n % d == 0
  }

  ghost predicate Prime(n: nat) {
    2 <= n && forall d | 2 <= d < n :: !Divides(d, n)
  }

  /** b is a proper multiple of some prime below i: what rounds 2 to i - 1 have marked. */
  ghost predicate Crossed(b: nat, i: nat) {
    exists p: nat :: Prime(p) && p < i && p < b && Divides(p, b)
  }

  lemma DividesTransitive(a: nat, b: nat, c: nat)
    requires Divides(a, b) && Divides(b, c)
    ensures Divides(a, c)
  {
    var x, y := b / a, c / b;
    assert b == x * a && c == y * b;
    assert y * (x * a) == (y * x) * a;
    DivisionIs(c, a, y * x, 0);
  }

  lemma {:induction false} HasPrimeFactor(n: nat) returns (p: nat)
    requires 2 <= n
    ensures Prime(p) && Divides(p, n) && p <= n
  {
    if Prime(n) {
      p := n;
    } else {
      var d :| 2 <= d < n && Divides(d, n);
      p := HasPrimeFactor(d);
      DividesTransitive(p, d, n);
    }
  }

  /** When the outer loop reaches i, it is unmarked exactly if it is prime. */
  lemma UncrossedIsPrime(i: nat)
    requires 2 <= i
    ensures Prime(i) <==> !Crossed(i, i)
  {
    if !Prime(i) {
      var d :| 2 <= d < i && Divides(d, i);
      var p := HasPrimeFactor(d);
      DividesTransitive(p, d, i);
    }
  }

  /** A round of the outer loop adds the proper multiples of i if i is prime, else nothing. */
  lemma CrossedNext(b: nat, i: nat)
    ensures Crossed(b, i + 1) <==> Crossed(b, i) || (Prime(i) && i < b && Divides(i, b))
  {}

  /** Between j and the next step of the inner loop there is no multiple of i but j. */
  lemma NextMultiple(i: nat, j: nat, b: nat)
    requires Divides(i, j) && j <= b < j + i
    ensures Divides(i, b) <==> b == j
  {
    assert j == (j / i) * i;
    DivisionIs(b, i, j / i, b - j);
  }

  lemma StepIsMultiple(i: nat, j: nat)
    requires Divides(i, j)
    ensures Divides(i, j + i)
  {
    assert j == (j / i) * i;
    assert j + i == (j / i + 1) * i;
    DivisionIs(j + i, i, j / i + 1, 0);
  }

  /** The numbers printed are exactly the primes below max, in increasing order. */
  method PrintPrimes(max: nat) returns (printed: seq<nat>)
    ensures forall k: nat :: k in printed <==> k < max && Prime(k)
    ensures forall x, y | 0 <= x < y < |printed| :: printed[x] < printed[y]
  {
    var bitarray := new Byte[BitNSlots(max)](_ => 0);
    printed := [];
    var i: nat := 2;
    while i < max
      invariant forall k: nat :: k in printed <==> k < i && k < max && Prime(k)
      invariant forall x, y | 0 <= x < y < |printed| :: printed[x] < printed[y]
      invariant forall b: nat | b < max :: BitTest(bitarray[..], b) <==> Crossed(b, i)
      decreases max - i
    {
      UncrossedIsPrime(i);
      if !BitTest(bitarray[..], i) {
        forall x | 0 <= x < |printed|
          ensures printed[x] < i
        {
          assert printed[x] in printed;
        }
        printed := printed + [i];
        CrossOff(bitarray, max, i);
      } else {
        forall b: nat | b < max
          ensures Crossed(b, i + 1) <==> Crossed(b, i)
        {
          CrossedNext(b, i);
        }
      }
      i := i + 1;
    }
  }

  /** The inner loop: mark the proper multiples of i. */
  method CrossOff(bitarray: array<Byte>, max: nat, i: nat)
    requires bitarray.Length == BitNSlots(max) && i < max && Prime(i)
    requires forall b: nat | b < max :: BitTest(bitarray[..], b) <==> Crossed(b, i)
    modifies bitarray
    ensures forall b: nat | b < max :: BitTest(bitarray[..], b) <==> Crossed(b, i + 1)
  {
    var j: nat := i + i;
    DivisionIs(i, i, 1, 0);
    StepIsMultiple(i, i);
    forall b: nat | i < b < j
      ensures !Divides(i, b)
    {
      NextMultiple(i, i, b);
    }
    while j < max
      invariant Divides(i, j) && i < j
      invariant forall b: nat | b < max ::
                  BitTest(bitarray[..], b) <==> Crossed(b, i) || (i < b < j && Divides(i, b))
      decreases max - j
    {
      BitSet(bitarray, j);
      forall b: nat | j <= b < j + i
        ensures Divides(i, b) <==> b == j
      {
        NextMultiple(i, j, b);
      }
      StepIsMultiple(i, j);
      j := j + i;
    }
    forall b: nat | b < max
      ensures Crossed(b, i + 1) <==> Crossed(b, i) || (i < b && Divides(i, b))
    {
      CrossedNext(b, i);
    }
  }
}
