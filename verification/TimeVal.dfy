/** The struct timeval arithmetic of util.c and twd_time.h. */
module TimeVal {
  import opened Arithmetic

  const MILLION := 1000000

  datatype Tv = Tv(sec: int, usec: int)

  /** The instant a timeval stands for, in microseconds. */
  function Instant(t: Tv): int {
    t.sec * 1000000 + t.usec
  }

  predicate Normal(t: Tv) {
    0 <= t.usec < MILLION
  }

  lemma NormalFormUnique(a: Tv, b: Tv)
    requires Normal(a) && Normal(b) && Instant(a) == Instant(b)
    ensures a == b
  {}

  /** C division and remainder, which truncate toward zero. */
  function CDiv(a: int, b: int): (q: int)
    requires b > 0
    ensures a >= 0 ==> 0 <= a - q * b < b
    ensures a <= 0 ==> -b < a - q * b <= 0
  {
    if a >= 0 then a / b else -(-a / b)
  }

  function CRem(a: int, b: int): (r: int)
    requires b > 0
    ensures a == CDiv(a, b) * b + r
    ensures (a >= 0 ==> 0 <= r < b) && (a <= 0 ==> -b < r <= 0)
  {
    a - CDiv(a, b) * b
  }

  class Timeval {
    var sec: int
    var usec: int

    function Val(): Tv
      reads this
    {
      Tv(sec, usec)
    }
  }

  /** timeval_minus; d may be s1 or s2. */
  method TimevalMinus(d: Timeval, s1: Timeval, s2: Timeval)
    modifies d
    ensures Instant(d.Val()) == old(Instant(s1.Val()) - Instant(s2.Val()))
    ensures old(Normal(s1.Val()) && Normal(s2.Val())) ==> Normal(d.Val())
    ensures d.sec == old(s1.sec - s2.sec) <==> old(s1.usec >= s2.usec)
    ensures old(s1.usec < s2.usec) ==> d.usec == old(s1.usec - s2.usec) + 1000000
  {
    if s1.usec >= s2.usec {
      d.usec := s1.usec - s2.usec;
      d.sec := s1.sec - s2.sec;
    } else {
      d.usec := s1.usec + MILLION - s2.usec;
      d.sec := s1.sec - s2.sec - 1;
    }
  }

  /** Borrowing for a difference d leaves more than nothing, and a whole second if d was a whole number of them. */
  lemma Borrowed(d: int)
    requires d < 0
    ensures var left := d + MILLION * (CDiv(-d, MILLION) + 1);
            0 < left <= MILLION && (left == MILLION <==> d % MILLION == 0)
  {
    var q := CDiv(-d, MILLION);
    var r := -d - q * MILLION;
    assert 0 <= r < MILLION && -d == q * MILLION + r;
    assert r == 0 <==> d % MILLION == 0;
  }

  /**
   * timeval_subtract: borrows or carries in y, then subtracts. The third clause gives, for all
   * inputs, when the strict comparison on the carry leaves a whole second in the microseconds.
   */
  method TimevalSubtract(result: Timeval, x: Timeval, y: Timeval) returns (negative: bool)
    modifies result, y
    ensures Instant(result.Val()) == old(Instant(x.Val()) - Instant(y.Val()))
    ensures 0 <= result.usec <= MILLION
    ensures result.usec == MILLION <==>
              var d := old(x.usec - y.usec); d == MILLION || (d < 0 && d % MILLION == 0)
    ensures old(Normal(x.Val()) && Normal(y.Val())) ==> Normal(result.Val())
    ensures y != result ==> Instant(y.Val()) == old(Instant(y.Val()))
    ensures result != x && result != y ==>
              negative == (result.sec < 0) && result.sec == x.sec - y.sec && result.usec == x.usec - y.usec
    ensures result != x && result != y && old(Normal(x.Val()) && Normal(y.Val())) ==>
              negative == old(Instant(x.Val()) < Instant(y.Val()))
  {
    var nsec := 0;
    if x.usec < y.usec {
      Borrowed(x.usec - y.usec);
      nsec := CDiv(y.usec - x.usec, MILLION) + 1;
      y.usec := y.usec - MILLION * nsec;
      y.sec := y.sec + nsec;
    }
    assert Instant(y.Val()) == old(Instant(y.Val())) && 0 <= x.usec - y.usec;
    if x.usec - y.usec > MILLION {
      nsec := CDiv(x.usec - y.usec, MILLION);
      y.usec := y.usec + MILLION * nsec;
      y.sec := y.sec - nsec;
    }
    assert Instant(y.Val()) == old(Instant(y.Val())) && 0 <= x.usec - y.usec <= MILLION;
    result.sec := x.sec - y.sec;
    result.usec := x.usec - y.usec;
    negative := x.sec < y.sec;
  }

  /** The two subtractions agree on normalised times. */
  method SubtractionsAgree(a: Timeval, b: Timeval, x: Timeval, y: Timeval)
    requires a != b && {a, b} !! {x, y} && x != y && Normal(x.Val()) && Normal(y.Val())
    modifies a, b, y
    ensures a.Val() == b.Val()
  {
    TimevalMinus(a, x, y);
    var negative := TimevalSubtract(b, x, y);
    NormalFormUnique(a.Val(), b.Val());
  }

  /** timeval_compare, a total order of all times that looks at the seconds first. */
  function TimevalCompare(s1: Tv, s2: Tv): int {
    if s1.sec < s2.sec then -1
    else if s1.sec > s2.sec then 1
    else if s1.usec < s2.usec then -1
    else if s1.usec > s2.usec then 1
    else 0
  }

  lemma CompareIsSign(s1: Tv, s2: Tv)
    requires Normal(s1) && Normal(s2)
    ensures var d := Instant(s1) - Instant(s2);
            TimevalCompare(s1, s2) == if d < 0 then -1 else if d > 0 then 1 else 0
  {}

  /** Normalised or not, only equal times compare as equal, the seconds decide first, and then the microseconds. */
  lemma CompareIsLexicographic(s1: Tv, s2: Tv)
    ensures TimevalCompare(s1, s2) == -TimevalCompare(s2, s1)
    ensures TimevalCompare(s1, s2) == 0 <==> s1 == s2
    ensures s1.sec != s2.sec ==> (TimevalCompare(s1, s2) == 1 <==> s1.sec > s2.sec)
    ensures s1.sec == s2.sec ==> (TimevalCompare(s1, s2) == 1 <==> s1.usec > s2.usec)
    ensures TimevalCompare(s1, s2) in {-1, 0, 1}
  {}

  // ---------------------------------------------------------------- milliseconds

  /** timeval_minus_msec. */
  function TimevalMinusMsec(s1: Tv, s2: Tv): int {
    if s1.sec < s2.sec then 0
    else if s1.sec - s2.sec > 2000000 then 2000000000
    else if s1.sec > s2.sec then
      ToUnsigned(ToUnsigned(ToUnsigned(s1.sec - s2.sec) * 1000) + CDiv(ToInt(s1.usec) - s2.usec, 1000))
    else if s1.usec <= s2.usec then 0
    else ToUnsigned(s1.usec - s2.usec) / 1000
  }

  /**
   * d is s plus msecs milliseconds: the right instant always, in normal form unless what is left
   * of a negative count would have to borrow from the seconds, which timeval_add_msec does not do.
   */
  predicate AddsMsec(s: Tv, msecs: int, d: Tv) {
    && Instant(d) == Instant(s) + 1000 * msecs
    && -MILLION < d.usec < MILLION
    && (Normal(d) <==> s.usec + 1000 * CRem(msecs, 1000) >= 0)
  }

  lemma AddsMsecUnique(s: Tv, msecs: int, d: Tv, e: Tv)
    requires Normal(s) && AddsMsec(s, msecs, d) && AddsMsec(s, msecs, e)
    ensures d == e
  {
    SameInstant(d, e);
  }

  lemma SameInstant(d: Tv, e: Tv)
    requires Instant(d) == Instant(e) && (Normal(d) <==> Normal(e))
    requires -MILLION < d.usec < MILLION && -MILLION < e.usec < MILLION
    ensures d == e
  {}

  /** timeval_add_msec; d may be s. */
  method TimevalAddMsec(d: Timeval, s: Timeval, msecs: int)
    modifies d
    ensures Instant(d.Val()) == old(Instant(s.Val())) + 1000 * msecs
    ensures old(Normal(s.Val())) ==> AddsMsec(old(s.Val()), msecs, d.Val())
    ensures d.usec < old(s.usec) + 1000 * CRem(msecs, 1000) <==> old(s.usec) + 1000 * CRem(msecs, 1000) >= MILLION
  {
    d.sec := s.sec + CDiv(msecs, 1000);
    var usecs := s.usec + CRem(msecs, 1000) * 1000;
    if usecs < MILLION {
      d.usec := usecs;
    } else {
      d.usec := usecs - MILLION;
      d.sec := d.sec + 1;
    }
  }

  lemma MsecQuotient(u: int)
    requires -MILLION < u < MILLION
    ensures -1000 < u - 1000 * CDiv(u, 1000) < 1000 && -1000 < CDiv(u, 1000) < 1000
    ensures 0 <= u ==> 1000 * CDiv(u, 1000) <= u
    ensures u <= 0 ==> 1000 * CDiv(u, 1000) >= u
  {}

  /** Up to the cut-off the 32-bit detours change nothing; beyond it the count is constant. */
  lemma MinusMsecValue(s1: Tv, s2: Tv)
    requires Normal(s1) && Normal(s2)
    ensures TimevalMinusMsec(s1, s2) ==
            if Instant(s1) <= Instant(s2) then 0
            else if s1.sec - s2.sec > 2000000 then 2000000000
            else (s1.sec - s2.sec) * 1000 + CDiv(s1.usec - s2.usec, 1000)
  {}

  /** Below the cut-off a non-negative difference is reported to within a millisecond. */
  lemma MinusMsecError(s1: Tv, s2: Tv)
    requires Normal(s1) && Normal(s2) && s1.sec - s2.sec <= 2000000
    requires Instant(s1) >= Instant(s2)
    ensures -1000 < 1000 * TimevalMinusMsec(s1, s2) - (Instant(s1) - Instant(s2)) < 1000
  {}

  /**
   * Subtracting undoes adding m milliseconds exactly when m is not negative and the sum stays
   * within 2000000 whole seconds of the start.
   */
  lemma MinusUndoesAdd(s: Tv, m: int, d: Tv)
    requires Normal(s) && -0x8000_0000 <= m <= 0x7FFF_FFFF && AddsMsec(s, m, d)
    ensures TimevalMinusMsec(d, s) == m <==>
            0 <= m && (m <= 2000000000 || s.usec + (m - 2000000000) * 1000 < MILLION)
  {}

  lemma MonotoneBelowCutOff(a: Tv, b: Tv, s: Tv)
    requires Normal(a) && Normal(b) && Normal(s) && Instant(a) <= Instant(b)
    requires b.sec - s.sec <= 2000000
    ensures TimevalMinusMsec(a, s) <= TimevalMinusMsec(b, s)
  {
    MinusMsecValue(a, s);
    MinusMsecValue(b, s);
    MsecQuotient(a.usec - s.usec);
    MsecQuotient(b.usec - s.usec);
    QuotientCarry(a.usec - s.usec, b.usec - s.usec);
    assert a.sec < b.sec || (a.sec == b.sec && a.usec <= b.usec);
  }

  lemma QuotientCarry(u: int, v: int)
    requires -MILLION < u < MILLION && -MILLION < v < MILLION
    ensures u <= v ==> CDiv(u, 1000) <= CDiv(v, 1000)
    ensures u - v < MILLION ==> CDiv(u, 1000) - CDiv(v, 1000) <= 1000
  {}

  /**
   * A later time never gives a smaller count, except at the saturation cut-off: the last second
   * before it reports up to 999 ms more than every time after it.
   */
  lemma MinusMsecMonotoneUnless(a: Tv, b: Tv, s: Tv)
    requires Normal(a) && Normal(b) && Normal(s) && Instant(a) <= Instant(b)
    ensures TimevalMinusMsec(a, s) <= TimevalMinusMsec(b, s) <==>
            !(a.sec - s.sec == 2000000 && a.usec - s.usec >= 1000 && b.sec - s.sec > 2000000)
  {
    if a.sec - s.sec <= 2000000 {
      MinusMsecValue(a, s);
      MsecQuotient(a.usec - s.usec);
      if b.sec - s.sec <= 2000000 {
        MonotoneBelowCutOff(a, b, s);
      }
    }
  }
}
