/** parse_msec of util.c: a decimal number of seconds, as milliseconds in a 32-bit int. */
module ParseMsec {
  import opened Arithmetic
  import opened CStrings

  /** The two kinds of character that the loops skip over. */
  datatype Kind = Blank | Digit

  predicate Is(kind: Kind, c: char) {
    match kind
    case Blank => c == ' ' || c == '\t'
    case Digit => '0' <= c <= '9'
  }

  predicate All(kind: Kind, s: string) {
    forall i | 0 <= i < |s| :: Is(kind, s[i])
  }

  function DigitValue(c: char): nat
    requires Is(Digit, c)
  {
    c as int - '0' as int
  }

  /** The characters that the format is made of. */
  lemma Characters(c: char)
    ensures Is(Blank, c) <==> c in [' ', '\t']
    ensures Is(Digit, c) <==> c in "0123456789"
    ensures Is(Digit, c) ==> 0 <= DigitValue(c) < 10 && "0123456789"[DigitValue(c)] == c
  {
    assert "0123456789" == ['0', '1', '2', '3', '4', '5', '6', '7', '8', '9'];
  }

  datatype Option<T> = None | Some(value: T)

  // ---------------------------------------------------------------- what the format means

  /** Blanks, digits, possibly a point and more digits, blanks; any of the four may be empty. */
  datatype Parts = Parts(lead: string, whole: string, frac: Option<string>, trail: string)

  predicate WellFormed(p: Parts) {
    && All(Blank, p.lead) && All(Digit, p.whole) && All(Blank, p.trail)
    && (p.frac.Some? ==> All(Digit, p.frac.value))
  }

  function Tail(p: Parts): string {
    (if p.frac.Some? then "." + p.frac.value else "") + p.trail
  }

  function Render(p: Parts): string {
    p.lead + p.whole + Tail(p)
  }

  function DigitsValue(s: string): nat
    requires All(Digit, s)
  {
    if s == "" then 0 else 10 * DigitsValue(s[..|s| - 1]) + DigitValue(s[|s| - 1])
  }

  function Pow10(j: nat): nat
    ensures Pow10(j) > 0
  {
    if j == 0 then 1 else 10 * Pow10(j - 1)
  }

  /** The digits after the point, "" when there is no point. */
  function Fraction(p: Parts): string {
    if p.frac.Some? then p.frac.value else ""
  }

  /** The quotient rounded down. */
  function Quot(x: nat, d: nat): (q: nat)
    requires 0 < d
  {
    x / d
  }

  /** f / 10^j seconds in whole milliseconds. */
  function FracMsec(f: nat, j: nat): nat {
    Quot(f * 1000, Pow10(j))
  }

  /** The milliseconds that the text denotes, rounded down. */
  function Msec(p: Parts): nat
    requires WellFormed(p)
  {
    DigitsValue(p.whole) * 1000 + FracMsec(DigitsValue(Fraction(p)), |Fraction(p)|)
  }

  /** What 32-bit arithmetic makes of it. */
  function MsecInC(p: Parts): int
    requires WellFormed(p)
  {
    ToInt(DigitsValue(p.whole) * 1000 + FracMsec(DigitsValue(Fraction(p)) % U32, |Fraction(p)|))
  }

  // ---------------------------------------------------------------- greedy scanning

  /** The first position from i on whose character is not of the kind. */
  function Span(kind: Kind, s: string, i: nat): (e: nat)
    requires i <= |s|
    ensures i <= e <= |s| && (e < |s| ==> !Is(kind, s[e]))
    ensures forall k | i <= k < e :: Is(kind, s[k])
    decreases |s| - i
  {
    if i < |s| && Is(kind, s[i]) then Span(kind, s, i + 1) else i
  }

  /** A run of the kind that something else follows is a span. */
  lemma {:induction false} SpanIsRun(kind: Kind, s: string, i: nat, e: nat)
    requires i <= e <= |s| && (e < |s| ==> !Is(kind, s[e]))
    requires forall k | i <= k < e :: Is(kind, s[k])
    ensures Span(kind, s, i) == e
    decreases e - i
  {}

  lemma SpanBetween(kind: Kind, pre: string, run: string, post: string)
    requires All(kind, run) && (post != "" ==> !Is(kind, post[0]))
    ensures Span(kind, pre + run + post, |pre|) == |pre| + |run|
  {
    var s := pre + run + post;
    forall k | |pre| <= k < |pre| + |run|
      ensures Is(kind, s[k])
    {
      assert s[k] == run[k - |pre|];
    }
    assert post != "" ==> s[|pre| + |run|] == post[0];
    SpanIsRun(kind, s, |pre|, |pre| + |run|);
  }

  lemma SpanFirst(kind: Kind, run: string, post: string)
    requires All(kind, run) && (post != "" ==> !Is(kind, post[0]))
    ensures Span(kind, run + post, 0) == |run|
  {
    SpanIsRun(kind, run + post, 0, |run|);
  }

  /** Where the four loops stop: after blanks, digits, point and digits, and blanks. */
  datatype Stops = Stops(a: nat, b: nat, point: bool, c: nat, end: nat)

  predicate CutsUp(s: string, t: Stops) {
    t.a <= t.b <= t.c <= t.end <= |s| && if t.point then t.b < t.c && s[t.b] == '.' else t.c == t.b
  }

  function Stop(s: string): (t: Stops)
    ensures CutsUp(s, t)
  {
    var a := Span(Blank, s, 0);
    var b := Span(Digit, s, a);
    var point := b < |s| && s[b] == '.';
    var c := if point then Span(Digit, s, b + 1) else b;
    Stops(a, b, point, c, Span(Blank, s, c))
  }

  function Cut(s: string, t: Stops): Parts
    requires CutsUp(s, t)
  {
    Parts(s[..t.a], s[t.a..t.b], if t.point then Some(s[t.b + 1..t.c]) else None, s[t.c..])
  }

  /** The decomposition that the loops find, if the last one reaches the end. */
  function Scan(s: string): Option<Parts> {
    var t := Stop(s);
    if t.end == |s| then Some(Cut(s, t)) else None
  }

  lemma Regroup(a: string, b: string, c: string)
    ensures a + (b + c) == a + b + c
  {}

  lemma SliceOfThree(a: string, b: string, c: string)
    ensures (a + b + c)[|a|..|a| + |b|] == b && (a + b + c)[|a| + |b|..] == c
  {}

  lemma ScannedIsWellFormed(s: string)
    requires Scan(s).Some?
    ensures WellFormed(Scan(s).value)
  {}

  lemma ScannedRenders(s: string)
    requires Scan(s).Some?
    ensures Render(Scan(s).value) == s
  {
    CutRenders(s, Stop(s));
  }

  lemma CutRenders(s: string, t: Stops)
    requires CutsUp(s, t)
    ensures Render(Cut(s, t)) == s
  {
    CutTwice(s, t.a, t.b);
    TailOfCut(s, t);
  }

  lemma TailOfCut(s: string, t: Stops)
    requires CutsUp(s, t)
    ensures Tail(Cut(s, t)) == s[t.b..]
  {
    if t.point {
      CutAtPoint(s, t.b, t.c);
    }
  }

  lemma CutAtPoint(s: string, b: nat, c: nat)
    requires b < c <= |s| && s[b] == '.'
    ensures "." + s[b + 1..c] + s[c..] == s[b..]
  {
    assert s[b..b + 1] == ".";
  }

  lemma CutTwice(s: string, a: nat, b: nat)
    requires a <= b <= |s|
    ensures s[..a] + s[a..b] + s[b..] == s
  {}

  lemma ScanSound(s: string)
    requires Scan(s).Some?
    ensures WellFormed(Scan(s).value) && Render(Scan(s).value) == s
  {
    ScannedIsWellFormed(s);
    ScannedRenders(s);
  }

  /** Scanning misses no well-formed text and finds its digits. */
  lemma ScanComplete(p: Parts)
    requires WellFormed(p)
    ensures var r := Scan(Render(p));
            r.Some? && r.value.whole == p.whole && r.value.frac == p.frac
  {
    if p.whole == "" && p.frac.None? {
      StopInBlanks(p);
    } else {
      StopAtWhole(p);
      if p.frac.Some? {
        StopAtFraction(p);
      } else {
        StopAtTrail(p);
      }
    }
  }

  lemma StopInBlanks(p: Parts)
    requires WellFormed(p) && p.whole == "" && p.frac.None?
    ensures var s, t := Render(p), Stop(Render(p)); t.a == t.b == t.end == |s| && !t.point
  {
    var s := Render(p);
    assert s == p.lead + p.trail;
    SpanIsRun(Blank, s, 0, |s|);
  }

  lemma StopAtWhole(p: Parts)
    requires WellFormed(p) && (p.whole != "" || p.frac.Some?)
    ensures var s, t := Render(p), Stop(Render(p));
            && t.a == |p.lead| && t.b == t.a + |p.whole|
            && s[t.a..t.b] == p.whole && s[t.b..] == Tail(p) && t.point == p.frac.Some?
  {
    var s := Render(p);
    Regroup(p.lead, p.whole, Tail(p));
    SpanFirst(Blank, p.lead, p.whole + Tail(p));
    SpanBetween(Digit, p.lead, p.whole, Tail(p));
    SliceOfThree(p.lead, p.whole, Tail(p));
  }

  lemma StopAtTrail(p: Parts)
    requires WellFormed(p) && p.whole != "" && p.frac.None?
    ensures Stop(Render(p)).end == |Render(p)|
  {}

  lemma RenderedFraction(p: Parts)
    requires WellFormed(p) && p.frac.Some?
    ensures Render(p) == p.lead + p.whole + "." + p.frac.value + p.trail
  {}

  lemma StopAtFraction(p: Parts)
    requires WellFormed(p) && p.frac.Some?
    ensures var s, t := Render(p), Stop(Render(p));
            t.b < t.c && s[t.b + 1..t.c] == p.frac.value && t.end == |s|
  {
    StopAtWhole(p);
    RenderedFraction(p);
    var front := p.lead + p.whole + ".";
    assert |front| == Stop(Render(p)).b + 1;
    SpansOfFraction(front, p.frac.value, p.trail);
  }

  lemma SpansOfFraction(front: string, f: string, trail: string)
    requires All(Digit, f) && All(Blank, trail)
    ensures var s, c := front + f + trail, |front| + |f|;
            Span(Digit, s, |front|) == c && Span(Blank, s, c) == |s| && s[|front|..c] == f
  {
    SpanBetween(Digit, front, f, trail);
    assert front + f + trail == (front + f) + trail + "";
    SpanBetween(Blank, front + f, trail, "");
    SliceOfThree(front, f, trail);
  }

  // ---------------------------------------------------------------- arithmetic of the fraction

  lemma QuotBounds(x: nat, d: nat)
    requires 0 < d
    ensures Quot(x, d) * d <= x < Quot(x, d) * d + d
  {}

  lemma QuotIs(x: nat, d: nat, q: nat)
    requires 0 < d && q * d <= x < q * d + d
    ensures Quot(x, d) == q
  {
    DivisionIs(x, d, q, x - q * d);
  }

  lemma TenTimes(x: nat, d: nat)
    requires 0 < d
    ensures Quot(x, d) / 10 == Quot(x, 10 * d)
  {
    var q := Quot(x, d);
    var p, r := q / 10, q % 10;
    QuotBounds(x, d);
    assert q * d == p * (10 * d) + r * d;
    MulMonotone(r + 1, 10, d);
    MulMonotone(0, r, d);
    QuotIs(x, 10 * d, p);
  }

  lemma CancelThousand(x: nat, d: nat)
    requires 0 < d
    ensures Quot(x * 1000, 1000 * d) == Quot(x, d)
  {
    QuotBounds(x, d);
    QuotIs(x * 1000, 1000 * d, Quot(x, d));
  }

  lemma Pow10Plus3(j: nat)
    ensures Pow10(j + 3) == 1000 * Pow10(j)
  {
    assert Pow10(j + 3) == 10 * Pow10(j + 2) && Pow10(j + 2) == 10 * Pow10(j + 1);
  }

  lemma {:induction false} DigitsBelowPow(s: string)
    requires All(Digit, s)
    ensures DigitsValue(s) < Pow10(|s|)
  {
    if s != "" {
      DigitsBelowPow(s[..|s| - 1]);
    }
  }

  /** Dropping or adding digits one by one is one division. */
  method ScaleToMsec(f: nat, digits: nat) returns (fl: nat)
    ensures fl == FracMsec(f, digits)
  {
    fl := f;
    var j := digits;
    QuotIs(f, 1, f);
    while j > 3
      invariant j <= digits && (if digits > 3 then 3 <= j else j == digits)
      invariant fl == Quot(f, Pow10(digits - j))
    {
      TenTimes(f, Pow10(digits - j));
      fl := fl / 10;
      j := j - 1;
    }
    if digits >= 3 {
      Pow10Plus3(digits - 3);
      CancelThousand(f, Pow10(digits - 3));
    }
    while j < 3
      invariant digits < 3 ==> digits <= j <= 3 && fl == f * Pow10(j - digits)
      invariant digits >= 3 ==> j == 3 && fl == FracMsec(f, digits)
    {
      fl := fl * 10;
      j := j + 1;
    }
    if digits < 3 {
      ShortScale(f, digits);
    }
  }

  lemma ShortScale(f: nat, digits: nat)
    requires digits < 3
    ensures f * Pow10(3 - digits) == FracMsec(f, digits)
  {
    assert Pow10(1) == 10 && Pow10(2) == 100 && Pow10(3) == 1000;
    QuotIs(f * 1000, Pow10(digits), f * Pow10(3 - digits));
  }

  lemma WrapDigit(x: nat, d: nat)
    ensures (x % U32 * 10 + d) % U32 == (x * 10 + d) % U32
  {}

  lemma NextDigit(s: string, a: nat, i: nat)
    requires a <= i < |s| && All(Digit, s[a..i]) && Is(Digit, s[i])
    ensures All(Digit, s[a..i + 1])
    ensures DigitsValue(s[a..i + 1]) == 10 * DigitsValue(s[a..i]) + DigitValue(s[i])
  {
    assert s[a..i + 1][..i - a] == s[a..i];
  }

  /** One of the two digit loops: where the digits end, and their value in an unsigned int. */
  method ReadDigits(s: CString, start: nat) returns (i: nat, value: nat)
    requires start <= |s|
    ensures i == Span(Digit, s, start)
    ensures All(Digit, s[start..i]) && value == DigitsValue(s[start..i]) % U32
    ensures (forall k | start <= k < i :: '0' <= s[k] <= '9') && (i < |s| ==> s[i] < '0' || '9' < s[i])
  {
    i, value := start, 0;
    while '0' <= At(s, i) <= '9'
      invariant start <= i <= |s| && All(Digit, s[start..i])
      invariant forall k | start <= k < i :: Is(Digit, s[k])
      invariant value == DigitsValue(s[start..i]) % U32
      decreases |s| - i
    {
      NextDigit(s, start, i);
      WrapDigit(DigitsValue(s[start..i]), DigitValue(s[i]));
      value := (value * 10 + DigitValue(At(s, i))) % U32;
      i := i + 1;
    }
    SpanIsRun(Digit, s, start, i);
  }

  method SkipBlanks(s: CString, start: nat) returns (i: nat)
    requires start <= |s|
    ensures i == Span(Blank, s, start)
    ensures start <= i <= |s| && (forall k | start <= k < i :: s[k] == ' ' || s[k] == '\t')
    ensures i < |s| ==> s[i] != ' ' && s[i] != '\t'
  {
    i := start;
    while At(s, i) == ' ' || At(s, i) == '\t'
      invariant start <= i <= |s|
      invariant forall k | start <= k < i :: Is(Blank, s[k])
      decreases |s| - i
    {
      i := i + 1;
    }
    SpanIsRun(Blank, s, start, i);
  }

  /** The result for every C string, wrap-around included. */
  function Result(s: string): int {
    match Scan(s)
    case None => -1
    case Some(p) => ScanSound(s); MsecInC(p)
  }

  lemma WrapThousand(x: nat, f: nat)
    ensures (x % U32 * 1000 + f) % U32 == (x * 1000 + f) % U32
  {}

  /** The digits after the point in s[b..c], if there is a point. */
  function FractionAt(s: string, b: nat, c: nat): string
    requires b <= c <= |s|
  {
    if b < c then s[b + 1..c] else ""
  }

  lemma ScannedDigits(s: string)
    requires Scan(s).Some?
    ensures Scan(s).value.whole == s[Stop(s).a..Stop(s).b]
    ensures Fraction(Scan(s).value) == FractionAt(s, Stop(s).b, Stop(s).c)
  {}

  lemma NumbersInC(p: Parts, whole: nat, fl: nat)
    requires WellFormed(p) && whole == DigitsValue(p.whole) % U32
    requires fl == FracMsec(DigitsValue(Fraction(p)) % U32, |Fraction(p)|)
    ensures MsecInC(p) == ToInt(whole * 1000 + fl)
  {
    WrapThousand(DigitsValue(p.whole), fl);
  }

  lemma ResultAtEnd(s: string, whole: nat, fl: nat)
    requires Stop(s).end == |s|
    requires All(Digit, s[Stop(s).a..Stop(s).b]) && All(Digit, FractionAt(s, Stop(s).b, Stop(s).c))
    requires whole == DigitsValue(s[Stop(s).a..Stop(s).b]) % U32
    requires var f := FractionAt(s, Stop(s).b, Stop(s).c); fl == FracMsec(DigitsValue(f) % U32, |f|)
    ensures Result(s) == ToInt(whole * 1000 + fl)
  {
    ScannedIsWellFormed(s);
    ScannedDigits(s);
    NumbersInC(Scan(s).value, whole, fl);
  }

  /** The optional point and fraction digits that start at b. */
  method ReadFraction(s: CString, b: nat) returns (i: nat, fl: nat)
    requires b <= |s|
    ensures b <= i <= |s|
    ensures i == if b < |s| && s[b] == '.' then Span(Digit, s, b + 1) else b
    ensures var f := FractionAt(s, b, i);
            All(Digit, f) && fl == FracMsec(DigitsValue(f) % U32, |f|)
  {
    i, fl := b, 0;
    QuotIs(0, 1, 0);
    if At(s, i) == '.' {
      i := i + 1;
      i, fl := ReadDigits(s, i);
      fl := ScaleToMsec(fl, i - (b + 1));
    }
  }

  /** The whole of parse_msec; no character of s is the NUL that ends it. */
  method ParseMsec(s: CString) returns (r: int)
    ensures r == Result(s)
  {
    var a := SkipBlanks(s, 0);
    var b, whole := ReadDigits(s, a);
    var c, fl := ReadFraction(s, b);
    var i := SkipBlanks(s, c);
    assert Stop(s) == Stops(a, b, b < |s| && s[b] == '.', c, i);
    if At(s, i) == '\0' {
      ResultAtEnd(s, whole, fl);
      return ToInt(whole * 1000 + fl);
    }
    return -1;
  }

  // ---------------------------------------------------------------- what it computes

  lemma SameDigitsSameValue(p: Parts, q: Parts)
    requires WellFormed(p) && WellFormed(q) && p.whole == q.whole && p.frac == q.frac
    ensures MsecInC(p) == MsecInC(q)
  {}

  /** Every text of the format, however it is split into its parts, gives its parts' value. */
  lemma FormattedText(p: Parts)
    requires WellFormed(p)
    ensures Result(Render(p)) == MsecInC(p)
  {
    var s := Render(p);
    ScanComplete(p);
    ScanSound(s);
    SameDigitsSameValue(Scan(s).value, p);
  }

  /** Every other text gives -1. */
  lemma OtherText(s: string)
    requires forall p | WellFormed(p) :: Render(p) != s
    ensures Result(s) == -1
  {
    if Scan(s).Some? {
      ScanSound(s);
    }
  }

  lemma QuotGap(x: nat, y: nat, d: nat)
    requires 0 < d && x + d <= y
    ensures Quot(x, d) < Quot(y, d)
  {
    QuotBounds(x, d);
    QuotBounds(y, d);
    if Quot(y, d) <= Quot(x, d) {
      MulMonotone(Quot(y, d), Quot(x, d), d);
    }
  }

  lemma QuotSmall(x: nat, d: nat)
    requires 0 < d
    ensures Quot(x, d) == 0 <==> x < d
  {}

  lemma WrapDropsAtLeast(f: nat)
    requires U32 <= f
    ensures f % U32 * 1000 + U32 * 1000 <= f * 1000 && f % U32 < U32
  {}

  /** A fraction of too many digits survives wrapping only if it is below a millisecond. */
  lemma FractionSurvivesWrapping(f: nat, j: nat)
    ensures FracMsec(f % U32, j) == FracMsec(f, j) <==> f < U32 || f * 1000 < Pow10(j)
  {
    if U32 <= f {
      WrapDropsAtLeast(f);
      WrappedQuotient(f * 1000, f % U32 * 1000, Pow10(j));
    }
  }

  lemma WrappedQuotient(x: nat, y: nat, d: nat)
    requires 0 < d && y + U32 * 1000 <= x && y < U32 * 1000
    ensures Quot(y, d) == Quot(x, d) <==> x < d
  {
    QuotSmall(x, d);
    QuotSmall(y, d);
    if d <= U32 * 1000 {
      QuotGap(y, x, d);
    }
  }

  lemma FractionBelowSecond(f: nat, j: nat)
    requires f < Pow10(j)
    ensures FracMsec(f, j) < 1000
  {
    var d := Pow10(j);
    QuotBounds(f * 1000, d);
    if 1000 <= FracMsec(f, j) {
      MulMonotone(1000, FracMsec(f, j), d);
    }
  }

  lemma IntKeeps(whole: nat, g: nat, h: nat)
    requires g < 1000 && h < 1000
    ensures ToInt(whole * 1000 + h) == whole * 1000 + g <==> whole * 1000 + g < 0x8000_0000 && g == h
  {}

  lemma ExactNumbers(whole: nat, f: nat, j: nat)
    requires f < Pow10(j)
    ensures ToInt(whole * 1000 + FracMsec(f % U32, j)) == whole * 1000 + FracMsec(f, j) <==>
              whole * 1000 + FracMsec(f, j) < 0x8000_0000 && (f < U32 || f * 1000 < Pow10(j))
  {
    var g, h := FracMsec(f, j), FracMsec(f % U32, j);
    assert g < 1000 by { FractionBelowSecond(f, j); }
    assert h < 1000 by { FractionBelowSecond(f % U32, j); }
    assert g == h <==> f < U32 || f * 1000 < Pow10(j) by { FractionSurvivesWrapping(f, j); }
    IntKeeps(whole, g, h);
  }

  lemma ExactValue(p: Parts)
    requires WellFormed(p)
    ensures var f := DigitsValue(Fraction(p));
            MsecInC(p) == Msec(p) <==>
              Msec(p) < 0x8000_0000 && (f < U32 || f * 1000 < Pow10(|Fraction(p)|))
  {
    DigitsBelowPow(Fraction(p));
    ExactNumbers(DigitsValue(p.whole), DigitsValue(Fraction(p)), |Fraction(p)|);
  }

  /** The result is the exact number of milliseconds exactly when it fits and the fraction does. */
  lemma ExactWhenItFits(p: Parts)
    requires WellFormed(p)
    ensures var f := DigitsValue(Fraction(p));
            Result(Render(p)) == Msec(p) <==>
              Msec(p) < 0x8000_0000 && (f < U32 || f * 1000 < Pow10(|Fraction(p)|))
  {
    FormattedText(p);
    ExactValue(p);
  }

  function DigitChar(d: nat): (c: char)
    requires d < 10
    ensures Is(Digit, c) && DigitValue(c) == d
  {
    "0123456789"[d]
  }

  function Dec(n: nat): (s: string)
    ensures s != "" && All(Digit, s)
  {
    if n < 10 then [DigitChar(n)] else Dec(n / 10) + [DigitChar(n % 10)]
  }

  lemma {:induction false} DecValue(n: nat)
    ensures DigitsValue(Dec(n)) == n
  {
    if 10 <= n {
      DecValue(n / 10);
      assert Dec(n)[..|Dec(n)| - 1] == Dec(n / 10);
    }
  }

  /** The three decimals of m milliseconds. */
  function Decimals(m: nat): (s: string)
    ensures All(Digit, s) && |s| == 3
  {
    [DigitChar(m / 100 % 10), DigitChar(m / 10 % 10), DigitChar(m % 10)]
  }

  /** m milliseconds written as seconds with three decimals. */
  function SecondsText(m: nat): Parts {
    Parts("", Dec(m / 1000), Some(Decimals(m)), "")
  }

  lemma ThreeDigits(s: string)
    requires All(Digit, s) && |s| == 3
    ensures DigitsValue(s) == 100 * DigitValue(s[0]) + 10 * DigitValue(s[1]) + DigitValue(s[2])
  {
    assert s[..2][..1] == s[..1] && s[..1][..0] == "";
    assert DigitsValue(s[..1]) == DigitValue(s[0]);
    assert DigitsValue(s[..2]) == 10 * DigitValue(s[0]) + DigitValue(s[1]);
  }

  lemma TenHundred(m: nat)
    ensures m / 100 == m / 10 / 10
  {}

  lemma LastThreeDigits(m: nat)
    ensures 100 * (m / 100 % 10) + 10 * (m / 10 % 10) + m % 10 == m % 1000
  {
    TenHundred(m);
    var q := m / 10;
    var h := q / 10;
    DivisionIs(m, 1000, h / 10, 100 * (h % 10) + 10 * (q % 10) + m % 10);
  }

  lemma DecimalsValue(m: nat)
    ensures DigitsValue(Decimals(m)) == m % 1000
    ensures FracMsec(DigitsValue(Decimals(m)), 3) == m % 1000
  {
    ThreeDigits(Decimals(m));
    LastThreeDigits(m);
    assert Pow10(1) == 10 && Pow10(2) == 100 && Pow10(3) == 1000;
    QuotIs(m % 1000 * 1000, 1000, m % 1000);
  }

  lemma ParsingInvertsWriting(m: nat)
    requires m < 0x8000_0000
    ensures Result(Render(SecondsText(m))) == m
  {
    var p := SecondsText(m);
    DecValue(m / 1000);
    DecimalsValue(m);
    assert Msec(p) == m / 1000 * 1000 + m % 1000;
    ExactWhenItFits(p);
  }
}
