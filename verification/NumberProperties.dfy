/**
 What scanning a number guarantees: which digits its significand holds, and that the exponent stays
 in a 32-bit integer as long as the fraction is not absurdly long.
 */
module NumberProperties {
  import opened Bytes
  import opened Numerals
  import opened Grammar
  import opened Sax

  // ---------------------------------------------------------------- the significand

  /** The digits `s[p..q]` appended to the number `d`. */
  function Appended(s: seq<byte>, p: nat, q: nat, d: nat): nat
    requires p <= q <= |s| && DigitRun(s, p, q)
    decreases q - p
  {
    if p == q then d else Appended(s, p + 1, q, d * 10 + (s[p] - DIGIT_0))
  }

  /** The digits a fraction contributes are its first ones, and it is cut only behind 17 digits. */
  lemma {:induction false} FractionIsPrefix(s: seq<byte>, p: nat, q: nat, d: nat, absorbed: nat, digits: nat)
    returns (m: nat)
    requires p <= q <= |s| && DigitRun(s, p, q)
    ensures p + m <= q
    ensures Fraction(s, p, q, d, absorbed, digits) == Significand(Appended(s, p, p + m, d), absorbed + m)
    ensures p + m < q ==> Appended(s, p, p + m, d) > 0x1F_FFFF_FFFF_FFFF && digits + m >= 17
    decreases q - p
  {
    if p == q || !Absorbs(d, digits) {
      m := 0;
    } else {
      var d' := d * 10 + (s[p] - DIGIT_0);
      var k := FractionIsPrefix(s, p + 1, q, d', absorbed + 1, if d' != 0 then digits + 1 else digits);
      m := k + 1;
    }
  }

  lemma {:induction false} AppendedSnoc(s: seq<byte>, p: nat, q: nat, d: nat)
    requires p <= q < |s| && DigitRun(s, p, q + 1)
    ensures Appended(s, p, q + 1, d) == Appended(s, p, q, d) * 10 + (s[q] - DIGIT_0)
    decreases q - p
  {
    if p < q {
      AppendedSnoc(s, p + 1, q, d * 10 + (s[p] - DIGIT_0));
    }
  }

  lemma TimesTen(a: nat, b: nat)
    ensures a * (10 * b) == 10 * (a * b)
  {
  }

  /** Digits of the integer part, then of the fraction: one decimal integer, the point left out. */
  lemma {:induction false} AppendedIsValue(s: seq<byte>, i: nat, j: nat, q: nat)
    requires i <= j < q <= |s| && DigitRun(s, i, j) && DigitRun(s, j + 1, q)
    ensures Appended(s, j + 1, q, NatOf(s, i, j)) == NatOf(s, i, j) * Pow10(q - j - 1) + NatOf(s, j + 1, q)
    decreases q - j
  {
    var a := NatOf(s, i, j);
    if j + 1 < q {
      AppendedIsValue(s, i, j, q - 1);
      AppendedSnoc(s, j + 1, q - 1, a);
      TimesTen(a, Pow10(q - j - 2));
    }
  }

  /**
   The significand and its power of ten denote the digits as written, cut, if at all, behind the
   seventeenth: the value is `d * 10^-absorbed`, exactly when nothing is cut.
   */
  lemma SignificandDenotesDigits(s: seq<byte>, n: Parts)
    requires n.Valid(s) && n.HasFraction()
    ensures var sig := SignificandOf(s, n);
            var cut := n.intEnd + 1 + sig.absorbed;
            && cut <= n.fracEnd
            && sig.d == NatOf(s, n.intBegin, n.intEnd) * Pow10(sig.absorbed) + NatOf(s, n.intEnd + 1, cut)
            && (cut < n.fracEnd ==> sig.d > 0x1F_FFFF_FFFF_FFFF && cut - n.intBegin >= 17)
  {
    var i := NatOf(s, n.intBegin, n.intEnd);
    var digits := if n.intEnd == n.intBegin then 0 else n.intEnd - n.intBegin - 1;
    var m := FractionIsPrefix(s, n.intEnd + 1, n.fracEnd, i, 0, digits);
    AppendedIsValue(s, n.intBegin, n.intEnd, n.intEnd + 1 + m);
  }

  // ---------------------------------------------------------------- the exponent

  predicate InInt(x: int) {
    INT_MIN <= x <= INT_MAX
  }

  /** Every intermediate value of the exponent loop is an `int`: it accumulates until it passes `maxExp`. */
  predicate ScanInInt(s: seq<byte>, p: nat, q: nat, e: nat, maxExp: int)
    requires p <= q <= |s| && DigitRun(s, p, q)
    decreases q - p
  {
    p == q ||
    var e' := e * 10 + (s[p] - DIGIT_0);
    InInt(e') && (e' > maxExp || ScanInInt(s, p + 1, q, e', maxExp))
  }

  lemma {:induction false} GuardKeepsInInt(s: seq<byte>, p: nat, q: nat, e: nat, maxExp: int)
    requires p <= q <= |s| && DigitRun(s, p, q)
    requires maxExp * 10 + 9 <= INT_MAX && (e <= maxExp || e <= 9)
    ensures ScanInInt(s, p, q, e, maxExp)
    decreases q - p
  {
    if p < q {
      var e' := e * 10 + (s[p] - DIGIT_0);
      if e' <= maxExp {
        GuardKeepsInInt(s, p + 1, q, e', maxExp);
      }
    }
  }

  /** The longest fraction for which the guard of a positive exponent protects an `int`. */
  const MAX_FRACTION: nat := 214748055

  /** No fraction absorbs more digits than it has. */
  lemma AbsorbedWithin(s: seq<byte>, n: Parts)
    requires n.Valid(s)
    ensures SignificandOf(s, n).absorbed <= if n.HasFraction() then n.fracEnd - n.intEnd - 1 else 0
  {
    if n.HasFraction() {
      SignificandDenotesDigits(s, n);
    }
  }

  /** Scanning the exponent of a number, with the guard that its own fraction leaves. */
  predicate ExponentInInt(s: seq<byte>, n: Parts)
    requires n.Valid(s)
  {
    n.HasExponent() ==>
      ScanInInt(s, n.expBegin + 1, n.end, s[n.expBegin] - DIGIT_0,
                MaxExponent(n.expMinus, SignificandOf(s, n).absorbed))
  }

  /**
   For every number text with at most that many fraction digits, the exponent scan stays an `int`, and so
   does the power of ten handed to the conversion.
   */
  lemma ExponentScanStaysInInt(s: seq<byte>, n: Parts)
    requires n.Valid(s) && (n.HasFraction() ==> n.fracEnd - n.intEnd - 1 <= MAX_FRACTION)
    ensures ExponentInInt(s, n)
    ensures var absorbed := SignificandOf(s, n).absorbed;
            ExponentOf(s, n, absorbed) <= MaxExponent(false, absorbed) ==> InInt(ExponentOf(s, n, absorbed) - absorbed)
  {
    AbsorbedWithin(s, n);
    var absorbed := SignificandOf(s, n).absorbed;
    if n.HasExponent() {
      GuardKeepsInInt(s, n.expBegin + 1, n.end, s[n.expBegin] - DIGIT_0, MaxExponent(n.expMinus, absorbed));
      if n.expMinus {
        CappedExponentBound(s, n.expBegin + 1, n.end, s[n.expBegin] - DIGIT_0, MaxExponent(true, absorbed));
      }
    }
  }

  /** The first `i` digits from `b` on are the shortest prefix that is no `int`. */
  predicate FirstAbove(s: seq<byte>, b: nat, i: nat)
    requires b < i <= |s| && DigitRun(s, b, i)
  {
    NatOf(s, b, i) > INT_MAX && NatOf(s, b, i - 1) <= INT_MAX
  }

  lemma {:induction false} ScanInIntIff(s: seq<byte>, b: nat, p: nat, q: nat, maxExp: int)
    requires b < p <= q <= |s| && DigitRun(s, b, q) && NatOf(s, b, p) <= INT_MAX && NatOf(s, b, p) <= maxExp
    ensures ScanInInt(s, p, q, NatOf(s, b, p), maxExp)
       <==> forall i :: p < i <= q && FirstAbove(s, b, i) ==> NatOf(s, b, i - 1) > maxExp
    decreases q - p
  {
    if p < q {
      var e := NatOf(s, b, p + 1);
      assert e == NatOf(s, b, p) * 10 + (s[p] - DIGIT_0);
      if e > INT_MAX {
        assert FirstAbove(s, b, p + 1);
      } else if e > maxExp {
        forall i | p < i <= q && FirstAbove(s, b, i)
          ensures NatOf(s, b, i - 1) > maxExp
        {
          NatOfPrefix(s, b, p + 1, i - 1);
        }
      } else {
        ScanInIntIff(s, b, p + 1, q, maxExp);
      }
    }
  }

  /**
   For every number text: the scan leaves `int` exactly if the exponent is positive and its shortest digit
   prefix that is no `int` comes up while the prefix before it still passes the guard.
   */
  lemma ExponentInIntIff(s: seq<byte>, n: Parts)
    requires n.Valid(s)
    ensures ExponentInInt(s, n)
       <==> (n.HasExponent() && !n.expMinus ==>
               forall i :: n.expBegin < i <= n.end && FirstAbove(s, n.expBegin, i) ==>
                 NatOf(s, n.expBegin, i) / 10 > 308 + SignificandOf(s, n).absorbed)
  {
    hide SignificandOf, FirstAbove;
    var absorbed := SignificandOf(s, n).absorbed;
    if n.HasExponent() {
      var b, maxExp := n.expBegin, MaxExponent(n.expMinus, absorbed);
      assert NatOf(s, b, b + 1) == s[b] - DIGIT_0;
      if n.expMinus {
        GuardKeepsInInt(s, b + 1, n.end, s[b] - DIGIT_0, maxExp);
      } else {
        ScanInIntIff(s, b, b + 1, n.end, maxExp);
        forall i | b < i <= n.end
          ensures NatOf(s, b, i) / 10 == NatOf(s, b, i - 1)
        {
        }
        assert !FirstAbove(s, b, b + 1) by { SingleDigit(s, b); }
      }
    }
  }

  lemma SingleDigit(s: seq<byte>, b: nat)
    requires b < |s| && DigitRun(s, b, b + 1)
    ensures !FirstAbove(s, b, b + 1)
  {
  }

  const LONG_EXPONENT: seq<byte> := [0x32, 0x31, 0x34, 0x37, 0x34, 0x38, 0x33, 0x36, 0x34, 0x39]

  function Zeros(k: nat): (zs: seq<byte>)
    ensures |zs| == k && forall i :: 0 <= i < k ==> zs[i] == DIGIT_0
  {
    seq(k, _ => DIGIT_0)
  }

  /** `0.0...0e2147483649` with `k` zeros after the point. */
  function LongFraction(k: nat): seq<byte> {
    [DIGIT_0, DOT] + Zeros(k) + [LOWER_E] + LONG_EXPONENT
  }

  lemma {:induction false} ZerosAbsorbed(s: seq<byte>, p: nat, q: nat, absorbed: nat)
    requires p <= q <= |s| && DigitRun(s, p, q) && forall i :: p <= i < q ==> s[i] == DIGIT_0
    ensures Fraction(s, p, q, 0, absorbed, 0) == Significand(0, absorbed + (q - p))
    decreases q - p
  {
    if p < q {
      ZerosAbsorbed(s, p + 1, q, absorbed + 1);
    }
  }

  lemma LongFractionLayout(k: nat, f: Flags)
    requires k > 0
    ensures var s := LongFraction(k);
            var n := Parts(0, false, Plain, 0, 1, k + 2, false, k + 3, k + 13);
            NumberLayout(s, f, 0) == Layout(n) && n.Valid(s) && SignificandOf(s, n).absorbed == k
  {
    var s := LongFraction(k);
    assert |s| == k + 13;
    assert forall i :: 0 <= i < k ==> s[i + 2] == Zeros(k)[i];
    assert forall i :: 2 <= i < k + 2 ==> s[i] == Zeros(k)[i - 2];
    assert forall i :: 0 <= i < 10 ==> s[k + 3 + i] == LONG_EXPONENT[i];
    assert forall i :: k + 3 <= i < k + 13 ==> s[i] == LONG_EXPONENT[i - (k + 3)];
    assert s[0] == DIGIT_0 && s[1] == DOT && s[k + 2] == LOWER_E;
    DigitsEndUnique(s, 2, k + 2);
    DigitsEndUnique(s, k + 3, k + 13);
    ZerosAbsorbed(s, 2, k + 2, 0);
    assert NatOf(s, 0, 1) == 0;
    assert ExponentLayout(s, 0, false, Plain, 0, 1, k + 2)
        == Layout(Parts(0, false, Plain, 0, 1, k + 2, false, k + 3, k + 13));
    assert FractionLayout(s, 0, false, Plain, 0, 1) == ExponentLayout(s, 0, false, Plain, 0, 1, k + 2);
  }

  /** The bound is sharp: with any longer fraction of zeros the exponent 2147483649 overflows. */
  lemma LongFractionOverflows(k: nat, f: Flags)
    requires k > 0
    ensures var s := LongFraction(k);
            NumberLayout(s, f, 0).Layout? && (ExponentInInt(s, NumberLayout(s, f, 0).parts) <==> k <= MAX_FRACTION)
  {
    hide LongFraction;
    var s := LongFraction(k);
    LongFractionLayout(k, f);
    var n := NumberLayout(s, f, 0).parts;
    if k <= MAX_FRACTION {
      ExponentScanStaysInInt(s, n);
    } else {
      LongExponentAt(k);
      OverflowingExponent(k, s, k + 4);
    }
  }

  lemma LongExponentAt(k: nat)
    ensures var s := LongFraction(k); |s| == k + 13 && s[k + 3] == LONG_EXPONENT[0] && s[k + 4..] == LONG_EXPONENT[1..]
  {
    var s := LongFraction(k);
    assert s[k + 3..] == LONG_EXPONENT;
    assert s[k + 4..] == s[k + 3..][1..];
  }

  /** Its last digit is read while 214748364 still passes the guard. */
  lemma OverflowingExponent(absorbed: nat, s: seq<byte>, p: nat)
    requires absorbed > MAX_FRACTION
    requires p + 9 == |s| && s[p..] == LONG_EXPONENT[1..]
    ensures DigitRun(s, p, p + 9) && !ScanInInt(s, p, p + 9, 2, MaxExponent(false, absorbed))
  {
    var m, q, t := MaxExponent(false, absorbed), p + 9, s[p..];
    assert t[0] == s[p] && t[1] == s[p + 1] && t[2] == s[p + 2] && t[3] == s[p + 3] && t[4] == s[p + 4];
    assert t[5] == s[p + 5] && t[6] == s[p + 6] && t[7] == s[p + 7] && t[8] == s[p + 8];
    assert s[p] == 0x31 && s[p + 1] == 0x34 && s[p + 2] == 0x37 && s[p + 3] == 0x34 && s[p + 4] == 0x38;
    assert s[p + 5] == 0x33 && s[p + 6] == 0x36 && s[p + 7] == 0x34 && s[p + 8] == 0x39;
    ScanOverflows(s, p + 8, q, 214748364, m);
    ScanGoesOn(s, p + 7, q, 21474836, m);
    ScanGoesOn(s, p + 6, q, 2147483, m);
    ScanGoesOn(s, p + 5, q, 214748, m);
    ScanGoesOn(s, p + 4, q, 21474, m);
    ScanGoesOn(s, p + 3, q, 2147, m);
    ScanGoesOn(s, p + 2, q, 214, m);
    ScanGoesOn(s, p + 1, q, 21, m);
    ScanGoesOn(s, p, q, 2, m);
  }

  lemma ScanOverflows(s: seq<byte>, p: nat, q: nat, e: nat, maxExp: int)
    requires p < q <= |s| && DigitRun(s, p, q) && !InInt(e * 10 + (s[p] - DIGIT_0))
    ensures !ScanInInt(s, p, q, e, maxExp)
  {
  }

  lemma ScanGoesOn(s: seq<byte>, p: nat, q: nat, e: nat, maxExp: int)
    requires p < q <= |s| && DigitRun(s, p, q) && e * 10 + (s[p] - DIGIT_0) <= maxExp
    requires !ScanInInt(s, p + 1, q, e * 10 + (s[p] - DIGIT_0), maxExp)
    ensures !ScanInInt(s, p, q, e, maxExp)
  {
  }

  /** A capped exponent passes its bound by less than one more digit. */
  lemma {:induction false} CappedExponentBound(s: seq<byte>, p: nat, q: nat, e: nat, maxExp: int)
    requires p <= q <= |s| && DigitRun(s, p, q) && e <= maxExp
    ensures CappedExponent(s, p, q, e, maxExp) <= maxExp * 10 + 9
    decreases q - p
  {
    if p < q {
      var e' := e * 10 + (s[p] - DIGIT_0);
      if e' <= maxExp {
        CappedExponentBound(s, p + 1, q, e', maxExp);
      }
    }
  }

  // ---------------------------------------------------------------- spelled-out values

  /** NaN and infinity are published only if nothing follows; a fraction or an exponent counts from zero instead. */
  lemma SpelledCounts(s: seq<byte>, f: Flags, strtod: Strtod, n: Parts)
    requires n.Valid(s) && !f.numbersAsStrings && n.special.Spelled? && !n.special.d.Finite?
    ensures NumeralOf(s, f, strtod, n) == Numeral(Event.Double(n.special.d)) <==> !n.HasFraction() && !n.HasExponent()
    ensures n.HasFraction() || n.HasExponent() ==>
              NumeralOf(s, f, strtod, n) == NumeralOf(s, f, strtod, n.(special := Plain))
  {
    hide SignificandAt, ExponentValue, NatOf;
    if !n.HasFraction() && !n.HasExponent() {
      NoExponent(s, n);
    }
  }

  lemma NoExponent(s: seq<byte>, n: Parts)
    requires n.Valid(s) && !n.HasFraction() && !n.HasExponent()
    ensures ExponentOf(s, n, SignificandOf(s, n).absorbed) == 0 <= MaxExponent(false, SignificandOf(s, n).absorbed)
  {
  }

  /** `NaN.5` is read as the number five times ten to the minus one. */
  lemma NaNWithFraction(f: Flags, strtod: Strtod)
    requires f.nanAndInf && !f.numbersAsStrings && !f.fullPrecision && strtod.normal(5, -1) <= strtod.max
    ensures var s: seq<byte> := [UPPER_N, LOWER_A, UPPER_N, DOT, DIGIT_0 + 5];
            var n := Parts(0, false, Spelled(Double.NaN), 3, 3, 5, false, 5, 5);
            && NumberLayout(s, f, 0) == Layout(n)
            && NumeralOf(s, f, strtod, n) == Numeral(Event.Double(Finite(strtod.normal(5, -1))))
  {
    var s: seq<byte> := [UPPER_N, LOWER_A, UPPER_N, DOT, DIGIT_0 + 5];
    assert Matching(s, 3, NAN_TAIL[2..]) == 0;
    assert Matching(s, 2, NAN_TAIL[1..]) == 1;
    assert Matching(s, 1, NAN_TAIL) == 2;
    DigitsEndUnique(s, 4, 5);
    assert NatOf(s, 3, 3) == 0;
    assert Fraction(s, 5, 5, 5, 1, 1) == Significand(5, 1);
    assert Fraction(s, 4, 5, 0, 0, 0) == Significand(5, 1);
  }
}
