/** Digit runs and the numbers they denote. */
module Numerals {
  import opened Bytes

  /** `s[p..q]` is all digits. */
  predicate DigitRun(s: seq<byte>, p: nat, q: nat)
    requires p <= q <= |s|
  {
    forall i :: p <= i < q ==> IsDigit(s[i])
  }

  /** The number the digits `s[p..q]` denote. */
  function NatOf(s: seq<byte>, p: nat, q: nat): nat
    requires p <= q <= |s| && DigitRun(s, p, q)
    decreases q - p
  {
    if p == q then 0 else NatOf(s, p, q - 1) * 10 + (s[q - 1] - DIGIT_0)
  }

  /** The end of the run of digits at `p`. */
  function DigitsEnd(s: seq<byte>, p: nat): (q: nat)
    requires p <= |s|
    ensures p <= q <= |s|
    ensures DigitRun(s, p, q)
    ensures !IsDigit(At(s, q))
    decreases |s| - p
  {
    if IsDigit(At(s, p)) then DigitsEnd(s, p + 1) else p
  }

  lemma {:induction false} DigitsEndUnique(s: seq<byte>, p: nat, q: nat)
    requires p <= q <= |s| && DigitRun(s, p, q) && !IsDigit(At(s, q))
    ensures DigitsEnd(s, p) == q
    decreases q - p
  {
    if p < q {
      DigitsEndUnique(s, p + 1, q);
    }
  }

  /** More digits never denote less. */
  lemma {:induction false} NatOfPrefix(s: seq<byte>, p: nat, q: nat, r: nat)
    requires p <= q <= r <= |s| && DigitRun(s, p, r)
    ensures NatOf(s, p, q) <= NatOf(s, p, r)
    decreases r - q
  {
    if q < r {
      NatOfPrefix(s, p, q, r - 1);
    }
  }

  /** What the digits denote does not depend on the text around them. */
  lemma {:induction false} NatOfShift(s: seq<byte>, p: nat, q: nat, t: seq<byte>, r: nat)
    requires p <= q <= |s| && r + (q - p) <= |t|
    requires DigitRun(s, p, q) && s[p..q] == t[r..r + (q - p)]
    ensures DigitRun(t, r, r + (q - p))
    ensures NatOf(t, r, r + (q - p)) == NatOf(s, p, q)
    decreases q - p
  {
    assert forall i :: 0 <= i < q - p ==> s[p..q][i] == t[r..r + (q - p)][i];
    assert forall i :: r <= i < r + (q - p) ==> t[i] == s[p + (i - r)];
    if p < q {
      assert s[p..q - 1] == s[p..q][..q - 1 - p];
      assert t[r..r + (q - 1 - p)] == t[r..r + (q - p)][..q - 1 - p];
      NatOfShift(s, p, q - 1, t, r);
    }
  }

  function Pow10(k: nat): (r: nat)
    ensures r >= 1
  {
    if k == 0 then 1 else 10 * Pow10(k - 1)
  }

  lemma {:induction false} Pow10Monotone(j: nat, k: nat)
    requires j <= k
    ensures Pow10(j) <= Pow10(k)
    decreases k - j
  {
    if j < k {
      Pow10Monotone(j + 1, k);
    }
  }

  lemma {:induction false} NatOfBelowPow10(s: seq<byte>, p: nat, q: nat)
    requires p <= q <= |s| && DigitRun(s, p, q)
    ensures NatOf(s, p, q) < Pow10(q - p)
    decreases q - p
  {
    if p < q {
      NatOfBelowPow10(s, p, q - 1);
    }
  }

  /** The canonical decimal numeral: what the integer-to-text routines write. */
  function Decimal(n: nat): (ds: seq<byte>)
    ensures |ds| > 0 && DigitRun(ds, 0, |ds|)
  {
    if n < 10 then [DIGIT_0 + n] else Decimal(n / 10) + [DIGIT_0 + n % 10]
  }

  lemma {:induction false} NatOfDecimal(n: nat)
    ensures NatOf(Decimal(n), 0, |Decimal(n)|) == n
    ensures Decimal(n)[0] == DIGIT_0 ==> n == 0 && |Decimal(n)| == 1
  {
    if n >= 10 {
      var ds := Decimal(n / 10);
      NatOfDecimal(n / 10);
      NatOfShift(ds, 0, |ds|, Decimal(n), 0);
    }
  }

  /** The decimal numeral of an integer. */
  function IntText(i: int): seq<byte> {
    if i < 0 then [MINUS] + Decimal(-i) else Decimal(i)
  }

  lemma {:induction false} DecimalLength(n: nat, k: nat)
    requires k > 0 && n < Pow10(k)
    ensures |Decimal(n)| <= k
  {
    if n >= 10 {
      DecimalLength(n / 10, k - 1);
    }
  }
}
