/** `cmp_digit_str`: comparing two runs of decimal digits by the numbers
    they denote, without converting them to a fixed-width integer.

    `NatValue` is the reference definition: the unbounded natural number a digit
    string denotes in decimal notation. */
module DigitCompare {
  import opened Options
  import opened Orderings
  import opened Text

  /** `trim_leading_zeroes`: the suffix starting at the first character
      that is not '0', or the empty string when there is none. */
  function TrimLeadingZeroes(s: seq<char>): (r: seq<char>)
    ensures |r| <= |s| && r == s[|s| - |r|..]
    ensures forall j :: 0 <= j < |s| - |r| ==> s[j] == '0'
    ensures |r| == 0 || r[0] != '0'
  {
    match Position(s, c => c != '0')
    case None => []
    case Some(pos) => s[pos..]
  }

  /** Trimming removes exactly the leading zeros: when the first non-zero
      character of `s` is at `k` (or there is none and `k` is `|s|`), the
      result is `s[k..]`. */
  lemma TrimLeadingZeroesAt(s: seq<char>, k: nat)
    requires k <= |s|
    requires forall j :: 0 <= j < k ==> s[j] == '0'
    requires k == |s| || s[k] != '0'
    ensures TrimLeadingZeroes(s) == s[k..]
  {
    var r := TrimLeadingZeroes(s);
    var k' := |s| - |r|;
    assert |r| > 0 ==> s[k'] == r[0] && r[0] != '0';
    assert forall j :: 0 <= j < k' ==> s[j] == '0';
    assert k' == k;
  }

  /** `cmp_digit_str`. The debug assertions that both arguments hold only
      digits become the precondition. After trimming leading zeros the
      longer run is the larger; runs of equal length compare
      lexicographically. Two runs compare Equal exactly when they agree
      once their leading zeros are removed, so all runs of zeros, the empty
      run included, are Equal; `CmpDigitStrIsNumeric` states the order. */
  function CmpDigitStr(a: seq<char>, b: seq<char>): (r: Ordering)
    requires AllDigits(a) && AllDigits(b)
    ensures r == Equal <==> TrimLeadingZeroes(a) == TrimLeadingZeroes(b)
  {
    var l := TrimLeadingZeroes(a);
    var r := TrimLeadingZeroes(b);
    match CmpInt(|l|, |r|)
    case Equal => LexCmp(l, r)
    case o => o
  }

  function DigitValue(c: char): (d: nat)
    requires IsDigit(c)
    ensures d <= 9
  {
    (c as int) - ('0' as int)
  }

  function Pow10(n: nat): (p: nat)
    ensures p >= 1
  {
    if n == 0 then 1 else 10 * Pow10(n - 1)
  }

  /** The number a string of decimal digits denotes; the empty string
      denotes zero. */
  function NatValue(s: seq<char>): nat
    requires AllDigits(s)
    decreases |s|
  {
    if |s| == 0 then 0 else DigitValue(s[0]) * Pow10(|s| - 1) + NatValue(s[1..])
  }

  lemma {:induction false} Pow10Monotone(m: nat, n: nat)
    requires m <= n
    ensures Pow10(m) <= Pow10(n)
    decreases n
  {
    if m < n {
      Pow10Monotone(m, n - 1);
    }
  }

  /** A smaller leading digit at the same place value outweighs anything
      that can follow it. */
  lemma DigitOutweighs(d: int, e: int, p: int, v: int)
    requires 0 <= d < e && 0 <= v < p
    ensures d * p + v < e * p
    decreases e - d
  {
    assert (d + 1) * p == d * p + p;
    if d + 1 < e {
      DigitOutweighs(d + 1, e, p, 0);
    }
  }

  /** An n-digit string denotes a number below 10^n. */
  lemma {:induction false} NatValueBound(s: seq<char>)
    requires AllDigits(s)
    ensures NatValue(s) < Pow10(|s|)
    decreases |s|
  {
    if |s| > 0 {
      var d, p := DigitValue(s[0]), Pow10(|s| - 1);
      NatValueBound(s[1..]);
      assert NatValue(s) == d * p + NatValue(s[1..]);
      DigitOutweighs(d, 10, p, NatValue(s[1..]));
      assert Pow10(|s|) == 10 * p;
    }
  }

  /** An n-digit string without a leading zero denotes at least 10^(n-1). */
  lemma NatValueLeadingDigit(s: seq<char>)
    requires AllDigits(s) && |s| > 0 && s[0] != '0'
    ensures NatValue(s) >= Pow10(|s| - 1)
  {
    var d, p := DigitValue(s[0]), Pow10(|s| - 1);
    assert NatValue(s) == d * p + NatValue(s[1..]);
    DigitOutweighs(0, d, p, p - 1);
  }

  /** Dropping leading zeros does not change the number denoted. */
  lemma {:induction false} NatValueDropZeros(s: seq<char>, k: nat)
    requires AllDigits(s) && k <= |s|
    requires forall j :: 0 <= j < k ==> s[j] == '0'
    ensures NatValue(s[k..]) == NatValue(s)
    decreases k
  {
    if k > 0 {
      assert DigitValue(s[0]) == 0;
      assert s[1..][k - 1..] == s[k..];
      NatValueDropZeros(s[1..], k - 1);
    }
  }

  /** On digit strings of equal length, lexicographic order is numeric
      order. */
  lemma {:induction false} LexCmpIsNumericOnEqualLength(a: seq<char>, b: seq<char>)
    requires AllDigits(a) && AllDigits(b) && |a| == |b|
    ensures LexCmp(a, b) == CmpInt(NatValue(a), NatValue(b))
    decreases |a|
  {
    if |a| > 0 {
      var p := Pow10(|a| - 1);
      var da, db := DigitValue(a[0]), DigitValue(b[0]);
      NatValueBound(a[1..]);
      NatValueBound(b[1..]);
      assert NatValue(a) == da * p + NatValue(a[1..]);
      assert NatValue(b) == db * p + NatValue(b[1..]);
      if da < db {
        DigitOutweighs(da, db, p, NatValue(a[1..]));
      } else if db < da {
        DigitOutweighs(db, da, p, NatValue(b[1..]));
      } else {
        LexCmpIsNumericOnEqualLength(a[1..], b[1..]);
      }
    }
  }

  /** Without leading zeros, the longer digit string denotes the larger
      number. */
  lemma LongerIsLarger(l: seq<char>, r: seq<char>)
    requires AllDigits(l) && AllDigits(r) && |l| < |r| && r[0] != '0'
    ensures NatValue(l) < NatValue(r)
  {
    NatValueBound(l);
    NatValueLeadingDigit(r);
    Pow10Monotone(|l|, |r| - 1);
  }

  /** Trimming keeps the digits and the number they denote. */
  lemma TrimKeepsValue(s: seq<char>)
    requires AllDigits(s)
    ensures AllDigits(TrimLeadingZeroes(s))
    ensures NatValue(TrimLeadingZeroes(s)) == NatValue(s)
  {
    var t := TrimLeadingZeroes(s);
    NatValueDropZeros(s, |s| - |t|);
  }

  /** `cmp_digit_str` compares the numbers its arguments denote, with no
      bound on their length. */
  lemma CmpDigitStrIsNumeric(a: seq<char>, b: seq<char>)
    requires AllDigits(a) && AllDigits(b)
    ensures CmpDigitStr(a, b) == CmpInt(NatValue(a), NatValue(b))
  {
    var l, r := TrimLeadingZeroes(a), TrimLeadingZeroes(b);
    TrimKeepsValue(a);
    TrimKeepsValue(b);
    if |l| < |r| {
      LongerIsLarger(l, r);
    } else if |r| < |l| {
      LongerIsLarger(r, l);
    } else {
      LexCmpIsNumericOnEqualLength(l, r);
    }
  }

  /** Swapping the runs reverses the result. */
  lemma CmpDigitStrAntisymmetric(a: seq<char>, b: seq<char>)
    requires AllDigits(a) && AllDigits(b)
    ensures CmpDigitStr(b, a) == Reverse(CmpDigitStr(a, b))
  {
    CmpDigitStrIsNumeric(a, b);
    CmpDigitStrIsNumeric(b, a);
  }
}
