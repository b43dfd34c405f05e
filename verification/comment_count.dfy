/**
 * The comment count of a listing: the first run of `\d` characters in the
 * comment label, read by `parseInt` as a decimal number, or 0 when the label
 * holds no digit (index.ts:25-28).
 */
module CommentCount {
  import opened Wrappers
  import opened JsText

  /** Every character of `d` is a decimal digit. */
  predicate AllDigits(d: string) {
    forall i :: 0 <= i < |d| ==> IsDigit(d[i])
  }

  /** No character of `s` is a decimal digit. */
  predicate NoDigits(s: string) {
    forall i :: 0 <= i < |s| ==> !IsDigit(s[i])
  }

  function DigitValue(c: char): (v: nat)
    requires IsDigit(c)
    ensures v < 10
  {
    (c as int) - ('0' as int)
  }

  function DigitChar(v: nat): (c: char)
    requires v < 10
    ensures IsDigit(c) && DigitValue(c) == v
  {
    (('0' as int) + v) as char
  }

  /** What `parseInt` returns for a non-empty string of decimal digits; leading zeros add nothing. */
  function DecimalValue(d: string): (v: nat)
    requires AllDigits(d)
    ensures v == 0 <==> forall i :: 0 <= i < |d| ==> d[i] == '0'
    decreases |d|
  {
    if |d| == 0 then 0
    else
      var init := d[..|d| - 1];
      assert forall i :: 0 <= i < |init| ==> init[i] == d[i];
      10 * DecimalValue(init) + DigitValue(d[|d| - 1])
  }

  /** The decimal rendering of `n`, without leading zeros: how the page prints a count. */
  function Decimal(n: nat): (d: string)
    ensures |d| > 0 && AllDigits(d)
    ensures |d| > 1 ==> d[0] != '0'
    decreases n
  {
    if n < 10 then [DigitChar(n)] else Decimal(n / 10) + [DigitChar(n % 10)]
  }

  /** Reading back a rendered count gives the count. */
  lemma {:induction false} DecimalRoundTrip(n: nat)
    ensures DecimalValue(Decimal(n)) == n
  {
    if n >= 10 {
      var d := Decimal(n);
      assert d[..|d| - 1] == Decimal(n / 10);
      DecimalRoundTrip(n / 10);
    }
  }

  /** Rendering the value of a digit string without leading zeros gives the string back. */
  lemma {:induction false} DecimalCanonical(d: string)
    requires |d| > 0 && AllDigits(d)
    requires |d| > 1 ==> d[0] != '0'
    ensures Decimal(DecimalValue(d)) == d
  {
    var init, last := d[..|d| - 1], d[|d| - 1];
    var v := DecimalValue(d);
    assert v == 10 * DecimalValue(init) + DigitValue(last);
    assert DigitChar(DigitValue(last)) == last;
    if |d| > 1 {
      DecimalCanonical(init);
      assert v / 10 == DecimalValue(init) && v % 10 == DigitValue(last);
      assert Decimal(v) == Decimal(DecimalValue(init)) + [last];
      assert d == init + [last];
    }
  }

  /** A leading zero does not change what `parseInt` reads. */
  lemma {:induction false} LeadingZero(d: string)
    requires AllDigits(d)
    ensures DecimalValue(['0'] + d) == DecimalValue(d)
  {
    if |d| > 0 {
      assert (['0'] + d)[..|d|] == ['0'] + d[..|d| - 1];
      LeadingZero(d[..|d| - 1]);
    }
  }

  /** `s[lo..hi]` is what `/(\d+)/` captures in `s`: the leftmost digit, extended as far as the digits go. */
  predicate IsFirstDigitRun(s: string, lo: int, hi: int) {
    && 0 <= lo < hi <= |s|
    && (forall i :: 0 <= i < lo ==> !IsDigit(s[i]))
    && (forall i :: lo <= i < hi ==> IsDigit(s[i]))
    && (hi == |s| || !IsDigit(s[hi]))
  }

  lemma FirstDigitRunUnique(s: string, lo: int, hi: int, lo': int, hi': int)
    requires IsFirstDigitRun(s, lo, hi) && IsFirstDigitRun(s, lo', hi')
    ensures lo == lo' && hi == hi'
  {
    assert IsDigit(s[lo]) && IsDigit(s[lo']);
    assert lo == lo';
  }

  /** Index of the first digit at or after `k`, or `|s|`. */
  function DigitFrom(s: string, k: nat): (r: nat)
    requires k <= |s|
    ensures k <= r <= |s|
    ensures forall i :: k <= i < r ==> !IsDigit(s[i])
    ensures r == |s| || IsDigit(s[r])
    decreases |s| - k
  {
    if k == |s| || IsDigit(s[k]) then k else DigitFrom(s, k + 1)
  }

  /** End of the run of digits starting at `k`. */
  function DigitRunEnd(s: string, k: nat): (r: nat)
    requires k <= |s|
    ensures k <= r <= |s|
    ensures forall i :: k <= i < r ==> IsDigit(s[i])
    ensures r == |s| || !IsDigit(s[r])
    decreases |s| - k
  {
    if k < |s| && IsDigit(s[k]) then DigitRunEnd(s, k + 1) else k
  }

  /** The span `/(\d+)/` captures, if `s` holds a digit at all. */
  function FirstDigitRun(s: string): (r: Option<(nat, nat)>)
    ensures r.None? <==> NoDigits(s)
    ensures r.Some? ==> IsFirstDigitRun(s, r.value.0, r.value.1)
  {
    var lo := DigitFrom(s, 0);
    if lo == |s| then None else Some((lo, DigitRunEnd(s, lo)))
  }

  /** The `comments` field computed from the comment label's text (index.ts:25-28). */
  function Count(text: string): (n: nat)
    ensures NoDigits(text) ==> n == 0
    ensures forall lo, hi :: IsFirstDigitRun(text, lo, hi) ==> n == DecimalValue(text[lo..hi])
  {
    match FirstDigitRun(text)
    case None => 0
    case Some((lo, hi)) =>
      assert forall lo', hi' :: IsFirstDigitRun(text, lo', hi') ==> lo' == lo && hi' == hi by {
        forall lo', hi' | IsFirstDigitRun(text, lo', hi') {
          FirstDigitRunUnique(text, lo, hi, lo', hi');
        }
      }
      DecimalValue(text[lo..hi])
  }

  /** A label that prints a count after text without digits, and goes on with a non-digit, yields that count. */
  lemma CountOfRendered(prefix: string, n: nat, suffix: string)
    requires NoDigits(prefix)
    requires |suffix| == 0 || !IsDigit(suffix[0])
    ensures Count(prefix + Decimal(n) + suffix) == n
  {
    var s := prefix + Decimal(n) + suffix;
    var lo, hi := |prefix|, |prefix| + |Decimal(n)|;
    assert s[lo..hi] == Decimal(n);
    assert IsFirstDigitRun(s, lo, hi);
    DecimalRoundTrip(n);
  }

  /** Worked labels: a plain count, and a label with no digit. */
  lemma CountExamples(a: string, b: string)
    requires a == "12 commentaires" && b == "discuter"
    ensures Count(a) == 12 && Count(b) == 0
  {
    assert Decimal(12) == "12";
    assert a == "" + Decimal(12) + " commentaires";
    CountOfRendered("", 12, " commentaires");
  }
}
