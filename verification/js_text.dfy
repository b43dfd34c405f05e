/**
 * The ECMAScript character classes and string operations the extraction code
 * relies on: the `\s` class (which `String.prototype.trim` strips as well), the
 * line terminators that `.` refuses, the `\d` class, and `trim` itself.
 * Strings are sequences of UTF-16 code units in JavaScript and of Unicode
 * scalar values here. A character outside the Basic Multilingual Plane is one
 * `char` but two code units; neither surrogate half is `\s` or a line
 * terminator, so every pattern in this model treats the pair as the single
 * `char` treats itself, and the captured text is the same.
 */
module JsText {

  /** ECMAScript LineTerminator: LF, CR, LINE SEPARATOR, PARAGRAPH SEPARATOR. */
  predicate IsLineTerminator(c: char) {
    var n := c as int;
    n == 0x0A || n == 0x0D || n == 0x2028 || n == 0x2029
  }

  /** ECMAScript WhiteSpace (TAB, VT, FF, SPACE, NBSP, BOM and the Zs category). */
  predicate IsWhiteSpace(c: char) {
    var n := c as int;
    n == 0x09 || n == 0x0B || n == 0x0C || n == 0x20 || n == 0xA0 || n == 0xFEFF
    || n == 0x1680 || (0x2000 <= n <= 0x200A) || n == 0x202F || n == 0x205F || n == 0x3000
  }

  /** The regular-expression class `\s`, and the characters `trim` removes. */
  predicate IsSpace(c: char) {
    IsWhiteSpace(c) || IsLineTerminator(c)
  }

  /** The regular-expression class `\d`: ASCII digits only. */
  predicate IsDigit(c: char) {
    '0' <= c <= '9'
  }

  /** Every character of `s[lo..hi]` is in `\s`. */
  predicate SpacesIn(s: string, lo: int, hi: int)
    requires 0 <= lo <= hi <= |s|
  {
    forall i :: lo <= i < hi ==> IsSpace(s[i])
  }

  /** No character of `s[lo..hi]` is a line terminator, so `.+` may consume it. */
  predicate NoBreakIn(s: string, lo: int, hi: int)
    requires 0 <= lo <= hi <= |s|
  {
    forall i :: lo <= i < hi ==> !IsLineTerminator(s[i])
  }

  /** `w` occurs in `s` at position `k`. */
  predicate StartsAt(s: string, k: int, w: string) {
    0 <= k && k + |w| <= |s| && s[k..k + |w|] == w
  }

  /** Length of the maximal run of `\s` characters starting at `k`. */
  function SpaceRun(s: string, k: nat): (r: nat)
    requires k <= |s|
    ensures k + r <= |s|
    ensures SpacesIn(s, k, k + r)
    ensures k + r == |s| || !IsSpace(s[k + r])
    decreases |s| - k
  {
    if k < |s| && IsSpace(s[k]) then 1 + SpaceRun(s, k + 1) else 0
  }

  /** Length of the maximal run of `\s` characters ending just before `k`. */
  function SpaceRunBefore(s: string, k: nat): (r: nat)
    requires k <= |s|
    ensures r <= k
    ensures SpacesIn(s, k - r, k)
    ensures r == k || !IsSpace(s[k - r - 1])
  {
    if k > 0 && IsSpace(s[k - 1]) then 1 + SpaceRunBefore(s, k - 1) else 0
  }

  /** A run of `\s` fits at `k` exactly when it is no longer than the maximal one. */
  lemma SpaceRunBound(s: string, k: nat, a: nat)
    requires k <= |s|
    ensures (k + a <= |s| && SpacesIn(s, k, k + a)) <==> a <= SpaceRun(s, k)
  {
  }

  /** Position of the first line terminator at or after `g`, or `|s|` when there is none. */
  function LineEnd(s: string, g: nat): (r: nat)
    requires g <= |s|
    ensures g <= r <= |s|
    ensures NoBreakIn(s, g, r)
    ensures r == |s| || IsLineTerminator(s[r])
    decreases |s| - g
  {
    if g == |s| || IsLineTerminator(s[g]) then g else LineEnd(s, g + 1)
  }

  /** `.+` starting at `g` may stop at `e` exactly when `e` is not past the next line terminator. */
  lemma LineEndBound(s: string, g: nat, e: int)
    requires g <= e && g <= |s|
    ensures (e <= |s| && NoBreakIn(s, g, e)) <==> e <= LineEnd(s, g)
  {
  }

  /**
   * `t` is what `String.prototype.trim` returns for `s`: a contiguous piece of `s`
   * that neither starts nor ends with `\s`, with only `\s` cut off on either side.
   */
  ghost predicate IsTrimOf(s: string, t: string) {
    && (|t| == 0 || (!IsSpace(t[0]) && !IsSpace(t[|t| - 1])))
    && exists lo :: TrimmedAt(s, t, lo)
  }

  /** `t` sits at `lo` in `s`, with nothing but `\s` around it. */
  predicate TrimmedAt(s: string, t: string, lo: int) {
    && 0 <= lo && lo + |t| <= |s|
    && s[lo..lo + |t|] == t
    && SpacesIn(s, 0, lo)
    && SpacesIn(s, lo + |t|, |s|)
  }

  /** `String.prototype.trim`. */
  function Trim(s: string): (t: string)
    ensures IsTrimOf(s, t)
    ensures |t| <= |s|
  {
    var lo := SpaceRun(s, 0);
    if lo == |s| then
      assert TrimmedAt(s, [], lo);
      []
    else
      var hi := |s| - SpaceRunBefore(s, |s|);
      assert !IsSpace(s[lo]);
      assert lo < hi;
      var t := s[lo..hi];
      assert TrimmedAt(s, t, lo);
      t
  }

  /** There is only one trimmed form of a string. */
  lemma TrimUnique(s: string, t1: string, t2: string)
    requires IsTrimOf(s, t1) && IsTrimOf(s, t2)
    ensures t1 == t2
  {
    var lo1 :| TrimmedAt(s, t1, lo1);
    var lo2 :| TrimmedAt(s, t2, lo2);
    if |t1| > 0 && |t2| > 0 {
      assert s[lo1] == t1[0] && s[lo2] == t2[0];
      assert lo1 == lo2;
      var hi1, hi2 := lo1 + |t1|, lo2 + |t2|;
      assert s[hi1 - 1] == t1[|t1| - 1] && s[hi2 - 1] == t2[|t2| - 1];
      assert hi1 == hi2;
    }
  }

  /** A string with no `\s` at either end is its own trimmed form. */
  lemma TrimClean(s: string)
    requires |s| == 0 || (!IsSpace(s[0]) && !IsSpace(s[|s| - 1]))
    ensures Trim(s) == s
  {
    assert TrimmedAt(s, s, 0);
    TrimUnique(s, s, Trim(s));
  }

  /** Trimming twice is trimming once. */
  lemma TrimIdempotent(s: string)
    ensures Trim(Trim(s)) == Trim(s)
  {
    TrimClean(Trim(s));
  }
}
