/**
 * The author of a listing, read from its byline sentence with the pattern
 * `/écrit par\s+(.+)\s+il y a/` (index.ts:21-24).
 *
 * The pattern is described declaratively: `IsMatch` says when a choice of
 * positions is a match, and `Preferred` is the order in which a backtracking
 * ECMAScript matcher tries them (leftmost start first, then the greedy `\s+`,
 * `(.+)` and `\s+` from longest to shortest). The first match in that order is
 * the one `String.prototype.match` reports, and its group 1 is the username.
 */
module Byline {
  import opened Wrappers
  import opened JsText

  /** The literal that opens the pattern. */
  const Lead: string := "écrit par"
  /** The literal that closes the pattern. */
  const Tail: string := "il y a"
  /** The username given to a listing whose byline does not match. */
  const Anonymous: string := "anonyme"

  /**
   * One way the pattern can match a string: `Lead` starts at `start`, the first
   * `\s+` takes `lead` characters, the captured name ends just before `end`, and
   * the second `\s+` takes `trail` characters before `Tail`.
   */
  datatype MatchAt = MatchAt(start: nat, lead: nat, end: nat, trail: nat)

  /** Where group 1 begins for the match `m`. */
  function NameStart(m: MatchAt): nat {
    m.start + |Lead| + m.lead
  }

  /** `m` is a match of the pattern in `s`. */
  predicate IsMatch(s: string, m: MatchAt) {
    var g := NameStart(m);
    StartsAt(s, m.start, Lead)
    && 1 <= m.lead && g < m.end
    && 1 <= m.trail && m.end + m.trail <= |s|
    && SpacesIn(s, m.start + |Lead|, g)
    && NoBreakIn(s, g, m.end)
    && SpacesIn(s, m.end, m.end + m.trail)
    && StartsAt(s, m.end + m.trail, Tail)
  }

  /** A backtracking matcher tries `m` no later than `n`. */
  predicate Preferred(m: MatchAt, n: MatchAt) {
    m.start < n.start
    || (m.start == n.start && (m.lead > n.lead
      || (m.lead == n.lead && (m.end > n.end
        || (m.end == n.end && m.trail >= n.trail)))))
  }

  /** `m` is the match the matcher reports: a match tried before every other. */
  ghost predicate IsFirstMatch(s: string, m: MatchAt) {
    IsMatch(s, m) && forall n :: IsMatch(s, n) ==> Preferred(m, n)
  }

  /** Group 1 of the match `m`. */
  function Capture(s: string, m: MatchAt): string
    requires IsMatch(s, m)
  {
    s[NameStart(m)..m.end]
  }

  /** How many `\s` characters the closing `\s+` takes at `e`, when `\s+il y a` can match there at all. */
  function TrailAt(s: string, e: nat): Option<nat>
    requires e <= |s|
  {
    var b := SpaceRun(s, e);
    if 1 <= b && StartsAt(s, e + b, Tail) then Some(b) else None
  }

  /** Because `Tail` starts with a non-space, the closing `\s+` has exactly one way to succeed. */
  lemma TrailExact(s: string, e: nat, b: int)
    requires e <= |s|
    ensures (1 <= b && e + b <= |s| && SpacesIn(s, e, e + b) && StartsAt(s, e + b, Tail))
            <==> TrailAt(s, e) == Some(b)
  {
    if b >= 0 {
      SpaceRunBound(s, e, b);
    }
    if 1 <= b && e + b <= |s| && SpacesIn(s, e, e + b) && StartsAt(s, e + b, Tail) {
      assert s[e + b] == 'i' by {
        assert s[e + b..e + b + |Tail|][0] == Tail[0];
      }
    }
  }

  /** The matches of `s`, described through the maximal runs the matcher backtracks over. */
  predicate Shaped(s: string, m: MatchAt) {
    StartsAt(s, m.start, Lead)
    && 1 <= m.lead <= SpaceRun(s, m.start + |Lead|)
    && NameStart(m) < m.end <= LineEnd(s, NameStart(m))
    && TrailAt(s, m.end) == Some(m.trail)
  }

  lemma MatchShaped(s: string, m: MatchAt)
    ensures IsMatch(s, m) <==> Shaped(s, m)
  {
    if StartsAt(s, m.start, Lead) && 1 <= m.lead {
      var k := m.start + |Lead|;
      var g := NameStart(m);
      SpaceRunBound(s, k, m.lead);
      if g <= |s| && SpacesIn(s, k, g) {
        if g < m.end <= |s| {
          LineEndBound(s, g, m.end);
          TrailExact(s, m.end, m.trail);
        }
      }
    }
  }

  lemma AllMatchesShaped(s: string)
    ensures forall m :: IsMatch(s, m) <==> Shaped(s, m)
  {
    forall m {
      MatchShaped(s, m);
    }
  }

  /** The largest `e` in `(g, hi]` at which `\s+il y a` can match, tried from `hi` downwards as greedy `(.+)` does. */
  function LastEnd(s: string, g: nat, hi: nat): (r: Option<nat>)
    requires g <= hi <= |s|
    ensures r.Some? ==> g < r.value <= hi && TrailAt(s, r.value).Some?
    ensures r.Some? ==> forall e: nat :: r.value < e <= hi ==> TrailAt(s, e).None?
    ensures r.None? ==> forall e: nat :: g < e <= hi ==> TrailAt(s, e).None?
    decreases hi
  {
    if hi <= g then None
    else if TrailAt(s, hi).Some? then Some(hi)
    else LastEnd(s, g, hi - 1)
  }

  /** The first match starting at `p` whose opening `\s+` takes at most `a` characters. */
  function WithLead(s: string, p: nat, a: nat): (r: Option<MatchAt>)
    requires StartsAt(s, p, Lead) && a <= SpaceRun(s, p + |Lead|)
    ensures r.Some? ==> IsMatch(s, r.value) && r.value.start == p && r.value.lead <= a
    ensures r.Some? ==> forall n :: IsMatch(s, n) && n.start == p && n.lead <= a ==> Preferred(r.value, n)
    ensures r.None? ==> forall n :: IsMatch(s, n) && n.start == p ==> n.lead > a
    decreases a
  {
    AllMatchesShaped(s);
    if a == 0 then None
    else
      var g := p + |Lead| + a;
      match LastEnd(s, g, LineEnd(s, g))
      case Some(e) => Some(MatchAt(p, a, e, TrailAt(s, e).value))
      case None => WithLead(s, p, a - 1)
  }

  /** The first match whose `Lead` starts at `p` or later. */
  function FromStart(s: string, p: nat): (r: Option<MatchAt>)
    requires p <= |s|
    ensures r.Some? ==> IsMatch(s, r.value) && r.value.start >= p
    ensures r.Some? ==> forall n :: IsMatch(s, n) && n.start >= p ==> Preferred(r.value, n)
    ensures r.None? ==> forall n :: IsMatch(s, n) ==> n.start < p
    decreases |s| - p
  {
    AllMatchesShaped(s);
    if p == |s| then None
    else if StartsAt(s, p, Lead) then
      match WithLead(s, p, SpaceRun(s, p + |Lead|))
      case Some(m) => Some(m)
      case None => FromStart(s, p + 1)
    else FromStart(s, p + 1)
  }

  /** Two first matches are the same match. */
  lemma FirstMatchUnique(s: string, m: MatchAt, n: MatchAt)
    requires IsFirstMatch(s, m) && IsFirstMatch(s, n)
    ensures m == n
  {
    assert Preferred(m, n) && Preferred(n, m);
  }

  /** The match `String.prototype.match` reports, if the pattern matches at all. */
  function FirstMatch(s: string): (r: Option<MatchAt>)
    ensures r.None? <==> forall n :: !IsMatch(s, n)
    ensures r.Some? ==> IsFirstMatch(s, r.value)
  {
    FromStart(s, 0)
  }

  /** Group 1 of the reported match: a non-empty name free of line terminators. */
  function AuthorName(s: string): (r: Option<string>)
    ensures r.None? <==> forall n :: !IsMatch(s, n)
    ensures forall m :: IsFirstMatch(s, m) ==> r == Some(Capture(s, m))
    ensures r.Some? ==> |r.value| > 0 && NoBreakIn(r.value, 0, |r.value|)
  {
    match FirstMatch(s)
    case None => None
    case Some(m) =>
      assert forall n :: IsFirstMatch(s, n) ==> n == m by {
        forall n | IsFirstMatch(s, n) {
          FirstMatchUnique(s, m, n);
        }
      }
      Some(Capture(s, m))
  }

  /** The `username` of a story: group 1 of the trimmed byline, or `Anonymous` when it does not match (index.ts:21-24). */
  function Username(byline: string): (r: string)
    ensures |r| > 0 && NoBreakIn(r, 0, |r|)
    ensures (forall n :: !IsMatch(Trim(byline), n)) ==> r == Anonymous
    ensures forall m :: IsFirstMatch(Trim(byline), m) ==> r == Capture(Trim(byline), m)
  {
    match AuthorName(Trim(byline))
    case Some(name) => name
    case None => Anonymous
  }
}

/** Properties of the username extraction on well-formed and malformed bylines. */
module BylineFacts {
  import opened Wrappers
  import opened JsText
  import opened Byline

  /** `Tail` occurs nowhere in `t`. */
  ghost predicate NoTail(t: string) {
    forall k :: !StartsAt(t, k, Tail)
  }

  /** A string without `i` cannot contain `Tail`. */
  lemma NoTailWithoutI(t: string)
    requires 'i' !in t
    ensures NoTail(t)
  {
    forall k
      ensures !StartsAt(t, k, Tail)
    {
      if 0 <= k && k + |Tail| <= |t| {
        assert t[k..k + |Tail|][0] == t[k];
      }
    }
  }

  /** In a byline laid out as `Lead`, a space, the name, a gap, `Tail`, the rest, `Tail` occurs only once after the name. */
  lemma TailOnlyOnce(name: string, gap: string, rest: string)
    requires NoTail(rest)
    ensures var s := Layout(name, gap, rest);
            var t := |Lead| + 1 + |name| + |gap|;
            forall q :: t < q ==> !StartsAt(s, q, Tail)
  {
    var s := Layout(name, gap, rest);
    var t := |Lead| + 1 + |name| + |gap|;
    forall q | t < q
      ensures !StartsAt(s, q, Tail)
    {
      if q + |Tail| > |s| {
      } else if q < t + |Tail| {
        assert s[q] == Tail[q - t];
        assert s[q..q + |Tail|][0] == s[q];
      } else {
        assert !StartsAt(rest, q - t - |Tail|, Tail);
        assert s[q..q + |Tail|] == rest[q - t - |Tail|..q - t];
      }
    }
  }

  lemma SliceOfMiddle(a: string, u: string, c: string, j: nat)
    requires j <= |u|
    ensures (a + u + c)[|a|..|a| + j] == u[..j]
  {
  }

  /** The byline `écrit par <name><gap>il y a<rest>`. */
  function Layout(name: string, gap: string, rest: string): string {
    Lead + " " + name + gap + Tail + rest
  }

  /**
   * How much of the gap greedy `(.+)` keeps: everything before the gap's first
   * line terminator, or, when the gap has none, all of it but the last
   * character, which the closing `\s+` needs.
   */
  function Cut(gap: string): (k: nat)
    requires |gap| > 0
    ensures k < |gap| && NoBreakIn(gap, 0, k)
    ensures k < |gap| - 1 ==> IsLineTerminator(gap[k])
  {
    var e := LineEnd(gap, 0);
    if e < |gap| then e else |gap| - 1
  }

  /** The match of `Layout(name, gap, rest)` whose group 1 is the name and the first `Cut(gap)` characters of the gap. */
  function LayoutMatch(name: string, gap: string): MatchAt
    requires |gap| > 0
  {
    MatchAt(0, 1, |Lead| + 1 + |name| + Cut(gap), |gap| - Cut(gap))
  }

  predicate GoodName(name: string) {
    |name| > 0 && forall i :: 0 <= i < |name| ==> !IsSpace(name[i])
  }

  predicate GoodGap(gap: string) {
    |gap| > 0 && forall i :: 0 <= i < |gap| ==> IsSpace(gap[i])
  }

  lemma LayoutIsMatch(name: string, gap: string, rest: string)
    requires GoodName(name) && GoodGap(gap)
    ensures IsMatch(Layout(name, gap, rest), LayoutMatch(name, gap))
  {
    var s := Layout(name, gap, rest);
    var t := |Lead| + 1 + |name| + |gap|;
    var c := Cut(gap);
    assert s[..|Lead|] == Lead;
    assert s[|Lead|] == ' ';
    assert s[t..t + |Tail|] == Tail;
    assert forall i :: |Lead| + 1 <= i < |Lead| + 1 + |name| ==> s[i] == name[i - |Lead| - 1];
    assert forall i :: |Lead| + 1 + |name| <= i < t ==> s[i] == gap[i - |Lead| - 1 - |name|];
    assert forall i :: 0 <= i < c ==> !IsLineTerminator(gap[i]);
  }

  lemma LayoutIsFirst(name: string, gap: string, rest: string)
    requires GoodName(name) && GoodGap(gap) && NoTail(rest)
    ensures IsFirstMatch(Layout(name, gap, rest), LayoutMatch(name, gap))
  {
    var s := Layout(name, gap, rest);
    var m := LayoutMatch(name, gap);
    var c := Cut(gap);
    LayoutIsMatch(name, gap, rest);
    assert s[|Lead| + 1] == name[0];
    assert !IsSpace(s[|Lead| + 1]);
    assert s[m.end] == gap[c];
    assert c < |gap| - 1 ==> IsLineTerminator(s[m.end]);
    TailOnlyOnce(name, gap, rest);
    forall n | IsMatch(s, n)
      ensures Preferred(m, n)
    {
      assert StartsAt(s, n.end + n.trail, Tail);
    }
  }

  lemma LayoutCapture(name: string, gap: string, rest: string)
    requires GoodName(name) && GoodGap(gap)
    ensures IsMatch(Layout(name, gap, rest), LayoutMatch(name, gap))
    ensures Capture(Layout(name, gap, rest), LayoutMatch(name, gap)) == name + gap[..Cut(gap)]
  {
    LayoutIsMatch(name, gap, rest);
    var s := Layout(name, gap, rest);
    SliceOfMiddle(Lead + " ", name + gap, Tail + rest, |name| + Cut(gap));
    assert s == (Lead + " ") + (name + gap) + (Tail + rest);
    assert (name + gap)[..|name| + Cut(gap)] == name + gap[..Cut(gap)];
  }

  /**
   * A byline `écrit par <name><gap>il y a<rest>`, where the name holds no `\s`,
   * the gap is a non-empty run of `\s` and the rest never says `il y a` again,
   * yields the name followed by `Cut(gap)` characters of the gap: greedy `(.+)`
   * runs up to the gap's first line terminator, or, when there is none, leaves
   * the closing `\s+` a single character.
   */
  lemma BylineName(name: string, gap: string, rest: string)
    requires GoodName(name) && GoodGap(gap) && NoTail(rest)
    ensures AuthorName(Layout(name, gap, rest)) == Some(name + gap[..Cut(gap)])
  {
    LayoutIsFirst(name, gap, rest);
    LayoutCapture(name, gap, rest);
  }

  /** A string without `é` cannot contain `Lead`, so the pattern cannot match it. */
  lemma NoLeadNoMatch(s: string)
    requires 'é' !in s
    ensures forall n :: !IsMatch(s, n)
  {
    forall k
      ensures !StartsAt(s, k, Lead)
    {
      if 0 <= k && k + |Lead| <= |s| {
        assert s[k..k + |Lead|][0] == s[k];
      }
    }
  }

  /** `BylineName` through `Username`, for a byline that `trim` leaves alone and whose rest has no `i`. */
  lemma UsernameOfLayout(b: string, name: string, gap: string, rest: string)
    requires GoodName(name) && GoodGap(gap) && 'i' !in rest
    requires b == Layout(name, gap, rest) && !IsSpace(b[0]) && !IsSpace(b[|b| - 1])
    ensures Username(b) == name + gap[..Cut(gap)]
  {
    NoTailWithoutI(rest);
    TrimClean(b);
    BylineName(name, gap, rest);
  }

  /** The usual byline sentence yields the bare name. */
  lemma UsernamePlain(b: string)
    requires b == "écrit par alice il y a 3 heures"
    ensures Username(b) == "alice"
  {
    UsernameOfLayout(b, "alice", " ", " 3 heures");
    assert " "[..Cut(" ")] == [];
  }

  /** With two spaces before `il y a`, greedy `(.+)` keeps one of them in the name. */
  lemma UsernameDoubleSpace(b: string)
    requires b == "écrit par bob  il y a 1 jour"
    ensures Username(b) == "bob "
  {
    UsernameOfLayout(b, "bob", "  ", " 1 jour");
    assert "  "[..Cut("  ")] == " ";
  }

  /** In an indented byline, `(.+)` stops at the line break: the space before it stays in the name. */
  lemma UsernameLineBreak(b: string)
    requires b == "écrit par bob \n il y a 2 jours"
    ensures Username(b) == "bob "
  {
    UsernameOfLayout(b, "bob", " \n ", " 2 jours");
    assert " \n "[..Cut(" \n ")] == " ";
  }

  /** A byline that does not follow the sentence gets the sentinel. */
  lemma UsernameGarbage(b: string)
    requires b == "garbage text"
    ensures Username(b) == Anonymous
  {
    TrimClean(b);
    NoLeadNoMatch(b);
  }
}
