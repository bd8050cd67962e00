/**
 * The three alarm patterns of the classifier, each of the form
 * `Application\.S(\d+)<suffix>` with a fixed literal suffix, searched for
 * as `re.search` does: the leftmost position at which the pattern matches,
 * with the digits of the group as the capture.
 *
 * Every suffix starts with a dot, which is not a digit, so the greedy
 * `\d+` never has to give back a digit: the pattern matches at a position
 * exactly when the literal prefix is followed by a maximal, non-empty run
 * of digits and then by the suffix.
 */
module AlarmPatterns {
  import opened Wrappers
  import opened Strings

  /** The literal part of every pattern before the station digits. */
  const ApplicationPrefix: string := "Application.S"

  /** `\d`, restricted to the ASCII digits. */
  predicate IsDigit(c: char) {
    '0' <= c <= '9'
  }

  predicate AllDigits(s: string) {
    forall i | 0 <= i < |s| :: IsDigit(s[i])
  }

  /** A suffix the greedy digit run cannot swallow: it is not empty and does not start with a digit. */
  predicate SuffixStopsDigits(suffix: string) {
    suffix != [] && !IsDigit(suffix[0])
  }

  /** The length of the run of digits that starts at index `k` of `s`. */
  function DigitRun(s: string, k: nat): (n: nat)
    requires k <= |s|
    ensures k + n <= |s|
    ensures forall i | k <= i < k + n :: IsDigit(s[i])
    ensures k + n < |s| ==> !IsDigit(s[k + n])
    decreases |s| - k
  {
    if k < |s| && IsDigit(s[k]) then 1 + DigitRun(s, k + 1) else 0
  }

  /** A match of the pattern: where it starts and the digits its group captured. */
  datatype Capture = Capture(start: nat, digits: string)

  /** The pattern matched at exactly position `p`: the captured digits, if it matches there. */
  function MatchAt(s: string, p: nat, suffix: string): Option<string>
    requires p <= |s|
  {
    if !StartsWith(s[p..], ApplicationPrefix) then None
    else
      var k := p + |ApplicationPrefix|;
      var n := DigitRun(s, k);
      if n > 0 && StartsWith(s[k + n..], suffix) then Some(s[k..k + n]) else None
  }

  /** The leftmost match at or after position `p`. */
  function SearchFrom(s: string, suffix: string, p: nat): Option<Capture>
    requires p <= |s|
    decreases |s| - p
  {
    match MatchAt(s, p, suffix)
    case Some(d) => Some(Capture(p, d))
    case None => if p == |s| then None else SearchFrom(s, suffix, p + 1)
  }

  /** `re.search(pattern, s)` for the pattern with this suffix. */
  function Search(s: string, suffix: string): Option<Capture> {
    SearchFrom(s, suffix, 0)
  }

  /**
   * The reference meaning of a match: at position `p` the text reads the
   * prefix, then the non-empty digits `d`, then the suffix.
   */
  predicate MatchesAt(s: string, p: nat, d: string, suffix: string) {
    p <= |s| && d != [] && AllDigits(d) && StartsWith(s[p..], ApplicationPrefix + d + suffix)
  }

  /** The matcher at one position agrees with the reference meaning, in both directions. */
  lemma MatchAtCorrect(s: string, p: nat, d: string, suffix: string)
    requires p <= |s| && SuffixStopsDigits(suffix)
    ensures MatchAt(s, p, suffix) == Some(d) <==> MatchesAt(s, p, d, suffix)
  {
    if MatchAt(s, p, suffix) == Some(d) {
      MatchAtSound(s, p, d, suffix);
    }
    if MatchesAt(s, p, d, suffix) {
      MatchAtComplete(s, p, d, suffix);
    }
  }

  /** What the matcher captures at `p` is a match there. */
  lemma MatchAtSound(s: string, p: nat, d: string, suffix: string)
    requires p <= |s| && MatchAt(s, p, suffix) == Some(d)
    ensures MatchesAt(s, p, d, suffix)
  {
    var t := s[p..];
    var k := p + |ApplicationPrefix|;
    var n := DigitRun(s, k);
    assert d == s[k..k + n];
    assert t[..|ApplicationPrefix|] == ApplicationPrefix;
    assert s[k + n..][..|suffix|] == suffix;
    assert t[..|ApplicationPrefix + d + suffix|] == ApplicationPrefix + d + suffix by {
      assert t[..|ApplicationPrefix + d + suffix|] ==
        t[..|ApplicationPrefix|] + s[k..k + n] + s[k + n..][..|suffix|];
    }
  }

  /** A match at `p` is found by the matcher there, with its digits as the capture. */
  lemma MatchAtComplete(s: string, p: nat, d: string, suffix: string)
    requires SuffixStopsDigits(suffix) && MatchesAt(s, p, d, suffix)
    ensures MatchAt(s, p, suffix) == Some(d)
  {
    var t := s[p..];
    var k := p + |ApplicationPrefix|;
    var whole := ApplicationPrefix + d + suffix;
    assert t[..|whole|] == whole;
    assert StartsWith(t, ApplicationPrefix) by {
      assert t[..|ApplicationPrefix|] == whole[..|ApplicationPrefix|];
    }
    forall i | 0 <= i < |d|
      ensures s[k + i] == d[i]
    {
      assert s[k + i] == t[|ApplicationPrefix| + i] == whole[|ApplicationPrefix| + i];
    }
    assert s[k + |d|] == suffix[0] by {
      assert s[k + |d|] == t[|ApplicationPrefix| + |d|] == whole[|ApplicationPrefix| + |d|];
    }
    DigitRunStops(s, k, |d|);
    assert s[k..k + |d|] == d;
    assert s[k + |d|..][..|suffix|] == suffix by {
      assert s[k + |d|..][..|suffix|] == t[|ApplicationPrefix| + |d|..|whole|];
      assert whole[|ApplicationPrefix| + |d|..] == suffix;
    }
  }

  /** A run of `m` digits followed by a non-digit is the whole digit run. */
  lemma {:induction false} DigitRunStops(s: string, k: nat, m: nat)
    requires k + m < |s|
    requires forall i | k <= i < k + m :: IsDigit(s[i])
    requires !IsDigit(s[k + m])
    ensures DigitRun(s, k) == m
    decreases m
  {
    if m > 0 {
      DigitRunStops(s, k + 1, m - 1);
    }
  }

  /**
   * The search from `p` finds the leftmost match at or after `p`, or
   * reports that there is none.
   */
  lemma {:induction false} SearchFromLeftmost(s: string, suffix: string, p: nat)
    requires p <= |s| && SuffixStopsDigits(suffix)
    ensures var r := SearchFrom(s, suffix, p);
      && (r.Some? ==> p <= r.value.start && MatchesAt(s, r.value.start, r.value.digits, suffix))
      && (r.Some? ==> forall q: nat, d | p <= q < r.value.start :: !MatchesAt(s, q, d, suffix))
      && (r.None? ==> forall q: nat, d | p <= q :: !MatchesAt(s, q, d, suffix))
    decreases |s| - p
  {
    var r := SearchFrom(s, suffix, p);
    match MatchAt(s, p, suffix)
    case Some(d) =>
      assert r == Some(Capture(p, d));
      MatchAtSound(s, p, d, suffix);
    case None =>
      forall d
        ensures !MatchesAt(s, p, d, suffix)
      {
        if MatchesAt(s, p, d, suffix) {
          MatchAtComplete(s, p, d, suffix);
        }
      }
      if p < |s| {
        assert r == SearchFrom(s, suffix, p + 1);
        SearchFromLeftmost(s, suffix, p + 1);
        forall q: nat, d | p <= q && (r.None? || q < r.value.start)
          ensures !MatchesAt(s, q, d, suffix)
        {
          if q > p {
            assert p + 1 <= q;
          }
        }
      }
  }

  /**
   * `re.search` semantics: a match is reported exactly when the pattern
   * occurs somewhere, and the reported one is the leftmost.
   */
  lemma SearchLeftmost(s: string, suffix: string)
    requires SuffixStopsDigits(suffix)
    ensures var r := Search(s, suffix);
      && (r.Some? ==> MatchesAt(s, r.value.start, r.value.digits, suffix))
      && (r.Some? ==> forall q: nat, d | q < r.value.start :: !MatchesAt(s, q, d, suffix))
      && (r.None? <==> forall q: nat, d :: !MatchesAt(s, q, d, suffix))
  {
    SearchFromLeftmost(s, suffix, 0);
  }

  /** The search is not anchored: text in front of a match does not prevent it. */
  lemma SearchIgnoresLeadingText(front: string, t: string, d: string, suffix: string)
    requires SuffixStopsDigits(suffix)
    requires MatchesAt(t, 0, d, suffix)
    ensures Search(front + t, suffix).Some?
  {
    var s := front + t;
    assert s[|front|..] == t;
    assert MatchesAt(s, |front|, d, suffix);
    SearchLeftmost(s, suffix);
  }
}
