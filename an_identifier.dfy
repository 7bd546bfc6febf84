/**
 * `extractANIdentifier`: the National Assembly identifier in a profile link,
 * i.e. the digits of the leftmost match of the regular expression `/PA(\d+)/`.
 */
module AnIdentifier {
  import opened Wrappers
  import opened JsText

  /** `PA` followed by a digit starts at `i`: the regular expression can match there. */
  predicate MatchesAt(s: JsString, i: nat) {
    i + 2 < |s| && s[i] == UpperP && s[i + 1] == UpperA && IsDigit(s[i + 2])
  }

  predicate AllDigits(s: JsString) {
    forall k | 0 <= k < |s| :: IsDigit(s[k])
  }

  /** The length of the greedy `\d+` run starting at `j`. */
  function DigitRun(s: JsString, j: nat): (n: nat)
    requires j <= |s|
    ensures j + n <= |s| && forall k | j <= k < j + n :: IsDigit(s[k])
    ensures j + n == |s| || !IsDigit(s[j + n])
    decreases |s| - j
  {
    if j < |s| && IsDigit(s[j]) then 1 + DigitRun(s, j + 1) else 0
  }

  /** The leftmost position at or after `from` where the regular expression matches. */
  function FindMatch(s: JsString, from: nat): (r: Option<nat>)
    ensures r.Some? ==> from <= r.value && MatchesAt(s, r.value)
    ensures r.Some? ==> forall i | from <= i < r.value :: !MatchesAt(s, i)
    ensures r.None? ==> forall i | from <= i :: !MatchesAt(s, i)
    decreases |s| - from
  {
    if |s| <= from + 2 then None
    else if MatchesAt(s, from) then Some(from)
    else FindMatch(s, from + 1)
  }

  /**
   * The captured digits of the leftmost match, or `None` (JavaScript's `null`)
   * when the link holds no `PA` followed by a digit.
   */
  function ExtractANIdentifier(href: JsString): (r: Option<JsString>)
    ensures r.None? <==> forall i | 0 <= i :: !MatchesAt(href, i)
    ensures r.Some? ==>
      |r.value| > 0 && AllDigits(r.value) &&
      exists i | 0 <= i :: MatchesAt(href, i) && (forall j | 0 <= j < i :: !MatchesAt(href, j)) &&
        i + 2 + |r.value| <= |href| && href[i + 2..i + 2 + |r.value|] == r.value &&
        (i + 2 + |r.value| == |href| || !IsDigit(href[i + 2 + |r.value|]))
  {
    match FindMatch(href, 0)
    case None => None
    case Some(i) => Some(href[i + 2..i + 2 + DigitRun(href, i + 2)])
  }

  /** A maximal run of `n` digits at `j` is exactly what `DigitRun` measures. */
  lemma {:induction false} DigitRunOfMaximalRun(s: JsString, j: nat, n: nat)
    requires j + n <= |s| && (forall k | j <= k < j + n :: IsDigit(s[k]))
    requires j + n == |s| || !IsDigit(s[j + n])
    ensures DigitRun(s, j) == n
    decreases n
  {
    if n > 0 {
      DigitRunOfMaximalRun(s, j + 1, n - 1);
    }
  }

  /** A profile link `base + "PA" + digits + tail` yields exactly those digits when `base` holds no match. */
  lemma ExtractFromProfileLink(base: JsString, digits: JsString, tail: JsString)
    requires forall i | 0 <= i :: !MatchesAt(base, i)
    requires |digits| > 0 && AllDigits(digits)
    requires tail == [] || !IsDigit(tail[0])
    ensures ExtractANIdentifier(base + [UpperP, UpperA] + digits + tail) == Some(digits)
  {
    var href := base + [UpperP, UpperA] + digits + tail;
    var at := |base|;
    assert MatchesAt(href, at) by {
      assert href[at + 2] == digits[0];
    }
    forall i | 0 <= i < at ensures !MatchesAt(href, i) {
      if i + 2 < |base| {
        assert !MatchesAt(base, i);
      }
    }
    assert FindMatch(href, 0) == Some(at);
    forall k | at + 2 <= k < at + 2 + |digits| ensures IsDigit(href[k]) {
      assert href[k] == digits[k - at - 2];
    }
    if tail != [] {
      assert href[at + 2 + |digits|] == tail[0];
    }
    DigitRunOfMaximalRun(href, at + 2, |digits|);
    assert href[at + 2..at + 2 + |digits|] == digits;
  }
}
