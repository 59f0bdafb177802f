/**
 * The pattern `age\s*[:\-–]\s*(\d+)`, with (`ci`) or without the `i` flag,
 * matched the way `String.prototype.match` does: the leftmost start wins,
 * and at that start the backtracking order prefers longer runs for each
 * greedy quantifier in turn. No word boundary is required, so `page: 3`
 * and `stage-12` match too.
 */
module AgePattern {
  import opened JsString
  import opened Options

  /** A match starting at `start`; the separator is at `sep` and group 1 is `s[digits..end]`. */
  datatype AgeHit = AgeHit(start: nat, sep: nat, digits: nat, end: nat)

  /** `:`, `-` or the en-dash U+2013. */
  predicate IsAgeSep(u: Unit)
  {
    u == 0x3A || u == 0x2D || u == 0x2013
  }

  predicate AgeWordAt(s: Text, i: nat, ci: bool)
  {
    i + 3 <= |s| &&
    MatchesLetter(s[i], 0x61, ci) && MatchesLetter(s[i + 1], 0x67, ci) && MatchesLetter(s[i + 2], 0x65, ci)
  }

  /** The pattern matches `s` from `i`, with this separator position and this digit group. */
  ghost predicate IsAgeMatch(s: Text, ci: bool, i: nat, sep: nat, digits: nat, end: nat)
  {
    AgeWordAt(s, i, ci) &&
    i + 3 <= sep < |s| && WsBetween(s, i + 3, sep) && IsAgeSep(s[sep]) &&
    sep + 1 <= digits < end <= |s| && WsBetween(s, sep + 1, digits) && DigitsBetween(s, digits, end)
  }

  /**
   * The match the regex engine reports: no match starts further left, and
   * among the matches at the same start none is preferred by the greedy
   * quantifiers (longer first `\s*`, then longer second `\s*`, then longer `\d+`).
   */
  ghost predicate IsRegexAgeMatch(s: Text, ci: bool, i: nat, sep: nat, digits: nat, end: nat)
  {
    IsAgeMatch(s, ci, i, sep, digits, end) &&
    forall j: nat, a: nat, b: nat, c: nat :: IsAgeMatch(s, ci, j, a, b, c) ==>
      j > i || (j == i && (a < sep || (a == sep && (b < digits || (b == digits && c <= end)))))
  }

  /** At most one match is the one the engine reports. */
  lemma RegexAgeMatchUnique(s: Text, ci: bool, h: AgeHit, g: AgeHit)
    requires IsRegexAgeMatch(s, ci, h.start, h.sep, h.digits, h.end)
    requires IsRegexAgeMatch(s, ci, g.start, g.sep, g.digits, g.end)
    ensures h == g
  {
  }

  /** Any match from `i` takes both whitespace runs greedily and ends its digit run no later than the greedy one. */
  lemma AgeMatchIsGreedy(s: Text, ci: bool, i: nat, sep: nat, digits: nat, end: nat)
    ensures IsAgeMatch(s, ci, i, sep, digits, end) ==>
      sep == SkipWs(s, i + 3) && digits == SkipWs(s, sep + 1) && end <= SkipDigits(s, digits)
  {
    if IsAgeMatch(s, ci, i, sep, digits, end) {
      SkipWsUnique(s, i + 3, sep);
      SkipWsUnique(s, sep + 1, digits);
    }
  }

  /** Anchored attempt at `i`, taking the greedy runs; the hit's positions are in order. */
  function AgeMatchAt(s: Text, ci: bool, i: nat): (r: Option<AgeHit>)
    requires i <= |s|
    ensures r.Some? ==> r.value.start == i < r.value.sep < r.value.digits < r.value.end <= |s|
    ensures r.Some? ==> DigitsBetween(s, r.value.digits, r.value.end)
  {
    if !AgeWordAt(s, i, ci) then None
    else
      var sep := SkipWs(s, i + 3);
      if sep == |s| || !IsAgeSep(s[sep]) then None
      else
        var digits := SkipWs(s, sep + 1);
        var end := SkipDigits(s, digits);
        if end == digits then None else Some(AgeHit(i, sep, digits, end))
  }

  /** The greedy runs are the only ones that can lead to a match, so the anchored attempt finds one exactly when there is one. */
  lemma AgeMatchAtSpec(s: Text, ci: bool, i: nat)
    requires i <= |s|
    ensures var r := AgeMatchAt(s, ci, i);
      r.Some? ==> IsAgeMatch(s, ci, i, r.value.sep, r.value.digits, r.value.end)
    ensures var r := AgeMatchAt(s, ci, i);
      r.Some? ==> forall a: nat, b: nat, c: nat :: IsAgeMatch(s, ci, i, a, b, c) ==>
        a == r.value.sep && b == r.value.digits && c <= r.value.end
    ensures AgeMatchAt(s, ci, i).None? ==> forall a: nat, b: nat, c: nat :: !IsAgeMatch(s, ci, i, a, b, c)
  {
    forall a: nat, b: nat, c: nat ensures IsAgeMatch(s, ci, i, a, b, c) ==>
      a == SkipWs(s, i + 3) && b == SkipWs(s, a + 1) && c <= SkipDigits(s, b)
    {
      AgeMatchIsGreedy(s, ci, i, a, b, c);
    }
  }

  /** The unanchored search from `i` onwards: the first start at which the anchored attempt succeeds. */
  function FirstAgeMatchFrom(s: Text, ci: bool, i: nat): (r: Option<AgeHit>)
    requires i <= |s|
    ensures r.Some? ==> i <= r.value.start <= r.value.sep < r.value.digits < r.value.end <= |s|
    ensures r.Some? ==> DigitsBetween(s, r.value.digits, r.value.end)
    decreases |s| - i
  {
    var h := AgeMatchAt(s, ci, i);
    if h.Some? then h
    else if i == |s| then None
    else FirstAgeMatchFrom(s, ci, i + 1)
  }

  /** What the search returns is the anchored match at its start. */
  lemma {:induction false} FirstAgeMatchFromFound(s: Text, ci: bool, i: nat)
    requires i <= |s|
    ensures var r := FirstAgeMatchFrom(s, ci, i);
      r.Some? ==> i <= r.value.start <= |s| && AgeMatchAt(s, ci, r.value.start) == r
    decreases |s| - i
  {
    if AgeMatchAt(s, ci, i).None? && i < |s| {
      FirstAgeMatchFromFound(s, ci, i + 1);
    }
  }

  /** Every start the search passes over has no anchored match. */
  lemma {:induction false} FirstAgeMatchFromSkips(s: Text, ci: bool, i: nat, j: nat)
    requires i <= j <= |s|
    requires FirstAgeMatchFrom(s, ci, i).None? || j < FirstAgeMatchFrom(s, ci, i).value.start
    ensures AgeMatchAt(s, ci, j).None?
    decreases j - i
  {
    if j > i {
      assert AgeMatchAt(s, ci, i).None?;
      FirstAgeMatchFromSkips(s, ci, i + 1, j);
    }
  }

  /** `s.match(pattern)`: the match the engine reports, or `None` when the pattern occurs nowhere. */
  function FirstAgeMatch(s: Text, ci: bool): (r: Option<AgeHit>)
    ensures r.Some? ==> r.value.start <= r.value.sep < r.value.digits < r.value.end <= |s|
    ensures r.Some? ==> DigitsBetween(s, r.value.digits, r.value.end)
  {
    FirstAgeMatchFrom(s, ci, 0)
  }

  /** The search returns the engine's preferred match, and finds nothing only when the pattern occurs nowhere. */
  lemma FirstAgeMatchSpec(s: Text, ci: bool)
    ensures var r := FirstAgeMatch(s, ci);
      r.Some? ==> IsRegexAgeMatch(s, ci, r.value.start, r.value.sep, r.value.digits, r.value.end)
    ensures FirstAgeMatch(s, ci).None? <==> forall i: nat, a: nat, b: nat, c: nat :: !IsAgeMatch(s, ci, i, a, b, c)
  {
    FirstAgeMatchFromFound(s, ci, 0);
    var r := FirstAgeMatch(s, ci);
    if r.Some? {
      var h := r.value;
      AgeMatchAtSpec(s, ci, h.start);
      forall j: nat, a: nat, b: nat, c: nat
        ensures IsAgeMatch(s, ci, j, a, b, c) ==>
          j > h.start || (j == h.start && (a < h.sep || (a == h.sep && (b < h.digits || (b == h.digits && c <= h.end)))))
      {
        if j < h.start {
          FirstAgeMatchFromSkips(s, ci, 0, j);
          AgeMatchAtSpec(s, ci, j);
        }
      }
    } else {
      forall i: nat, a: nat, b: nat, c: nat ensures !IsAgeMatch(s, ci, i, a, b, c) {
        if i <= |s| {
          FirstAgeMatchFromSkips(s, ci, 0, i);
          AgeMatchAtSpec(s, ci, i);
        }
      }
    }
  }

  /** Once the engine's match is known, the search returns exactly it. */
  lemma FirstAgeMatchIs(s: Text, ci: bool, h: AgeHit)
    requires IsRegexAgeMatch(s, ci, h.start, h.sep, h.digits, h.end)
    ensures FirstAgeMatch(s, ci) == Some(h)
  {
    FirstAgeMatchSpec(s, ci);
    var r := FirstAgeMatch(s, ci);
    RegexAgeMatchUnique(s, ci, r.value, h);
  }

  /**
   * A match whose digit run cannot be extended and before which no `age`
   * word starts is the one the search returns.
   */
  lemma FirstAgeMatchAt(s: Text, ci: bool, i: nat, sep: nat, digits: nat, end: nat)
    requires IsAgeMatch(s, ci, i, sep, digits, end) && (end == |s| || !IsDigit(s[end]))
    requires forall j :: 0 <= j < i ==> !AgeWordAt(s, j, ci)
    ensures FirstAgeMatch(s, ci) == Some(AgeHit(i, sep, digits, end))
  {
    AgeMatchIsGreedy(s, ci, i, sep, digits, end);
    forall j: nat, a: nat, b: nat, c: nat
      ensures IsAgeMatch(s, ci, j, a, b, c) ==>
        j > i || (j == i && (a < sep || (a == sep && (b < digits || (b == digits && c <= end)))))
    {
      AgeMatchIsGreedy(s, ci, j, a, b, c);
    }
    FirstAgeMatchIs(s, ci, AgeHit(i, sep, digits, end));
  }

  /**
   * `parseInt(match[1])` of the engine's match, or `None` for `null`; the
   * digit group is compared as an unbounded natural.
   */
  function AgeValue(s: Text, ci: bool): (r: Option<nat>)
    ensures r.Some? ==> exists i: nat, a: nat, b: nat, c: nat ::
      IsRegexAgeMatch(s, ci, i, a, b, c) && AllDigits(s[b..c]) && r.value == DecimalValue(s[b..c])
  {
    match FirstAgeMatch(s, ci)
    case None => None
    case Some(h) =>
      FirstAgeMatchSpec(s, ci);
      assert AllDigits(s[h.digits..h.end]) by {
        forall k | 0 <= k < h.end - h.digits ensures IsDigit(s[h.digits..h.end][k]) {
          assert s[h.digits..h.end][k] == s[h.digits + k];
        }
      }
      Some(DecimalValue(s[h.digits..h.end]))
  }

  /** `None` exactly when the pattern occurs nowhere; otherwise the value of the engine's match's digit group. */
  lemma AgeValueSpec(s: Text, ci: bool)
    ensures AgeValue(s, ci).None? <==> forall i: nat, a: nat, b: nat, c: nat :: !IsAgeMatch(s, ci, i, a, b, c)
    ensures forall i: nat, a: nat, b: nat, c: nat :: IsRegexAgeMatch(s, ci, i, a, b, c) ==>
      AllDigits(s[b..c]) && AgeValue(s, ci) == Some(DecimalValue(s[b..c]))
  {
    FirstAgeMatchSpec(s, ci);
    forall i: nat, a: nat, b: nat, c: nat | IsRegexAgeMatch(s, ci, i, a, b, c)
      ensures AllDigits(s[b..c]) && AgeValue(s, ci) == Some(DecimalValue(s[b..c]))
    {
      FirstAgeMatchIs(s, ci, AgeHit(i, a, b, c));
    }
  }

  /** Lower-casing keeps exactly the case-insensitive matches, as matches without `i`. */
  lemma LowerKeepsAgeMatches(s: Text)
    ensures forall i: nat, a: nat, b: nat, c: nat :: IsAgeMatch(Lower(s), false, i, a, b, c) == IsAgeMatch(s, true, i, a, b, c)
  {
    var l := Lower(s);
    forall i | 0 <= i < |s|
      ensures MatchesLetter(l[i], 0x61, false) == MatchesLetter(s[i], 0x61, true)
      ensures MatchesLetter(l[i], 0x67, false) == MatchesLetter(s[i], 0x67, true)
      ensures MatchesLetter(l[i], 0x65, false) == MatchesLetter(s[i], 0x65, true)
      ensures IsAgeSep(l[i]) == IsAgeSep(s[i])
    {
      LowerUnitMatchesLetter(s[i], 0x61);
      LowerUnitMatchesLetter(s[i], 0x67);
      LowerUnitMatchesLetter(s[i], 0x65);
    }
    forall i: nat, a: nat, b: nat, c: nat ensures IsAgeMatch(l, false, i, a, b, c) == IsAgeMatch(s, true, i, a, b, c) {
      if a < |s| && i + 3 <= a {
        assert WsBetween(l, i + 3, a) == WsBetween(s, i + 3, a);
        if a + 1 <= b < c <= |s| {
          assert WsBetween(l, a + 1, b) == WsBetween(s, a + 1, b);
          assert DigitsBetween(l, b, c) == DigitsBetween(s, b, c);
        }
      }
    }
  }

  /**
   * Lower-casing first and matching without `i` is matching the original
   * with `i`: the same start, the same separator, the same digit group.
   */
  lemma LowerThenMatchIsCaseInsensitive(s: Text)
    ensures AgeValue(Lower(s), false) == AgeValue(s, true)
  {
    var l := Lower(s);
    LowerKeepsAgeMatches(s);
    FirstAgeMatchSpec(s, true);
    var r := FirstAgeMatch(s, true);
    if r.Some? {
      var h := r.value;
      RegexAgeMatchTransfers(s, true, l, false, h);
      FirstAgeMatchIs(l, false, h);
      assert l[h.digits..h.end] == s[h.digits..h.end];
    } else {
      FirstAgeMatchSpec(l, false);
    }
  }

  /** Two texts with the same matches have the same preferred match. */
  lemma RegexAgeMatchTransfers(s: Text, ci: bool, t: Text, cj: bool, h: AgeHit)
    requires forall i: nat, a: nat, b: nat, c: nat :: IsAgeMatch(t, cj, i, a, b, c) == IsAgeMatch(s, ci, i, a, b, c)
    requires IsRegexAgeMatch(s, ci, h.start, h.sep, h.digits, h.end)
    ensures IsRegexAgeMatch(t, cj, h.start, h.sep, h.digits, h.end)
  {
  }

}
