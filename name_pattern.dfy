/**
 * The pattern `name\s*[:\-]\s*([^\n]+)` with the `i` flag, matched the way
 * `String.prototype.match` does. Unlike the age pattern, the second `\s*`
 * can give units back: `\s` includes the line feed, so when the rest of the
 * text is whitespace the engine backs off until `[^\n]+` can take one unit.
 */
module NamePattern {
  import opened JsString
  import opened Options

  /** A match starting at `start`; the separator is at `sep` and group 1 is `s[capture..end]`. */
  datatype NameHit = NameHit(start: nat, sep: nat, capture: nat, end: nat)

  /** `:` or `-`; the en-dash is not accepted here. */
  predicate IsNameSep(u: Unit)
  {
    u == 0x3A || u == 0x2D
  }

  predicate NameWordAt(s: Text, i: nat)
  {
    i + 4 <= |s| &&
    MatchesLetter(s[i], 0x6E, true) && MatchesLetter(s[i + 1], 0x61, true) &&
    MatchesLetter(s[i + 2], 0x6D, true) && MatchesLetter(s[i + 3], 0x65, true)
  }

  predicate NoLfBetween(s: Text, a: nat, b: nat)
    requires a <= b <= |s|
  {
    forall k :: a <= k < b ==> s[k] != LF
  }

  /** The pattern matches `s` from `i`, with this separator position and this capture. */
  ghost predicate IsNameMatch(s: Text, i: nat, sep: nat, capture: nat, end: nat)
  {
    NameWordAt(s, i) &&
    i + 4 <= sep < |s| && WsBetween(s, i + 4, sep) && IsNameSep(s[sep]) &&
    sep + 1 <= capture < end <= |s| && WsBetween(s, sep + 1, capture) && NoLfBetween(s, capture, end)
  }

  /**
   * The match the regex engine reports: leftmost start, then the longest
   * first `\s*`, then the longest second `\s*`, then the longest `[^\n]+`.
   */
  ghost predicate IsRegexNameMatch(s: Text, i: nat, sep: nat, capture: nat, end: nat)
  {
    IsNameMatch(s, i, sep, capture, end) &&
    forall j: nat, a: nat, b: nat, c: nat :: IsNameMatch(s, j, a, b, c) ==>
      j > i || (j == i && (a < sep || (a == sep && (b < capture || (b == capture && c <= end)))))
  }

  lemma RegexNameMatchUnique(s: Text, h: NameHit, g: NameHit)
    requires IsRegexNameMatch(s, h.start, h.sep, h.capture, h.end)
    requires IsRegexNameMatch(s, g.start, g.sep, g.capture, g.end)
    ensures h == g
  {
  }

  /** Where `[^\n]+` starting at `j` stops: the next line feed, or the end of the text. */
  function LineEnd(s: Text, j: nat): (k: nat)
    requires j <= |s|
    ensures j <= k <= |s| && NoLfBetween(s, j, k)
    ensures k < |s| ==> s[k] == LF
    decreases |s| - j
  {
    if j < |s| && s[j] != LF then LineEnd(s, j + 1) else j
  }

  /**
   * The back-off of the second `\s*`: the largest position in `lo..k` from
   * which `[^\n]+` can take a unit, or `None` when there is none.
   */
  function CaptureStart(s: Text, lo: nat, k: nat): (r: Option<nat>)
    requires lo <= k <= |s|
    ensures r.Some? ==> lo <= r.value <= k && r.value < |s| && s[r.value] != LF
    ensures r.Some? ==> forall j :: r.value < j <= k && j < |s| ==> s[j] == LF
    ensures r.None? ==> forall j :: lo <= j <= k && j < |s| ==> s[j] == LF
    decreases k
  {
    if k < |s| && s[k] != LF then Some(k)
    else if k == lo then None
    else CaptureStart(s, lo, k - 1)
  }

  /** Every unit before the line end is part of `[^\n]+`. */
  lemma LineEndIsLongest(s: Text, j: nat, c: nat)
    requires j <= c <= |s| && NoLfBetween(s, j, c)
    ensures c <= LineEnd(s, j)
  {
  }

  /** A capture may start at `b` only if the back-off stops at `b` or later. */
  lemma CaptureStartIsLatest(s: Text, lo: nat, k: nat, b: nat, c: nat)
    requires lo <= b <= k <= |s| && b < c <= |s| && NoLfBetween(s, b, c)
    ensures CaptureStart(s, lo, k).Some? && b <= CaptureStart(s, lo, k).value
  {
    assert s[b] != LF;
  }

  /**
   * Any match from `i` takes the first whitespace run greedily, and its
   * capture starts no later than the back-off's and ends no later than the line.
   */
  lemma NameMatchIsGreedy(s: Text, i: nat, sep: nat, capture: nat, end: nat)
    ensures IsNameMatch(s, i, sep, capture, end) ==>
      var start := CaptureStart(s, sep + 1, SkipWs(s, sep + 1));
      sep == SkipWs(s, i + 4) && start.Some? && capture <= start.value &&
      (capture == start.value ==> end <= LineEnd(s, capture))
  {
    if IsNameMatch(s, i, sep, capture, end) {
      SkipWsUnique(s, i + 4, sep);
      CaptureStartIsLatest(s, sep + 1, SkipWs(s, sep + 1), capture, end);
      LineEndIsLongest(s, capture, end);
    }
  }

  /** Anchored attempt at `i`, following the engine's backtracking order; the capture holds no line feed. */
  function NameMatchAt(s: Text, i: nat): (r: Option<NameHit>)
    requires i <= |s|
    ensures r.Some? ==> r.value.start == i < r.value.sep < r.value.capture < r.value.end <= |s|
    ensures r.Some? ==> NoLfBetween(s, r.value.capture, r.value.end)
  {
    if !NameWordAt(s, i) then None
    else
      var sep := SkipWs(s, i + 4);
      if sep == |s| || !IsNameSep(s[sep]) then None
      else
        match CaptureStart(s, sep + 1, SkipWs(s, sep + 1))
        case None => None
        case Some(k) => Some(NameHit(i, sep, k, LineEnd(s, k)))
  }

  /**
   * The anchored attempt finds a match exactly when there is one, and the
   * one it finds has the engine's separator, the latest capture start and
   * the longest capture from there.
   */
  lemma NameMatchAtSpec(s: Text, i: nat)
    requires i <= |s|
    ensures var r := NameMatchAt(s, i);
      r.Some? ==> IsNameMatch(s, i, r.value.sep, r.value.capture, r.value.end)
    ensures var r := NameMatchAt(s, i);
      r.Some? ==> forall a: nat, b: nat, c: nat :: IsNameMatch(s, i, a, b, c) ==>
        a == r.value.sep && (b < r.value.capture || (b == r.value.capture && c <= r.value.end))
    ensures NameMatchAt(s, i).None? ==> forall a: nat, b: nat, c: nat :: !IsNameMatch(s, i, a, b, c)
  {
    forall a: nat, b: nat, c: nat ensures IsNameMatch(s, i, a, b, c) ==>
      var start := CaptureStart(s, a + 1, SkipWs(s, a + 1));
      a == SkipWs(s, i + 4) && start.Some? && b <= start.value && (b == start.value ==> c <= LineEnd(s, b))
    {
      NameMatchIsGreedy(s, i, a, b, c);
    }
  }

  /** The unanchored search from `i` onwards: the first start at which the anchored attempt succeeds. */
  function FirstNameMatchFrom(s: Text, i: nat): (r: Option<NameHit>)
    requires i <= |s|
    ensures r.Some? ==> i <= r.value.start < r.value.sep < r.value.capture < r.value.end <= |s|
    ensures r.Some? ==> NoLfBetween(s, r.value.capture, r.value.end)
    decreases |s| - i
  {
    var h := NameMatchAt(s, i);
    if h.Some? then h
    else if i == |s| then None
    else FirstNameMatchFrom(s, i + 1)
  }

  /** What the search returns is the anchored match at its start. */
  lemma {:induction false} FirstNameMatchFromFound(s: Text, i: nat)
    requires i <= |s|
    ensures var r := FirstNameMatchFrom(s, i);
      r.Some? ==> i <= r.value.start <= |s| && NameMatchAt(s, r.value.start) == r
    decreases |s| - i
  {
    if NameMatchAt(s, i).None? && i < |s| {
      FirstNameMatchFromFound(s, i + 1);
    }
  }

  /** Every start the search passes over has no anchored match. */
  lemma {:induction false} FirstNameMatchFromSkips(s: Text, i: nat, j: nat)
    requires i <= j <= |s|
    requires FirstNameMatchFrom(s, i).None? || j < FirstNameMatchFrom(s, i).value.start
    ensures NameMatchAt(s, j).None?
    decreases j - i
  {
    if j > i {
      assert NameMatchAt(s, i).None?;
      FirstNameMatchFromSkips(s, i + 1, j);
    }
  }

  /** `s.match(pattern)`: the match the engine reports, or `None` when the pattern occurs nowhere. */
  function FirstNameMatch(s: Text): (r: Option<NameHit>)
    ensures r.Some? ==> r.value.start < r.value.sep < r.value.capture < r.value.end <= |s|
    ensures r.Some? ==> NoLfBetween(s, r.value.capture, r.value.end)
  {
    FirstNameMatchFrom(s, 0)
  }

  /** The search returns the engine's preferred match, and finds nothing only when the pattern occurs nowhere. */
  lemma FirstNameMatchSpec(s: Text)
    ensures var r := FirstNameMatch(s);
      r.Some? ==> IsRegexNameMatch(s, r.value.start, r.value.sep, r.value.capture, r.value.end)
    ensures FirstNameMatch(s).None? <==> forall i: nat, a: nat, b: nat, c: nat :: !IsNameMatch(s, i, a, b, c)
  {
    FirstNameMatchFromFound(s, 0);
    var r := FirstNameMatch(s);
    if r.Some? {
      var h := r.value;
      NameMatchAtSpec(s, h.start);
      forall j: nat, a: nat, b: nat, c: nat
        ensures IsNameMatch(s, j, a, b, c) ==>
          j > h.start || (j == h.start && (a < h.sep || (a == h.sep && (b < h.capture || (b == h.capture && c <= h.end)))))
      {
        if j < h.start {
          FirstNameMatchFromSkips(s, 0, j);
          NameMatchAtSpec(s, j);
        }
      }
    } else {
      forall i: nat, a: nat, b: nat, c: nat ensures !IsNameMatch(s, i, a, b, c) {
        if i <= |s| {
          FirstNameMatchFromSkips(s, 0, i);
          NameMatchAtSpec(s, i);
        }
      }
    }
  }

  lemma FirstNameMatchIs(s: Text, h: NameHit)
    requires IsRegexNameMatch(s, h.start, h.sep, h.capture, h.end)
    ensures FirstNameMatch(s) == Some(h)
  {
    FirstNameMatchSpec(s);
    var r := FirstNameMatch(s);
    RegexNameMatchUnique(s, r.value, h);
  }

  /**
   * A match before which no `name` word starts, whose capture starts where
   * the second `\s*` cannot go further (its last unit, or a non-whitespace
   * unit) and runs to the end of the line, is the one the search returns.
   */
  lemma FirstNameMatchAt(s: Text, i: nat, sep: nat, capture: nat, end: nat)
    requires IsNameMatch(s, i, sep, capture, end)
    requires capture + 1 == |s| || (!IsWs(s[capture]) && (end == |s| || s[end] == LF))
    requires forall j :: 0 <= j < i ==> !NameWordAt(s, j)
    ensures FirstNameMatch(s) == Some(NameHit(i, sep, capture, end))
  {
    forall j: nat, a: nat, b: nat, c: nat | IsNameMatch(s, j, a, b, c)
      ensures j > i || (j == i && (a < sep || (a == sep && (b < capture || (b == capture && c <= end)))))
    {
      if j == i {
        SkipWsUnique(s, i + 4, a);
        SkipWsUnique(s, i + 4, sep);
        if capture + 1 != |s| {
          SkipWsUnique(s, sep + 1, capture);
          LineEndIsLongest(s, capture, end);
          if b == capture { LineEndIsLongest(s, b, c); }
        }
      }
    }
    FirstNameMatchIs(s, NameHit(i, sep, capture, end));
  }

}
