/**
 * The JavaScript string primitives the core relies on: strings as sequences
 * of UTF-16 code units, the whitespace set shared by `\s` and `trim`,
 * `trim`, `substring(0, n)`, `toLowerCase` and `parseInt` on a digit run.
 */
module JsString {

  /** One UTF-16 code unit: `length` and `substring` count these. */
  newtype Unit = u: int | 0 <= u < 0x1_0000

  type Text = seq<Unit>

  const LF: Unit := 0x0A
  const SPACE: Unit := 0x20
  const ZERO: Unit := 0x30

  /** A Dafny string literal whose characters are all single code units, as a Text. */
  function Str(s: string): (r: Text)
    requires forall k :: 0 <= k < |s| ==> s[k] as int < 0x1_0000
    ensures |r| == |s|
    ensures forall k :: 0 <= k < |s| ==> r[k] as int == s[k] as int
  {
    seq(|s|, k requires 0 <= k < |s| => s[k] as int as Unit)
  }

  /**
   * WhiteSpace and LineTerminator of ECMAScript: the class `\s` matches and
   * the set `String.prototype.trim` removes are this same set.
   */
  predicate IsWs(u: Unit)
  {
    u == 0x09 || u == 0x0A || u == 0x0B || u == 0x0C || u == 0x0D ||
    u == 0x20 || u == 0xA0 || u == 0x1680 || (0x2000 <= u <= 0x200A) ||
    u == 0x2028 || u == 0x2029 || u == 0x202F || u == 0x205F ||
    u == 0x3000 || u == 0xFEFF
  }

  /** The class `\d`. */
  predicate IsDigit(u: Unit)
  {
    0x30 <= u <= 0x39
  }

  /**
   * Whether `u` matches the pattern letter `lower` (an ASCII lower-case
   * letter); with the `i` flag its upper-case form matches too. Outside
   * unicode mode no non-ASCII unit canonicalises to an ASCII letter.
   */
  predicate MatchesLetter(u: Unit, lower: Unit, ci: bool)
    requires 0x61 <= lower <= 0x7A
  {
    u == lower || (ci && u as int == lower as int - 0x20)
  }

  predicate WsBetween(s: Text, a: nat, b: nat)
    requires a <= b <= |s|
  {
    forall k :: a <= k < b ==> IsWs(s[k])
  }

  predicate DigitsBetween(s: Text, a: nat, b: nat)
    requires a <= b <= |s|
  {
    forall k :: a <= k < b ==> IsDigit(s[k])
  }

  predicate AllDigits(ds: Text)
  {
    forall k :: 0 <= k < |ds| ==> IsDigit(ds[k])
  }

  /** The end of the longest whitespace run starting at `j` (greedy `\s*`). */
  function SkipWs(s: Text, j: nat): (k: nat)
    requires j <= |s|
    ensures j <= k <= |s| && WsBetween(s, j, k)
    ensures k < |s| ==> !IsWs(s[k])
    decreases |s| - j
  {
    if j < |s| && IsWs(s[j]) then SkipWs(s, j + 1) else j
  }

  /** A whitespace run from `j` that stops before a non-whitespace unit is the greedy one. */
  lemma SkipWsUnique(s: Text, j: nat, k: nat)
    requires j <= k < |s| && WsBetween(s, j, k) && !IsWs(s[k])
    ensures SkipWs(s, j) == k
  {
  }

  /** The end of the longest digit run starting at `j` (greedy `\d+`, when longer than zero). */
  function SkipDigits(s: Text, j: nat): (k: nat)
    requires j <= |s|
    ensures j <= k <= |s| && DigitsBetween(s, j, k)
    ensures k < |s| ==> !IsDigit(s[k])
    decreases |s| - j
  {
    if j < |s| && IsDigit(s[j]) then SkipDigits(s, j + 1) else j
  }

  /** Scanning back from `k` to `lo`: the end of `s[lo..k]` once trailing whitespace is dropped. */
  function TrimmedEnd(s: Text, lo: nat, k: nat): (e: nat)
    requires lo <= k <= |s|
    ensures lo <= e <= k && WsBetween(s, e, k)
    ensures e > lo ==> !IsWs(s[e - 1])
    decreases k
  {
    if k > lo && IsWs(s[k - 1]) then TrimmedEnd(s, lo, k - 1) else k
  }

  /** The bounds `trim` keeps: all leading and all trailing whitespace is outside them. */
  function TrimBounds(s: Text): (b: (nat, nat))
    ensures b.0 <= b.1 <= |s|
    ensures WsBetween(s, 0, b.0) && WsBetween(s, b.1, |s|)
    ensures b.0 < b.1 ==> !IsWs(s[b.0]) && !IsWs(s[b.1 - 1])
    ensures b.0 == b.1 ==> WsBetween(s, 0, |s|)
  {
    var a := SkipWs(s, 0);
    (a, TrimmedEnd(s, a, |s|))
  }

  /** `String.prototype.trim`. */
  function Trim(s: Text): (r: Text)
    ensures |r| <= |s|
    ensures r == [] <==> WsBetween(s, 0, |s|)
    ensures r != [] ==> !IsWs(r[0]) && !IsWs(r[|r| - 1])
    ensures var b := TrimBounds(s); |r| == b.1 - b.0 && forall k :: 0 <= k < |r| ==> r[k] == s[b.0 + k]
  {
    var b := TrimBounds(s);
    s[b.0..b.1]
  }

  /** A text that neither starts nor ends with whitespace is its own trim. */
  lemma TrimOfClean(s: Text)
    requires s != [] && !IsWs(s[0]) && !IsWs(s[|s| - 1])
    ensures Trim(s) == s
  {
    assert SkipWs(s, 0) == 0;
    assert TrimmedEnd(s, 0, |s|) == |s|;
  }

  /** Trimming twice is trimming once. */
  lemma TrimIdempotent(s: Text)
    ensures Trim(Trim(s)) == Trim(s)
  {
    var t := Trim(s);
    if t != [] {
      TrimOfClean(t);
    } else {
      assert SkipWs(t, 0) == 0;
    }
  }

  /** `substring(0, n)`: the first `n` code units, or the whole text when it is shorter. */
  function Prefix(s: Text, n: nat): (r: Text)
    ensures |r| == if |s| <= n then |s| else n
    ensures r <= s
  {
    if |s| <= n then s else s[..n]
  }

  /** `toLowerCase` on one unit, for the ASCII letters; every other unit is kept. */
  function LowerUnit(u: Unit): (l: Unit)
    ensures IsWs(l) == IsWs(u) && IsDigit(l) == IsDigit(u)
    ensures 0x41 <= u <= 0x5A ==> l as int == u as int + 0x20
  {
    if 0x41 <= u <= 0x5A then u + 0x20 else u
  }

  /** `toLowerCase`: one unit at a time, so positions are preserved. */
  function Lower(s: Text): (r: Text)
    ensures |r| == |s|
    ensures forall k :: 0 <= k < |s| ==> r[k] == LowerUnit(s[k])
  {
    seq(|s|, k requires 0 <= k < |s| => LowerUnit(s[k]))
  }

  /** A lower-cased unit is the pattern letter exactly when the original matches it case-insensitively. */
  lemma LowerUnitMatchesLetter(u: Unit, lower: Unit)
    requires 0x61 <= lower <= 0x7A
    ensures MatchesLetter(LowerUnit(u), lower, false) == MatchesLetter(u, lower, true)
  {
  }

  function DigitValue(u: Unit): (d: nat)
    requires IsDigit(u)
    ensures d < 10
  {
    (u - 0x30) as nat
  }

  /**
   * `parseInt(ds, 10)` on a run of decimal digits, as an unbounded natural
   * (the floating-point rounding of JavaScript numbers is not modelled).
   */
  function DecimalValue(ds: Text): nat
    requires AllDigits(ds)
  {
    if ds == [] then 0
    else DecimalValue(ds[..|ds| - 1]) * 10 + DigitValue(ds[|ds| - 1])
  }

  /** Leading zeros do not change the value of a digit run. */
  lemma {:induction false} LeadingZeroIgnored(ds: Text)
    requires AllDigits(ds)
    ensures AllDigits([ZERO] + ds) && DecimalValue([ZERO] + ds) == DecimalValue(ds)
  {
    var z := [ZERO] + ds;
    assert AllDigits(z) by {
      forall k | 0 <= k < |z| ensures IsDigit(z[k]) {
        if k > 0 { assert z[k] == ds[k - 1]; }
      }
    }
    if ds == [] {
      assert z[..0] == [];
    } else {
      var init := ds[..|ds| - 1];
      assert AllDigits(init) by {
        forall k | 0 <= k < |init| ensures IsDigit(init[k]) { assert init[k] == ds[k]; }
      }
      LeadingZeroIgnored(init);
      assert z[..|z| - 1] == [ZERO] + init;
      assert z[|z| - 1] == ds[|ds| - 1];
    }
  }

  /** The value of a run of one or two digits. */
  lemma ShortDecimalValue(ds: Text)
    requires AllDigits(ds) && 1 <= |ds| <= 2
    ensures |ds| == 1 ==> DecimalValue(ds) == DigitValue(ds[0])
    ensures |ds| == 2 ==> DecimalValue(ds) == DigitValue(ds[0]) * 10 + DigitValue(ds[1])
  {
    assert ds[..|ds| - 1][..0] == [];
    if |ds| == 2 {
      assert ds[..1][..0] == [];
    }
  }

}
