/**
 * How the form's gate and the report handler's check relate. The gate
 * looks at the title and the content separately, case-insensitively and
 * before they are trimmed and cut; the handler looks at the stored row,
 * lower-cased, with the title and the content joined by one space.
 */
module GateVsReport {
  import opened JsString
  import opened Options
  import opened AgePattern
  import opened AgeLimit
  import HomePage
  import ReportPost

  /** Lower-casing the joined text and matching without `i` is `extractAge` of the joined text. */
  lemma ReportAgeIsJoinedExtractAge(title: Text, content: Text)
    ensures ReportPost.ReportAge(title, content) == HomePage.ExtractAge(title + [SPACE] + content)
  {
    LowerThenMatchIsCaseInsensitive(title + [SPACE] + content);
  }

  /**
   * The engine's match in the title is still its match once a space and
   * the content follow: nothing can start earlier, and the space ends the
   * digit run where the title did.
   */
  lemma JoinedKeepsTitleMatch(title: Text, content: Text, h: AgeHit)
    requires IsRegexAgeMatch(title, true, h.start, h.sep, h.digits, h.end)
    ensures IsRegexAgeMatch(title + [SPACE] + content, true, h.start, h.sep, h.digits, h.end)
  {
    var j := title + [SPACE] + content;
    var n := |title|;
    assert forall k :: 0 <= k < n ==> j[k] == title[k];
    assert !IsDigit(j[n]) && IsWs(j[n]);
    assert IsAgeMatch(j, true, h.start, h.sep, h.digits, h.end);
    forall i: nat, a: nat, b: nat, c: nat | IsAgeMatch(j, true, i, a, b, c)
      ensures i > h.start || (i == h.start && (a < h.sep || (a == h.sep && (b < h.digits || (b == h.digits && c <= h.end)))))
    {
      if c <= n {
        assert IsAgeMatch(title, true, i, a, b, c);
      } else {
        assert n < b by {
          assert !IsDigit(j[n]);
        }
        assert !IsWs(j[h.start]) && !IsAgeSep(j[h.start]) && !IsWs(j[h.digits]);
      }
    }
  }

  /**
   * When the title on its own names an age, the report check finds that
   * same age, whatever the content says.
   */
  lemma TitleAgeDecidesReport(title: Text, content: Text)
    requires HomePage.ExtractAge(title).Some?
    ensures ReportPost.ReportAge(title, content) == HomePage.ExtractAge(title)
  {
    var r := FirstAgeMatch(title, true);
    assert r.Some?;
    FirstAgeMatchSpec(title, true);
    JoinedKeepsTitleAge(title, content, r.value);
    ReportAgeIsJoinedExtractAge(title, content);
  }

  lemma JoinedKeepsTitleAge(title: Text, content: Text, h: AgeHit)
    requires IsRegexAgeMatch(title, true, h.start, h.sep, h.digits, h.end)
    ensures AgeValue(title + [SPACE] + content, true) == AgeValue(title, true)
  {
    var j := title + [SPACE] + content;
    JoinedKeepsTitleMatch(title, content, h);
    FirstAgeMatchIs(j, true, h);
    FirstAgeMatchIs(title, true, h);
    assert j[h.digits..h.end] == title[h.digits..h.end];
  }

  /** A stored title naming an age below 16 gets the post deleted on report. */
  lemma UnderAgeTitleIsDeleted(title: Text, content: Text)
    requires UnderAge(HomePage.ExtractAge(title))
    ensures ReportPost.DeletesOnReport(title, content)
  {
    TitleAgeDecidesReport(title, content);
  }

  /** A stored title naming an age of 16 or more keeps the post, whatever the content names. */
  lemma AdultTitleIsKept(title: Text, content: Text)
    requires HomePage.ExtractAge(title).Some? && HomePage.ExtractAge(title).value >= MIN_AGE
    ensures !ReportPost.DeletesOnReport(title, content)
  {
    TitleAgeDecidesReport(title, content);
  }

  /**
   * The gate refuses `age: 30` / `age: 10`, but a row holding them is kept
   * on report: the handler only sees the title's age.
   */
  lemma RefusedButKept(title: Text, content: Text)
    requires title == Str("age: 30") && content == Str("age: 10")
    ensures HomePage.SubmitGate(title, content) == HomePage.AgeBlocked
    ensures !ReportPost.DeletesOnReport(title, content)
  {
    assert !IsWs(title[0]) && !IsWs(content[0]);
    HomePage.ExtractAgeThirty(title);
    HomePage.ExtractAgeTen(content);
    AdultTitleIsKept(title, content);
  }

  /** Neither `Age` nor `: 9` holds a match. */
  lemma SplitHalvesHoldNoAge(title: Text, content: Text)
    requires title == Str("Age") && content == Str(": 9")
    ensures HomePage.ExtractAge(title) == None && HomePage.ExtractAge(content) == None
  {
    forall i: nat, a: nat, b: nat, c: nat ensures !IsAgeMatch(title, true, i, a, b, c) { }
    forall i: nat, a: nat, b: nat, c: nat ensures !IsAgeMatch(content, true, i, a, b, c) { }
    HomePage.ExtractAgeSpec(title);
    HomePage.ExtractAgeSpec(content);
  }

  /** Joined by the space, `Age` and `: 9` read as `age : 9`. */
  lemma SplitAgeJoined(j: Text)
    requires j == Str("Age") + [SPACE] + Str(": 9")
    ensures HomePage.ExtractAge(j) == Some(9)
  {
    FirstAgeMatchAt(j, true, 0, 4, 6, 7);
    ShortDecimalValue(j[6..7]);
  }

  /** The gate admits `Age` / `: 9`, and the row holds them as typed. */
  lemma SplitAgeAdmitted(title: Text, content: Text)
    requires title == Str("Age") && content == Str(": 9")
    ensures HomePage.SubmitGate(title, content) == HomePage.Admitted
    ensures HomePage.NewPost(title, content).title == title && HomePage.NewPost(title, content).content == content
  {
    SplitHalvesHoldNoAge(title, content);
    assert |title| == 3 && |content| == 3;
    assert !IsWs(title[0]) && !IsWs(title[2]) && !IsWs(content[0]) && !IsWs(content[2]);
    TrimOfClean(title);
    TrimOfClean(content);
  }

  /** On report, the row `Age` / `: 9` is deleted. */
  lemma SplitAgeDeleted(title: Text, content: Text)
    requires title == Str("Age") && content == Str(": 9")
    ensures ReportPost.DeletesOnReport(title, content)
  {
    SplitAgeJoined(title + [SPACE] + content);
    ReportAgeIsJoinedExtractAge(title, content);
  }

  /**
   * An age split between the title and the content passes the gate, which
   * sees neither half as an age; the row is stored as typed and deleted on report.
   */
  lemma SplitAgeAdmittedThenDeleted(title: Text, content: Text)
    requires title == Str("Age") && content == Str(": 9")
    ensures HomePage.SubmitGate(title, content) == HomePage.Admitted
    ensures var row := HomePage.NewPost(title, content); ReportPost.DeletesOnReport(row.title, row.content)
  {
    SplitAgeAdmitted(title, content);
    SplitAgeDeleted(title, content);
  }

  /** 4994 units of `x`: filler that holds no `age` word and no whitespace. */
  predicate IsFiller(p: Text)
  {
    |p| == 4994 && forall k :: 0 <= k < |p| ==> p[k] == 0x78
  }

  /** The filler followed by `age: 20` is one unit longer than the content limit, and is cut after `age: 2`. */
  lemma LongContentIsCut(p: Text, content: Text, cut: Text)
    requires IsFiller(p) && content == p + Str("age: 20") && cut == p + Str("age: 2")
    ensures Trim(content) == content
    ensures Prefix(Trim(content), HomePage.CONTENT_LIMIT) == cut
  {
    TrimOfClean(content);
    assert content[..5000] == cut;
  }

  /** Before the cut, the filler followed by `age: 20` names the age 20. */
  lemma LongContentAge(p: Text, content: Text)
    requires IsFiller(p) && content == p + Str("age: 20")
    ensures HomePage.ExtractAge(content) == Some(20)
  {
    var n := |p|;
    forall k | 0 <= k < n ensures !AgeWordAt(content, k, true) {
      assert content[k] == p[k];
    }
    var tail := content[n..];
    assert tail == Str("age: 20");
    assert tail[0] == 0x61 && tail[1] == 0x67 && tail[2] == 0x65 && tail[3] == 0x3A;
    assert tail[4] == 0x20 && tail[5] == 0x32 && tail[6] == 0x30;
    assert |content| == n + 7;
    assert forall k :: 0 <= k < 7 ==> content[n + k] == tail[k];
    FirstAgeMatchAt(content, true, n, n + 3, n + 5, n + 7);
    ShortDecimalValue(content[n + 5..n + 7]);
  }

  lemma NoAgeInT(t: Text)
    requires t == Str("t")
    ensures HomePage.ExtractAge(t) == None && Trim(t) == t
  {
    forall i: nat, a: nat, b: nat, c: nat ensures !IsAgeMatch(t, true, i, a, b, c) { }
    HomePage.ExtractAgeSpec(t);
    TrimOfClean(t);
  }

  /** The stored row, joined: `t`, the space, the filler, and `age: 2`. */
  lemma CutAgeJoined(p: Text, j: Text)
    requires IsFiller(p) && j == Str("t") + [SPACE] + (p + Str("age: 2"))
    ensures HomePage.ExtractAge(j) == Some(2)
  {
    var n := |p| + 2;
    forall k | 0 <= k < n ensures !AgeWordAt(j, k, true) {
      if k >= 2 {
        assert j[k] == p[k - 2];
      }
    }
    assert j[n..] == Str("age: 2");
    FirstAgeMatchAt(j, true, n, n + 3, n + 5, n + 6);
    ShortDecimalValue(j[n + 5..n + 6]);
  }

  /**
   * The gate checks the content before it is cut to 5000 code units, the
   * handler checks what is stored: `age: 20` straddling the cut passes the
   * gate, is stored as `age: 2`, and that row is deleted on report.
   */
  lemma CutAgeAdmittedThenDeleted(p: Text, title: Text, content: Text, cut: Text)
    requires IsFiller(p) && title == Str("t") && content == p + Str("age: 20") && cut == p + Str("age: 2")
    ensures HomePage.SubmitGate(title, content) == HomePage.Admitted
    ensures HomePage.NewPost(title, content).title == title && HomePage.NewPost(title, content).content == cut
    ensures ReportPost.DeletesOnReport(title, cut)
  {
    LongContentIsCut(p, content, cut);
    LongContentAge(p, content);
    NoAgeInT(title);
    CutAgeJoined(p, title + [SPACE] + cut);
    ReportAgeIsJoinedExtractAge(title, cut);
  }

}
