/**
 * The submission form of the home page: the two extractors, the gate that
 * runs before anything is written, the row the form inserts and the reset
 * of the form after a successful insert.
 */
module HomePage {
  import opened JsString
  import opened Options
  import opened AgePattern
  import opened NamePattern
  import opened PostStore
  import opened AgeLimit

  /** Code units kept of the trimmed title and the trimmed content. */
  const TITLE_LIMIT: nat := 100
  const CONTENT_LIMIT: nat := 5000

  /**
   * `extractName`: the trimmed group of the engine's case-insensitive
   * `name\s*[:\-]\s*([^\n]+)` match, or `null` when there is none. The
   * group stops at a line feed, so the name never holds one.
   */
  function ExtractName(txt: Text): (r: Option<Text>)
    ensures r.Some? ==> LF !in r.value
  {
    match FirstNameMatch(txt)
    case None => None
    case Some(h) =>
      var line := txt[h.capture..h.end];
      var name := Trim(line);
      assert LF !in name by {
        var bounds := TrimBounds(line);
        forall k | 0 <= k < |name| ensures name[k] != LF {
          assert name[k] == line[bounds.0 + k] == txt[h.capture + bounds.0 + k];
        }
      }
      Some(name)
  }

  /** `null` exactly when the pattern occurs nowhere; otherwise the trimmed group of the engine's match. */
  lemma ExtractNameSpec(txt: Text)
    ensures ExtractName(txt).None? <==> forall i: nat, a: nat, b: nat, c: nat :: !IsNameMatch(txt, i, a, b, c)
    ensures forall i: nat, a: nat, b: nat, c: nat :: IsRegexNameMatch(txt, i, a, b, c) ==>
      ExtractName(txt) == Some(Trim(txt[b..c]))
  {
    FirstNameMatchSpec(txt);
    forall i: nat, a: nat, b: nat, c: nat | IsRegexNameMatch(txt, i, a, b, c)
      ensures ExtractName(txt) == Some(Trim(txt[b..c]))
    {
      RegexNameMatchUnique(txt, NameHit(i, a, b, c), FirstNameMatch(txt).value);
    }
  }

  /**
   * `extractAge`: `parseInt` of the digit group of the engine's
   * case-insensitive `age\s*[:\-–]\s*(\d+)` match, or `null` when there is none.
   */
  function ExtractAge(txt: Text): (r: Option<nat>)
    ensures r.Some? ==> exists i: nat, a: nat, b: nat, c: nat ::
      IsRegexAgeMatch(txt, true, i, a, b, c) && AllDigits(txt[b..c]) && r.value == DecimalValue(txt[b..c])
  {
    AgeValue(txt, true)
  }

  /** `null` exactly when the pattern occurs nowhere; otherwise the value of the engine's match's digit group. */
  lemma ExtractAgeSpec(txt: Text)
    ensures ExtractAge(txt).None? <==> forall i: nat, a: nat, b: nat, c: nat :: !IsAgeMatch(txt, true, i, a, b, c)
    ensures forall i: nat, a: nat, b: nat, c: nat :: IsRegexAgeMatch(txt, true, i, a, b, c) ==>
      AllDigits(txt[b..c]) && ExtractAge(txt) == Some(DecimalValue(txt[b..c]))
  {
    AgeValueSpec(txt, true);
  }

  datatype Verdict = Blank | AgeBlocked | Admitted

  /**
   * What `handleSubmit` decides before it writes anything: nothing to post
   * when a field is whitespace only, refused when either field on its own
   * names an age below 16, otherwise the row is inserted.
   */
  function SubmitGate(title: Text, content: Text): (v: Verdict)
    ensures v == Blank <==> WsBetween(title, 0, |title|) || WsBetween(content, 0, |content|)
    ensures v == AgeBlocked <==> v != Blank && (UnderAge(ExtractAge(title)) || UnderAge(ExtractAge(content)))
  {
    if Trim(title) == [] || Trim(content) == [] then Blank
    else if UnderAge(ExtractAge(title)) || UnderAge(ExtractAge(content)) then AgeBlocked
    else Admitted
  }

  /** An admitted post names no age below 16 in the title nor in the content, each read on its own. */
  lemma AdmittedNamesNoMinor(title: Text, content: Text)
    requires SubmitGate(title, content) == Admitted
    ensures forall i: nat, a: nat, b: nat, c: nat :: IsRegexAgeMatch(title, true, i, a, b, c) ==>
      AllDigits(title[b..c]) && DecimalValue(title[b..c]) >= MIN_AGE
    ensures forall i: nat, a: nat, b: nat, c: nat :: IsRegexAgeMatch(content, true, i, a, b, c) ==>
      AllDigits(content[b..c]) && DecimalValue(content[b..c]) >= MIN_AGE
  {
    ExtractAgeSpec(title);
    ExtractAgeSpec(content);
  }

  /** `extractName(content) || extractName(title)`: an empty content name falls through to the title's. */
  function PersonName(title: Text, content: Text): (r: Option<Text>)
    ensures ExtractName(content).Some? && ExtractName(content).value != [] ==> r == ExtractName(content)
    ensures !(ExtractName(content).Some? && ExtractName(content).value != []) ==> r == ExtractName(title)
    ensures r.Some? ==> LF !in r.value
  {
    var fromContent := ExtractName(content);
    if fromContent.Some? && fromContent.value != [] then fromContent else ExtractName(title)
  }

  /** The row `handleSubmit` inserts: trimmed and cut fields, and the person name. */
  function NewPost(title: Text, content: Text): (p: Post)
    ensures p.title <= Trim(title) && |p.title| == if |Trim(title)| <= TITLE_LIMIT then |Trim(title)| else TITLE_LIMIT
    ensures p.content <= Trim(content) && |p.content| == if |Trim(content)| <= CONTENT_LIMIT then |Trim(content)| else CONTENT_LIMIT
    ensures p.personName == PersonName(title, content)
  {
    Post(Prefix(Trim(title), TITLE_LIMIT), Prefix(Trim(content), CONTENT_LIMIT), PersonName(title, content))
  }

  /** What the user is told once `handleSubmit` returns. */
  datatype SubmitOutcome = NothingToPost | AgeRefused | PostFailed | Posted

  /** The home page's form state and the store it posts to. */
  class Home {
    var title: Text
    var content: Text
    const store: Store

    constructor (store: Store)
      ensures this.store == store && title == [] && content == []
    {
      this.store := store;
      title := [];
      content := [];
    }

    /** The title input's `onChange`. */
    method EditTitle(t: Text)
      modifies this`title
      ensures title == t
    {
      title := t;
    }

    /** The content textarea's `onChange`. */
    method EditContent(c: Text)
      modifies this`content
      ensures content == c
    {
      content := c;
    }

    /**
     * `handleSubmit`: the gate, then one insert of the derived row; the
     * form is cleared only when the insert reports no error.
     */
    method HandleSubmit() returns (outcome: SubmitOutcome)
      modifies this`title, this`content, store
      ensures SubmitGate(old(title), old(content)) != Admitted ==>
        outcome == (if SubmitGate(old(title), old(content)) == Blank then NothingToPost else AgeRefused) &&
        title == old(title) && content == old(content) &&
        store.posts == old(store.posts) && store.calls == old(store.calls)
      ensures SubmitGate(old(title), old(content)) == Admitted ==>
        store.calls == old(store.calls) + [InsertCall(NewPost(old(title), old(content)))] &&
        (outcome == PostFailed || outcome == Posted)
      ensures outcome == PostFailed ==>
        title == old(title) && content == old(content) && store.posts == old(store.posts)
      ensures outcome == Posted ==>
        title == [] && content == [] &&
        exists id :: id !in old(store.posts) && store.posts == old(store.posts)[id := NewPost(old(title), old(content))]
    {
      if Trim(title) == [] || Trim(content) == [] {
        return NothingToPost;
      }
      var titleAge := ExtractAge(title);
      var contentAge := ExtractAge(content);
      if UnderAge(titleAge) || UnderAge(contentAge) {
        return AgeRefused;
      }
      var failed := store.Insert(NewPost(title, content));
      if failed {
        outcome := PostFailed;
      } else {
        outcome := Posted;
        title := [];
        content := [];
      }
    }
  }

  // Worked cases of the extractors and the gate.

  /** `age: 15` names the age 15. */
  lemma ExtractAgeColon(s: Text)
    requires s == Str("age: 15")
    ensures ExtractAge(s) == Some(15)
  {
    FirstAgeMatchAt(s, true, 0, 3, 5, 7);
    ShortDecimalValue(s[5..7]);
  }

  /** `age-15` names the age 15. */
  lemma ExtractAgeHyphen(s: Text)
    requires s == Str("age-15")
    ensures ExtractAge(s) == Some(15)
  {
    FirstAgeMatchAt(s, true, 0, 3, 4, 6);
    ShortDecimalValue(s[4..6]);
  }

  /** `AGE – 15`, upper case and an en-dash, names the age 15. */
  lemma ExtractAgeEnDashUpperCase(s: Text)
    requires s == Str("AGE \U{2013} 15")
    ensures ExtractAge(s) == Some(15)
  {
    FirstAgeMatchAt(s, true, 0, 4, 6, 8);
    ShortDecimalValue(s[6..8]);
  }

  /** Inside a longer word, with leading zeros: `page: 007` names the age 7. */
  lemma ExtractAgeInsideWord(s: Text)
    requires s == Str("page: 007")
    ensures ExtractAge(s) == Some(7)
  {
    FirstAgeMatchAt(s, true, 1, 4, 6, 9);
    assert s[6..9] == [ZERO] + ([ZERO] + s[8..9]);
    LeadingZeroIgnored([ZERO] + s[8..9]);
    LeadingZeroIgnored(s[8..9]);
    ShortDecimalValue(s[8..9]);
  }

  /** No digits after the separator: `null`. */
  lemma ExtractAgeNoDigits(s: Text)
    requires s == Str("age: x")
    ensures ExtractAge(s) == None
  {
    assert !IsWs(s[3]) && !IsDigit(s[4]) && !IsDigit(s[5]);
    forall i: nat, a: nat, b: nat, c: nat ensures !IsAgeMatch(s, true, i, a, b, c) { }
    ExtractAgeSpec(s);
  }

  /** `\s*` crosses the line break: `name:\nBob` names Bob. */
  lemma ExtractNameAcrossLineBreak(s: Text, bob: Text)
    requires s == Str("name:\nBob") && bob == Str("Bob")
    ensures ExtractName(s) == Some(bob)
  {
    FirstNameMatchAt(s, 0, 4, 6, 9);
    assert s[6..9] == bob;
    TrimOfClean(bob);
  }

  /** An all-blank rest of the text is captured and trims to the empty name. */
  lemma ExtractNameBlank(s: Text)
    requires s == Str("name:   ")
    ensures ExtractName(s) == Some([])
  {
    FirstNameMatchAt(s, 0, 4, 7, 8);
  }

  /** The en-dash does not separate a name. */
  lemma ExtractNameNoEnDash(s: Text)
    requires s == Str("name \U{2013} Bob")
    ensures ExtractName(s) == None
  {
    assert forall j :: 1 <= j < |s| ==> s[j] != 0x6E && s[j] != 0x4E;
    SkipWsUnique(s, 4, 5);
    assert !IsNameSep(s[5]);
    NameMatchAtSpec(s, 0);
    forall i: nat, a: nat, b: nat, c: nat ensures !IsNameMatch(s, i, a, b, c) { }
    ExtractNameSpec(s);
  }

  /** A field without any `age` word names no age. */
  lemma ExtractAgeOfX(x: Text)
    requires x == Str("x")
    ensures ExtractAge(x) == None
  {
    forall i: nat, a: nat, b: nat, c: nat ensures !IsAgeMatch(x, true, i, a, b, c) { }
    ExtractAgeSpec(x);
  }

  /** `age: 10` names the age 10. */
  lemma ExtractAgeTen(s: Text)
    requires s == Str("age: 10")
    ensures ExtractAge(s) == Some(10)
  {
    FirstAgeMatchAt(s, true, 0, 3, 5, 7);
    ShortDecimalValue(s[5..7]);
  }

  /** `age: 20` names the age 20. */
  lemma ExtractAgeTwenty(s: Text)
    requires s == Str("age: 20")
    ensures ExtractAge(s) == Some(20)
  {
    FirstAgeMatchAt(s, true, 0, 3, 5, 7);
    ShortDecimalValue(s[5..7]);
  }

  /** `age: 30` names the age 30. */
  lemma ExtractAgeThirty(s: Text)
    requires s == Str("age: 30")
    ensures ExtractAge(s) == Some(30)
  {
    FirstAgeMatchAt(s, true, 0, 3, 5, 7);
    ShortDecimalValue(s[5..7]);
  }

  /** `age: 10` in the content blocks the post. */
  lemma SubmitGateBlocksContent(title: Text, content: Text)
    requires title == Str("x") && content == Str("age: 10")
    ensures SubmitGate(title, content) == AgeBlocked
  {
    assert !IsWs(title[0]) && !IsWs(content[0]);
    ExtractAgeTen(content);
  }

  /** `age: 10` in the title blocks the post. */
  lemma SubmitGateBlocksTitle(title: Text, content: Text)
    requires title == Str("age: 10") && content == Str("x")
    ensures SubmitGate(title, content) == AgeBlocked
  {
    assert !IsWs(title[0]) && !IsWs(content[0]);
    ExtractAgeTen(title);
  }

  /** `age: 20` does not block. */
  lemma SubmitGateAdmitsAdult(title: Text, content: Text)
    requires title == Str("x") && content == Str("age: 20")
    ensures SubmitGate(title, content) == Admitted
  {
    assert !IsWs(title[0]) && !IsWs(content[0]);
    ExtractAgeOfX(title);
    ExtractAgeTwenty(content);
  }

  /** A title of more than 100 code units is stored as its first 100. */
  lemma LongTitleIsCut(title: Text, content: Text)
    requires |title| > TITLE_LIMIT && !IsWs(title[0]) && !IsWs(title[|title| - 1])
    ensures NewPost(title, content).title == title[..TITLE_LIMIT]
  {
    TrimOfClean(title);
  }

}
