/**
 * The `POST /api/report-post` handler: it re-derives the age signal from
 * the stored row (never from anything the client sends besides the id)
 * and deletes the row when the first age it finds is below 16.
 */
module ReportPost {
  import opened JsString
  import opened Options
  import opened AgePattern
  import opened PostStore
  import opened AgeLimit

  /**
   * The request body: `Unparsable` when reading it throws (JSON that does not
   * parse, or a parsed `null` that `const { id }` cannot destructure), or an
   * object whose `id` is a string or absent/null.
   */
  datatype ReportBody = Unparsable | Body(id: Option<Text>)

  /** The response: its status code and JSON body reduced to one tag. */
  datatype Reply = IdRequired | NotFound | PostDeleted | Reported | ServerError

  function Status(r: Reply): (code: nat)
    ensures code == 200 <==> r == PostDeleted || r == Reported
  {
    match r
    case IdRequired => 400
    case NotFound => 404
    case PostDeleted => 200
    case Reported => 200
    case ServerError => 500
  }

  /** JavaScript truthiness of the id: absent, `null` and `""` are falsy. */
  predicate IsTruthy(id: Option<Text>)
  {
    id.Some? && id.value != []
  }

  /** `` `${post.title} ${post.content}`.toLowerCase() ``. */
  function ReportText(title: Text, content: Text): (t: Text)
    ensures |t| == |title| + 1 + |content|
    ensures forall k :: 0 <= k < |title| ==> t[k] == LowerUnit(title[k])
    ensures t[|title|] == SPACE
    ensures forall k :: 0 <= k < |content| ==> t[|title| + 1 + k] == LowerUnit(content[k])
  {
    var joined := title + [SPACE] + content;
    assert forall k :: 0 <= k < |content| ==> joined[|title| + 1 + k] == content[k];
    Lower(joined)
  }

  /** `parseInt` of the digit group of the first `age\s*[:\-–]\s*(\d+)` match in the report text, no `i` flag. */
  function ReportAge(title: Text, content: Text): (r: Option<nat>)
  {
    AgeValue(ReportText(title, content), false)
  }

  /** `null` exactly when the report text holds no match; otherwise the value of the engine's match's digit group. */
  lemma ReportAgeSpec(title: Text, content: Text)
    ensures ReportAge(title, content).None? <==>
      forall i: nat, a: nat, b: nat, c: nat :: !IsAgeMatch(ReportText(title, content), false, i, a, b, c)
    ensures forall i: nat, a: nat, b: nat, c: nat :: IsRegexAgeMatch(ReportText(title, content), false, i, a, b, c) ==>
      var t := ReportText(title, content); AllDigits(t[b..c]) && ReportAge(title, content) == Some(DecimalValue(t[b..c]))
  {
    AgeValueSpec(ReportText(title, content), false);
  }

  /** `ageMatch && parseInt(ageMatch[1]) < 16`: the row is to be deleted. */
  predicate DeletesOnReport(title: Text, content: Text)
  {
    UnderAge(ReportAge(title, content))
  }

  /** The row is deleted exactly when the engine's match in the report text names an age below 16. */
  lemma DeletesOnReportSpec(title: Text, content: Text)
    ensures DeletesOnReport(title, content) <==> var t := ReportText(title, content);
      exists i: nat, a: nat, b: nat, c: nat ::
        IsRegexAgeMatch(t, false, i, a, b, c) && AllDigits(t[b..c]) && DecimalValue(t[b..c]) < MIN_AGE
  {
    ReportAgeSpec(title, content);
  }

  /**
   * The handler. A thrown failure (an unparsable body, a select or delete
   * that throws) is answered with 500. The delete's own result is not
   * looked at: the answer is `deleted` even when the delete reports an error.
   */
  method Report(store: Store, body: ReportBody) returns (reply: Reply)
    modifies store
    ensures !(body.Body? && IsTruthy(body.id)) ==>
      reply == (if body.Unparsable? then ServerError else IdRequired) &&
      store.posts == old(store.posts) && store.calls == old(store.calls)
    ensures body.Body? && IsTruthy(body.id) ==>
      |store.calls| > |old(store.calls)| && store.calls[..|old(store.calls)|] == old(store.calls) &&
      store.calls[|old(store.calls)|].SelectCall? && store.calls[|old(store.calls)|].id == body.id.value
    ensures body.Body? && IsTruthy(body.id) ==>
      var id := body.id.value;
      var selected := store.calls[|old(store.calls)|];
      match selected.answer
      case SelectThrew =>
        reply == ServerError && store.calls == old(store.calls) + [selected] && store.posts == old(store.posts)
      case Selected(None) =>
        reply == NotFound && store.calls == old(store.calls) + [selected] && store.posts == old(store.posts)
      case Selected(Some(row)) =>
        id in old(store.posts) && row == old(store.posts)[id] &&
        if DeletesOnReport(row.title, row.content) then
          |store.calls| == |old(store.calls)| + 2 &&
          store.calls[|old(store.calls)| + 1].DeleteCall? && store.calls[|old(store.calls)| + 1].id == id &&
          var outcome := store.calls[|old(store.calls)| + 1].outcome;
          reply == (if outcome == DeleteThrew then ServerError else PostDeleted) &&
          store.posts == (if outcome == Deleted then old(store.posts) - {id} else old(store.posts))
        else
          reply == Reported && store.calls == old(store.calls) + [selected] && store.posts == old(store.posts)
    ensures store.posts == old(store.posts) ||
      (body.Body? && IsTruthy(body.id) && store.posts == old(store.posts) - {body.id.value})
  {
    if body.Unparsable? {
      return ServerError;
    }
    var id := body.id;
    if !IsTruthy(id) {
      return IdRequired;
    }
    var found := store.Select(id.value);
    if found.SelectThrew? {
      return ServerError;
    }
    if found.row.None? {
      return NotFound;
    }
    var post := found.row.value;
    if DeletesOnReport(post.title, post.content) {
      var deletion := store.Delete(id.value);
      if deletion == DeleteThrew {
        return ServerError;
      }
      return PostDeleted;
    }
    return Reported;
  }

}
