# Age gate of an anonymous posting board

This project models, in Dafny, the core of a small Next.js posting board. The
board keeps minors out with a keyword age gate that it applies twice:

- **On the home page (`app/page.js`).** `handleSubmit` refuses a post when
  the title or the content, each read on its own, has a first `age: <n>`
  match with `n < 16`. Only that first match counts: a title
  `age: 30, age: 10` with content `x` is admitted. Otherwise it inserts one
  row: the trimmed and cut title and content, and a `person_name` read from a
  `name: ...` line.
- **In the report handler (`app/api/report-post/route.js`).** `POST` looks up
  the stored row by id. It joins title and content with one space, lower-cases
  the result and matches the age pattern again, this time without the `i`
  flag. It deletes the row when the first age found is below 16.
- **Post card (`components/PostCard.js`).** It derives the link, the shown
  name, a 200-unit preview and the two counters.

## How the model is built

- **Text.** Text is a sequence of UTF-16 code units (`JsString.Unit`), since
  `length`, `substring` and a regex without the `u` flag all count code
  units. `\s` and `trim` use the same whitespace set, `JsString.IsWs`.
- **Regular expressions.** Each of the two patterns gets three layers:
  - a declarative match relation (`IsAgeMatch`, `IsNameMatch`);
  - the match a backtracking engine reports (`IsRegexAgeMatch`,
    `IsRegexNameMatch`). That is the leftmost start, then the engine's
    preference order for the greedy quantifiers;
  - a deterministic search (`FirstAgeMatch`, `FirstNameMatch`) proved to
    return exactly that match, and to return `None` exactly when there is no
    match at all.
- **Back-off in the name pattern.** In the name pattern the second `\s*` has to
  give units back when the rest of the text is blank. `NamePattern.CaptureStart`
  models that back-off.
- **Case-insensitive letters.** The `i` flag on each letter of
  `age` and `name` matches the lower or the ASCII upper case letter.
- **The store.** The `posts` table is `PostStore.Store`, a class with a
  `map` from id to row and a ghost log of the calls made. The database
  decides whether a call fails or throws, and which fresh key an insert gets.
  The store's methods choose these nondeterministically, so every contract
  holds whatever the database does.
- **`handleSubmit` and the handler.** `handleSubmit` is the `HandleSubmit`
  method of `HomePage.Home`, which holds the two form fields.
  `ReportPost.Report` is the handler. Invoking either changes the store as
  its contract states.

## Gate and report disagree

The two checks are not the same check, and `GateVsReport` proves it:
- When the title on its own names an age, the report sees that age whatever
  the content says (`TitleAgeDecidesReport`). So a post refused at submission
  for `age: 10` in the content would be kept on report, behind `age: 30` in
  the title (`RefusedButKept`).
- `Age` / `: 9` is admitted, because neither field on its own holds a match.
  The joined text `age : 9` gets it deleted on report
  (`SplitAgeAdmittedThenDeleted`).
- The gate reads the content before it is cut to 5000 units, and the report
  reads the stored cut. A content whose `age: 20` straddles the cut is
  admitted, stored as `...age: 2` and deleted on report
  (`CutAgeAdmittedThenDeleted`).

## Model

| member | source | states |
|---|---|---|
| JsString.IsWs | app/page.js:16-28 | The ECMAScript WhiteSpace and LineTerminator units: the set that both `\s` (app/page.js:16, :22; app/api/report-post/route.js:13) and `trim` (app/page.js:28, :40-41) use. |
| JsString.Trim | app/page.js:28 | The result is empty exactly when the text is all whitespace. Otherwise it is the text between the first and last non-whitespace units. |
| JsString.TrimIdempotent | app/page.js:40-41 | Trimming a trimmed text changes nothing. |
| JsString.Lower | app/api/report-post/route.js:12 | Same length; every unit is lowered on its own, ASCII `A`-`Z` to `a`-`z`. |
| JsString.Prefix | app/page.js:40-41 | A prefix of the text, of length `n` or the text's whole length when that is shorter (`substring(0, n)`, also components/PostCard.js:33). |
| JsString.DecimalValue | app/page.js:23 | `parseInt` of an all-digit run: its base-10 value as an unbounded natural (also app/api/report-post/route.js:15). |
| JsString.LeadingZeroIgnored | app/page.js:23 | A leading `0` does not change the decimal value of a digit run (`parseInt("007") == 7`). |
| AgePattern.AgeMatchAtSpec | app/page.js:22 | The anchored attempt finds a match at `i` exactly when one exists. That match takes both whitespace runs greedily and the longest digit run. |
| AgePattern.FirstAgeMatchFromFound | app/page.js:22 | What the search returns is the anchored match at its start. |
| AgePattern.FirstAgeMatchFromSkips | app/page.js:22 | No start the search passes over has a match. |
| AgePattern.FirstAgeMatchSpec | app/page.js:22 | `match` returns the engine's preferred (leftmost, greedy) match of `age\s*[:\-–]\s*(\d+)`. It returns `None` exactly when the pattern occurs nowhere, also inside a longer word. |
| AgePattern.FirstAgeMatchAt | app/page.js:22 | A match that no earlier `age` precedes and whose digit run cannot grow is the one reported. |
| AgePattern.FirstAgeMatch | app/page.js:22 | A match found lies inside the text, with its word, separator and digit group in order, and its group is all digits. |
| AgePattern.AgeValue | app/page.js:22-23 | A value found is the decimal value of the all-digit group of a match the engine reports. |
| AgePattern.AgeValueSpec | app/page.js:22-23 | `null` exactly when nothing matches; otherwise the decimal value of the preferred match's digit group. |
| AgePattern.LowerKeepsAgeMatches | app/api/report-post/route.js:12-13 | The lower-cased text has, without `i`, exactly the matches the original has with `i`. |
| AgePattern.LowerThenMatchIsCaseInsensitive | app/api/report-post/route.js:12-13 | Lower-casing and matching without `i` gives the same age as matching with `i`. |
| NamePattern.NameMatchAtSpec | app/page.js:16 | The anchored attempt finds a match exactly when one exists. It uses the greedy first `\s*`, the latest capture start the second `\s*` allows, and the capture up to the line end. |
| NamePattern.FirstNameMatchFromFound | app/page.js:16 | What the search returns is the anchored match at its start. |
| NamePattern.FirstNameMatchFromSkips | app/page.js:16 | No start the search passes over has a match. |
| NamePattern.FirstNameMatch | app/page.js:16 | A match found lies inside the text, with its parts in order, and its capture holds no line feed. |
| NamePattern.FirstNameMatchSpec | app/page.js:16 | `match` returns the engine's preferred match of `name\s*[:\-]\s*([^\n]+)`, or `None` exactly when the pattern occurs nowhere. |
| NamePattern.FirstNameMatchAt | app/page.js:16 | A match with no earlier `name`, whose capture starts where the second `\s*` cannot go further and runs to the line end, is the one reported. |
| HomePage.ExtractName | app/page.js:15-18 | An extracted name never holds a line feed. |
| HomePage.ExtractNameSpec | app/page.js:15-18 | `null` exactly when the pattern occurs nowhere; otherwise the trimmed capture of the preferred match. |
| HomePage.ExtractAge | app/page.js:21-24 | A found age is the decimal value of the digit group of the match the engine reports, case-insensitively. |
| AgeLimit.UnderAge | app/page.js:33 | An age is under the limit when one was found and it is below 16; the report handler uses the same test (app/api/report-post/route.js:15). |
| HomePage.ExtractAgeSpec | app/page.js:21-24 | `null` exactly when the pattern occurs nowhere (case-insensitively); otherwise the value of the preferred match's digit group. |
| HomePage.SubmitGate | app/page.js:28-36 | `Blank` exactly when either field is all whitespace. `AgeBlocked` exactly when neither is blank and either field by itself names an age below 16. |
| HomePage.AdmittedNamesNoMinor | app/page.js:30-36 | In an admitted post, the match the engine reports in the title, and the one it reports in the content, each read on its own, names an age of at least 16. Later matches in a field are not looked at. |
| HomePage.PersonName | app/page.js:42 | The content's name when it is non-null and non-empty, else the title's (possibly `null`); never holds a line feed. |
| HomePage.NewPost | app/page.js:38-43 | The stored title and content are prefixes of the trimmed fields. Their lengths are those of the trimmed fields capped at 100 and 5000. The person name is `PersonName`. |
| HomePage.LongTitleIsCut | app/page.js:40 | A clean title longer than 100 units is stored as its first 100. |
| HomePage.Home.constructor | app/page.js:9-10 | The form starts with both fields empty. |
| HomePage.Home.EditTitle | app/page.js:97 | The title field takes the typed text. |
| HomePage.Home.EditContent | app/page.js:104 | The content field takes the typed text. |
| HomePage.Home.HandleSubmit | app/page.js:26-53 | A blank or age-refused submission makes no store call and changes no field. An admitted one makes exactly one insert of `NewPost`. The form is cleared only when that insert succeeds, and then the store holds the new row under a fresh key. |
| HomePage.ExtractAgeColon | app/page.js:22 | `age: 15` names 15. |
| HomePage.ExtractAgeHyphen | app/page.js:22 | `age-15` names 15. |
| HomePage.ExtractAgeEnDashUpperCase | app/page.js:22 | `AGE – 15` names 15: upper case and the en-dash separator. |
| HomePage.ExtractAgeInsideWord | app/page.js:22-23 | `page: 007` names 7: no word boundary, and leading zeros are ignored. |
| HomePage.ExtractAgeNoDigits | app/page.js:22-23 | `age: x` names no age. |
| HomePage.ExtractAgeOfX | app/page.js:22-23 | `x` names no age. |
| HomePage.ExtractAgeTen | app/page.js:22-23 | `age: 10` names 10. |
| HomePage.ExtractAgeTwenty | app/page.js:22-23 | `age: 20` names 20. |
| HomePage.ExtractAgeThirty | app/page.js:22-23 | `age: 30` names 30. |
| HomePage.ExtractNameAcrossLineBreak | app/page.js:16-17 | `name:\nBob` gives `Bob`: the second `\s*` crosses the line feed. |
| HomePage.ExtractNameBlank | app/page.js:16-17 | `name:   ` gives the empty name: the blank tail is captured and trimmed away. |
| HomePage.ExtractNameNoEnDash | app/page.js:16-17 | The en-dash does not separate a name: `name – Bob` gives `null`. |
| HomePage.SubmitGateBlocksContent | app/page.js:30-36 | `age: 10` in the content refuses the post. |
| HomePage.SubmitGateBlocksTitle | app/page.js:30-36 | `age: 10` in the title refuses the post. |
| HomePage.SubmitGateAdmitsAdult | app/page.js:30-36 | `age: 20` does not refuse the post. |
| PostStore.Store.constructor | app/api/report-post/route.js:2 | The shared store starts with no rows and no calls logged. |
| PostStore.Store.Insert | app/page.js:38-44 | Logs one insert. On success the row is stored under a key not currently in the table and nothing else changes; on error the rows are unchanged. |
| PostStore.Store.Select | app/api/report-post/route.js:9 | Logs one select together with its answer. A row handed back is the one stored under the id, and none is handed back for a missing id. |
| PostStore.Store.Delete | app/api/report-post/route.js:16 | Logs one delete together with its outcome. On success exactly the given key is removed; otherwise the rows are unchanged. |
| ReportPost.Status | app/api/report-post/route.js:7-22 | The status is 200 exactly for `deleted` and `reported`. |
| ReportPost.IsTruthy | app/api/report-post/route.js:7 | An id is truthy when it is present, not `null` and not the empty string. |
| ReportPost.ReportText | app/api/report-post/route.js:12 | The report text is the lower-cased title, one space, then the lower-cased content: unit by unit, each unit of the title and of the content is lowered in its own place. |
| ReportPost.ReportAge | app/api/report-post/route.js:12-13 | The age the handler reads: the value of the digit group of the first match in the report text, searched without the `i` flag. |
| ReportPost.ReportAgeSpec | app/api/report-post/route.js:12-13 | `null` exactly when the lower-cased joined text matches nowhere without `i`; otherwise the value of the preferred match's digits. |
| ReportPost.DeletesOnReport | app/api/report-post/route.js:15 | A row is to be deleted when its report age is present and below 16. |
| ReportPost.DeletesOnReportSpec | app/api/report-post/route.js:12-15 | A row is to be deleted exactly when the match the engine reports in its report text has digits whose value is below 16. |
| ReportPost.Report | app/api/report-post/route.js:4-24 | An unparsable body gives 500 and a falsy id gives 400; neither calls the store or changes it. A truthy id makes one select of that id first, and its answer decides the rest. A thrown select gives 500 and no row gives 404. A row handed back is the one stored under the id. One whose report age is not below 16 gives `reported`. In these three cases nothing else is called and the rows are unchanged. When the report age is below 16, exactly one delete of that id follows. A thrown delete gives 500; otherwise the reply is `deleted`, even when the delete returned an error. The rows lose that id exactly when the delete succeeded. |
| PostCard.PostUrl | components/PostCard.js:5 | The link is `/post/` followed by the id. |
| PostCard.PostUrlInjective | components/PostCard.js:5 | Different ids link to different pages. |
| PostCard.DisplayName | components/PostCard.js:6 | A non-empty person name is shown as is; a missing, `null` or empty one shows `Unknown`. |
| PostCard.Preview | components/PostCard.js:33 | The content itself up to 200 units. Beyond that, its first 200 units followed by `...`. Never longer than 203, and it always starts with the content's prefix. |
| PostCard.CounterShown | components/PostCard.js:37 | A present counter is shown as is, a missing or `null` one as 0. |
| GateVsReport.ReportAgeIsJoinedExtractAge | app/api/report-post/route.js:12-13 | The report's age is `extractAge` of title, space, content. |
| GateVsReport.JoinedKeepsTitleMatch | app/api/report-post/route.js:12-13 | The title's preferred match stays the preferred match once a space and any content follow it. |
| GateVsReport.JoinedKeepsTitleAge | app/api/report-post/route.js:12-13 | When the title names an age, so does the joined text, and it is the same age. |
| GateVsReport.TitleAgeDecidesReport | app/api/report-post/route.js:12-15 | When the title names an age, the report decides on that age alone, whatever the content says. |
| GateVsReport.UnderAgeTitleIsDeleted | app/api/report-post/route.js:15-16 | A stored title naming an age below 16 gets the row deleted on report. |
| GateVsReport.AdultTitleIsKept | app/api/report-post/route.js:15-20 | A stored title naming an age of 16 or more keeps the row, whatever the content names. |
| GateVsReport.RefusedButKept | app/page.js:33 | Title `age: 30` with content `age: 10` is refused at submission, yet such a row would be kept on report. |
| GateVsReport.SplitHalvesHoldNoAge | app/page.js:30-31 | Neither `Age` nor `: 9` names an age. |
| GateVsReport.SplitAgeJoined | app/api/report-post/route.js:12-13 | `Age`, a space and `: 9`, joined, name 9. |
| GateVsReport.SplitAgeAdmitted | app/page.js:28-43 | `Age` / `: 9` passes the gate and is stored unchanged. |
| GateVsReport.SplitAgeDeleted | app/api/report-post/route.js:12-16 | The stored `Age` / `: 9` is deleted on report. |
| GateVsReport.SplitAgeAdmittedThenDeleted | app/page.js:30-41 | An age split between title and content is admitted, and the stored row is deleted on report. |
| GateVsReport.LongContentIsCut | app/page.js:41 | 4994 filler units plus `age: 20` are cut after `age: 2`. |
| GateVsReport.LongContentAge | app/page.js:31 | Before the cut that content names 20. |
| GateVsReport.NoAgeInT | app/page.js:28-30 | `t` is not blank and names no age. |
| GateVsReport.CutAgeJoined | app/api/report-post/route.js:12-13 | The stored row, joined, names 2. |
| GateVsReport.CutAgeAdmittedThenDeleted | app/page.js:31-41 | An age straddling the 5000-unit cut passes the gate, is stored as `age: 2` and is deleted on report. |

## Left out

- **The listing.** Its fetch and the page's `posts`/`loading` state
  (app/page.js:55-68) are left out. They read the `ranked_posts` view, whose
  ranking lives in the database.
- **Presentation.** All JSX, styling and `alert` texts are left out, and so are
  `e.preventDefault()`, app/layout.js and app/tos/page.js.
- **`async`/`await`.** The awaited calls run one after the other, as sequential steps.
- **The database client library.** It is not part of this model. Its calls
  become the methods of `PostStore.Store`:
  - failures and thrown errors are nondeterministic outcomes;
  - the fresh key of an insert is chosen by the store;
  - the database-filled columns (id, likes, views, timestamps) are not fields of `Post`.
- **PostStore.Store.Select: the handler's binding.** The handler binds a
  field named `post` from the client's result (app/api/report-post/route.js:9).
  A client whose result carries the row under another name would leave that
  binding empty, and then every report answers 404. The model lets a select
  hand back nothing even for a stored id, so every contract of `Report` holds
  either way. It does not decide which case the real client is.
- **Request ids.** An id that is a JSON number, boolean or object is left out.
  The id is modelled as absent/`null` or a string, with JavaScript
  truthiness on those.
- **HTTP framing.** Responses reduce to a tag and a status code, and the JSON
  messages (`ID required`, `no under-16`, ...) are dropped.
- **JsString.Lower: ASCII only.** It lowers only `A`-`Z`. `toLowerCase` on other
  characters is left out. No other character lowers to `a`, `g`, `e`, a
  digit, whitespace or a separator, which is all the pattern looks at.
- **AgePattern.AgeValueSpec: exact naturals.** It reads the digit group as
  an unbounded natural. It does not model `parseInt`'s rounding of very long
  digit runs, which cannot move a value across 16.
- **The post page.** View counting (app/post/[id]/page.js:29), like
  counting (app/post/[id]/page.js:186-191) and the code-gated delete
  (app/post/[id]/page.js:48-56) live in the post page, outside the modelled
  files, and are not modelled.

