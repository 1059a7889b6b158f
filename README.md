# elktail tailing engine in Dafny

elktail shows the log entries stored in an Elasticsearch cluster in the
terminal, much as `tail -f` follows a file. A run first issues one search
for the most recent entries. It shows them, oldest first, through a
`%field` display template (or as raw JSON). When following, it then polls
again and again. Each follow-up search asks for entries at or after the last
timestamp seen, minus a 500 ms window, and excludes by id the entries of that
window that were already shown. This is meant to catch entries that arrive
late without showing any entry twice. It does not always manage: a follow-up
search returns at most 9000 entries (elktail.go:207), so any further entries
of that period are lost. A late entry can also move the last timestamp back,
and then an entry already shown is shown again. And the cutoff is written
with a fraction of varying width, which the window compares as text and the
cluster as a date, so an entry can be dropped from the window and still be
selected (both in "## Findings"). The
delay between polls adapts to whether the last poll found anything.

The model has these modules:

- `Configuration` keeps the run configuration, with its copy rules, the
  list-only test and the flags that suppress loading the saved default.
- `Query` holds the three query builders. It also gives a semantics of the
  query language (`Eval`), which is what the builders' properties are
  stated in.
- `Document` models `EvaluateExpression` on parsed JSON documents and the
  template substitution of `printResult`.
- `Dedup` models the dedup window and its drain.
- `Indices` covers date extraction from index names, the last index, the
  indices of a date range, and the index selection with its defaults.
- `Setup` covers URL normalisation, extra headers, the `user:password` flag
  and the merging of saved and given query terms.
- `Tailing` holds the `Tail` class: `NewTail`, `processResults` and the
  poll loop of `Start`.
- `Stamps` writes an instant in the cutoff's layout, with the `.999`
  fraction the code uses and with a fixed `.000` fraction, and compares
  the two as text.
- `Strings` (byte-wise string order, split, join, trim, replace) and
  `Wrappers` (`Option`, `Result`) are support modules.

The model replaces the system's external parts with parameters:

- Search requests are modelled as values. Their answers are a sequence of
  outcomes passed in, one per poll.
- "Last timestamp minus 500 ms" is the parameter `cutoffOf`.
- The `%v` rendering of a value is `show`.
- Regex matching of index names against the pattern is `matches`.
- Today's date is `today`.
- How a query string matches a document is `textMatch`.

The window code compares timestamps as strings, byte by byte, as the Go
code does (`isBefore`, elktail.go:47-49). The query semantics `Query.Eval`
compares the range bounds of the queries in the same way. The cluster
compares them as dates instead. The two agree only for timestamps whose
text has a fixed width, which the cutoff as written does not have (see
"## Left out" and "## Findings").

The tail reads two settings, `Raw` (elktail.go:138) and the query's
`Format` (elktail.go:348), that the configuration structs
(configuration/configuration.go:25-53) do not declare. The model adds them
as plain fields, `Config.raw` and `QueryDefinition.format`. Neither copy
method copies them, so `Copy` leaves them at their zero values.

Two behaviours of the code that a reader may not expect; the model follows
the code:

- The poll delay does not simply reset to 500 ms after a poll with hits,
  and it is not capped at 2 s. A poll with hits while the delay is
  already 500 ms raises it to 1000 ms, so a busy stream alternates 500/1000.
  The delay can also reach 2500 ms, because it still grows when it is
  exactly 2000 ms (`NextDelay`, `DelayCourse`).
- The window eviction. It leaves nothing older than the cutoff only when
  the window is in time order; the drain stops at the first entry that is
  not old (`DrainSpec`, `DrainChronological`).

## Model

| member | source | states |
|---|---|---|
| Configuration.Config.constructor | configuration/configuration.go:41-53 | a new configuration has every field at its zero value |
| Configuration.Config.CopyConfigRelevantSettingsTo | configuration/configuration.go:81-97 | the destination gets this configuration's url, tunnel url, headers, cert, key, index pattern, terms, user, password and tunnel parameters; every other destination field is unchanged |
| Configuration.Config.CopyNonConfigRelevantSettingsTo | configuration/configuration.go:99-109 | the destination gets the timestamp field, both date bounds, follow, initial entries and the three verbosity switches; every other destination field is unchanged |
| Configuration.Config.Copy | configuration/configuration.go:72-79 | a fresh configuration equal to this one in every copied field, with an empty format and raw and save-query off, because neither copy method carries them |
| Configuration.Config.IsListOnly | configuration/configuration.go:262-265 | a start date forces list-only mode; a following run therefore has no date bound at all |
| Configuration.QueryDefinition.IsDateTimeFiltered | configuration/configuration.go:267-269 | a date bound is set on at least one side; what this changes in the search query is stated by `Query.SearchQuerySelects` |
| Configuration.IsConfigRelevantFlagSet | configuration/configuration.go:271-278 | true iff one of url, i, t, u, ssh was given |
| Query.BuildDateTimeRangeQuery | elktail.go:376-391 | the range filter on the timestamp field, inclusive from the start date and exclusive up to the end date; what it selects is stated by `Query.SearchQuerySelects` |
| Query.BuildSearchQuery | elktail.go:357-374 | the query string of the space-joined terms, or match-all, filtered by the date range when one is set; what it selects is stated by `Query.SearchQuerySelects` |
| Query.BuildTimestampFilteredQuery | elktail.go:393-407 | the search query, filtered to timestamps at or after the cutoff and to ids not in the window; what it selects is stated by `Query.FollowQuerySelects` |
| Query.SearchQuerySelects | elktail.go:357-391 | the search query selects exactly the documents that match the terms (if any) and lie in the date window: at or after the start, strictly before the end; it is a bool filter exactly when a date bound is set |
| Query.FollowQuerySelects | elktail.go:393-407 | the follow-up query selects exactly what the search query selects, restricted to timestamps at or after the cutoff and to documents whose id is not one of the window's ids, taken in order one per entry |
| Document.Evaluate | elktail.go:596-624 | the empty expression is the model itself; a key present as a whole wins over its dotted reading; on a value that is not an object the result is an error |
| Document.EvaluatePath | elktail.go:590-624 | on documents with no dotted keys, evaluating `k1.k2...kn` is walking the keys one by one: the value found, or an error when some key is missing |
| Document.FieldValuePath | elktail.go:590-595 | on documents with no dotted keys, `EvaluateExpression` of `k1.k2...kn` is the rendering of the value the key walk finds, or an error when a key is missing; the text a token shows (elktail.go:351) is that rendering, or empty |
| Document.TokenRun | elktail.go:344 | the longest prefix made of the template token characters `A-Za-z0-9@_.-` |
| Document.Tokens | elktail.go:344-348 | every token found begins with '%' and names at least one character |
| Document.TokensOfRender | elktail.go:344-348 | the tokens found in a template of literal text and `%field` pieces are exactly its field pieces, left to right, each found whole |
| Document.PrintResultAsWritten | elktail.go:347-355 | the template with, for each token found in turn, every occurrence of it in the partly substituted line replaced by its field's text; when it goes right is stated by `Document.PrintResultAsWrittenSubstitutes`, and how it goes wrong is shown by `Document.ExamplePrintedAsWritten` |
| Document.PrintResult | elktail.go:347-355 | the corrected display line: one left-to-right pass that replaces each token by its field's text; its meaning is stated by `Document.PrintResultSubstitutes` |
| Document.PrintResultSubstitutes | elktail.go:347-355 | a template of literal text and `%field` tokens prints, in a single pass, as the literals with every token replaced by its field's value |
| Document.PrintResultAsWrittenSubstitutes | elktail.go:347-355 | on a template of literal text and `%field` tokens in which no field name is a proper prefix of another, and whose fields' values hold no '%', the display as written replaces every token by its own field's value, the same line as the single pass |
| Document.ExamplePrintedAsWritten | elktail.go:347-355 | as written, "%a %ab" with a = x and ab = y prints "x xb" |
| Document.PrefixTokenClobbers | elktail.go:347-355 | the same template and document print "x xb" as written and "x y" with a single pass |
| Dedup.DisplayedEntry.IsBefore | elktail.go:47-49 | the entry's timestamp is strictly before the given one in byte-wise string order; its use in the drain is stated by `Dedup.DrainSpec` |
| Dedup.DrainCount | elktail.go:320-325 | the drain never removes the final entry of a non-empty window |
| Dedup.DrainSpec | elktail.go:320-325 | every removed entry is older than the cutoff; the scan stops at the first entry that is not, or at the final one; the window is empty only if it was |
| Dedup.DrainKeepsLast | elktail.go:320-325 | the final entry survives the drain |
| Dedup.DrainIdempotent | elktail.go:320-325 | a second drain against the same cutoff removes nothing |
| Dedup.DrainChronological | elktail.go:274-279 | on a window in time order whose final entry is not older than the cutoff, nothing older than the cutoff remains |
| Dedup.DrainOldEntries | elktail.go:320-325 | the loop and reslice compute the drain above |
| Setup.NormalizeUrl | elktail.go:61-70 | "http://" is put in front unless the URL starts with "http"; then ":9200" is appended exactly when the URL names no port and is a bare `http://host`; nothing else is ever appended |
| Setup.NormalizeIdempotent | elktail.go:61-70 | normalising a normalised URL changes nothing |
| Setup.NormalizeBareHost | elktail.go:67-70 | "elk" becomes "http://elk:9200" |
| Setup.NormalizeHostName | elktail.go:61-70 | every non-empty host name without '/' or ':' that does not start with "http" becomes "http://" + host + ":9200" |
| Setup.ExtractHeader | elktail.go:779-785 | one piece per ':'-separated part (one more than the number of ':'), each trimmed of spaces and free of ':' |
| Setup.SplitCredentials | elktail.go:501-506 | the user and password after the `user:password` flag is split; its properties are stated by `Setup.CredentialsSplit` |
| Setup.CredentialsSplit | elktail.go:501-506 | the user part is the text before the first ':' and never holds ':'; with exactly one ':' the flag is split around it; with none, user and password are kept; with more, the password is kept |
| Setup.MergeTermsAsWritten | elktail.go:535-558 | the run's and the saved terms as the code computes them; how it differs from the corrected merge is stated by `Setup.MergeAsWrittenDiffers` |
| Setup.MergeAsWrittenDiffers | elktail.go:546-557 | the merge as written equals the corrected one except without save mode, with exactly one saved term and some arguments; there it runs only the arguments, where the corrected merge runs the saved term AND the arguments |
| Setup.SingleStoredTermDropped | elktail.go:547-557 | as written, a single saved term "error" and the argument "timeout" run as just "timeout" |
| Setup.MergeTerms | elktail.go:535-558 | the corrected merge, which ANDs the arguments to every non-empty set of saved terms; its meaning is stated by `Setup.MergedQueryString` |
| Setup.MergedQueryString | elktail.go:535-558 | in save mode the arguments are run and saved; otherwise the saved terms are saved unchanged and the run's query string is the saved one ANDed with the arguments |
| Indices.FirstDateAt | elktail.go:411-418 | the leftmost position at or after `i` where a `dddd<sep>dd<sep>dd` shape starts, or none |
| Indices.ExtractYMDDate | elktail.go:411-424 | succeeds iff the leftmost date shape in the string is a valid calendar date, and then the date returned is the one written at that leftmost shape |
| Indices.ExtractFormatted | elktail.go:168-173 | formatting a valid date with a separator and extracting it again gives the same date |
| Indices.LastIndexFromSpec | elktail.go:441-454 | the scan's result is the accumulator or one of the matching indices, and no matching index is greater |
| Indices.LastIndexIsGreatest | elktail.go:441-454 | the last index is "" or a matching index, at or after every matching index in string order |
| Indices.FindLastIndex | elktail.go:441-454 | the loop computes the last index above |
| Indices.InDateRangeSpec | elktail.go:425-439 | the date-range selection fails iff some matching index name holds no valid date; otherwise a name is among those selected iff it matches and its date lies in [start, end] |
| Indices.InDateRangeInOrder | elktail.go:425-439 | when it does not fail, the date-range selection is the catalog filtered to the selected names, in catalog order, a name listed twice selected twice |
| Indices.FindIndicesForDateRange | elktail.go:425-439 | the loop computes the selection of the date range named by the two date strings: an error when either string holds no date, otherwise the selection above |
| Indices.DefaultedRange | elktail.go:166-180 | with no end date the range ends today; with only an end date it starts at the earlier of the last index's date and the end date |
| Indices.SelectIndices | elktail.go:154-189 | when the catalog cannot be read, the index pattern is used; with no date bound, the last index; otherwise the defaulted date range |
| Tailing.NextDelay | elktail.go:234-239 | the delay stays within 500-2500 ms in steps of 500; after a poll with hits it goes back to 500 ms, or to 1000 ms from 500; otherwise it grows by 500 ms, up to 2500 ms |
| Tailing.DelayCourse | elktail.go:199-240 | under steady hits the delay alternates 500/1000 ms; with no hits it reaches 2500 ms after four polls and stays there |
| Tailing.DelayScheduleSpec | elktail.go:199-240 | the sleeps of the follow loop are each one of 500, 1000, 1500, 2000, 2500 ms; the first is 500 ms; each later one is the previous delay adapted to the total hits of the poll in between |
| Tailing.NotRequeried | elktail.go:393-407 | an entry of the window before the drain is never selected by the next follow-up query: it is still excluded by id, or it was drained because it is older than the cutoff |
| Tailing.DescendingPage | elktail.go:292-301 | a page sorted newest first is shown oldest first, enters the window in time order, and the last timestamp becomes that of its newest hit |
| Tailing.WindowEndsWithLastShown | elktail.go:281-304 | after a non-empty page, the window ends with the entry of the last hit shown, whose timestamp is the new last timestamp |
| Tailing.LateHitRepeatsAsWritten | elktail.go:293-304 | as written, a page holding only a late hit moves the last timestamp back, the cutoff falls with it, and the next follow-up query selects an entry that was shown and drained before |
| Tailing.AdvanceForward | elktail.go:293-304 | the corrected window step never moves the last timestamp back, and leaves it at or after the timestamp of the final entry of the page |
| Tailing.ForwardKeepsCovered | elktail.go:274-304 | with the corrected step, and a cutoff that does not move back across the step (nothing is asked of the first page), every entry shown so far stays in the window or before the cutoff |
| Tailing.FixedLayoutKeepsCovered | elktail.go:293-304 | with the timestamps and the cutoff written with a fixed `.000` fraction over a layout of seconds, and every instant and its cutoff inside that layout, the corrected step keeps the later of the last and the page's final instant, and every entry shown so far stays in the window or before the cutoff, page after page |
| Tailing.TrimmedCutoffRequeries | elktail.go:303-304 | for any text of the second, with the cutoff in the `.999` layout, an entry 150 ms into the second is drained against a last timestamp 600 ms into it, yet the follow-up query, with its range read as the instant it denotes, selects it again; against the fixed-layout cutoff it stays in the window |
| Tailing.ClockTrimmedRequeries | elktail.go:303-304 | on a concrete ten-second clock with the code's `.999` cutoff, the entry at 150 ms is drained and then selected again |
| Tailing.ClockFixedKeepsCovered | elktail.go:293-304 | on the same clock with the fixed cutoff, after entries at 150 and 600 ms and a page at 1200 ms, the last timestamp is the 1200 ms one and all three shown entries stay covered |
| Stamps.FixedLayoutOrder | elktail.go:52 | for instants inside a layout of seconds with fixed width and increasing text, one fixed `.000` timestamp's text is below another's exactly when its instant is earlier |
| Stamps.FixedWithinSecond | elktail.go:52 | within one second, for any text of the second, the fixed `.000` text of the earlier instant is the smaller |
| Stamps.FixedCutoffGrows | elktail.go:303 | with a fixed fraction, for timestamps whose cutoffs lie inside the layout, the cutoff of a later timestamp is at or after the cutoff of an earlier one |
| Stamps.ClockLayout | elktail.go:52 | the ten-second clock written one digit per second meets the layout, so the layout lemmas above are not vacuous |
| Stamps.ClockCutoffIsFixed | elktail.go:303 | the clock's cutoff, read back from the text and written 500 ms earlier with the fixed fraction, is a fixed-layout cutoff over all ten seconds |
| Stamps.TrimmedLayoutMisorders | elktail.go:52 | with the `.999` fraction, the cutoffs of 600 ms and 650 ms into a second are ".1Z" and ".15Z", the later one the smaller text, and a ".150Z" timestamp is below the ".1Z" cutoff as text |
| Tailing.CoveredNotRequeried | elktail.go:393-407 | an entry shown and covered in this way is not selected by the follow-up query built from that window and timestamp |
| Tailing.Tail.NewTail | elktail.go:56-150 | the client URL is the tunnel's when one is up, otherwise the normalised URL; the query, raw switch and the index pattern as the only index; ascending order exactly when a start date is set, so a following run sorts descending; empty window and last timestamp |
| Tailing.Tail.Line | elktail.go:334-338 | the line printed for a hit: its raw source in raw mode, otherwise the template filled in as `printResult` does it as written |
| Tailing.Tail.InitialRequest | elktail.go:245-249 | the initial search: the search query, sorted by timestamp in the tail's order, from 0, `initialEntries` hits; what the query selects is stated by `Query.SearchQuerySelects` |
| Tailing.Tail.FollowRequest | elktail.go:202-208 | the follow-up search: newest first, from 0, at most 9000 hits, with the follow-up query built from the cutoff of the last timestamp and the window's ids; what it selects is stated by `Query.FollowQuerySelects` |
| Tailing.Tail.Record | elktail.go:283-289 | one hit: its line is printed, its timestamp becomes the last one, its entry is appended to the window |
| Tailing.Tail.RecordForward | elktail.go:281-290 | in ascending order the hits are shown and entered into the window in the order received, and the last timestamp is that of the final hit |
| Tailing.Tail.RecordBackward | elktail.go:292-301 | in descending order the hits are shown and entered into the window from the last received to the first, and the last timestamp is that of the first hit received |
| Tailing.Tail.AfterPageParts | elktail.go:270-309 | the state after a page: the lines of the hits in display order appended to the output, the last timestamp that of the final hit shown (kept on an empty page), and the old window plus the page's entries drained against the cutoff of that timestamp |
| Tailing.Tail.ProcessResults | elktail.go:270-309 | leaves the state after the page described above; nothing further would be drained; an empty page leaves a drained window as it was |
| Tailing.Tail.Poll | elktail.go:200-239 | issues the follow-up request once a timestamp is known, the initial request while none is; a failed search aborts and changes nothing; otherwise the page is processed and the next delay chosen |
| Tailing.Tail.RunShift | elktail.go:192-240 | processing the first outcome and then the rest is processing all outcomes in order |
| Tailing.Tail.Follow | elktail.go:200-240 | one poll per outcome until one fails; each poll's request is the one called for by the state the outcomes before it left; the sleeps are the delay schedule; the final state is the outcomes' pages processed in order from the old state; when none fails, the window is left drained |
| Tailing.Tail.Start | elktail.go:192-240 | the initial request comes first; without follow it is the only one and the state is the first page processed; otherwise every later request is the one called for by the state before it, until an outcome fails or they run out; the final state is the pages processed in order |

## Left out

- Connecting to the cluster is not modelled, and the model does not check
  what a search returns: TLS certificates, tracing, MultiSearch, and
  Elasticsearch's ranking, sorting and paging. Searches are modelled as the
  requests issued and the outcomes given.
- Kibana headers, token login and version resolution (`KibanaDecorator`,
  `LoadToken`, `Authenticate`, `ResolveKibanaVersion`) are left out. They
  are network and file I/O.
- Saving and loading the default configuration (`SaveDefault`,
  `LoadDefault`, `userHomeDir`) are left out, because they are file I/O.
- The command-line definitions (`Flags`, the `cli` application,
  `readPasswd`, logging set-up) are left out; they are only wiring.
  `IsConfigRelevantFlagSet` takes the set of flags given.
- The SSH tunnel is started in a goroutine and its URL is handed to the
  client. The tunnel itself and the one-second wait are left out; the
  model takes the tunnel URL as already set.
- The sleeps between polls are not modelled; they appear only as the
  delays chosen.
- Time parsing, formatting and the clock (`parseElasticTimeStamp`,
  `formatElasticTimeStamp`, `time.Now`) are parameters (`cutoffOf`,
  `today`). `Stamps` writes instants in whole milliseconds of UTC only, and
  takes the text of each whole second as given (`secText`). Its order
  lemmas hold over a bounded run of seconds (`horizon`), because no text of
  one fixed width can increase over all the integers; the ten-second
  `ClockText` shows that such a layout exists. Calendar
  arithmetic is not modelled. A timestamp that does not parse gives Go's zero time. That
  behaviour is left to `cutoffOf`.
- Regex matching of index names against the index pattern is the parameter
  `matches`. The date pattern of `extractYMDDate` is modelled with a literal
  separator. As written, the separator "." is an unescaped regex dot that
  matches any character. So for an index name such as
  `a-2024-01-01.2024.01.02`, the code takes the leftmost `2024-01-01`,
  fails to parse it as `2006.01.02` and ends the run, where the model reads
  `2024.01.02` and succeeds.
- JSON decoding of a hit's source is taken as done (`Hit.source`). A decode
  failure is fatal in the code and is not modelled. The `%v` rendering of
  values is the parameter `show`.
- Tailing.Tail.ProcessResults, Tailing.Tail.Poll, Tailing.Tail.Follow and
  Tailing.Tail.Start: they require every hit to carry a string timestamp
  (`AllStamped`, `OutcomeStamped`, `PagesStamped`). The code panics on a
  hit without one.
- Tailing.Tail.NewTail: building the extra-header map from `ExtractHeader`
  and its indexing of the second piece are not modelled. They feed only
  the Kibana transport.
- `selectIndices` is modelled (`SelectIndices`), but `NewTail` does not
  call it: the call is commented out in the code, so the tail uses the
  index pattern.
- Fatal errors exit the process. The model represents them as `Err`
  results, as `Failed` outcomes that end `Start`, or (in `extractYMDDate`)
  as an `Err` that the callers pass on. Message texts are not modelled.
- Tailing.Tail.Poll: the follow-up query is also built for the log line
  while the initial search is repeated. That has no effect and is not
  modelled.
- Document.TokensOfRender, Document.PrintResultSubstitutes and
  Document.PrintResultAsWrittenSubstitutes are stated for templates written
  as pieces in which every literal is free of '%' and every field is
  followed by a literal or ends the template. Templates with two adjacent
  fields, such as `%a%b`, or with a '%' in the literal text, such as
  `100% %a`, are outside what they state, although the regex of
  elktail.go:344 handles them.
- Only the first response of a multi-search is used, as in the code. A
  nil multi-search result is modelled as a `Failed` outcome.
- Query.Eval: the range filters are evaluated by byte-wise string order.
  The cluster compares them as dates, so the two differ for bounds written
  in other forms, such as `2016-06-17T15:00+02:00`, and for the cutoff the
  tailer writes itself with the `.999` layout, whose fraction varies in
  width. The timestamps the window compares (elktail.go:47-49) are
  compared as strings in the code too.
- Tailing.NotRequeried, Tailing.CoveredNotRequeried and
  Tailing.ForwardKeepsCovered assume that string order on the cutoff
  matches time order, as `Query.Eval` does. The `.999` layout of
  elktail.go:52 breaks this (`Stamps.TrimmedLayoutMisorders`,
  `Tailing.TrimmedCutoffRequeries`, `Tailing.ClockTrimmedRequeries`). The
  fixed `.000` layout restores it for instants inside the layout
  (`Stamps.FixedLayoutOrder`, `Tailing.FixedLayoutKeepsCovered`,
  `Tailing.ClockFixedKeepsCovered`).
- A follow-up search asks for at most 9000 hits (`FollowPageSize`), but
  which hits a search returns is given by the outcomes, so the entries
  lost beyond that size are not modelled.

## Findings

| source | as written | input that shows it | evidently intended | confidence | as-written member | corrected member |
|---|---|---|---|---|---|---|
| elktail.go:347-355 | each template token is replaced with `strings.Replace` over the whole, already partly substituted line, so a token that is a prefix of a later token rewrites the start of that token too | format `%a %ab`, document `{"a": "x", "ab": "y"}` prints `x xb` | every token is replaced by the value of its own field: `x y` | not executed | Document.ExamplePrintedAsWritten | Document.PrintResultSubstitutes |
| elktail.go:293-304 | the last timestamp becomes that of the last hit processed, even when that hit is older than the last timestamp already seen; the cutoff moves back with it | entries x@1000 and y@1600 shown with a 500 ms cutoff, so x is drained; a page holding only the late z@1200 sets the last timestamp to 1200 and the next follow-up query selects x again | the last timestamp only moves forward, so nothing shown is selected again | not executed | Tailing.LateHitRepeatsAsWritten | Tailing.ForwardKeepsCovered |
| elktail.go:303-304 | the cutoff is written with the layout `2006-01-02T15:04:05.999Z07:00`, whose fraction drops trailing zeros; the drain compares it with the window's timestamps as text, the cluster as a date | last timestamp `…:00.600Z` gives the cutoff `…:00.1Z`; the entry at `…:00.150Z` is below it as text ('5' < 'Z') and is drained, yet 150 ms is after 100 ms, so the next follow-up query selects it and it is shown again | a cutoff whose text orders as its time, such as the fixed `.000` fraction, so nothing shown is selected again | not executed | Tailing.ClockTrimmedRequeries | Tailing.FixedLayoutKeepsCovered |
| elktail.go:549-557 | saved terms are ANDed with the arguments only when more than one term is saved (`len(Terms) > 1`); a single saved term is discarded | saved terms `["error"]`, argument `timeout` runs the query `timeout` | the saved query ANDed with the arguments: `error AND timeout` | not executed | Setup.SingleStoredTermDropped | Setup.MergedQueryString |

The tail's display lines (`Tail.Line`) and its window step (`Advance`)
follow the code as written. `PrintResultAsWrittenSubstitutes` states
conditions under which the display as written is right: no field name of the
template is a proper prefix of another, and no field's value holds '%'. The
conditions are sufficient, not necessary: `%ab %a` also prints right,
because `%ab` is replaced before `%a`. `PrintResult` is
the corrected display line, with `PrintResultSubstitutes` and
`TokensOfRender` proved about it.
`AdvanceForward` is the corrected window step: with a cutoff that does not
move back, `ForwardKeepsCovered` keeps every shown entry in the
window or before the cutoff, and `CoveredNotRequeried` shows that such an
entry is not selected again. The tail's cutoff stays the parameter
`cutoffOf`; `FixedLayoutKeepsCovered` states that a cutoff written with a
fixed `.000` fraction meets what `ForwardKeepsCovered` asks of it, for
instants inside a layout of seconds, and `ClockFixedKeepsCovered` applies
it to a concrete layout and cutoff.
`MergeTerms` is the corrected merge.
