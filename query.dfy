/** The query algebra the tailer sends to the search engine, its meaning
    over a document, and the three query builders of elktail.go. */
module Query {
  import opened Wrappers
  import opened Strings
  import opened Configuration

  /** One end of a range: the value and whether the value itself is
      included. */
  datatype Bound = Bound(value: string, inclusive: bool)

  /** match_all, query_string, range, bool (filter / must_not) and ids. */
  datatype Query =
    | MatchAll
    | QueryString(text: string)
    | Range(field: string, lower: Option<Bound>, upper: Option<Bound>)
    | Bool(filter: seq<Query>, mustNot: seq<Query>)
    | Ids(ids: seq<string>)

  /** What a query is evaluated against: a document's id and the string
      values of its fields. Range filters are compared here as strings,
      in the order the window's drain uses, where the cluster compares
      dates. The two agree for timestamps written with a fixed-width
      fraction (`Stamps.FixedLayoutOrder`), but not for the cutoff the
      tailer writes with the `.999` layout
      (`Tailing.TrimmedCutoffRequeries`). */
  datatype SearchDoc = SearchDoc(id: string, fields: map<string, string>)

  predicate AboveLower(v: string, b: Option<Bound>)
  {
    b.Some? ==> (if b.value.inclusive then LessEq(b.value.value, v) else Less(b.value.value, v))
  }

  predicate BelowUpper(v: string, b: Option<Bound>)
  {
    b.Some? ==> (if b.value.inclusive then LessEq(v, b.value.value) else Less(v, b.value.value))
  }

  /** The documents a query selects. How free text matches a document is
      the search engine's business, given here as `textMatch`. */
  predicate Eval(q: Query, d: SearchDoc, textMatch: (string, SearchDoc) -> bool)
  {
    match q
    case MatchAll => true
    case QueryString(t) => textMatch(t, d)
    case Range(f, lo, hi) => f in d.fields && AboveLower(d.fields[f], lo) && BelowUpper(d.fields[f], hi)
    case Bool(filter, mustNot) =>
      (forall i :: 0 <= i < |filter| ==> Eval(filter[i], d, textMatch)) &&
      (forall i :: 0 <= i < |mustNot| ==> !Eval(mustNot[i], d, textMatch))
    case Ids(ids) => d.id in ids
  }

  /** A filter of two queries selects what both select. */
  lemma EvalFilterPair(a: Query, b: Query, d: SearchDoc, textMatch: (string, SearchDoc) -> bool)
    ensures Eval(Bool([a, b], []), d, textMatch) <==> Eval(a, d, textMatch) && Eval(b, d, textMatch)
  {
    var fs := [a, b];
    assert fs[0] == a && fs[1] == b;
    if Eval(a, d, textMatch) && Eval(b, d, textMatch) {
      forall i | 0 <= i < |fs| ensures Eval(fs[i], d, textMatch) {
        if i == 0 { } else { assert fs[i] == b; }
      }
    }
  }

  /** A filter with one exclusion selects what the filter selects and the
      exclusion does not. */
  lemma EvalFilterExcept(a: Query, c: Query, d: SearchDoc, textMatch: (string, SearchDoc) -> bool)
    ensures Eval(Bool([a], [c]), d, textMatch) <==> Eval(a, d, textMatch) && !Eval(c, d, textMatch)
  {
    var fs, ns := [a], [c];
    assert fs[0] == a && ns[0] == c;
  }

  // ---------------------------------------------------------------------
  // Builders (elktail.go:357-407)
  // ---------------------------------------------------------------------

  /** Range filter on the timestamp field: an inclusive lower bound from the
      "after" setting, an exclusive upper bound from the "before" setting. */
  function BuildDateTimeRangeQuery(qd: QueryDefinition): Query
  {
    Range(qd.timestampField,
          if qd.afterDateTime != "" then Some(Bound(qd.afterDateTime, true)) else None,
          if qd.beforeDateTime != "" then Some(Bound(qd.beforeDateTime, false)) else None)
  }

  /** Free-text query over the space-joined terms (match-all without terms),
      filtered by the date range when one is configured. */
  function BuildSearchQuery(qd: QueryDefinition): Query
  {
    var base := if |qd.terms| > 0 then QueryString(Join(qd.terms, " ")) else MatchAll;
    if qd.IsDateTimeFiltered() then Bool([base, BuildDateTimeRangeQuery(qd)], []) else base
  }

  /** Follow-up query: the search query, restricted to timestamps at or
      after `cutoff` and excluding the ids already shown. */
  function BuildTimestampFilteredQuery(qd: QueryDefinition, cutoff: string, shownIds: seq<string>): Query
  {
    var timeStampFilter := Range(qd.timestampField, Some(Bound(cutoff, true)), None);
    var filter := Bool([timeStampFilter], [Ids(shownIds)]);
    Bool([BuildSearchQuery(qd), filter], [])
  }

  // ---------------------------------------------------------------------
  // What the builders select
  // ---------------------------------------------------------------------

  /** The terms, if any, match the document. */
  predicate TermsMatch(qd: QueryDefinition, d: SearchDoc, textMatch: (string, SearchDoc) -> bool)
  {
    |qd.terms| > 0 ==> textMatch(Join(qd.terms, " "), d)
  }

  /** The document lies in the configured date window: at or after
      "after", strictly before "before". */
  predicate InDateWindow(qd: QueryDefinition, d: SearchDoc)
  {
    qd.IsDateTimeFiltered() ==>
      qd.timestampField in d.fields &&
      (qd.afterDateTime != "" ==> LessEq(qd.afterDateTime, d.fields[qd.timestampField])) &&
      (qd.beforeDateTime != "" ==> Less(d.fields[qd.timestampField], qd.beforeDateTime))
  }

  /** The search query selects exactly the documents that match the terms
      and lie in the date window; its shape is a bare text (or match-all)
      query unless a date bound is set. */
  lemma SearchQuerySelects(qd: QueryDefinition, d: SearchDoc, textMatch: (string, SearchDoc) -> bool)
    ensures Eval(BuildSearchQuery(qd), d, textMatch) <==> TermsMatch(qd, d, textMatch) && InDateWindow(qd, d)
    ensures BuildSearchQuery(qd).Bool? <==> qd.IsDateTimeFiltered()
    ensures BuildSearchQuery(qd).QueryString? <==> |qd.terms| > 0 && !qd.IsDateTimeFiltered()
  {
    var base := if |qd.terms| > 0 then QueryString(Join(qd.terms, " ")) else MatchAll;
    if qd.IsDateTimeFiltered() {
      var q := BuildSearchQuery(qd);
      EvalFilterPair(base, BuildDateTimeRangeQuery(qd), d, textMatch);
    }
  }

  /** The follow-up query selects exactly the documents the search query
      selects whose timestamp is at or after the cutoff and whose id has not
      been shown. */
  lemma FollowQuerySelects(qd: QueryDefinition, cutoff: string, shownIds: seq<string>,
                           d: SearchDoc, textMatch: (string, SearchDoc) -> bool)
    ensures Eval(BuildTimestampFilteredQuery(qd, cutoff, shownIds), d, textMatch) <==>
              Eval(BuildSearchQuery(qd), d, textMatch) &&
              qd.timestampField in d.fields && LessEq(cutoff, d.fields[qd.timestampField]) &&
              d.id !in shownIds
  {
    var q := BuildTimestampFilteredQuery(qd, cutoff, shownIds);
    var timeStampFilter := Range(qd.timestampField, Some(Bound(cutoff, true)), None);
    var filter := Bool([timeStampFilter], [Ids(shownIds)]);
    EvalFilterExcept(timeStampFilter, Ids(shownIds), d, textMatch);
    EvalFilterPair(BuildSearchQuery(qd), filter, d, textMatch);
  }
}
