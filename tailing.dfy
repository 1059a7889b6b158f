/** The tailer (elktail.go:29-49, 55-150, 190-342): the state a run
    keeps between polls, the processing of one page of hits, and the
    poll loop with its adaptive delay. Searching is modelled by the
    request each poll issues and the outcome the cluster answers with. */
module Tailing {
  import opened Wrappers
  import opened Strings
  import opened Configuration
  import opened Query
  import opened Document
  import opened Dedup
  import opened Setup
  import opened Stamps

  /** Page size of every follow-up query. */
  const FollowPageSize := 9000

  /** The poll delay starts at, and is reset to, this many milliseconds. */
  const InitialDelay := 500

  /** Every delay the poll loop can sleep for, in milliseconds. */
  const Delays: set<int> := {500, 1000, 1500, 2000, 2500}

  /** One search hit: its id, its source parsed as a document, and the
      source text as received. */
  datatype Hit = Hit(id: string, source: Doc, rawSource: string)

  /** The answer to one search: a page of hits and the total hit count,
      or a failure. */
  datatype SearchOutcome = Found(hits: seq<Hit>, totalHits: int) | Failed(message: string)

  /** One search request: indices, sort field and direction, page window
      and query. */
  datatype SearchRequest = SearchRequest(
    indices: seq<string>,
    sortField: string,
    ascending: bool,
    from: int,
    size: int,
    query: Query)

  /** The hit's source is an object whose timestamp field holds a string. */
  predicate HasTimeStamp(h: Hit, field: string)
  {
    h.source.Obj? && field in h.source.fields && h.source.fields[field].Str?
  }

  function TimeStampOf(h: Hit, field: string): string
    requires HasTimeStamp(h, field)
  {
    h.source.fields[field].s
  }

  predicate AllStamped(hits: seq<Hit>, field: string)
  {
    forall k :: 0 <= k < |hits| ==> HasTimeStamp(hits[k], field)
  }

  /** Every page the outcome carries has timestamps. */
  predicate OutcomeStamped(outcome: SearchOutcome, field: string)
  {
    outcome.Found? ==> AllStamped(outcome.hits, field)
  }

  predicate PagesStamped(outcomes: seq<SearchOutcome>, field: string)
  {
    forall k :: 0 <= k < |outcomes| ==> OutcomeStamped(outcomes[k], field)
  }

  function Reverse<T>(s: seq<T>): (r: seq<T>)
    ensures |r| == |s|
    ensures forall k :: 0 <= k < |s| ==> r[k] == s[|s| - 1 - k]
  {
    seq(|s|, k requires 0 <= k < |s| => s[|s| - 1 - k])
  }

  /** The order hits are shown in: as received when sorting ascending,
      reversed when sorting descending, so that the output runs forward
      in time either way. */
  function Ordered(hits: seq<Hit>, ascending: bool): seq<Hit>
  {
    if ascending then hits else Reverse(hits)
  }

  function EntryOf(h: Hit, field: string): DisplayedEntry
    requires HasTimeStamp(h, field)
  {
    DisplayedEntry(TimeStampOf(h, field), h.id)
  }

  /** The window entries a page of hits appends, in processing order. */
  function EntriesOf(hits: seq<Hit>, field: string): (r: seq<DisplayedEntry>)
    requires AllStamped(hits, field)
  {
    seq(|hits|, k requires 0 <= k < |hits| && AllStamped(hits, field) => EntryOf(hits[k], field))
  }

  /** The last timestamp after processing `hits` from `prev`: that of the
      final hit processed, or `prev` when there was none. */
  function LastStamp(prev: string, hits: seq<Hit>, field: string): string
    requires AllStamped(hits, field)
  {
    if |hits| == 0 then prev else TimeStampOf(hits[|hits| - 1], field)
  }

  /** The window step of processResults as written: the last timestamp
      becomes that of the final entry appended (it stays when nothing is
      appended), and the window with the new entries appended is drained
      against the cutoff of that timestamp. */
  function Advance(ts: string, window: seq<DisplayedEntry>, page: seq<DisplayedEntry>,
                   cutoffOf: string -> string): (string, seq<DisplayedEntry>)
  {
    var newTs := if |page| == 0 then ts else page[|page| - 1].timeStamp;
    (newTs, Drain(window + page, cutoffOf(newTs)))
  }

  /** The next delay: back to the initial delay after a poll that found
      something (unless already there), otherwise 500 ms longer, up to a
      ceiling. */
  function NextDelay(delay: int, totalHits: int): (r: int)
    ensures delay in Delays ==> r in Delays
    ensures delay in Delays && totalHits > 0 ==> r == (if delay == InitialDelay then 1000 else InitialDelay)
    ensures delay in Delays && totalHits <= 0 ==> r == (if delay == 2500 then 2500 else delay + 500)
  {
    if totalHits > 0 && delay > 500 then 500
    else if delay <= 2000 then delay + 500
    else delay
  }

  /** The total hit count an outcome reports (none for a failure). */
  function HitCount(outcome: SearchOutcome): int
  {
    if outcome.Found? then outcome.totalHits else 0
  }

  /** The sleeps before the first `n` polls of the follow loop, whose
      outcomes are `polls`: the initial delay, then each delay adapted to
      the total hits of the poll before it. */
  function DelaySchedule(polls: seq<SearchOutcome>, n: nat): (r: seq<int>)
    requires n <= |polls|
    ensures |r| == n
  {
    if n == 0 then []
    else if n == 1 then [InitialDelay]
    else
      var before := DelaySchedule(polls, n - 1);
      before + [NextDelay(before[n - 2], HitCount(polls[n - 2]))]
  }

  /** Every sleep is one of the five delays; the first is the initial
      delay; each later one follows from the one before and the hits found
      by the poll in between. */
  lemma {:induction false} DelayScheduleSpec(polls: seq<SearchOutcome>, n: nat)
    requires n <= |polls|
    ensures forall k :: 0 <= k < n ==> DelaySchedule(polls, n)[k] in Delays
    ensures n > 0 ==> DelaySchedule(polls, n)[0] == InitialDelay
    ensures forall k :: 0 < k < n ==>
              DelaySchedule(polls, n)[k] == NextDelay(DelaySchedule(polls, n)[k - 1], HitCount(polls[k - 1]))
  {
    if n > 1 {
      DelayScheduleSpec(polls, n - 1);
      var before := DelaySchedule(polls, n - 1);
      assert DelaySchedule(polls, n) == before + [NextDelay(before[n - 2], HitCount(polls[n - 2]))];
    }
  }

  /** The first `k` outcomes are all pages of hits. */
  predicate FoundBefore(outcomes: seq<SearchOutcome>, k: nat)
    requires k <= |outcomes|
  {
    forall j :: 0 <= j < k ==> outcomes[j].Found?
  }

  lemma FoundBeforeStep(outcomes: seq<SearchOutcome>, k: nat)
    requires k < |outcomes| && FoundBefore(outcomes, k) && outcomes[k].Found?
    ensures FoundBefore(outcomes, k + 1)
  {
  }

  lemma HitCountFound(outcome: SearchOutcome)
    requires outcome.Found?
    ensures HitCount(outcome) == outcome.totalHits
  {
  }

  lemma FoundBeforePrefix(outcomes: seq<SearchOutcome>, k: nat, j: nat)
    requires j <= k <= |outcomes| && FoundBefore(outcomes, k)
    ensures FoundBefore(outcomes, j)
    ensures j < k ==> outcomes[j].Found?
  {
  }

  /** The schedule one poll later: the delay slept before poll `k`,
      adapted to that poll's hits, is appended. */
  lemma ScheduleStep(polls: seq<SearchOutcome>, k: nat, delays: seq<int>, delay: int)
    requires k + 1 < |polls|
    requires delays + [delay] == DelaySchedule(polls, k + 1)
    ensures delays + [delay] + [NextDelay(delay, HitCount(polls[k]))] == DelaySchedule(polls, k + 2)
  {
    assert DelaySchedule(polls, k + 1)[k] == delay;
  }

  lemma EntriesSnoc(hits: seq<Hit>, field: string, i: nat)
    requires AllStamped(hits, field) && i < |hits|
    ensures AllStamped(hits[..i], field) && AllStamped(hits[..i + 1], field)
    ensures EntriesOf(hits[..i + 1], field) == EntriesOf(hits[..i], field) + [EntryOf(hits[i], field)]
  {
    assert hits[..i + 1] == hits[..i] + [hits[i]];
  }

  lemma ReverseStamped(hits: seq<Hit>, field: string)
    requires AllStamped(hits, field)
    ensures AllStamped(Reverse(hits), field)
  {
  }

  // ---------------------------------------------------------------------
  // Properties of one processed page
  // ---------------------------------------------------------------------

  /** No duplicates: an entry of the window the follow-up query is built
      from is never selected again, whether it is still in the window
      after the drain (its id is excluded) or was drained (its timestamp
      is before the cutoff). */
  lemma NotRequeried(qd: QueryDefinition, window: seq<DisplayedEntry>, cutoff: string, k: nat,
                     d: SearchDoc, textMatch: (string, SearchDoc) -> bool)
    requires k < |window|
    requires d.id == window[k].id
    requires qd.timestampField in d.fields && d.fields[qd.timestampField] == window[k].timeStamp
    ensures !Eval(BuildTimestampFilteredQuery(qd, cutoff, IdsOf(Drain(window, cutoff))), d, textMatch)
  {
    var kept := Drain(window, cutoff);
    var n := DrainCount(window, cutoff);
    FollowQuerySelects(qd, cutoff, IdsOf(kept), d, textMatch);
    DrainSpec(window, cutoff);
    if window[k].IsBefore(cutoff) {
      LessAsymmetric(window[k].timeStamp, cutoff);
      LessIrreflexive(cutoff);
    } else {
      assert n <= k;
      assert kept[k - n] == window[k];
      assert IdsOf(kept)[k - n] == d.id;
    }
  }

  /** A page sorted newest first is shown oldest first, its entries enter
      the window in time order, and the last timestamp becomes that of the
      newest hit, which is at or after every hit of the page. */
  lemma DescendingPage(prev: string, hits: seq<Hit>, field: string)
    requires AllStamped(hits, field) && |hits| > 0
    requires forall i, j :: 0 <= i < j < |hits| ==> LessEq(TimeStampOf(hits[j], field), TimeStampOf(hits[i], field))
    ensures AllStamped(Ordered(hits, false), field)
    ensures Chronological(EntriesOf(Ordered(hits, false), field))
    ensures LastStamp(prev, Ordered(hits, false), field) == TimeStampOf(hits[0], field)
    ensures forall k :: 0 <= k < |hits| ==> LessEq(TimeStampOf(hits[k], field), LastStamp(prev, Ordered(hits, false), field))
  {
    var r := Reverse(hits);
    ReverseStamped(hits, field);
    var e := EntriesOf(r, field);
    forall i, j | 0 <= i < j < |e| ensures LessEq(e[i].timeStamp, e[j].timeStamp) {
      assert e[i].timeStamp == TimeStampOf(hits[|hits| - 1 - i], field);
      assert e[j].timeStamp == TimeStampOf(hits[|hits| - 1 - j], field);
    }
    forall k | 0 < k < |hits| ensures LessEq(TimeStampOf(hits[k], field), TimeStampOf(hits[0], field)) {
    }
  }

  /** After a non-empty page, the window ends with the entry of the final
      hit shown, whose timestamp is the new last timestamp. */
  lemma WindowEndsWithLastShown(prevIds: seq<DisplayedEntry>, prev: string, hits: seq<Hit>,
                                field: string, cutoff: string)
    requires AllStamped(hits, field) && |hits| > 0
    ensures var w := Drain(prevIds + EntriesOf(hits, field), cutoff);
            && |w| > 0
            && w[|w| - 1] == EntryOf(hits[|hits| - 1], field)
            && w[|w| - 1].timeStamp == LastStamp(prev, hits, field)
  {
    var all := prevIds + EntriesOf(hits, field);
    DrainKeepsLast(all, cutoff);
    assert all[|all| - 1] == EntriesOf(hits, field)[|hits| - 1];
  }

  /** Under a steady stream of hits the delay alternates between 500 and
      1000 ms; with no hits it climbs to 2500 ms and stays there. */
  lemma DelayCourse()
    ensures NextDelay(InitialDelay, 1) == 1000 && NextDelay(1000, 1) == InitialDelay
    ensures NextDelay(NextDelay(NextDelay(NextDelay(InitialDelay, 0), 0), 0), 0) == 2500
    ensures NextDelay(2500, 0) == 2500
  {
  }


  // ---------------------------------------------------------------------
  // A late hit moves the last timestamp back
  // ---------------------------------------------------------------------

  /** As written, a page holding only a hit that arrived late moves the
      last timestamp back, and an entry drained earlier is selected again.
      With a cutoff 500 ms before its argument: x@1000 and y@1600 are
      shown and x is drained (1000 is before 1100); the late z@1200 then
      makes 1200 the last timestamp, the cutoff falls to 0700, and the
      next follow-up query selects x, which is shown a second time. The
      window that only moves forward keeps 1600. */
  lemma LateHitRepeatsAsWritten(cutoffOf: string -> string, textMatch: (string, SearchDoc) -> bool)
    requires cutoffOf("1600") == "1100" && cutoffOf("1200") == "0700"
    ensures var x, y, z := DisplayedEntry("1000", "x"), DisplayedEntry("1600", "y"), DisplayedEntry("1200", "z");
            && Advance("", [], [x, y], cutoffOf) == ("1600", [y])
            && Advance("1600", [y], [z], cutoffOf) == ("1200", [y, z])
            && Eval(BuildTimestampFilteredQuery(QueryDefinition([], "ts", "", "", ""), cutoffOf("1200"), IdsOf([y, z])),
                    SearchDoc("x", map["ts" := "1000"]), textMatch)
            && AdvanceForward("1600", [y], [z], cutoffOf) == ("1600", [y, z])
  {
    var x, y, z := DisplayedEntry("1000", "x"), DisplayedEntry("1600", "y"), DisplayedEntry("1200", "z");
    LateHitDrains(x, y);
    LateHitKept(y, z);
    LateHitSelected(y, z, textMatch);
    assert Less("1200", "1600");
    LessAsymmetric("1200", "1600");
  }

  lemma LateHitDrains(x: DisplayedEntry, y: DisplayedEntry)
    requires x == DisplayedEntry("1000", "x") && y == DisplayedEntry("1600", "y")
    ensures Drain([] + [x, y], "1100") == [y]
  {
    assert x.IsBefore("1100");
    assert [] + [x, y] == [x, y] && [x, y][1..] == [y];
  }

  lemma LateHitKept(y: DisplayedEntry, z: DisplayedEntry)
    requires y == DisplayedEntry("1600", "y") && z == DisplayedEntry("1200", "z")
    ensures Drain([y] + [z], "0700") == [y, z]
  {
    assert !y.IsBefore("0700");
    assert [y] + [z] == [y, z];
  }

  lemma LateHitSelected(y: DisplayedEntry, z: DisplayedEntry, textMatch: (string, SearchDoc) -> bool)
    requires y == DisplayedEntry("1600", "y") && z == DisplayedEntry("1200", "z")
    ensures Eval(BuildTimestampFilteredQuery(QueryDefinition([], "ts", "", "", ""), "0700", IdsOf([y, z])),
                 SearchDoc("x", map["ts" := "1000"]), textMatch)
  {
    var qd := QueryDefinition([], "ts", "", "", "");
    var d := SearchDoc("x", map["ts" := "1000"]);
    FollowQuerySelects(qd, "0700", IdsOf([y, z]), d, textMatch);
    assert LessEq("0700", "1000");
    assert IdsOf([y, z]) == ["y", "z"];
  }

  /** The window step with the last timestamp moving forward only: a hit
      older than the last timestamp joins the window but does not set the
      cutoff back. */
  function AdvanceForward(ts: string, window: seq<DisplayedEntry>, page: seq<DisplayedEntry>,
                          cutoffOf: string -> string): (r: (string, seq<DisplayedEntry>))
    ensures LessEq(ts, r.0)
    ensures |page| > 0 ==> LessEq(page[|page| - 1].timeStamp, r.0)
  {
    var newTs := if |page| > 0 && Less(ts, page[|page| - 1].timeStamp) then page[|page| - 1].timeStamp else ts;
    LessTotalOn(ts, page);
    (newTs, Drain(window + page, cutoffOf(newTs)))
  }

  lemma LessTotalOn(ts: string, page: seq<DisplayedEntry>)
    ensures |page| > 0 && !Less(ts, page[|page| - 1].timeStamp) ==> LessEq(page[|page| - 1].timeStamp, ts)
  {
    if |page| > 0 {
      LessTotal(ts, page[|page| - 1].timeStamp);
    }
  }

  /** Every entry shown so far is either still in the window or before the
      cutoff of the last timestamp. */
  predicate Covered(shown: seq<DisplayedEntry>, ts: string, window: seq<DisplayedEntry>, cutoffOf: string -> string)
  {
    forall k :: 0 <= k < |shown| ==> shown[k] in window || shown[k].IsBefore(cutoffOf(ts))
  }

  /** With the forward-only window, everything shown stays covered after
      every page, provided the cutoff does not move back across the step
      (nothing is needed of the first page, when nothing was shown). */
  lemma ForwardKeepsCovered(shown: seq<DisplayedEntry>, ts: string, window: seq<DisplayedEntry>,
                            page: seq<DisplayedEntry>, cutoffOf: string -> string)
    requires |shown| > 0 ==> LessEq(cutoffOf(ts), cutoffOf(AdvanceForward(ts, window, page, cutoffOf).0))
    requires Covered(shown, ts, window, cutoffOf)
    ensures var w := AdvanceForward(ts, window, page, cutoffOf); Covered(shown + page, w.0, w.1, cutoffOf)
  {
    var w := AdvanceForward(ts, window, page, cutoffOf);
    var all := window + page;
    var n := DrainCount(all, cutoffOf(w.0));
    DrainSpec(all, cutoffOf(w.0));
    forall k | 0 <= k < |shown + page|
      ensures (shown + page)[k] in w.1 || (shown + page)[k].IsBefore(cutoffOf(w.0))
    {
      var e := (shown + page)[k];
      if k >= |shown| || e in window {
        var j: int;
        if k >= |shown| {
          j := |window| + (k - |shown|);
        } else {
          j :| 0 <= j < |window| && window[j] == e;
        }
        assert all[j] == e;
        if j >= n {
          assert w.1[j - n] == e;
        }
      } else {
        assert e == shown[k];
        BeforeLater(e.timeStamp, cutoffOf(ts), cutoffOf(w.0));
      }
    }
  }

  /** With timestamps and the cutoff written in the fixed layout, the
      forward-only step keeps the later of the two instants and keeps
      everything shown covered, page after page. */
  lemma FixedLayoutKeepsCovered(secText: int -> string, horizon: nat, cutoffOf: string -> string,
                                shown: seq<DisplayedEntry>, ts: int, window: seq<DisplayedEntry>,
                                page: seq<DisplayedEntry>, times: seq<int>)
    requires FixedLayoutCutoff(cutoffOf, secText, horizon)
    requires TailingTimeWindow <= ts < horizon * 1000
    requires |times| == |page|
    requires forall i :: 0 <= i < |page| ==>
               TailingTimeWindow <= times[i] < horizon * 1000 && page[i].timeStamp == FormatFixed(secText, times[i])
    requires Covered(shown, FormatFixed(secText, ts), window, cutoffOf)
    ensures var w := AdvanceForward(FormatFixed(secText, ts), window, page, cutoffOf);
            && w.0 == FormatFixed(secText, if |page| > 0 && ts < times[|page| - 1] then times[|page| - 1] else ts)
            && Covered(shown + page, w.0, w.1, cutoffOf)
  {
    var later := if |page| > 0 && ts < times[|page| - 1] then times[|page| - 1] else ts;
    if |page| > 0 {
      FixedLayoutOrder(secText, horizon, ts, times[|page| - 1]);
    }
    var w := AdvanceForward(FormatFixed(secText, ts), window, page, cutoffOf);
    assert w.0 == FormatFixed(secText, later);
    FixedCutoffGrows(secText, horizon, ts, later);
    assert cutoffOf(FormatFixed(secText, ts)) == FormatFixed(secText, ts - TailingTimeWindow);
    assert cutoffOf(FormatFixed(secText, later)) == FormatFixed(secText, later - TailingTimeWindow);
    ForwardKeepsCovered(shown, FormatFixed(secText, ts), window, page, cutoffOf);
  }

  /** As written, the cutoff is written with the `.999` layout, which the
      drain compares as text and the cluster as a date. An entry e at
      150 ms and l at 600 ms into the same second are shown; the cutoff
      ".1Z" (100 ms) is above e's ".150Z" as text, so e is drained. The
      cluster reads the cutoff as 100 ms, which is before 150 ms (the
      fixed layout writes both instants so that text order is time
      order), and e's id is no longer excluded, so the next follow-up
      query selects e again. Against the fixed-layout cutoff, e stays. */
  lemma TrimmedCutoffRequeries(secText: int -> string, cutoffOf: string -> string,
                               textMatch: (string, SearchDoc) -> bool)
    requires cutoffOf(FormatFixed(secText, 600)) == FormatTrimmed(secText, 600 - TailingTimeWindow)
    ensures var e, l := DisplayedEntry(FormatFixed(secText, 150), "e"), DisplayedEntry(FormatFixed(secText, 600), "l");
            && Advance("", [], [e, l], cutoffOf) == (FormatFixed(secText, 600), [l])
            && Eval(BuildTimestampFilteredQuery(QueryDefinition([], "ts", "", "", ""), FormatFixed(secText, 600 - TailingTimeWindow), IdsOf([l])),
                    SearchDoc("e", map["ts" := FormatFixed(secText, 150)]), textMatch)
            && Drain([e, l], FormatFixed(secText, 600 - TailingTimeWindow)) == [e, l]
  {
    var e, l := DisplayedEntry(FormatFixed(secText, 150), "e"), DisplayedEntry(FormatFixed(secText, 600), "l");
    TrimmedLayoutMisorders(secText);
    assert [] + [e, l] == [e, l] && [e, l][1..] == [l];
    assert Drain([e, l], cutoffOf(FormatFixed(secText, 600))) == [l];
    FixedWithinSecond(secText, 100, 150);
    assert !e.IsBefore(FormatFixed(secText, 100));
    var qd := QueryDefinition([], "ts", "", "", "");
    var d := SearchDoc("e", map["ts" := FormatFixed(secText, 150)]);
    FollowQuerySelects(qd, FormatFixed(secText, 100), IdsOf([l]), d, textMatch);
    assert IdsOf([l]) == ["l"];
  }

  /** On the ten-second clock, the code's `.999` cutoff drains the entry
      at 150 ms against the last timestamp at 600 ms, and the follow-up
      query still selects it. */
  lemma ClockTrimmedRequeries(textMatch: (string, SearchDoc) -> bool)
    ensures var e, l := DisplayedEntry(FormatFixed(ClockText, 150), "e"), DisplayedEntry(FormatFixed(ClockText, 600), "l");
            && Advance("", [], [e, l], ClockCutoffTrimmed) == (FormatFixed(ClockText, 600), [l])
            && Eval(BuildTimestampFilteredQuery(QueryDefinition([], "ts", "", "", ""), FormatFixed(ClockText, 100), IdsOf([l])),
                    SearchDoc("e", map["ts" := FormatFixed(ClockText, 150)]), textMatch)
  {
    ClockReadsBack(600);
    TrimmedCutoffRequeries(ClockText, ClockCutoffTrimmed, textMatch);
  }

  /** On the ten-second clock, with the fixed cutoff: e@150 and l@600 are
      shown and both stay in the window; a page with m@1200 then moves the
      last timestamp to 1200, and all three shown entries stay covered. */
  lemma ClockFixedKeepsCovered()
    ensures var e, l, m := DisplayedEntry(FormatFixed(ClockText, 150), "e"), DisplayedEntry(FormatFixed(ClockText, 600), "l"),
                           DisplayedEntry(FormatFixed(ClockText, 1200), "m");
            var w := AdvanceForward(FormatFixed(ClockText, 600), [e, l], [m], ClockCutoffFixed);
            && w.0 == FormatFixed(ClockText, 1200)
            && Covered([e, l, m], w.0, w.1, ClockCutoffFixed)
  {
    var e, l, m := DisplayedEntry(FormatFixed(ClockText, 150), "e"), DisplayedEntry(FormatFixed(ClockText, 600), "l"),
                   DisplayedEntry(FormatFixed(ClockText, 1200), "m");
    ClockCutoffIsFixed();
    assert Covered([e, l], FormatFixed(ClockText, 600), [e, l], ClockCutoffFixed);
    FixedLayoutKeepsCovered(ClockText, 10, ClockCutoffFixed, [e, l], 600, [e, l], [m], [1200]);
    assert [e, l] + [m] == [e, l, m];
  }

  lemma BeforeLater(a: string, b: string, c: string)
    requires Less(a, b) && LessEq(b, c)
    ensures Less(a, c)
  {
    if b != c {
      LessTransitive(a, b, c);
    }
  }

  /** No entry shown so far and covered by the window is selected by the
      follow-up query built from that window. */
  lemma CoveredNotRequeried(qd: QueryDefinition, shown: seq<DisplayedEntry>, ts: string,
                            window: seq<DisplayedEntry>, cutoffOf: string -> string, k: nat,
                            d: SearchDoc, textMatch: (string, SearchDoc) -> bool)
    requires Covered(shown, ts, window, cutoffOf) && k < |shown|
    requires d.id == shown[k].id
    requires qd.timestampField in d.fields && d.fields[qd.timestampField] == shown[k].timeStamp
    ensures !Eval(BuildTimestampFilteredQuery(qd, cutoffOf(ts), IdsOf(window)), d, textMatch)
  {
    FollowQuerySelects(qd, cutoffOf(ts), IdsOf(window), d, textMatch);
    if shown[k] in window {
      var j :| 0 <= j < |window| && window[j] == shown[k];
      assert IdsOf(window)[j] == d.id;
    } else {
      LessAsymmetric(shown[k].timeStamp, cutoffOf(ts));
      LessIrreflexive(cutoffOf(ts));
    }
  }

  /** What a run has shown and kept: the last timestamp, the window and
      the lines printed. */
  datatype TailState = TailState(lastTimeStamp: string, lastIDs: seq<DisplayedEntry>, output: seq<string>)

  /** The tailer. `cutoffOf(t)` is the text of the timestamp 500
      milliseconds before `t`, as the code writes it (for a timestamp in
      the cluster's format, `FormatTrimmed` of the earlier instant), and `show` the default
      rendering of a document value; both are given by the caller.
      `output` collects the lines printed. */
  class Tail {
    const clientUrl: string
    const queryDefinition: QueryDefinition
    const order: bool
    const raw: bool
    const cutoffOf: string -> string
    const show: Doc -> string
    var indices: seq<string>
    var lastTimeStamp: string
    var lastIDs: seq<DisplayedEntry>
    var output: seq<string>

    /** NewTail: the client address (the tunnel's when one is up, else the
        normalised URL), the query, the raw switch, the index pattern as
        the only index, and ascending order exactly when the query has a
        start date. */
    constructor NewTail(config: Config, cutoffOf: string -> string, show: Doc -> string)
      ensures clientUrl == ClientUrl(config.searchTarget)
      ensures queryDefinition == config.queryDefinition && raw == config.raw
      ensures indices == [config.searchTarget.indexPattern]
      ensures order <==> config.queryDefinition.afterDateTime != ""
      ensures !config.IsListOnly() ==> !order
      ensures lastTimeStamp == "" && lastIDs == [] && output == []
      ensures this.cutoffOf == cutoffOf && this.show == show
    {
      clientUrl := ClientUrl(config.searchTarget);
      queryDefinition := config.queryDefinition;
      raw := config.raw;
      indices := [config.searchTarget.indexPattern];
      order := config.queryDefinition.afterDateTime != "";
      this.cutoffOf := cutoffOf;
      this.show := show;
      lastTimeStamp := "";
      lastIDs := [];
      output := [];
    }

    /** The line printed for a hit: its raw source, or the format
        template filled in from its fields as printResult does it. */
    function Line(h: Hit): string
    {
      if raw then h.rawSource else PrintResultAsWritten(queryDefinition.format, h.source, show)
    }

    function LinesOf(hits: seq<Hit>): (r: seq<string>)
      ensures |r| == |hits|
      ensures forall k :: 0 <= k < |hits| ==> r[k] == Line(hits[k])
    {
      seq(|hits|, k requires 0 <= k < |hits| => Line(hits[k]))
    }

    function State(): TailState
      reads this`lastTimeStamp, this`lastIDs, this`output
    {
      TailState(lastTimeStamp, lastIDs, output)
    }

    /** The window holds nothing a further drain would remove. */
    predicate Settled()
      reads this`lastIDs, this`lastTimeStamp
    {
      DrainCount(lastIDs, cutoffOf(lastTimeStamp)) == 0
    }

    /** initialSearch: the search query, sorted by timestamp in the
        tailer's order, first `n` hits. */
    function InitialRequest(idx: seq<string>, n: int): SearchRequest
    {
      SearchRequest(idx, queryDefinition.timestampField, order, 0, n, BuildSearchQuery(queryDefinition))
    }

    /** The follow-up search from state `s`: newest first, at most 9000
        hits, from the cutoff of the last timestamp on, without the ids in
        the window. */
    function FollowRequest(idx: seq<string>, s: TailState): SearchRequest
    {
      SearchRequest(idx, queryDefinition.timestampField, false, 0, FollowPageSize,
                    BuildTimestampFilteredQuery(queryDefinition, cutoffOf(s.lastTimeStamp), IdsOf(s.lastIDs)))
    }

    /** The search a poll issues from state `s`: the follow-up search once
        a timestamp is known, the initial search while none is. */
    function RequestFor(idx: seq<string>, s: TailState, n: int): SearchRequest
    {
      if s.lastTimeStamp != "" then FollowRequest(idx, s) else InitialRequest(idx, n)
    }

    /** The state after processing the page `hits` from `s`: the hits are
        shown oldest first, and the window advances by one entry per hit,
        in that order. */
    function AfterPage(s: TailState, hits: seq<Hit>): TailState
      requires AllStamped(hits, queryDefinition.timestampField)
    {
      var field := queryDefinition.timestampField;
      ReverseStamped(hits, field);
      var hs := Ordered(hits, order);
      var w := Advance(s.lastTimeStamp, s.lastIDs, EntriesOf(hs, field), cutoffOf);
      TailState(w.0, w.1, s.output + LinesOf(hs))
    }

    /** The page step spelled out on the three parts of the state. */
    lemma AfterPageParts(s: TailState, hits: seq<Hit>)
      requires AllStamped(hits, queryDefinition.timestampField)
      ensures AllStamped(Ordered(hits, order), queryDefinition.timestampField)
      ensures var field := queryDefinition.timestampField;
              var hs := Ordered(hits, order);
              var ts := LastStamp(s.lastTimeStamp, hs, field);
              AfterPage(s, hits) == TailState(ts, Drain(s.lastIDs + EntriesOf(hs, field), cutoffOf(ts)), s.output + LinesOf(hs))
    {
      ReverseStamped(hits, queryDefinition.timestampField);
    }

    /** What one search outcome does to the state: its page of hits is
        processed; a failed search changes nothing. */
    function PageEffect(s: TailState, outcome: SearchOutcome): TailState
    {
      if outcome.Found? && AllStamped(outcome.hits, queryDefinition.timestampField)
      then AfterPage(s, outcome.hits) else s
    }

    /** The state after the first `n` outcomes of `pages`, starting from `s`. */
    function Run(s: TailState, pages: seq<SearchOutcome>, n: nat): TailState
      requires n <= |pages|
      decreases n
    {
      if n == 0 then s else PageEffect(Run(s, pages, n - 1), pages[n - 1])
    }

    /** Running the outcomes after the first from the state the first one
        leaves is running all of them. */
    lemma {:induction false} RunShift(s: TailState, pages: seq<SearchOutcome>, n: nat)
      requires n < |pages|
      ensures Run(PageEffect(s, pages[0]), pages[1..], n) == Run(s, pages, n + 1)
      decreases n
    {
      hide AfterPage;
      if n > 0 {
        RunShift(s, pages, n - 1);
        assert pages[1..][n - 1] == pages[n];
      }
    }

    /** Request `k` (from `from` on) is the one issued from the state
        after the first `k` outcomes. */
    predicate IssuedFrom(idx: seq<string>, requests: seq<SearchRequest>, start: TailState,
                         pages: seq<SearchOutcome>, from: nat, n: int)
      requires |requests| <= |pages|
    {
      forall k :: from <= k < |requests| ==> requests[k] == RequestFor(idx, Run(start, pages, k), n)
    }

    lemma IssuedStep(idx: seq<string>, requests: seq<SearchRequest>, start: TailState,
                     pages: seq<SearchOutcome>, n: int)
      requires |requests| < |pages|
      requires IssuedFrom(idx, requests, start, pages, 0, n)
      ensures IssuedFrom(idx, requests + [RequestFor(idx, Run(start, pages, |requests|), n)], start, pages, 0, n)
    {
      hide AfterPage;
      var r := RequestFor(idx, Run(start, pages, |requests|), n);
      var all := requests + [r];
      forall k | 0 <= k < |all| ensures all[k] == RequestFor(idx, Run(start, pages, k), n) {
        if k < |requests| {
          assert all[k] == requests[k];
        }
      }
    }

    /** The loop body of processResults for one hit: print it, take its
        timestamp as the last one, and append it to the window. */
    method Record(hit: Hit)
      requires HasTimeStamp(hit, queryDefinition.timestampField)
      modifies this`lastTimeStamp, this`lastIDs, this`output
      ensures output == old(output) + [Line(hit)]
      ensures lastTimeStamp == TimeStampOf(hit, queryDefinition.timestampField)
      ensures lastIDs == old(lastIDs) + [EntryOf(hit, queryDefinition.timestampField)]
    {
      output := output + [Line(hit)];
      var timeStamp := TimeStampOf(hit, queryDefinition.timestampField);
      if timeStamp != lastTimeStamp {
        lastTimeStamp := timeStamp;
      }
      lastIDs := lastIDs + [DisplayedEntry(timeStamp, hit.id)];
    }

    lemma LinesSnoc(hits: seq<Hit>, i: nat)
      requires i < |hits|
      ensures LinesOf(hits[..i + 1]) == LinesOf(hits[..i]) + [Line(hits[i])]
    {
      assert hits[..i + 1] == hits[..i] + [hits[i]];
    }

    /** The ascending loop of processResults: the hits in the order
        received. */
    method RecordForward(hits: seq<Hit>)
      requires AllStamped(hits, queryDefinition.timestampField)
      modifies this`lastTimeStamp, this`lastIDs, this`output
      ensures lastTimeStamp == LastStamp(old(lastTimeStamp), hits, queryDefinition.timestampField)
      ensures lastIDs == old(lastIDs) + EntriesOf(hits, queryDefinition.timestampField)
      ensures output == old(output) + LinesOf(hits)
    {
      ghost var field := queryDefinition.timestampField;
      var i := 0;
      while i < |hits|
        invariant 0 <= i <= |hits|
        invariant lastIDs == old(lastIDs) + EntriesOf(hits[..i], field)
        invariant output == old(output) + LinesOf(hits[..i])
        invariant lastTimeStamp == LastStamp(old(lastTimeStamp), hits[..i], field)
      {
        EntriesSnoc(hits, field, i);
        LinesSnoc(hits, i);
        Record(hits[i]);
        i := i + 1;
      }
      assert hits[..i] == hits;
    }

    /** The descending loop of processResults: the hits from the last
        received to the first. */
    method RecordBackward(hits: seq<Hit>)
      requires AllStamped(hits, queryDefinition.timestampField)
      modifies this`lastTimeStamp, this`lastIDs, this`output
      ensures AllStamped(Reverse(hits), queryDefinition.timestampField)
      ensures lastTimeStamp == LastStamp(old(lastTimeStamp), Reverse(hits), queryDefinition.timestampField)
      ensures lastIDs == old(lastIDs) + EntriesOf(Reverse(hits), queryDefinition.timestampField)
      ensures output == old(output) + LinesOf(Reverse(hits))
    {
      ghost var field := queryDefinition.timestampField;
      ghost var hs := Reverse(hits);
      ReverseStamped(hits, field);
      var i := |hits| - 1;
      while i >= 0
        invariant -1 <= i < |hits|
        invariant lastIDs == old(lastIDs) + EntriesOf(hs[..|hits| - 1 - i], field)
        invariant output == old(output) + LinesOf(hs[..|hits| - 1 - i])
        invariant lastTimeStamp == LastStamp(old(lastTimeStamp), hs[..|hits| - 1 - i], field)
      {
        ghost var j := |hits| - 1 - i;
        assert hs[j] == hits[i];
        EntriesSnoc(hs, field, j);
        LinesSnoc(hs, j);
        Record(hits[i]);
        i := i - 1;
      }
      assert hs[..|hits|] == hs;
    }

    /** processResults: show the hits oldest first, append each to the
        window and track the last timestamp, then drain the window
        against the cutoff of the last timestamp. */
    method ProcessResults(hits: seq<Hit>)
      requires AllStamped(hits, queryDefinition.timestampField)
      modifies this`lastTimeStamp, this`lastIDs, this`output
      ensures State() == AfterPage(old(State()), hits)
      ensures Settled()
      ensures hits == [] && old(Settled()) ==> lastIDs == old(lastIDs)
    {
      hide AfterPage;
      if order {
        RecordForward(hits);
      } else {
        RecordBackward(hits);
      }
      var cutoffTime := cutoffOf(lastTimeStamp);
      ghost var appended := lastIDs;
      lastIDs := DrainOldEntries(lastIDs, cutoffTime);
      DrainIdempotent(appended, cutoffTime);
      AfterPageParts(old(State()), hits);
    }

    /** One poll of the follow loop (after its sleep): the follow-up
        search once a timestamp is known, the initial search again while
        none is; a failed search aborts the run and leaves the state as it
        was; otherwise the page is processed and the next delay chosen. */
    method Poll(initialEntries: int, outcome: SearchOutcome, delay: int)
      returns (request: SearchRequest, failed: bool, next: int)
      requires OutcomeStamped(outcome, queryDefinition.timestampField)
      modifies this`lastTimeStamp, this`lastIDs, this`output
      ensures request == RequestFor(indices, old(State()), initialEntries)
      ensures failed <==> outcome.Failed?
      ensures failed ==> State() == old(State())
      ensures !failed ==> next == NextDelay(delay, outcome.totalHits)
      ensures !failed ==> State() == AfterPage(old(State()), outcome.hits)
      ensures !failed ==> Settled()
    {
      if lastTimeStamp != "" {
        request := FollowRequest(indices, State());
      } else {
        request := InitialRequest(indices, initialEntries);
      }
      if outcome.Failed? {
        return request, true, delay;
      }
      ProcessResults(outcome.hits);
      failed := false;
      next := NextDelay(delay, outcome.totalHits);
    }

    /** `requests` are the first `m` searches of a run from `start` over
        `polls`, each the one its state calls for, and `st` is the state
        those polls lead to. */
    predicate Polled(idx: seq<string>, start: TailState, polls: seq<SearchOutcome>, m: nat,
                     requests: seq<SearchRequest>, st: TailState, n: int)
    {
      m <= |polls| && |requests| == m && IssuedFrom(idx, requests, start, polls, 0, n) && st == Run(start, polls, m)
    }

    lemma PolledFacts(idx: seq<string>, start: TailState, polls: seq<SearchOutcome>, m: nat,
                      requests: seq<SearchRequest>, st: TailState, n: int)
      requires Polled(idx, start, polls, m, requests, st, n)
      ensures m <= |polls| && |requests| == m
      ensures IssuedFrom(idx, requests, start, polls, 0, n) && st == Run(start, polls, m)
    {
    }

    /** One more poll: its search is the one the current state calls for,
        and the state after it is as before when the search failed, or has
        its page processed. */
    lemma PolledStep(idx: seq<string>, start: TailState, polls: seq<SearchOutcome>, k: nat,
                     requests: seq<SearchRequest>, before: TailState, after: TailState, n: int)
      requires Polled(idx, start, polls, k, requests, before, n) && k < |polls|
      requires OutcomeStamped(polls[k], queryDefinition.timestampField)
      requires polls[k].Failed? ==> after == before
      requires polls[k].Found? ==> after == AfterPage(before, polls[k].hits)
      ensures Polled(idx, start, polls, k + 1, requests + [RequestFor(idx, before, n)], after, n)
    {
      hide AfterPage;
      IssuedStep(idx, requests, start, polls, n);
    }

    /** What the follow loop knows before its first poll. */
    lemma FollowEntry(idx: seq<string>, start: TailState, polls: seq<SearchOutcome>, n: int)
      requires PagesStamped(polls, queryDefinition.timestampField)
      ensures Polled(idx, start, polls, 0, [], start, n)
      ensures FoundBefore(polls, 0)
      ensures |polls| > 0 ==> [] + [InitialDelay] == DelaySchedule(polls, 1)
      ensures DelaySchedule(polls, 0) == []
      ensures forall j :: 0 <= j < |polls| ==> OutcomeStamped(polls[j], queryDefinition.timestampField)
    {
    }

    /** The follow loop of Start: before each poll, sleep for the current
        delay; a failed search ends the loop. `polls` are the outcomes of
        the searches it issues; each search is the one the state left by
        the outcomes before it calls for, and the run ends in the state
        those outcomes lead to. */
    method Follow(initialEntries: int, polls: seq<SearchOutcome>)
      returns (requests: seq<SearchRequest>, delays: seq<int>, aborted: bool)
      requires PagesStamped(polls, queryDefinition.timestampField)
      requires Settled()
      modifies this`lastTimeStamp, this`lastIDs, this`output
      ensures |requests| <= |polls|
      ensures aborted <==> |requests| > 0 && polls[|requests| - 1].Failed?
      ensures !aborted ==> |requests| == |polls|
      ensures |requests| > 0 ==> FoundBefore(polls, |requests| - 1)
      ensures IssuedFrom(indices, requests, old(State()), polls, 0, initialEntries)
      ensures State() == Run(old(State()), polls, |requests|)
      ensures delays == DelaySchedule(polls, |requests|)
      ensures !aborted ==> Settled()
    {
      hide *;
      ghost var start := State();
      FollowEntry(indices, start, polls, initialEntries);
      requests := [];
      delays := [];
      var delay := InitialDelay;
      var k := 0;
      while k < |polls|
        invariant 0 <= k <= |polls|
        invariant FoundBefore(polls, k)
        invariant Polled(indices, start, polls, k, requests, State(), initialEntries)
        invariant |delays| == k
        invariant k < |polls| ==> delays + [delay] == DelaySchedule(polls, k + 1)
        invariant k == |polls| ==> delays == DelaySchedule(polls, k)
        invariant Settled()
      {
        if k + 1 < |polls| {
          ScheduleStep(polls, k, delays, delay);
        }
        delays := delays + [delay];
        ghost var before := State();
        var request, failed, next := Poll(initialEntries, polls[k], delay);
        PolledStep(indices, start, polls, k, requests, before, State(), initialEntries);
        requests := requests + [request];
        if failed {
          PolledFacts(indices, start, polls, k + 1, requests, State(), initialEntries);
          return requests, delays, true;
        }
        FoundBeforeStep(polls, k);
        HitCountFound(polls[k]);
        delay := next;
        k := k + 1;
      }
      PolledFacts(indices, start, polls, k, requests, State(), initialEntries);
      if k > 0 {
        FoundBeforePrefix(polls, k, k - 1);
      }
      aborted := false;
    }

    /** Start: the initial search, then, when following, the follow loop
        over the remaining outcomes. The run stops at the first failed
        search; `requests` are the searches issued, `delays` the sleeps
        taken, and the run ends in the state its outcomes lead to. */
    method Start(follow: bool, initialEntries: int, outcomes: seq<SearchOutcome>)
      returns (requests: seq<SearchRequest>, delays: seq<int>, aborted: bool)
      requires |outcomes| > 0
      requires PagesStamped(outcomes, queryDefinition.timestampField)
      modifies this`lastTimeStamp, this`lastIDs, this`output
      ensures 1 <= |requests| <= |outcomes|
      ensures requests[0] == InitialRequest(indices, initialEntries)
      ensures aborted <==> outcomes[|requests| - 1].Failed?
      ensures FoundBefore(outcomes, |requests| - 1)
      ensures IssuedFrom(indices, requests, old(State()), outcomes, 1, initialEntries)
      ensures State() == Run(old(State()), outcomes, |requests|)
      ensures !follow ==> |requests| == 1 && State() == PageEffect(old(State()), outcomes[0])
      ensures follow && !aborted ==> |requests| == |outcomes|
      ensures delays == DelaySchedule(outcomes[1..], |requests| - 1)
      ensures !aborted ==> Settled()
    {
      hide AfterPage;
      ghost var start := State();
      var first := InitialRequest(indices, initialEntries);
      requests := [first];
      if outcomes[0].Failed? {
        return requests, [], true;
      }
      ProcessResults(outcomes[0].hits);
      assert State() == Run(start, outcomes, 1);
      if !follow {
        return requests, [], false;
      }
      var polls := outcomes[1..];
      assert PagesStamped(polls, queryDefinition.timestampField);
      var more;
      more, delays, aborted := Follow(initialEntries, polls);
      requests := [first] + more;
      assert requests[0] == first;
      FollowAssembled(start, outcomes, first, more, aborted, initialEntries);
    }

    /** The facts Start draws from the follow loop, restated over all
        outcomes: `more` are the follow loop's searches, issued from the
        state the first outcome leaves. */
    lemma FollowAssembled(start: TailState, outcomes: seq<SearchOutcome>, first: SearchRequest,
                          more: seq<SearchRequest>, aborted: bool, initialEntries: int)
      requires 0 < |outcomes| && outcomes[0].Found?
      requires |more| <= |outcomes| - 1
      requires |more| > 0 ==> FoundBefore(outcomes[1..], |more| - 1)
      requires IssuedFrom(indices, more, PageEffect(start, outcomes[0]), outcomes[1..], 0, initialEntries)
      ensures FoundBefore(outcomes, |more|)
      ensures IssuedFrom(indices, [first] + more, start, outcomes, 1, initialEntries)
      ensures Run(PageEffect(start, outcomes[0]), outcomes[1..], |more|) == Run(start, outcomes, |more| + 1)
    {
      hide AfterPage;
      ghost var polls := outcomes[1..];
      forall j | 0 <= j < |more| ensures outcomes[j].Found? {
        if j > 0 { assert outcomes[j] == polls[j - 1]; }
      }
      RunShift(start, outcomes, |more|);
      var requests := [first] + more;
      forall k | 1 <= k < |requests|
        ensures requests[k] == RequestFor(indices, Run(start, outcomes, k), initialEntries)
      {
        IssuedShift(start, outcomes, first, more, k, initialEntries);
      }
    }

    lemma IssuedShift(start: TailState, outcomes: seq<SearchOutcome>, first: SearchRequest,
                      more: seq<SearchRequest>, k: nat, initialEntries: int)
      requires 0 < |outcomes|
      requires 1 <= k <= |more| <= |outcomes| - 1
      requires IssuedFrom(indices, more, PageEffect(start, outcomes[0]), outcomes[1..], 0, initialEntries)
      ensures ([first] + more)[k] == RequestFor(indices, Run(start, outcomes, k), initialEntries)
    {
      hide AfterPage;
      assert ([first] + more)[k] == more[k - 1];
      assert more[k - 1] == RequestFor(indices, Run(PageEffect(start, outcomes[0]), outcomes[1..], k - 1), initialEntries);
      RunShift(start, outcomes, k - 1);
    }
  }
}
