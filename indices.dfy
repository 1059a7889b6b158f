/** Choosing the indices to search (elktail.go:152-189, 409-454): the
    latest index matching the pattern, or every matching index whose
    embedded date lies in the requested range. Whether a name matches the
    index pattern (a regular expression) is given as `matches`. */
module Indices {
  import opened Wrappers
  import opened Strings
  import opened Configuration

  /** A calendar day. */
  datatype Date = Date(year: int, month: int, day: int)

  /** Earlier day: year, then month, then day. */
  predicate DateLess(a: Date, b: Date)
  {
    a.year < b.year || (a.year == b.year && (a.month < b.month || (a.month == b.month && a.day < b.day)))
  }

  predicate DateLessEq(a: Date, b: Date)
  {
    a == b || DateLess(a, b)
  }

  function MinDate(a: Date, b: Date): Date
  {
    if DateLess(a, b) then a else b
  }

  predicate IsLeap(y: int)
  {
    y % 4 == 0 && (y % 100 != 0 || y % 400 == 0)
  }

  function DaysIn(year: int, month: int): int
  {
    if month == 2 then (if IsLeap(year) then 29 else 28)
    else if month == 4 || month == 6 || month == 9 || month == 11 then 30
    else 31
  }

  /** A day that parsing with the layout `2006<sep>01<sep>02` accepts. */
  predicate ValidDate(d: Date)
  {
    0 <= d.year <= 9999 && 1 <= d.month <= 12 && 1 <= d.day <= DaysIn(d.year, d.month)
  }

  // ---------------------------------------------------------------------
  // Extracting a date from a name
  // ---------------------------------------------------------------------

  function DigitValue(c: char): int
  {
    c as int - '0' as int
  }

  /** `s` has `DDDD<sep>DD<sep>DD` at position `i`. */
  predicate DateShapeAt(s: string, i: nat, sep: char)
  {
    i + 10 <= |s| &&
    IsDigit(s[i]) && IsDigit(s[i + 1]) && IsDigit(s[i + 2]) && IsDigit(s[i + 3]) &&
    s[i + 4] == sep && IsDigit(s[i + 5]) && IsDigit(s[i + 6]) &&
    s[i + 7] == sep && IsDigit(s[i + 8]) && IsDigit(s[i + 9])
  }

  /** The leftmost position at or after `i` where the date shape occurs. */
  function FirstDateAt(s: string, sep: char, i: nat): (r: Option<nat>)
    ensures r.Some? ==> i <= r.value && DateShapeAt(s, r.value, sep)
    ensures r.Some? ==> forall j :: i <= j < r.value ==> !DateShapeAt(s, j, sep)
    ensures r.None? ==> forall j :: i <= j <= |s| ==> !DateShapeAt(s, j, sep)
    decreases |s| - i
  {
    if i + 10 > |s| then None
    else if DateShapeAt(s, i, sep) then Some(i)
    else FirstDateAt(s, sep, i + 1)
  }

  /** The numbers written at a date-shaped position. */
  function ReadDate(s: string, i: nat): Date
    requires i + 10 <= |s|
  {
    Date(DigitValue(s[i]) * 1000 + DigitValue(s[i + 1]) * 100 + DigitValue(s[i + 2]) * 10 + DigitValue(s[i + 3]),
         DigitValue(s[i + 5]) * 10 + DigitValue(s[i + 6]),
         DigitValue(s[i + 8]) * 10 + DigitValue(s[i + 9]))
  }

  /** extractYMDDate: the first `DDDD<sep>DD<sep>DD` in `s`, parsed as a
      day. Not finding one, or finding one that is not a real day, is the
      fatal configuration error of elktail. */
  function ExtractYMDDate(s: string, sep: char): (r: Result<Date>)
    ensures r.Ok? ==> ValidDate(r.value)
    ensures r.Ok? ==> exists i: nat :: DateShapeAt(s, i, sep) && r.value == ReadDate(s, i) &&
                                  forall j :: 0 <= j < i ==> !DateShapeAt(s, j, sep)
    ensures r.Ok? <==> exists i: nat :: DateShapeAt(s, i, sep) && ValidDate(ReadDate(s, i)) &&
                                   forall j :: 0 <= j < i ==> !DateShapeAt(s, j, sep)
  {
    match FirstDateAt(s, sep, 0)
    case None => Err("Failed to extract date: " + s)
    case Some(i) =>
      var d := ReadDate(s, i);
      if ValidDate(d) then Ok(d) else Err("Failed parsing date")
  }

  function Digit(n: int): char
    requires 0 <= n <= 9
  {
    ('0' as int + n) as char
  }

  function TwoDigits(n: int): string
    requires 0 <= n <= 99
  {
    [Digit(n / 10), Digit(n % 10)]
  }

  /** A day written as `YYYY<sep>MM<sep>DD` (the layout `2006-01-02` when
      `sep` is '-'). */
  function FormatDate(d: Date, sep: char): (r: string)
    requires ValidDate(d)
    ensures |r| == 10
  {
    TwoDigits(d.year / 100) + TwoDigits(d.year % 100) + [sep] + TwoDigits(d.month) + [sep] + TwoDigits(d.day)
  }

  lemma TwoDigitsValue(n: int)
    requires 0 <= n <= 99
    ensures IsDigit(TwoDigits(n)[0]) && IsDigit(TwoDigits(n)[1])
    ensures DigitValue(TwoDigits(n)[0]) * 10 + DigitValue(TwoDigits(n)[1]) == n
  {
  }

  /** Extracting the date from a formatted day gives the day back. */
  lemma ExtractFormatted(d: Date, sep: char)
    requires ValidDate(d)
    ensures ExtractYMDDate(FormatDate(d, sep), sep) == Ok(d)
  {
    var s := FormatDate(d, sep);
    var hi, lo := TwoDigits(d.year / 100), TwoDigits(d.year % 100);
    var m, dd := TwoDigits(d.month), TwoDigits(d.day);
    assert s == hi + lo + [sep] + m + [sep] + dd;
    TwoDigitsValue(d.year / 100);
    TwoDigitsValue(d.year % 100);
    TwoDigitsValue(d.month);
    TwoDigitsValue(d.day);
    assert s[0] == hi[0] && s[1] == hi[1] && s[2] == lo[0] && s[3] == lo[1];
    assert s[5] == m[0] && s[6] == m[1] && s[8] == dd[0] && s[9] == dd[1];
    assert DateShapeAt(s, 0, sep);
    var y := DigitValue(s[0]) * 1000 + DigitValue(s[1]) * 100 + DigitValue(s[2]) * 10 + DigitValue(s[3]);
    assert y == (DigitValue(s[0]) * 10 + DigitValue(s[1])) * 100 + (DigitValue(s[2]) * 10 + DigitValue(s[3]));
    assert y == (d.year / 100) * 100 + d.year % 100;
    assert ReadDate(s, 0) == d;
  }

  // ---------------------------------------------------------------------
  // The latest index
  // ---------------------------------------------------------------------

  /** The greatest matching name of `indices`, starting from `acc`. */
  function LastIndexFrom(acc: string, indices: seq<string>, matches: string -> bool): string
    decreases |indices|
  {
    if |indices| == 0 then acc
    else LastIndexFrom(if matches(indices[0]) && Less(acc, indices[0]) then indices[0] else acc,
                       indices[1..], matches)
  }

  /** The name findLastIndex returns: the greatest matching name, or the
      empty string when none matches. */
  function LastIndex(indices: seq<string>, matches: string -> bool): string
  {
    LastIndexFrom("", indices, matches)
  }

  lemma {:induction false} LastIndexFromSpec(acc: string, indices: seq<string>, matches: string -> bool)
    ensures var r := LastIndexFrom(acc, indices, matches);
            && (r == acc || (r in indices && matches(r)))
            && LessEq(acc, r)
            && (forall k :: 0 <= k < |indices| && matches(indices[k]) ==> LessEq(indices[k], r))
    decreases |indices|
  {
    if |indices| > 0 {
      var next := if matches(indices[0]) && Less(acc, indices[0]) then indices[0] else acc;
      LastIndexFromSpec(next, indices[1..], matches);
      var r := LastIndexFrom(acc, indices, matches);
      LessEqTransitive(acc, next, r);
      if matches(indices[0]) {
        LessTotal(acc, indices[0]);
        if !Less(acc, indices[0]) {
          LessEqTransitive(indices[0], acc, r);
        }
      }
      forall k | 1 <= k < |indices| && matches(indices[k]) ensures LessEq(indices[k], r) {
        assert indices[1..][k - 1] == indices[k];
      }
    }
  }

  /** The latest index is a matching name at least as great as every
      matching name; it is empty exactly when no non-empty name matches. */
  lemma LastIndexIsGreatest(indices: seq<string>, matches: string -> bool)
    ensures var r := LastIndex(indices, matches);
            && (r == "" || (r in indices && matches(r)))
            && (forall k :: 0 <= k < |indices| && matches(indices[k]) ==> LessEq(indices[k], r))
  {
    LastIndexFromSpec("", indices, matches);
  }

  /** findLastIndex. The Go code's "first match" branch is never taken
      (it tests the address of a variable against nil), so only the
      comparison with the name kept so far decides. */
  method FindLastIndex(indices: seq<string>, matches: string -> bool) returns (lastIdx: string)
    ensures lastIdx == LastIndex(indices, matches)
  {
    lastIdx := "";
    var i := 0;
    while i < |indices|
      invariant 0 <= i <= |indices|
      invariant LastIndexFrom(lastIdx, indices[i..], matches) == LastIndex(indices, matches)
    {
      var idx := indices[i];
      assert indices[i..][1..] == indices[i + 1..];
      if matches(idx) {
        if Less(lastIdx, idx) {
          lastIdx := idx;
        }
      }
      i := i + 1;
    }
  }

  // ---------------------------------------------------------------------
  // Indices in a date range
  // ---------------------------------------------------------------------

  /** The matching names whose embedded date lies in `[start, end]`, in
      catalog order; a matching name without a date is fatal. */
  function InDateRange(indices: seq<string>, matches: string -> bool, start: Date, end: Date): Result<seq<string>>
  {
    if |indices| == 0 then Ok([])
    else
      var rest := InDateRange(indices[1..], matches, start, end);
      if !matches(indices[0]) then rest
      else match ExtractYMDDate(indices[0], '.')
        case Err(m) => Err(m)
        case Ok(d) =>
          if DateLessEq(start, d) && DateLessEq(d, end) then
            (if rest.Ok? then Ok([indices[0]] + rest.value) else rest)
          else rest
  }

  /** findIndicesForDateRange on its two date strings. */
  function DateRangeIndices(indices: seq<string>, matches: string -> bool, startDate: string, endDate: string): Result<seq<string>>
  {
    match ExtractYMDDate(startDate, '-')
    case Err(m) => Err(m)
    case Ok(start) =>
      match ExtractYMDDate(endDate, '-')
      case Err(m) => Err(m)
      case Ok(end) => InDateRange(indices, matches, start, end)
  }

  /** A name is selected exactly when it matches, carries a date and the
      date lies in the range; selection fails exactly when some matching
      name carries no valid date. */
  lemma {:induction false} InDateRangeSpec(indices: seq<string>, matches: string -> bool, start: Date, end: Date)
    ensures InDateRange(indices, matches, start, end).Err? <==>
              exists k :: 0 <= k < |indices| && matches(indices[k]) && ExtractYMDDate(indices[k], '.').Err?
    ensures InDateRange(indices, matches, start, end).Ok? ==>
              forall x :: x in InDateRange(indices, matches, start, end).value <==>
                x in indices && matches(x) && ExtractYMDDate(x, '.').Ok? &&
                DateLessEq(start, ExtractYMDDate(x, '.').value) && DateLessEq(ExtractYMDDate(x, '.').value, end)
    decreases |indices|
  {
    if |indices| > 0 {
      InDateRangeSpec(indices[1..], matches, start, end);
      var r := InDateRange(indices, matches, start, end);
      var rest := InDateRange(indices[1..], matches, start, end);
      assert indices == [indices[0]] + indices[1..];
      forall k | 1 <= k < |indices| ensures indices[k] == indices[1..][k - 1] { }
      if r.Err? {
        if !(matches(indices[0]) && ExtractYMDDate(indices[0], '.').Err?) {
          var k :| 0 <= k < |indices[1..]| && matches(indices[1..][k]) && ExtractYMDDate(indices[1..][k], '.').Err?;
          assert indices[k + 1] == indices[1..][k];
        }
      }
    }
  }

  /** A name the date range selects: it matches, carries a date, and the
      date lies in `[start, end]`. */
  predicate IndexSelected(x: string, matches: string -> bool, start: Date, end: Date)
  {
    matches(x) && ExtractYMDDate(x, '.').Ok? &&
    DateLessEq(start, ExtractYMDDate(x, '.').value) && DateLessEq(ExtractYMDDate(x, '.').value, end)
  }

  /** The selected names of `indices`, in catalog order, ignoring errors. */
  function SelectedNames(indices: seq<string>, matches: string -> bool, start: Date, end: Date): seq<string>
  {
    if |indices| == 0 then []
    else (if IndexSelected(indices[0], matches, start, end) then [indices[0]] else [])
         + SelectedNames(indices[1..], matches, start, end)
  }

  /** When no name is fatal, the range selection is exactly the selected
      names in the order the catalog lists them. */
  lemma {:induction false} InDateRangeInOrder(indices: seq<string>, matches: string -> bool, start: Date, end: Date)
    ensures InDateRange(indices, matches, start, end).Ok? ==>
              InDateRange(indices, matches, start, end).value == SelectedNames(indices, matches, start, end)
    decreases |indices|
  {
    if |indices| > 0 {
      InDateRangeInOrder(indices[1..], matches, start, end);
    }
  }

  /** The names already selected, in front of what the rest selects. */
  function AfterSelected(selected: seq<string>, rest: Result<seq<string>>): Result<seq<string>>
  {
    if rest.Ok? then Ok(selected + rest.value) else rest
  }

  /** findIndicesForDateRange. */
  method FindIndicesForDateRange(indices: seq<string>, matches: string -> bool, startDate: string, endDate: string)
    returns (r: Result<seq<string>>)
    ensures r == DateRangeIndices(indices, matches, startDate, endDate)
  {
    var start := ExtractYMDDate(startDate, '-');
    if start.Err? {
      return Err(start.message);
    }
    var end := ExtractYMDDate(endDate, '-');
    if end.Err? {
      return Err(end.message);
    }
    var result: seq<string> := [];
    var i := 0;
    assert indices[0..] == indices;
    var all := InDateRange(indices, matches, start.value, end.value);
    assert all.Ok? ==> [] + all.value == all.value;
    assert AfterSelected([], all) == all;
    while i < |indices|
      invariant 0 <= i <= |indices|
      invariant InDateRange(indices, matches, start.value, end.value) ==
                  AfterSelected(result, InDateRange(indices[i..], matches, start.value, end.value))
    {
      var idx := indices[i];
      assert indices[i..][1..] == indices[i + 1..];
      if matches(idx) {
        var idxDate := ExtractYMDDate(idx, '.');
        if idxDate.Err? {
          return Err(idxDate.message);
        }
        if DateLessEq(start.value, idxDate.value) && DateLessEq(idxDate.value, end.value) {
          var rest := InDateRange(indices[i + 1..], matches, start.value, end.value);
          if rest.Ok? {
            assert result + ([idx] + rest.value) == (result + [idx]) + rest.value;
          }
          result := result + [idx];
        }
      }
      i := i + 1;
    }
    assert indices[i..] == [];
    assert result + [] == result;
    return Ok(result);
  }

  // ---------------------------------------------------------------------
  // selectIndices
  // ---------------------------------------------------------------------

  /** The end date used when only a start is given: today. */
  function EffectiveEndDate(qd: QueryDefinition, today: Date): string
    requires ValidDate(today)
  {
    if qd.beforeDateTime == "" then FormatDate(today, '-') else qd.beforeDateTime
  }

  /** The date range selection with the start date defaulted when only an
      end date is given: the earlier of the latest index's date and the end
      date. */
  function DateRangeSelection(indices: seq<string>, matches: string -> bool, qd: QueryDefinition, today: Date): Result<seq<string>>
    requires ValidDate(today)
  {
    if qd.afterDateTime == "" && qd.beforeDateTime != "" then
      match ExtractYMDDate(LastIndex(indices, matches), '.')
      case Err(m) => Err(m)
      case Ok(lastIndexDate) =>
        match ExtractYMDDate(qd.beforeDateTime, '-')
        case Err(m) => Err(m)
        case Ok(end) =>
          var startDate := if DateLess(lastIndexDate, end) then FormatDate(lastIndexDate, '-') else qd.beforeDateTime;
          DateRangeIndices(indices, matches, startDate, EffectiveEndDate(qd, today))
    else DateRangeIndices(indices, matches, qd.afterDateTime, EffectiveEndDate(qd, today))
  }

  /** With only an end date, the range starts at the earlier of the latest
      index's date and the end date, and ends at the end date; with only a
      start date, it ends today. */
  lemma DefaultedRange(indices: seq<string>, matches: string -> bool, qd: QueryDefinition, today: Date)
    requires ValidDate(today) && qd.IsDateTimeFiltered()
    ensures qd.beforeDateTime == "" ==>
              DateRangeSelection(indices, matches, qd, today) ==
                (if ExtractYMDDate(qd.afterDateTime, '-').Err? then Err(ExtractYMDDate(qd.afterDateTime, '-').message)
                 else InDateRange(indices, matches, ExtractYMDDate(qd.afterDateTime, '-').value, today))
    ensures qd.afterDateTime == "" && ExtractYMDDate(LastIndex(indices, matches), '.').Ok? &&
            ExtractYMDDate(qd.beforeDateTime, '-').Ok? ==>
              DateRangeSelection(indices, matches, qd, today) ==
                InDateRange(indices, matches,
                            MinDate(ExtractYMDDate(LastIndex(indices, matches), '.').value,
                                    ExtractYMDDate(qd.beforeDateTime, '-').value),
                            ExtractYMDDate(qd.beforeDateTime, '-').value)
  {
    ExtractFormatted(today, '-');
    var lastDate := ExtractYMDDate(LastIndex(indices, matches), '.');
    if lastDate.Ok? && DateLess(lastDate.value, today) {
      ExtractFormatted(lastDate.value, '-');
    }
    if qd.afterDateTime == "" && lastDate.Ok? {
      ExtractFormatted(lastDate.value, '-');
    }
  }

  /** selectIndices: `catalog` is the list of index names, or None when it
      could not be fetched, in which case the pattern itself is the one
      index. Without a date filter the latest matching index is used. */
  method SelectIndices(catalog: Option<seq<string>>, indexPattern: string, matches: string -> bool,
                       qd: QueryDefinition, today: Date) returns (r: Result<seq<string>>)
    requires ValidDate(today)
    ensures catalog.None? ==> r == Ok([indexPattern])
    ensures catalog.Some? && !qd.IsDateTimeFiltered() ==> r == Ok([LastIndex(catalog.value, matches)])
    ensures catalog.Some? && qd.IsDateTimeFiltered() ==> r == DateRangeSelection(catalog.value, matches, qd, today)
  {
    if catalog.None? {
      return Ok([indexPattern]);
    }
    var indices := catalog.value;
    if qd.IsDateTimeFiltered() {
      var startDate := qd.afterDateTime;
      var endDate := qd.beforeDateTime;
      if startDate == "" && endDate != "" {
        var lastIndex := FindLastIndex(indices, matches);
        var lastIndexDate := ExtractYMDDate(lastIndex, '.');
        if lastIndexDate.Err? {
          return Err(lastIndexDate.message);
        }
        var end := ExtractYMDDate(endDate, '-');
        if end.Err? {
          return Err(end.message);
        }
        if DateLess(lastIndexDate.value, end.value) {
          startDate := FormatDate(lastIndexDate.value, '-');
        } else {
          startDate := endDate;
        }
      }
      if endDate == "" {
        endDate := FormatDate(today, '-');
      }
      r := FindIndicesForDateRange(indices, matches, startDate, endDate);
    } else {
      var index := FindLastIndex(indices, matches);
      r := Ok([index]);
    }
  }
}
