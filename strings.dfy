/** The string operations of Go's standard library that the tailing engine
    depends on, with the properties the model relies on. Strings are
    sequences of characters; Go compares strings byte by byte on their UTF-8
    encoding, which orders code points the same way, so comparing characters
    gives the same order. */
module Strings {
  import opened Wrappers


  // ---------------------------------------------------------------------
  // Lexicographic order (Go's `<` on strings)
  // ---------------------------------------------------------------------

  /** `a < b` in Go: the first differing character decides, and a proper
      prefix is smaller. */
  predicate Less(a: string, b: string)
    decreases |a|
  {
    if |a| == 0 then |b| > 0
    else if |b| == 0 then false
    else if a[0] != b[0] then a[0] < b[0]
    else Less(a[1..], b[1..])
  }

  predicate LessEq(a: string, b: string)
  {
    a == b || Less(a, b)
  }

  lemma {:induction false} LessIrreflexive(a: string)
    ensures !Less(a, a)
    decreases |a|
  {
    if |a| > 0 {
      LessIrreflexive(a[1..]);
    }
  }

  lemma {:induction false} LessAsymmetric(a: string, b: string)
    requires Less(a, b)
    ensures !Less(b, a)
    decreases |a|
  {
    if |a| > 0 && |b| > 0 && a[0] == b[0] {
      LessAsymmetric(a[1..], b[1..]);
    }
  }

  lemma {:induction false} LessTransitive(a: string, b: string, c: string)
    requires Less(a, b) && Less(b, c)
    ensures Less(a, c)
    decreases |a|
  {
    if |a| > 0 && a[0] == b[0] && b[0] == c[0] {
      LessTransitive(a[1..], b[1..], c[1..]);
    }
  }

  lemma {:induction false} LessTotal(a: string, b: string)
    ensures a == b || Less(a, b) || Less(b, a)
    decreases |a|
  {
    if |a| > 0 && |b| > 0 && a[0] == b[0] {
      LessTotal(a[1..], b[1..]);
      if a[1..] == b[1..] {
        assert a == [a[0]] + a[1..] && b == [b[0]] + b[1..];
      }
    }
  }

  lemma LessEqTransitive(a: string, b: string, c: string)
    requires LessEq(a, b) && LessEq(b, c)
    ensures LessEq(a, c)
  {
    if a != b && b != c {
      LessTransitive(a, b, c);
    }
  }

  /** A string not below `c` stays not below `c` when it grows. */
  lemma NotLessMonotone(a: string, b: string, c: string)
    requires !Less(a, c) && LessEq(a, b)
    ensures !Less(b, c)
  {
    LessTotal(a, c);
    if a == c {
      if a != b { LessAsymmetric(c, b); }
      else { LessIrreflexive(c); }
    } else {
      if a == b { LessAsymmetric(c, a); }
      else {
        LessTransitive(c, a, b);
        LessAsymmetric(c, b);
      }
    }
  }

  // ---------------------------------------------------------------------
  // Prefixes, substrings, character classes
  // ---------------------------------------------------------------------

  /** strings.HasPrefix */
  predicate HasPrefix(s: string, p: string)
  {
    |p| <= |s| && s[..|p|] == p
  }

  /** `sub` occurs in `s` at position `i`. */
  predicate OccursAt(s: string, sub: string, i: nat)
  {
    i + |sub| <= |s| && s[i..i + |sub|] == sub
  }

  predicate IsDigit(c: char)
  {
    '0' <= c <= '9'
  }

  // ---------------------------------------------------------------------
  // Join and Split
  // ---------------------------------------------------------------------

  /** strings.Join */
  function Join(parts: seq<string>, sep: string): string
  {
    if |parts| == 0 then ""
    else if |parts| == 1 then parts[0]
    else parts[0] + sep + Join(parts[1..], sep)
  }

  /** strings.Split on a one-character separator: the pieces between the
      separators, always one more piece than there are separators. */
  function Split(s: string, sep: char): (r: seq<string>)
    ensures |r| >= 1
    decreases |s|
  {
    if |s| == 0 then [""]
    else
      var rest := Split(s[1..], sep);
      if s[0] == sep then [""] + rest
      else [[s[0]] + rest[0]] + rest[1..]
  }

  /** Number of occurrences of `c` in `s`. */
  function Count(s: string, c: char): nat
  {
    if |s| == 0 then 0 else (if s[0] == c then 1 else 0) + Count(s[1..], c)
  }

  lemma {:induction false} JoinCons(p: string, parts: seq<string>, sep: string)
    requires |parts| >= 1
    ensures Join([p] + parts, sep) == p + sep + Join(parts, sep)
  {
    assert ([p] + parts)[1..] == parts;
  }

  lemma {:induction false} SplitJoin(s: string, sep: char)
    ensures Join(Split(s, sep), [sep]) == s
    decreases |s|
  {
    if |s| > 0 {
      var rest := Split(s[1..], sep);
      SplitJoin(s[1..], sep);
      if s[0] == sep {
        JoinCons("", rest, [sep]);
        assert s == [sep] + s[1..];
      } else {
        if |rest| == 1 {
          assert Split(s, sep) == [[s[0]] + rest[0]];
          assert s == [s[0]] + s[1..];
        } else {
          assert rest == [rest[0]] + rest[1..];
          JoinCons(rest[0], rest[1..], [sep]);
          JoinCons([s[0]] + rest[0], rest[1..], [sep]);
          assert s == [s[0]] + s[1..];
        }
      }
    }
  }

  lemma {:induction false} SplitPieces(s: string, sep: char)
    ensures |Split(s, sep)| == Count(s, sep) + 1
    ensures forall k :: 0 <= k < |Split(s, sep)| ==> sep !in Split(s, sep)[k]
    decreases |s|
  {
    if |s| > 0 {
      SplitPieces(s[1..], sep);
    }
  }

  /** strings.SplitN(s, sep, 2): the part before the first separator, and the
      rest after it if there is a separator at all. */
  function SplitFirst(s: string, sep: char): (r: (string, Option<string>))
    ensures sep !in r.0
    ensures r.1.None? <==> sep !in s
    ensures r.1.None? ==> r.0 == s
    ensures r.1.Some? ==> s == r.0 + [sep] + r.1.value
    decreases |s|
  {
    if |s| == 0 then ("", None)
    else if s[0] == sep then ("", Some(s[1..]))
    else
      var rest := SplitFirst(s[1..], sep);
      assert s == [s[0]] + s[1..];
      ([s[0]] + rest.0, rest.1)
  }

  // ---------------------------------------------------------------------
  // Trim
  // ---------------------------------------------------------------------

  function TrimLeft(s: string, c: char): (r: string)
    ensures |r| <= |s| && r == s[|s| - |r|..]
    ensures forall k :: 0 <= k < |s| - |r| ==> s[k] == c
    ensures |r| > 0 ==> r[0] != c
  {
    if |s| > 0 && s[0] == c then TrimLeft(s[1..], c) else s
  }

  function TrimRight(s: string, c: char): (r: string)
    ensures |r| <= |s| && r == s[..|r|]
    ensures forall k :: |r| <= k < |s| ==> s[k] == c
    ensures |r| > 0 ==> r[|r| - 1] != c
  {
    if |s| > 0 && s[|s| - 1] == c then TrimRight(s[..|s| - 1], c) else s
  }

  /** strings.Trim(s, " ") for a one-character cut set: `s` without its
      leading and trailing runs of `c`. */
  function Trim(s: string, c: char): string
  {
    TrimRight(TrimLeft(s, c), c)
  }

  /** Trim keeps a contiguous piece of `s`, removes only `c` characters,
      and leaves no `c` at either end. */
  lemma TrimSpec(s: string, c: char)
    ensures exists i, j :: 0 <= i <= j <= |s| && Trim(s, c) == s[i..j]
             && (forall k :: 0 <= k < i ==> s[k] == c)
             && (forall k :: j <= k < |s| ==> s[k] == c)
    ensures |Trim(s, c)| > 0 ==> Trim(s, c)[0] != c && Trim(s, c)[|Trim(s, c)| - 1] != c
  {
    var l := TrimLeft(s, c);
    var r := TrimRight(l, c);
    var i := |s| - |l|;
    var j := i + |r|;
    assert r == s[i..j];
    if |r| > 0 {
      assert r[0] == l[0];
    }
  }

  // ---------------------------------------------------------------------
  // Replace
  // ---------------------------------------------------------------------

  /** strings.Replace(s, pat, rep, -1) for a non-empty `pat`: every
      non-overlapping occurrence, scanning from the left, is replaced. */
  function ReplaceAll(s: string, pat: string, rep: string): string
    requires |pat| > 0
    decreases |s|
  {
    if |s| == 0 then ""
    else if HasPrefix(s, pat) then rep + ReplaceAll(s[|pat|..], pat, rep)
    else [s[0]] + ReplaceAll(s[1..], pat, rep)
  }

  /** A string in which `pat` does not occur is left as it is. */
  lemma {:induction false} ReplaceAbsent(s: string, pat: string, rep: string)
    requires |pat| > 0
    requires forall i :: 0 <= i <= |s| ==> !OccursAt(s, pat, i)
    ensures ReplaceAll(s, pat, rep) == s
    decreases |s|
  {
    if |s| > 0 {
      assert !OccursAt(s, pat, 0);
      forall i | 0 <= i <= |s[1..]| ensures !OccursAt(s[1..], pat, i) {
        assert !OccursAt(s, pat, i + 1);
        if i + |pat| <= |s[1..]| {
          assert s[1..][i..i + |pat|] == s[i + 1..i + 1 + |pat|];
        }
      }
      ReplaceAbsent(s[1..], pat, rep);
      assert s == [s[0]] + s[1..];
    }
  }

  /** Text that does not hold the first character of `pat` passes through
      a replacement unchanged. */
  lemma {:induction false} ReplaceAfter(t: string, rest: string, pat: string, rep: string)
    requires |pat| > 0 && pat[0] !in t
    ensures ReplaceAll(t + rest, pat, rep) == t + ReplaceAll(rest, pat, rep)
    decreases |t|
  {
    if |t| == 0 {
      assert t + rest == rest;
    } else {
      assert (t + rest)[0] == t[0];
      assert (t + rest)[1..] == t[1..] + rest;
      ReplaceAfter(t[1..], rest, pat, rep);
      assert t == [t[0]] + t[1..];
    }
  }
}
