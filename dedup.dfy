/** The dedup window: the (timestamp, id) pairs of recently shown
    documents, and the eviction of the entries older than a cutoff
    (elktail.go:42-49, 320-325). */
module Dedup {
  import opened Strings

  /** A shown document: its timestamp and its id. */
  datatype DisplayedEntry = DisplayedEntry(timeStamp: string, id: string)
  {
    /** The entry's timestamp is strictly before `t` (string order). */
    predicate IsBefore(t: string)
    {
      Less(timeStamp, t)
    }
  }

  /** How many entries a drain against `cutoff` removes: the front entries
      before the cutoff, stopping at the first that is not, and never the
      final entry. */
  function DrainCount(entries: seq<DisplayedEntry>, cutoff: string): (n: nat)
    ensures n <= |entries|
    ensures |entries| > 0 ==> n < |entries|
  {
    if |entries| <= 1 || !entries[0].IsBefore(cutoff) then 0
    else 1 + DrainCount(entries[1..], cutoff)
  }

  /** The window after eviction. */
  function Drain(entries: seq<DisplayedEntry>, cutoff: string): seq<DisplayedEntry>
  {
    entries[DrainCount(entries, cutoff)..]
  }

  /** Drain keeps a suffix; every dropped entry is before the cutoff; the
      scan stops at the first entry not before it (or at the final entry);
      the final entry is always kept, so the window is empty only when the
      input was. */
  lemma {:induction false} DrainSpec(entries: seq<DisplayedEntry>, cutoff: string)
    ensures var n := DrainCount(entries, cutoff);
            && (forall k :: 0 <= k < n ==> entries[k].IsBefore(cutoff))
            && (n < |entries| - 1 ==> !entries[n].IsBefore(cutoff))
            && (|entries| > 0 <==> n < |entries|)
  {
    if |entries| > 1 && entries[0].IsBefore(cutoff) {
      DrainSpec(entries[1..], cutoff);
    }
  }

  /** The last entry survives every drain. */
  lemma DrainKeepsLast(entries: seq<DisplayedEntry>, cutoff: string)
    requires |entries| > 0
    ensures |Drain(entries, cutoff)| > 0
    ensures Drain(entries, cutoff)[|Drain(entries, cutoff)| - 1] == entries[|entries| - 1]
  {
  }

  /** Draining twice against the same cutoff removes nothing more. */
  lemma DrainIdempotent(entries: seq<DisplayedEntry>, cutoff: string)
    ensures DrainCount(Drain(entries, cutoff), cutoff) == 0
    ensures Drain(Drain(entries, cutoff), cutoff) == Drain(entries, cutoff)
  {
    DrainSpec(entries, cutoff);
  }

  /** Timestamps never decrease along the window. */
  predicate Chronological(entries: seq<DisplayedEntry>)
  {
    forall i, j :: 0 <= i < j < |entries| ==> LessEq(entries[i].timeStamp, entries[j].timeStamp)
  }

  /** On a chronological window whose final entry is not before the cutoff,
      nothing at all before the cutoff is left after the drain. */
  lemma DrainChronological(entries: seq<DisplayedEntry>, cutoff: string)
    requires Chronological(entries) && |entries| > 0
    requires !entries[|entries| - 1].IsBefore(cutoff)
    ensures forall k :: 0 <= k < |Drain(entries, cutoff)| ==> !Drain(entries, cutoff)[k].IsBefore(cutoff)
  {
    DrainSpec(entries, cutoff);
    var n := DrainCount(entries, cutoff);
    forall k | 0 <= k < |entries| - n ensures !Drain(entries, cutoff)[k].IsBefore(cutoff) {
      assert Drain(entries, cutoff)[k] == entries[n + k];
      if n == |entries| - 1 {
        assert k == 0;
      } else {
        NotLessMonotone(entries[n].timeStamp, entries[n + k].timeStamp, cutoff);
      }
    }
  }

  /** drainOldEntries: the forward scan, then the reslice. */
  method DrainOldEntries(entries: seq<DisplayedEntry>, cutoff: string) returns (r: seq<DisplayedEntry>)
    ensures r == Drain(entries, cutoff)
  {
    var i := 0;
    while i < |entries| - 1 && entries[i].IsBefore(cutoff)
      invariant 0 <= i <= |entries|
      invariant i + DrainCount(entries[i..], cutoff) == DrainCount(entries, cutoff)
    {
      assert entries[i..][1..] == entries[i + 1..];
      i := i + 1;
    }
    r := entries[i..];
  }

  /** The ids of the window, in order (the must-not list of the follow-up
      query). */
  function IdsOf(entries: seq<DisplayedEntry>): (ids: seq<string>)
    ensures |ids| == |entries|
    ensures forall k :: 0 <= k < |entries| ==> ids[k] == entries[k].id
  {
    seq(|entries|, k requires 0 <= k < |entries| => entries[k].id)
  }
}
