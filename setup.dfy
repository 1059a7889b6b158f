/** String rules applied while the run is set up: the cluster URL
    (elktail.go:61-75), extra headers (elktail.go:779-785), the
    `user:password` flag (elktail.go:501-509) and the merging of saved and
    given query terms (elktail.go:535-558). */
module Setup {
  import opened Wrappers
  import opened Strings
  import opened Configuration

  const DefaultPort := ":9200"

  /** The URL names a port: somewhere a ':' is followed by a digit
      (the unanchored pattern `.*:\d+`). */
  predicate HasPort(url: string)
  {
    exists i :: 0 <= i < |url| - 1 && url[i] == ':' && IsDigit(url[i + 1])
  }

  /** The URL ends in `http://` and a host without any '/' after it
      (the unanchored pattern `http://[^/]+$`). */
  predicate IsBareHttpHost(url: string)
  {
    exists i :: 0 <= i && i + 7 < |url| && OccursAt(url, "http://", i) &&
      forall k :: i + 7 <= k < |url| ==> url[k] != '/'
  }

  /** The address given by the user, made into a URL: "http://" in front
      unless it already starts with "http", then the default port 9200
      when no port is named and the URL is a bare http host. */
  function NormalizeUrl(url: string): (r: string)
    ensures HasPrefix(r, "http")
    ensures var w := if HasPrefix(url, "http") then url else "http://" + url;
            && (r == w || r == w + DefaultPort)
            && (HasPort(w) ==> r == w)
            && (r == w + DefaultPort <==> !HasPort(w) && IsBareHttpHost(w))
  {
    var withScheme := if HasPrefix(url, "http") then url else "http://" + url;
    if !HasPort(withScheme) && IsBareHttpHost(withScheme) then withScheme + DefaultPort else withScheme
  }

  /** Normalising a normalised URL changes nothing. */
  lemma NormalizeIdempotent(url: string)
    ensures NormalizeUrl(NormalizeUrl(url)) == NormalizeUrl(url)
  {
    var withScheme := if HasPrefix(url, "http") then url else "http://" + url;
    var r := NormalizeUrl(url);
    if r != withScheme {
      assert r == withScheme + DefaultPort;
      assert r[|withScheme|] == ':' && r[|withScheme| + 1] == '9';
      assert HasPort(r);
    }
  }

  /** The default port is added to a bare host name. */
  lemma NormalizeBareHost()
    ensures NormalizeUrl("elk") == "http://elk:9200"
  {
    var u := "http://elk";
    assert !HasPrefix("elk", "http");
    assert "http://" + "elk" == u;
    assert !HasPort(u) by {
      forall i | 0 <= i < |u| - 1 ensures !(u[i] == ':' && IsDigit(u[i + 1])) {
      }
    }
    assert OccursAt(u, "http://", 0);
    assert IsBareHttpHost(u);
    assert u + DefaultPort == "http://elk:9200";
  }

  /** Any address without a scheme, a path or a port, such as a plain
      host name, gets "http://" in front and the default port behind. */
  lemma NormalizeHostName(h: string)
    requires h != "" && !HasPrefix(h, "http")
    requires forall k :: 0 <= k < |h| ==> h[k] != '/' && h[k] != ':'
    ensures NormalizeUrl(h) == "http://" + h + DefaultPort
  {
    var w := "http://" + h;
    assert !HasPort(w) by {
      forall i | 0 <= i < |w| - 1 ensures !(w[i] == ':' && IsDigit(w[i + 1])) {
        if i >= 7 {
          assert w[i] == h[i - 7];
        }
      }
    }
    assert OccursAt(w, "http://", 0);
    assert forall k :: 7 <= k < |w| ==> w[k] == h[k - 7];
    assert IsBareHttpHost(w);
  }

  /** The URL the client connects to: the tunnel's, when one is up. */
  function ClientUrl(target: SearchTarget): (r: string)
    ensures target.tunnelUrl != "" ==> r == target.tunnelUrl
    ensures target.tunnelUrl == "" ==> r == NormalizeUrl(target.url)
  {
    if target.tunnelUrl != "" then target.tunnelUrl else NormalizeUrl(target.url)
  }

  /** ExtractHeader: split a `name: value` header on ':' and trim the
      spaces around every piece. */
  method ExtractHeader(s: string) returns (r: seq<string>)
    ensures |r| == |Split(s, ':')| == Count(s, ':') + 1
    ensures forall k :: 0 <= k < |r| ==> r[k] == Trim(Split(s, ':')[k], ' ')
    ensures forall k :: 0 <= k < |r| ==> ':' !in r[k]
  {
    r := Split(s, ':');
    SplitPieces(s, ':');
    ghost var pieces := r;
    var k := 0;
    while k < |r|
      invariant 0 <= k <= |r| && |r| == |pieces|
      invariant forall j :: 0 <= j < k ==> r[j] == Trim(pieces[j], ' ')
      invariant forall j :: k <= j < |r| ==> r[j] == pieces[j]
    {
      r := r[k := Trim(r[k], ' ')];
      k := k + 1;
    }
    forall j | 0 <= j < |r| ensures ':' !in r[j] {
      TrimSpec(pieces[j], ' ');
    }
  }

  /** The `-u user:password` flag: the user is the part before the first
      ':'; the password is taken only when there is exactly one ':'.
      Without a user, nothing changes. */
  function SplitCredentials(user: string, password: string): (r: (string, string))
  {
    if user == "" then (user, password)
    else
      var credentials := Split(user, ':');
      (credentials[0], if |credentials| == 2 then credentials[1] else password)
  }

  /** The user part never contains ':'; with exactly one ':' the flag is
      split in two around it; with none the user is kept and so is the
      password; with more, the password is left as it was. */
  lemma CredentialsSplit(user: string, password: string)
    ensures ':' !in SplitCredentials(user, password).0
    ensures Count(user, ':') == 1 ==> SplitCredentials(user, password).0 + ":" + SplitCredentials(user, password).1 == user
    ensures Count(user, ':') == 0 ==> SplitCredentials(user, password) == (user, password)
    ensures Count(user, ':') > 1 ==> SplitCredentials(user, password).1 == password
    ensures Count(user, ':') >= 1 ==> HasPrefix(user, SplitCredentials(user, password).0 + ":")
  {
    var credentials := Split(user, ':');
    SplitPieces(user, ':');
    SplitJoin(user, ':');
    if user != "" {
      if |credentials| == 2 {
        assert credentials[1..] == [credentials[1]];
        assert Join(credentials, [':']) == credentials[0] + ":" + credentials[1];
      }
      if |credentials| == 1 {
        assert Join(credentials, [':']) == credentials[0];
      }
      if |credentials| >= 2 {
        assert credentials == [credentials[0]] + credentials[1..];
        JoinCons(credentials[0], credentials[1..], [':']);
        assert user == credentials[0] + ":" + Join(credentials[1..], [':']);
      }
    }
  }

  /** Query terms for the run and for the saved default, as written: in
      save mode the command-line arguments replace the terms and are saved;
      otherwise the saved terms are kept for saving and the arguments are
      ANDed to them only when more than one term is stored. */
  function MergeTermsAsWritten(saveQuery: bool, stored: seq<string>, args: seq<string>): (r: (seq<string>, seq<string>))
  {
    if saveQuery then (args, args)
    else if |args| == 0 then (stored, stored)
    else if |stored| > 1 then (stored + ["AND"] + args, stored)
    else (args, stored)
  }

  /** A single saved term is dropped by the code as written: saved "error"
      and argument "timeout" give only "timeout". */
  lemma SingleStoredTermDropped()
    ensures MergeTermsAsWritten(false, ["error"], ["timeout"]).0 == ["timeout"]
  {
  }

  /** Query terms with every stored term kept: arguments are ANDed to the
      stored terms whenever there are any. */
  function MergeTerms(saveQuery: bool, stored: seq<string>, args: seq<string>): (r: (seq<string>, seq<string>))
  {
    if saveQuery then (args, args)
    else if |args| == 0 then (stored, stored)
    else if |stored| > 0 then (stored + ["AND"] + args, stored)
    else (args, stored)
  }

  /** The code as written differs from the corrected merge in exactly one
      case: not in save mode, one saved term and some arguments, where the
      saved term is dropped and only the arguments run (and the corrected
      merge keeps the term). */
  lemma MergeAsWrittenDiffers(saveQuery: bool, stored: seq<string>, args: seq<string>)
    ensures !(!saveQuery && |stored| == 1 && |args| > 0) ==>
              MergeTermsAsWritten(saveQuery, stored, args) == MergeTerms(saveQuery, stored, args)
    ensures !saveQuery && |stored| == 1 && |args| > 0 ==>
              MergeTermsAsWritten(saveQuery, stored, args) == (args, stored) &&
              MergeTerms(saveQuery, stored, args).0 == stored + ["AND"] + args &&
              MergeTermsAsWritten(saveQuery, stored, args) != MergeTerms(saveQuery, stored, args)
  {
    if !saveQuery && |stored| == 1 && |args| > 0 {
      assert |stored + ["AND"] + args| > |args|;
    }
  }

  /** Without save mode, the query string of the run is the saved query
      string ANDed with the arguments (or just one of them when the other
      is empty), and the saved terms are kept unchanged for saving; in save
      mode the arguments are both run and saved. */
  lemma MergedQueryString(saveQuery: bool, stored: seq<string>, args: seq<string>)
    ensures saveQuery ==> MergeTerms(saveQuery, stored, args) == (args, args)
    ensures !saveQuery ==> MergeTerms(saveQuery, stored, args).1 == stored
    ensures !saveQuery && |stored| > 0 && |args| > 0 ==>
              Join(MergeTerms(saveQuery, stored, args).0, " ") == Join(stored, " ") + " AND " + Join(args, " ")
    ensures !saveQuery && (|stored| == 0 || |args| == 0) ==>
              Join(MergeTerms(saveQuery, stored, args).0, " ") == Join(stored + args, " ")
  {
    if !saveQuery && |stored| > 0 && |args| > 0 {
      AndedQueryString(stored, args);
      assert stored + ["AND"] + args == stored + (["AND"] + args);
    }
    if |stored| == 0 { assert stored + args == args; }
    if |args| == 0 { assert stored + args == stored; }
  }

  lemma AndedQueryString(stored: seq<string>, args: seq<string>)
    requires |stored| > 0 && |args| > 0
    ensures Join(stored + (["AND"] + args), " ") == Join(stored, " ") + " AND " + Join(args, " ")
  {
    JoinAppendAnd(stored, args);
    JoinCons("AND", args, " ");
    ConcatAnd(Join(stored, " "), Join(args, " "));
  }

  lemma JoinAppendAnd(stored: seq<string>, args: seq<string>)
    requires |stored| > 0 && |args| > 0
    ensures Join(stored + (["AND"] + args), " ") == Join(stored, " ") + " " + Join(["AND"] + args, " ")
  {
    JoinAppend(stored, ["AND"] + args, " ");
  }

  lemma ConcatAnd(js: string, ja: string)
    ensures js + " " + ("AND" + " " + ja) == js + " AND " + ja
  {
  }

  /** Joining two non-empty lists puts one separator between their joins. */
  lemma {:induction false} JoinAppend(a: seq<string>, b: seq<string>, sep: string)
    requires |a| > 0 && |b| > 0
    ensures Join(a + b, sep) == Join(a, sep) + sep + Join(b, sep)
    decreases |a|
  {
    if |a| == 1 {
      JoinCons(a[0], b, sep);
      assert a + b == [a[0]] + b;
    } else {
      JoinAppend(a[1..], b, sep);
      assert a + b == [a[0]] + (a[1..] + b);
      JoinCons(a[0], a[1..] + b, sep);
      assert a == [a[0]] + a[1..];
      JoinCons(a[0], a[1..], sep);
    }
  }
}
