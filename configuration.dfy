/** Configuration records of the tailer and the rules for copying them
    (configuration/configuration.go). */
module Configuration {

  /** Where to search: the cluster address and the index naming pattern. */
  datatype SearchTarget = SearchTarget(
    url: string,
    tunnelUrl: string,
    indexPattern: string,
    cert: string,
    key: string,
    extraHeaders: seq<string>)

  /** What to search for and how to show it. `format` is the display
      template with `%field` tokens. */
  datatype QueryDefinition = QueryDefinition(
    terms: seq<string>,
    timestampField: string,
    afterDateTime: string,
    beforeDateTime: string,
    format: string)
  {
    /** The query is restricted to a date-time window on at least one side. */
    predicate IsDateTimeFiltered()
    {
      afterDateTime != "" || beforeDateTime != ""
    }
  }

  const EmptyTarget := SearchTarget("", "", "", "", "", [])
  const EmptyQuery := QueryDefinition([], "", "", "", "")

  /** The command-line flags whose presence means "do not load the saved
      default configuration". */
  const ConfigRelevantFlags: seq<string> := ["url", "i", "t", "u", "ssh"]

  /** Whole run configuration. Its fields are written one by one by the
      copy methods below. `raw` selects printing the raw document source. */
  class Config {
    var searchTarget: SearchTarget
    var queryDefinition: QueryDefinition
    var initialEntries: int
    var follow: bool
    var user: string
    var password: string
    var verbose: bool
    var moreVerbose: bool
    var traceRequests: bool
    var sshTunnelParams: string
    var saveQuery: bool
    var raw: bool

    /** A configuration with every field at Go's zero value. */
    constructor ()
      ensures searchTarget == EmptyTarget && queryDefinition == EmptyQuery
      ensures initialEntries == 0 && !follow && user == "" && password == ""
      ensures !verbose && !moreVerbose && !traceRequests
      ensures sshTunnelParams == "" && !saveQuery && !raw
    {
      searchTarget := EmptyTarget;
      queryDefinition := EmptyQuery;
      initialEntries := 0;
      follow := false;
      user := "";
      password := "";
      verbose := false;
      moreVerbose := false;
      traceRequests := false;
      sshTunnelParams := "";
      saveQuery := false;
      raw := false;
    }

    /** Copies the settings that are saved between invocations: the whole
        search target, the query terms, the credentials and the tunnel. */
    method CopyConfigRelevantSettingsTo(dest: Config)
      modifies dest
      ensures dest.searchTarget == old(searchTarget)
      ensures dest.queryDefinition == old(dest.queryDefinition).(terms := old(queryDefinition.terms))
      ensures dest.user == old(user) && dest.password == old(password)
      ensures dest.sshTunnelParams == old(sshTunnelParams)
      ensures dest.initialEntries == old(dest.initialEntries) && dest.follow == old(dest.follow)
      ensures dest.verbose == old(dest.verbose) && dest.moreVerbose == old(dest.moreVerbose)
      ensures dest.traceRequests == old(dest.traceRequests)
      ensures dest.saveQuery == old(dest.saveQuery) && dest.raw == old(dest.raw)
    {
      var st := searchTarget;
      var terms := queryDefinition.terms;
      dest.searchTarget := dest.searchTarget.(tunnelUrl := st.tunnelUrl);
      dest.searchTarget := dest.searchTarget.(url := st.url);
      dest.searchTarget := dest.searchTarget.(extraHeaders := st.extraHeaders);
      dest.searchTarget := dest.searchTarget.(cert := st.cert);
      dest.searchTarget := dest.searchTarget.(key := st.key);
      dest.searchTarget := dest.searchTarget.(indexPattern := st.indexPattern);
      dest.queryDefinition := dest.queryDefinition.(terms := terms);
      var u, p, ssh := user, password, sshTunnelParams;
      dest.user := u;
      dest.password := p;
      dest.sshTunnelParams := ssh;
    }

    /** Copies the per-invocation settings: timestamp field, date bounds,
        follow flag, initial entry count and verbosity. */
    method CopyNonConfigRelevantSettingsTo(dest: Config)
      modifies dest
      ensures dest.queryDefinition == old(dest.queryDefinition).(
                timestampField := old(queryDefinition.timestampField),
                afterDateTime := old(queryDefinition.afterDateTime),
                beforeDateTime := old(queryDefinition.beforeDateTime))
      ensures dest.follow == old(follow) && dest.initialEntries == old(initialEntries)
      ensures dest.verbose == old(verbose) && dest.moreVerbose == old(moreVerbose)
      ensures dest.traceRequests == old(traceRequests)
      ensures dest.searchTarget == old(dest.searchTarget)
      ensures dest.user == old(dest.user) && dest.password == old(dest.password)
      ensures dest.sshTunnelParams == old(dest.sshTunnelParams)
      ensures dest.saveQuery == old(dest.saveQuery) && dest.raw == old(dest.raw)
    {
      var qd := queryDefinition;
      dest.queryDefinition := dest.queryDefinition.(timestampField := qd.timestampField);
      dest.queryDefinition := dest.queryDefinition.(afterDateTime := qd.afterDateTime);
      dest.queryDefinition := dest.queryDefinition.(beforeDateTime := qd.beforeDateTime);
      var f, n, v, mv, tr := follow, initialEntries, verbose, moreVerbose, traceRequests;
      dest.follow := f;
      dest.initialEntries := n;
      dest.verbose := v;
      dest.moreVerbose := mv;
      dest.traceRequests := tr;
    }

    /** A fresh configuration holding both groups of settings. The display
        format, the raw flag and the save flag belong to neither group, so
        the copy has them at their zero values. */
    method Copy() returns (r: Config)
      ensures fresh(r)
      ensures r.searchTarget == searchTarget
      ensures r.queryDefinition == queryDefinition.(format := "")
      ensures r.initialEntries == initialEntries && r.follow == follow
      ensures r.user == user && r.password == password
      ensures r.verbose == verbose && r.moreVerbose == moreVerbose
      ensures r.traceRequests == traceRequests
      ensures r.sshTunnelParams == sshTunnelParams
      ensures !r.saveQuery && !r.raw
    {
      r := new Config();
      CopyConfigRelevantSettingsTo(r);
      CopyNonConfigRelevantSettingsTo(r);
    }

    /** The run only lists results (does not follow) when following was not
        asked for or when the query is bounded by dates. */
    predicate IsListOnly()
      reads this
      ensures IsListOnly() <== queryDefinition.afterDateTime != ""
      ensures !IsListOnly() ==> follow && queryDefinition.beforeDateTime == ""
    {
      !follow || queryDefinition.IsDateTimeFiltered()
    }
  }

  /** True iff one of the configuration-relevant flags was given on the
      command line; `isSet` is the set of flags the user gave. */
  method IsConfigRelevantFlagSet(isSet: set<string>) returns (r: bool)
    ensures r <==> exists k :: 0 <= k < |ConfigRelevantFlags| && ConfigRelevantFlags[k] in isSet
  {
    var k := 0;
    while k < |ConfigRelevantFlags|
      invariant 0 <= k <= |ConfigRelevantFlags|
      invariant forall j :: 0 <= j < k ==> ConfigRelevantFlags[j] !in isSet
    {
      if ConfigRelevantFlags[k] in isSet {
        return true;
      }
      k := k + 1;
    }
    return false;
  }
}
