/** Which cookie rows of a storage state apply to an origin, and when the earliest of them runs out. */
module CookieApplicability {
  import opened Wrappers
  import opened AddressCase

  /** One item of the `cookies` list: fields of the wrong type read as absent. */
  datatype Row =
    | NotAnObject
    | Row(domain: Option<string>, path: Option<string>, expires: Option<real>)

  datatype Applicability = Applicability(
    cookieCount: nat, applicableCount: nat, applicableExpired: bool, earliestApplicableExpiry: Option<real>)

  datatype ExpirySummary = ExpirySummary(earliestExpiry: Option<real>, timed: nat, session: nat, unexpiredTimed: nat)

  const SESSION := -1.0

  function StripTrailingSlashes(s: string): (r: string)
    ensures r <= s && (r == "" || r[|r| - 1] != '/')
    ensures forall i :: |r| <= i < |s| ==> s[i] == '/'
  {
    if s != "" && s[|s| - 1] == '/' then StripTrailingSlashes(s[..|s| - 1]) else s
  }

  function WithoutScheme(origin: string): string {
    if |origin| >= 8 && Lower(origin[..8]) == "https://" then origin[8..]
    else if |origin| >= 7 && Lower(origin[..7]) == "http://" then origin[7..]
    else origin
  }

  function UpToSlash(s: string): (r: string)
    ensures r <= s && '/' !in r && (r == s || s[|r|] == '/')
  {
    if s == "" || s[0] == '/' then "" else [s[0]] + UpToSlash(s[1..])
  }

  function AppHost(origin: string): string {
    UpToSlash(WithoutScheme(origin))
  }

  predicate EndsWith(s: string, end: string) {
    |end| <= |s| && s[|s| - |end|..] == end
  }

  function CookieDomain(row: Row): string
    requires row.Row?
  {
    if row.domain.None? then ""
    else if row.domain.value != "" && row.domain.value[0] == '.' then row.domain.value[1..]
    else row.domain.value
  }

  predicate DomainApplicable(domain: string, host: string) {
    domain == host || (domain != "" && EndsWith(host, "." + domain))
  }

  function CookiePath(row: Row): string
    requires row.Row?
  {
    if row.path.Some? then row.path.value else ""
  }

  predicate PathApplicable(cookiePath: string, appPath: string) {
    || cookiePath == ""
    || cookiePath == "/"
    || StripTrailingSlashes(appPath) + "/" == StripTrailingSlashes(cookiePath) + "/"
    || appPath == cookiePath
    || (cookiePath != "/" && StripTrailingSlashes(cookiePath) + "/" <= appPath)
  }

  predicate Applies(row: Row, origin: string, appPath: string) {
    row.Row? && DomainApplicable(CookieDomain(row), AppHost(origin)) && PathApplicable(CookiePath(row), appPath)
  }

  /** A timed row carries a positive expiry; a session row carries exactly -1; the rest are stale. */
  predicate Timed(row: Row) {
    row.Row? && row.expires.Some? && row.expires.value > 0.0
  }

  predicate SessionRow(row: Row) {
    row.Row? && row.expires == Some(SESSION)
  }

  predicate Expired(row: Row, atSeconds: int)
    requires row.Row?
  {
    !SessionRow(row) && !(row.expires.Some? && row.expires.value > atSeconds as real)
  }

  // ----- the rows a scan looks at -----

  function Objects(rows: seq<Row>): nat {
    if rows == [] then 0 else Objects(rows[..|rows| - 1]) + if rows[|rows| - 1].Row? then 1 else 0
  }

  function Applicable(rows: seq<Row>, origin: string, appPath: string): seq<Row> {
    if rows == [] then []
    else
      var last := rows[|rows| - 1];
      Applicable(rows[..|rows| - 1], origin, appPath) + if Applies(last, origin, appPath) then [last] else []
  }

  /** The positive expiries of some rows, in order. */
  function Expiries(rows: seq<Row>): seq<real> {
    if rows == [] then []
    else
      var last := rows[|rows| - 1];
      Expiries(rows[..|rows| - 1]) + if Timed(last) then [last.expires.value] else []
  }

  function Sessions(rows: seq<Row>): nat {
    if rows == [] then 0 else Sessions(rows[..|rows| - 1]) + if SessionRow(rows[|rows| - 1]) then 1 else 0
  }

  function After(values: seq<real>, atSeconds: int): nat {
    if values == [] then 0
    else After(values[..|values| - 1], atSeconds) + if values[|values| - 1] > atSeconds as real then 1 else 0
  }

  function Least(values: seq<real>): Option<real> {
    if values == [] then None
    else
      var before := Least(values[..|values| - 1]);
      var last := values[|values| - 1];
      if before.Some? && before.value <= last then before else Some(last)
  }

  predicate AnyExpired(rows: seq<Row>, atSeconds: int) {
    exists row :: row in rows && row.Row? && Expired(row, atSeconds)
  }

  /** What the scan means, apart from how it is computed. */
  function Inspect(rows: seq<Row>, origin: string, appPath: string, atSeconds: int): Applicability {
    var applicable := Applicable(rows, origin, appPath);
    Applicability(Objects(rows), |applicable|, AnyExpired(applicable, atSeconds), Least(Expiries(applicable)))
  }

  lemma {:induction false} ApplicableMembers(rows: seq<Row>, origin: string, appPath: string)
    ensures forall row :: row in Applicable(rows, origin, appPath) <==> row in rows && Applies(row, origin, appPath)
  {
    hide Applies;
    if rows != [] {
      ApplicableMembers(rows[..|rows| - 1], origin, appPath);
      assert rows == rows[..|rows| - 1] + [rows[|rows| - 1]];
    }
  }

  lemma {:induction false} ExpiriesMembers(rows: seq<Row>)
    ensures forall e :: e in Expiries(rows) <==> exists row :: row in rows && Timed(row) && row.expires.value == e
  {
    if rows != [] {
      ExpiriesMembers(rows[..|rows| - 1]);
      assert rows == rows[..|rows| - 1] + [rows[|rows| - 1]];
    }
  }

  lemma {:induction false} LeastIsMinimum(values: seq<real>)
    ensures Least(values).None? <==> values == []
    ensures Least(values).Some? ==> Least(values).value in values && forall v :: v in values ==> Least(values).value <= v
  {
    if values != [] {
      LeastIsMinimum(values[..|values| - 1]);
      assert values == values[..|values| - 1] + [values[|values| - 1]];
    }
  }

  /** The scan of any origin text reports the minimum over exactly the timed rows its test lets through. */
  lemma ScanByTest(rows: seq<Row>, origin: string, appPath: string, atSeconds: int)
    ensures var r := Inspect(rows, origin, appPath, atSeconds);
            && (r.applicableExpired <==> exists row :: row in rows && Applies(row, origin, appPath) && Expired(row, atSeconds))
            && (r.earliestApplicableExpiry.None? <==> forall row :: row in rows && Applies(row, origin, appPath) ==> !Timed(row))
            && (r.earliestApplicableExpiry.Some? ==>
                  && (exists row :: row in rows && Applies(row, origin, appPath) && Timed(row) && row.expires == r.earliestApplicableExpiry)
                  && forall row :: row in rows && Applies(row, origin, appPath) && Timed(row) ==>
                       r.earliestApplicableExpiry.value <= row.expires.value)
  {
    var applicable := Applicable(rows, origin, appPath);
    ApplicableMembers(rows, origin, appPath);
    ExpiriesMembers(applicable);
    LeastIsMinimum(Expiries(applicable));
    hide DomainApplicable;
    hide PathApplicable;
    hide Applicable;
    hide Expiries;
    hide Least;
    forall row | row in applicable && Timed(row) ensures row.expires.value in Expiries(applicable) {
    }
    if Expiries(applicable) != [] {
      var e := Expiries(applicable)[0];
      assert e in Expiries(applicable);
      var row :| row in applicable && Timed(row) && row.expires.value == e;
      assert row in rows && Applies(row, origin, appPath);
    }
  }

  method InspectStorageStateCookieApplicability(rows: seq<Row>, origin: string, appPath: string, atSeconds: int)
    returns (r: Applicability)
    ensures r == Inspect(rows, origin, appPath, atSeconds)
  {
    var cookieCount, applicableCount, applicableExpired := 0, 0, false;
    var earliest: Option<real> := None;
    hide DomainApplicable;
    hide PathApplicable;
    hide AnyExpired;
    hide Least;
    hide Expiries;
    NothingScanned(atSeconds);
    for i := 0 to |rows|
      invariant Applicability(cookieCount, applicableCount, applicableExpired, earliest) == Inspect(rows[..i], origin, appPath, atSeconds)
    {
      var item := rows[i];
      ghost var before := Applicable(rows[..i], origin, appPath);
      assert rows[..i + 1][..i] == rows[..i] && before + [] == before;
      if item.NotAnObject? { continue; }
      cookieCount := cookieCount + 1;
      if !DomainApplicable(CookieDomain(item), AppHost(origin)) || !PathApplicable(CookiePath(item), appPath) { continue; }
      applicableCount := applicableCount + 1;
      AppendScan(before, item, atSeconds);
      if Expired(item, atSeconds) { applicableExpired := true; }
      if Timed(item) && (earliest.None? || item.expires.value < earliest.value) {
        earliest := item.expires;
      }
    }
    assert rows[..|rows|] == rows;
    r := Applicability(cookieCount, applicableCount, applicableExpired, earliest);
  }

  lemma NothingScanned(atSeconds: int)
    ensures !AnyExpired([], atSeconds) && Least(Expiries([])) == None
  {
  }

  /** One more row adds its own verdict and its own expiry. */
  lemma AppendScan(before: seq<Row>, item: Row, atSeconds: int)
    requires item.Row?
    ensures AnyExpired(before + [item], atSeconds) <==> AnyExpired(before, atSeconds) || Expired(item, atSeconds)
    ensures !Timed(item) ==> Least(Expiries(before + [item])) == Least(Expiries(before))
    ensures Timed(item) ==>
              Least(Expiries(before + [item])) ==
              if Least(Expiries(before)).Some? && Least(Expiries(before)).value <= item.expires.value
              then Least(Expiries(before)) else item.expires
  {
    var all := before + [item];
    assert all[..|all| - 1] == before;
    assert forall row :: row in all <==> row in before || row == item;
    assert Expiries(before) + [] == Expiries(before);
    if Timed(item) { OneMoreValue(Expiries(before), item.expires.value, atSeconds); }
  }

  method InspectStorageStateCookieExpiries(rows: seq<Row>, atSeconds: int) returns (r: ExpirySummary)
    ensures r == ExpirySummary(Least(Expiries(rows)), |Expiries(rows)|, Sessions(rows), After(Expiries(rows), atSeconds))
  {
    var earliest: Option<real> := None;
    var timed, session, unexpiredTimed := 0, 0, 0;
    hide Least;
    hide After;
    NothingCounted(atSeconds);
    for i := 0 to |rows|
      invariant earliest == Least(Expiries(rows[..i]))
      invariant timed == |Expiries(rows[..i])| && session == Sessions(rows[..i])
      invariant unexpiredTimed == After(Expiries(rows[..i]), atSeconds)
    {
      var item := rows[i];
      ghost var before := Expiries(rows[..i]);
      assert rows[..i + 1][..i] == rows[..i] && before + [] == before;
      if item.NotAnObject? || item.expires.None? { continue; }
      var expires := item.expires.value;
      if expires == SESSION {
        session := session + 1;
        continue;
      }
      if expires > 0.0 {
        OneMoreValue(before, expires, atSeconds);
        timed := timed + 1;
        if expires > atSeconds as real { unexpiredTimed := unexpiredTimed + 1; }
        if earliest.None? || expires < earliest.value { earliest := Some(expires); }
      }
    }
    assert rows[..|rows|] == rows;
    r := ExpirySummary(earliest, timed, session, unexpiredTimed);
  }

  lemma NothingCounted(atSeconds: int)
    ensures Least([]) == None && After([], atSeconds) == 0
  {
  }

  lemma OneMoreValue(values: seq<real>, last: real, atSeconds: int)
    ensures Least(values + [last]) ==
            if Least(values).Some? && Least(values).value <= last then Least(values) else Some(last)
    ensures After(values + [last], atSeconds) == After(values, atSeconds) + if last > atSeconds as real then 1 else 0
  {
    assert (values + [last])[..|values|] == values;
  }

  // ----- the path test and RFC 6265 -----

  /** Path-match, section 5.1.4 of RFC 6265. */
  predicate PathMatches(cookiePath: string, requestPath: string) {
    || cookiePath == requestPath
    || (cookiePath != "" && cookiePath <= requestPath && cookiePath[|cookiePath| - 1] == '/')
    || (cookiePath < requestPath && requestPath[|cookiePath|] == '/')
  }

  /** The cookie path with its trailing slashes removed, read as the root when nothing is left. */
  function TrimmedPath(cookiePath: string): string {
    if StripTrailingSlashes(cookiePath) == "" then "/" else StripTrailingSlashes(cookiePath)
  }

  lemma StripOnlySlashes(s: string, t: string)
    requires t <= s && (t == "" || t[|t| - 1] != '/') && forall i :: |t| <= i < |s| ==> s[i] == '/'
    ensures StripTrailingSlashes(s) == t
  {
    var r := StripTrailingSlashes(s);
    assert |t| > 0 ==> s[|t| - 1] == t[|t| - 1];
    assert |r| > 0 ==> s[|r| - 1] == r[|r| - 1];
  }

  /**
    The five-way test is path-match on the trimmed cookie path, for every application path that
    starts with a slash.
   */
  lemma PathTestIsPathMatch(cookiePath: string, appPath: string)
    requires appPath != "" && appPath[0] == '/'
    ensures PathApplicable(cookiePath, appPath) <==> PathMatches(TrimmedPath(cookiePath), appPath)
  {
    var c, a := StripTrailingSlashes(cookiePath), StripTrailingSlashes(appPath);
    if c == "" {
      assert "/" <= appPath;
      assert PathMatches("/", appPath);
      if cookiePath != "" && cookiePath != "/" {
        assert c + "/" == "/";
      }
    } else {
      assert cookiePath != "/" && cookiePath != "";
      if a + "/" == c + "/" {
        assert a == (a + "/")[..|a|] && c == (c + "/")[..|c|];
        assert a == c;
        assert PathMatches(c, appPath);
      }
      if appPath == cookiePath { assert PathMatches(c, appPath); }
      if c + "/" <= appPath {
        assert (c + "/")[|c|] == '/' && c == (c + "/")[..|c|];
        assert PathMatches(c, appPath);
      }
      if PathMatches(c, appPath) {
        if c == appPath {
          StripOnlySlashes(appPath, c);
        } else {
          assert c + "/" == appPath[..|c| + 1];
        }
      }
    }
  }

  /** Domain-match, section 5.1.3 of RFC 6265, for host names. */
  predicate DomainMatches(host: string, domain: string) {
    || host == domain
    || (|domain| < |host| && host[|host| - |domain|..] == domain && host[|host| - |domain| - 1] == '.')
  }

  /**
    The two-way test is domain-match on the cookie domain; an empty domain matches an empty host only.
    Exactly one leading dot is dropped before.
   */
  lemma DomainTestIsDomainMatch(domain: string, path: Option<string>, expires: Option<real>, host: string)
    ensures DomainApplicable(domain, host) <==> if domain == "" then host == "" else DomainMatches(host, domain)
    ensures CookieDomain(Row(Some("." + domain), path, expires)) == domain
    ensures domain == "" || domain[0] != '.' ==> CookieDomain(Row(Some(domain), path, expires)) == domain
    ensures CookieDomain(Row(None, path, expires)) == ""
  {
    assert ("." + domain)[1..] == domain;
    var end := "." + domain;
    if EndsWith(host, end) {
      EndCharacters(host, end);
      assert host[|host| - |domain|..] == host[|host| - |end|..][1..] == domain;
    }
    if DomainMatches(host, domain) && host != domain {
      assert host[|host| - |end|..] == [host[|host| - |end|]] + host[|host| - |domain|..];
    }
  }

  lemma EndCharacters(s: string, end: string)
    requires EndsWith(s, end)
    ensures end != "" ==> s[|s| - |end|] == end[0]
    ensures forall i :: |s| - |end| <= i < |s| ==> s[i] in end
  {
    forall i | |s| - |end| <= i < |s| ensures s[i] in end {
      assert s[|s| - |end|..][i - (|s| - |end|)] == s[i];
    }
  }

  /**
    The host keeps its port, so on an origin with an explicit port no cookie applies whose domain
    holds no port: neither the equal host name nor a parent domain is recognised.
   */
  lemma PortHidesDomain(domain: string, name: string, port: string)
    requires ':' !in domain && '.' !in port
    ensures !DomainApplicable(domain, name + ":" + port)
    ensures EndsWith(name, "." + domain) || name == domain ==> domain == "" || DomainApplicable(domain, name)
  {
    var host := name + ":" + port;
    assert host[|name|] == ':' && forall i :: |name| < i < |host| ==> host[i] == port[i - |name| - 1];
    assert ':' !in "." + domain && ("." + domain)[0] == '.';
    if EndsWith(host, "." + domain) { EndCharacters(host, "." + domain); }
  }

  // ----- the host of an origin -----

  /** A scheme with its two slashes, in any letter case. */
  predicate IsScheme(s: string) {
    InAnyCase(s, "http://", "HTTP://") || InAnyCase(s, "https://", "HTTPS://")
  }

  /** The origin is a scheme and this host, with or without a path behind it. */
  ghost predicate OriginOf(origin: string, host: string) {
    && '/' !in host
    && exists k :: 0 <= k <= |origin| && IsScheme(origin[..k]) && (origin[k..] == host || host + "/" <= origin[k..])
  }

  lemma {:induction false} CutAtSlash(s: string, host: string)
    requires '/' !in host && (s == host || host + "/" <= s)
    ensures UpToSlash(s) == host
  {
    var r := UpToSlash(s);
    if s != host {
      assert s[|host|] == (host + "/")[|host|];
      assert forall i :: 0 <= i < |host| ==> s[i] == (host + "/")[i];
    }
    assert forall i :: 0 <= i < |r| ==> r[i] == s[i];
  }

  lemma SchemeIsDropped(origin: string, k: nat)
    requires k <= |origin| && IsScheme(origin[..k])
    ensures WithoutScheme(origin) == origin[k..]
  {
    var scheme := origin[..k];
    assert forall i :: 0 <= i < k ==> origin[i] == scheme[i];
    if InAnyCase(scheme, "https://", "HTTPS://") {
      assert Lower(origin[..8]) == "https://";
    } else {
      assert Lower(origin[..7]) == "http://";
      if |origin| >= 8 {
        assert Lower(origin[..8])[4] == LowerChar(origin[4]) == ':';
        assert Lower(origin[..8]) != "https://";
      }
    }
  }

  /**
    Whatever the letter case of the scheme and whatever follows the host, the host of an origin is the
    text between the scheme and the next slash; a text without a scheme is cut at its first slash.
   */
  lemma AppHostExactly(origin: string, host: string)
    ensures OriginOf(origin, host) ==> AppHost(origin) == host
    ensures '/' !in host && (origin == host || host + "/" <= origin) && !(exists k :: 0 <= k <= |origin| && IsScheme(origin[..k])) ==>
              AppHost(origin) == host
  {
    if OriginOf(origin, host) {
      var k :| 0 <= k <= |origin| && IsScheme(origin[..k]) && (origin[k..] == host || host + "/" <= origin[k..]);
      SchemeIsDropped(origin, k);
      CutAtSlash(origin[k..], host);
    } else if '/' !in host && (origin == host || host + "/" <= origin) && !(exists k :: 0 <= k <= |origin| && IsScheme(origin[..k])) {
      LowerSchemes(origin);
      CutAtSlash(origin, host);
    }
  }

  lemma LowerSchemes(origin: string)
    requires !(exists k :: 0 <= k <= |origin| && IsScheme(origin[..k]))
    ensures WithoutScheme(origin) == origin
  {
    if |origin| >= 8 && Lower(origin[..8]) == "https://" {
      LowerExactly(origin[..8], "https://", "HTTPS://");
    }
    if |origin| >= 7 && Lower(origin[..7]) == "http://" {
      LowerExactly(origin[..7], "http://", "HTTP://");
    }
  }

  /** A cookie row covers a path of a host: domain-match without one leading dot, and path-match. */
  predicate Covers(row: Row, host: string, appPath: string) {
    && row.Row?
    && (if CookieDomain(row) == "" then host == "" else DomainMatches(host, CookieDomain(row)))
    && PathMatches(TrimmedPath(CookiePath(row)), appPath)
  }

  /** On the root path a cookie path matches iff it consists of slashes. */
  lemma RootPath(cookiePath: string)
    ensures PathMatches(TrimmedPath(cookiePath), "/") <==> forall i :: 0 <= i < |cookiePath| ==> cookiePath[i] == '/'
  {
    var t := StripTrailingSlashes(cookiePath);
    if t != "" {
      assert cookiePath[|t| - 1] == t[|t| - 1];
    } else {
      assert PathMatches("/", "/");
    }
  }

  /** For the origins a record may name, a row applies iff it covers the host of the origin. */
  lemma AppliesExactly(row: Row, origin: string, host: string, appPath: string)
    requires OriginOf(origin, host) && appPath != "" && appPath[0] == '/'
    ensures Applies(row, origin, appPath) <==> Covers(row, host, appPath)
  {
    AppHostExactly(origin, host);
    hide AppHost;
    hide PathApplicable;
    hide DomainApplicable;
    hide PathMatches;
    hide DomainMatches;
    if row.Row? {
      DomainTestIsDomainMatch(CookieDomain(row), None, None, host);
      PathTestIsPathMatch(CookiePath(row), appPath);
    }
  }

  /**
    The scan of an origin, in terms of its host: expired iff a row that covers the host and path is, and
    the earliest expiry is the minimum over exactly the timed rows that do. Both counts are numbers of
    rows.
   */
  lemma EarliestApplicableIsMinimum(rows: seq<Row>, origin: string, host: string, appPath: string, atSeconds: int)
    requires OriginOf(origin, host) && appPath != "" && appPath[0] == '/'
    ensures var r := Inspect(rows, origin, appPath, atSeconds);
            && (r.applicableExpired <==> exists row :: row in rows && Covers(row, host, appPath) && Expired(row, atSeconds))
            && (r.earliestApplicableExpiry.None? <==> forall row :: row in rows && Covers(row, host, appPath) ==> !Timed(row))
            && (r.earliestApplicableExpiry.Some? ==>
                  && (exists row :: row in rows && Covers(row, host, appPath) && Timed(row) && row.expires == r.earliestApplicableExpiry)
                  && forall row :: row in rows && Covers(row, host, appPath) && Timed(row) ==>
                       r.earliestApplicableExpiry.value <= row.expires.value)
            && r.cookieCount == |RowsWhere(rows, (row: Row) => row.Row?)|
            && r.applicableCount == |RowsWhere(rows, Covering(host, appPath))|
  {
    ScanByTest(rows, origin, appPath, atSeconds);
    CountsOfHost(rows, origin, host, appPath);
    hide Inspect;
    hide Covers;
    forall row ensures Applies(row, origin, appPath) <==> Covers(row, host, appPath) {
      AppliesExactly(row, origin, host, appPath);
    }
    hide Applies;
    CountsInspected(rows, origin, appPath, atSeconds);
  }

  lemma CountsInspected(rows: seq<Row>, origin: string, appPath: string, atSeconds: int)
    ensures var r := Inspect(rows, origin, appPath, atSeconds);
            r.cookieCount == Objects(rows) && r.applicableCount == |Applicable(rows, origin, appPath)|
  {
  }

  /** The positions of the rows with a property. */
  function RowsWhere(rows: seq<Row>, p: Row -> bool): set<int> {
    set i | 0 <= i < |rows| && p(rows[i])
  }

  function Covering(host: string, appPath: string): Row -> bool {
    (row: Row) => Covers(row, host, appPath)
  }

  function TimedAfter(atSeconds: int): Row -> bool {
    (row: Row) => Timed(row) && row.expires.value > atSeconds as real
  }

  lemma OneMoreRow(rows: seq<Row>, p: Row -> bool)
    requires rows != []
    ensures |RowsWhere(rows, p)| == |RowsWhere(rows[..|rows| - 1], p)| + if p(rows[|rows| - 1]) then 1 else 0
  {
    var n := |rows| - 1;
    var front := rows[..n];
    assert RowsWhere(rows, p) == RowsWhere(front, p) + if p(rows[n]) then {n} else {};
  }

  lemma {:induction false} CountsOfHost(rows: seq<Row>, origin: string, host: string, appPath: string)
    requires OriginOf(origin, host) && appPath != "" && appPath[0] == '/'
    ensures Objects(rows) == |RowsWhere(rows, (row: Row) => row.Row?)|
    ensures |Applicable(rows, origin, appPath)| == |RowsWhere(rows, Covering(host, appPath))|
  {
    if rows != [] {
      var last := rows[|rows| - 1];
      CountsOfHost(rows[..|rows| - 1], origin, host, appPath);
      AppliesExactly(last, origin, host, appPath);
      hide Applies;
      hide Covers;
      hide OriginOf;
      OneMoreRow(rows, (row: Row) => row.Row?);
      OneMoreRow(rows, Covering(host, appPath));
      hide RowsWhere;
    }
  }

  /** The summary over all rows: each count is a number of rows. */
  lemma {:induction false} ExpiriesCounted(rows: seq<Row>, atSeconds: int)
    ensures |Expiries(rows)| == |RowsWhere(rows, Timed)| && Sessions(rows) == |RowsWhere(rows, SessionRow)|
    ensures After(Expiries(rows), atSeconds) == |RowsWhere(rows, TimedAfter(atSeconds))|
  {
    if rows != [] {
      var front, last := rows[..|rows| - 1], rows[|rows| - 1];
      ExpiriesCounted(front, atSeconds);
      OneMoreRow(rows, Timed);
      OneMoreRow(rows, SessionRow);
      OneMoreRow(rows, TimedAfter(atSeconds));
      if Timed(last) { OneMoreValue(Expiries(front), last.expires.value, atSeconds); }
      assert Expiries(front) + [] == Expiries(front);
      hide RowsWhere;
      hide After;
    }
  }
}
