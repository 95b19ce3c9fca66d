/** The decision logic of the public-address tool: which lookup response is
    accepted as the caller's address, which endpoints are consulted and in
    what order, what becomes of the details lookup, and which report lines
    and exit status the program produces.

    The network is a total function `fetch` from a URL to the outcome of one
    GET request to it; nothing here performs I/O. */
module GetIp {
  import opened Wrappers
  import opened PyStr

  /** What one `requests.get(url, timeout=5)` gives: either it raised (a
      timeout, a connection or DNS error), or a response arrived with a status
      code and a text body. `json` is what `response.json()` would give: the
      decoded object, or `None` when the body is not a JSON object (the
      decoding error is itself a `requests.RequestException`). */
  datatype Outcome =
    | Failure
    | Response(status: int, text: string, json: Option<map<string, string>>)

  /** The address echo services, in the order they are tried. */
  const IpServices: seq<string> := [
    "https://api.ipify.org",
    "https://ipinfo.io/ip",
    "https://icanhazip.com",
    "https://ident.me",
    "https://checkip.amazonaws.com"
  ]

  // ---------------------------------------------------------------------
  // The address acceptance rule
  // ---------------------------------------------------------------------

  /** The basic validation of a stripped body: it contains a dot and splits
      on dots into exactly four pieces. Nothing is checked about the pieces. */
  predicate LooksLikeAddress(ip: string) {
    '.' in ip && |Split(ip, '.')| == 4
  }

  /** The rule is exactly "three dots": the membership test adds nothing,
      and neither digits nor octet ranges are looked at. */
  lemma LooksLikeAddressIffThreeDots(ip: string)
    ensures LooksLikeAddress(ip) <==> Count(ip, '.') == 3
  {
    SplitLength(ip, '.');
    CountZero(ip, '.');
  }

  /** The four pieces of an accepted string are dot-free and join back to it. */
  lemma AcceptedPieces(ip: string)
    requires LooksLikeAddress(ip)
    ensures var p := Split(ip, '.'); ip == p[0] + "." + p[1] + "." + p[2] + "." + p[3]
    ensures forall k :: 0 <= k < 4 ==> '.' !in Split(ip, '.')[k]
  {
    var p := Split(ip, '.');
    SplitJoin(ip, '.');
    SplitPiecesFree(ip, '.');
    assert p[1..][1..][1..] == [p[3]];
    assert Join(p, '.') == p[0] + "." + Join(p[1..], '.');
    assert Join(p[1..], '.') == p[1] + "." + Join(p[1..][1..], '.');
    assert Join(p[1..][1..], '.') == p[2] + "." + p[3];
  }

  /** The address a single echo response yields, if any: a 200 response
      whose stripped text passes the rule yields that stripped text. */
  function Accepted(o: Outcome): Option<string> {
    if o.Response? && o.status == 200 && LooksLikeAddress(Strip(o.text))
    then Some(Strip(o.text))
    else None
  }

  /** What acceptance means for one response: it happens exactly for a 200
      response whose stripped text has three dots, and the address has no
      whitespace at either end and is what is left of the text once leading
      and trailing whitespace are removed. */
  lemma AcceptedMeans(o: Outcome)
    ensures Accepted(o).Some? <==>
            o.Response? && o.status == 200 && Count(Strip(o.text), '.') == 3
    ensures Accepted(o).Some? ==>
            var ip := Accepted(o).value;
            ip != [] && NoEdgeSpace(ip) && Count(ip, '.') == 3 &&
            exists pre, post :: AllSpace(pre) && AllSpace(post) && o.text == pre + ip + post
  {
    if o.Response? {
      LooksLikeAddressIffThreeDots(Strip(o.text));
      StripDecomposes(o.text);
    }
  }

  /** A response whose text is an address padded with whitespace yields
      that address when its status is 200, and nothing otherwise. */
  lemma AcceptedPadded(status: int, pre: string, ip: string, post: string, json: Option<map<string, string>>)
    requires AllSpace(pre) && AllSpace(post) && NoEdgeSpace(ip)
    ensures Accepted(Response(status, pre + ip + post, json)) ==
            if status == 200 && Count(ip, '.') == 3 then Some(ip) else None
  {
    StripPadded(pre, ip, post);
    LooksLikeAddressIffThreeDots(ip);
  }

  /** A trailing newline is stripped before the rule is applied. */
  lemma AcceptedTrailingNewline()
    ensures Accepted(Response(200, "8.8.8.8\n", None)) == Some("8.8.8.8")
  {
    AcceptedPadded(200, "", "8.8.8.8", "\n", None);
    assert "8.8.8.8\n" == "" + "8.8.8.8" + "\n";
  }

  /** Nothing but the dots is looked at: "a.b.c.d" is accepted. */
  lemma AcceptedNonNumeric()
    ensures Accepted(Response(200, "a.b.c.d", None)) == Some("a.b.c.d")
  {
    AcceptedPadded(200, "", "a.b.c.d", "", None);
    assert "a.b.c.d" == "" + "a.b.c.d" + "";
  }

  /** Three dots and nothing else are accepted too. */
  lemma AcceptedDotsOnly()
    ensures Accepted(Response(200, "...", None)) == Some("...")
  {
    AcceptedPadded(200, "", "...", "", None);
    assert "..." == "" + "..." + "";
  }

  /** An IPv6 literal has no dot and is rejected. */
  lemma RejectedIpv6()
    ensures Accepted(Response(200, "2001:db8::1", None)) == None
  {
    var text := "2001:db8::1";
    assert NoEdgeSpace(text);
    StripPadded("", text, "");
    assert "" + text + "" == text;
    assert '.' !in text;
  }

  /** The stripped text of two- and four-dot bodies. */
  lemma StripUnpadded(text: string)
    requires NoEdgeSpace(text)
    ensures Strip(text) == text
  {
    StripPadded("", text, "");
    assert "" + text + "" == text;
  }

  /** Two dots are rejected. */
  lemma RejectedTwoDots()
    ensures Accepted(Response(200, "1.2.3", None)) == None
  {
    StripUnpadded("1.2.3");
    SplitLength("1.2.3", '.');
    assert Count("1.2.3", '.') == 2;
  }

  /** Four dots are rejected. */
  lemma RejectedFourDots()
    ensures Accepted(Response(200, "....", None)) == None
  {
    StripUnpadded("....");
    SplitLength("....", '.');
    assert Count("....", '.') == 4;
  }

  // ---------------------------------------------------------------------
  // The fallback scan over the echo services
  // ---------------------------------------------------------------------

  /** What each of `urls` yields when requested, in order: an accepted
      address or nothing. */
  function Candidates(fetch: string -> Outcome, urls: seq<string>): (c: seq<Option<string>>)
    ensures |c| == |urls|
    ensures forall k :: 0 <= k < |urls| ==> c[k] == Accepted(fetch(urls[k]))
  {
    if urls == [] then [] else [Accepted(fetch(urls[0]))] + Candidates(fetch, urls[1..])
  }

  /** The first value present, in order. */
  function FirstSome<T>(cands: seq<Option<T>>): Option<T> {
    if cands == [] then None
    else if cands[0].Some? then cands[0]
    else FirstSome(cands[1..])
  }

  /** The first value present decides: what comes before it is skipped. */
  lemma {:induction false} FirstSomePicksFirst<T>(cands: seq<Option<T>>, k: nat)
    requires k < |cands| && cands[k].Some?
    requires forall j :: 0 <= j < k ==> cands[j].None?
    ensures FirstSome(cands) == cands[k]
  {
    if k > 0 {
      FirstSomePicksFirst(cands[1..], k - 1);
    }
  }

  /** Nothing is found exactly when nothing is present. */
  lemma {:induction false} FirstSomeNone<T>(cands: seq<Option<T>>)
    ensures FirstSome(cands).None? <==> forall j :: 0 <= j < |cands| ==> cands[j].None?
  {
    if cands != [] {
      FirstSomeNone(cands[1..]);
      assert forall j :: 1 <= j < |cands| ==> cands[j] == cands[1..][j - 1];
    }
  }

  /** A found value is at some position that every earlier one failed to fill. */
  lemma {:induction false} FirstSomeFound<T>(cands: seq<Option<T>>) returns (k: nat)
    requires FirstSome(cands).Some?
    ensures k < |cands| && cands[k] == FirstSome(cands)
    ensures forall j :: 0 <= j < k ==> cands[j].None?
  {
    if cands[0].None? {
      var k' := FirstSomeFound(cands[1..]);
      k := k' + 1;
      forall j | 0 <= j < k ensures cands[j].None? {
        if j > 0 { assert cands[j] == cands[1..][j - 1]; }
      }
    } else {
      k := 0;
    }
  }

  /** Once a value is found, what follows cannot change it; if none is
      found, the scan goes on as if the empty positions were absent. */
  lemma {:induction false} FirstSomeAppend<T>(a: seq<Option<T>>, b: seq<Option<T>>)
    ensures FirstSome(a + b) == if FirstSome(a).Some? then FirstSome(a) else FirstSome(b)
  {
    if a == [] {
      assert a + b == b;
    } else {
      assert (a + b)[0] == a[0];
      assert (a + b)[1..] == a[1..] + b;
      FirstSomeAppend(a[1..], b);
    }
  }

  /** One step of the scan over the suffix of `urls` from position `i`. */
  lemma CandidatesStep(fetch: string -> Outcome, urls: seq<string>, i: nat)
    requires i < |urls|
    ensures FirstSome(Candidates(fetch, urls[i..])) ==
            if Accepted(fetch(urls[i])).Some? then Accepted(fetch(urls[i]))
            else FirstSome(Candidates(fetch, urls[i + 1..]))
  {
    assert urls[i..][1..] == urls[i + 1..];
  }

  lemma {:induction false} CandidatesAppend(fetch: string -> Outcome, a: seq<string>, b: seq<string>)
    ensures Candidates(fetch, a + b) == Candidates(fetch, a) + Candidates(fetch, b)
  {
    if a == [] {
      assert a + b == b;
    } else {
      assert (a + b)[0] == a[0];
      assert (a + b)[1..] == a[1..] + b;
      CandidatesAppend(fetch, a[1..], b);
    }
  }

  /** Only the outcomes up to the first accepted one matter: two networks
      that agree on those endpoints give the same address, whatever the
      endpoints after it would answer. */
  lemma ScanIgnoresLater(fetch: string -> Outcome, other: string -> Outcome, urls: seq<string>, k: nat)
    requires k < |urls| && Accepted(fetch(urls[k])).Some?
    requires forall j :: 0 <= j < k ==> Accepted(fetch(urls[j])).None?
    requires forall j :: 0 <= j <= k ==> other(urls[j]) == fetch(urls[j])
    ensures FirstSome(Candidates(fetch, urls)) == Accepted(fetch(urls[k]))
    ensures FirstSome(Candidates(other, urls)) == Accepted(fetch(urls[k]))
  {
    FirstSomePicksFirst(Candidates(fetch, urls), k);
    FirstSomePicksFirst(Candidates(other, urls), k);
  }

  /** Rejected endpoints, whatever the reason, are skipped: when the first
      `k` are all rejected the scan gives what it gives on the rest. */
  lemma ScanSkipsRejected(fetch: string -> Outcome, urls: seq<string>, k: nat)
    requires k <= |urls|
    requires forall j :: 0 <= j < k ==> Accepted(fetch(urls[j])).None?
    ensures FirstSome(Candidates(fetch, urls)) == FirstSome(Candidates(fetch, urls[k..]))
  {
    var front, back := Candidates(fetch, urls[..k]), Candidates(fetch, urls[k..]);
    assert urls == urls[..k] + urls[k..];
    CandidatesAppend(fetch, urls[..k], urls[k..]);
    FirstSomeNone(front);
    FirstSomeAppend(front, back);
  }

  /** Every address the scan finds is trimmed, non-empty, has three dots and
      is the stripped body of a 200 response. */
  lemma FoundAddressShape(fetch: string -> Outcome, urls: seq<string>)
    requires FirstSome(Candidates(fetch, urls)).Some?
    ensures var ip := FirstSome(Candidates(fetch, urls)).value;
            ip != [] && NoEdgeSpace(ip) && Count(ip, '.') == 3 &&
            exists u :: u in urls && fetch(u).Response? && fetch(u).status == 200 && Strip(fetch(u).text) == ip
  {
    var k := FirstSomeFound(Candidates(fetch, urls));
    AcceptedMeans(fetch(urls[k]));
  }

  /** `get_public_ip`: request the echo services in order and return the
      first accepted address, or `None`. Every failure is absorbed; the scan
      stops at the first accepted response. `requested` is the list of URLs
      requested, in order. The program passes `IpServices` as `services`. */
  method GetPublicIp(fetch: string -> Outcome, services: seq<string>) returns (ip: Option<string>, requested: seq<string>)
    ensures ip == FirstSome(Candidates(fetch, services))
    ensures requested <= services
    ensures forall j :: 0 <= j < |requested| - 1 ==> Accepted(fetch(requested[j])).None?
    ensures ip.Some? ==> requested != [] && ip == Accepted(fetch(requested[|requested| - 1]))
    ensures ip.None? ==> requested == services &&
                         forall j :: 0 <= j < |requested| ==> Accepted(fetch(requested[j])).None?
  {
    requested := [];
    var i := 0;
    while i < |services|
      invariant 0 <= i <= |services|
      invariant requested == services[..i]
      invariant forall j :: 0 <= j < |requested| ==> Accepted(fetch(requested[j])).None?
      invariant FirstSome(Candidates(fetch, services)) == FirstSome(Candidates(fetch, services[i..]))
    {
      var service := services[i];
      requested := requested + [service];
      assert requested == services[..i + 1];
      CandidatesStep(fetch, services, i);
      var response := fetch(service);
      if response.Response? && response.status == 200 {
        var candidate := Strip(response.text);
        if LooksLikeAddress(candidate) {
          ip := Some(candidate);
          return;
        }
      }
      i := i + 1;
    }
    ip := None;
  }

  // ---------------------------------------------------------------------
  // The details lookup
  // ---------------------------------------------------------------------

  /** The URL of the details lookup for an address (not otherwise checked). */
  function DetailsUrl(ip: string): string {
    "https://ipinfo.io/" + ip + "/json"
  }

  /** The details a lookup response yields: only a 200 response with a JSON
      object body yields anything, and then exactly that object; every
      other outcome is the empty map. */
  function DetailsOf(o: Outcome): (details: map<string, string>)
    ensures details != map[] ==> o.Response? && o.status == 200 && o.json == Some(details)
    ensures o.Response? && o.status == 200 && o.json.Some? ==> details == o.json.value
    ensures o.Failure? || o.status != 200 || o.json.None? ==> details == map[]
  {
    match o
    case Response(status, _, json) =>
      if status == 200 && json.Some? then json.value else map[]
    case Failure => map[]
  }

  /** `get_ip_details`: one lookup request for the address. */
  function GetIpDetails(fetch: string -> Outcome, ip: string): map<string, string> {
    DetailsOf(fetch(DetailsUrl(ip)))
  }

  // ---------------------------------------------------------------------
  // What `main` prints and how it exits
  // ---------------------------------------------------------------------

  /** The lines `main` prints, without their decoration. */
  datatype Line =
    | Title                   // the program's name
    | TitleRule               // the row of 30 '='
    | FetchingAddress         // "Fetching your public IP address..."
    | Unavailable             // the error that no address could be fetched
    | CheckConnection         // the advice to check the connection
    | YourAddress(ip: string)
    | FetchingDetails         // "Fetching additional details..."
    | DetailsHeading          // "IP Details:"
    | DetailsRule             // the row of 20 '-'
    | Location(place: string)
    | Organization(org: string)
    | Timezone(zone: string)
    | Hostname(host: string)
    | Retrieved(ip: string)   // the closing success line

  datatype Report = Report(lines: seq<Line>, exitCode: int)

  /** The lines printed before the address lookup. */
  function Banner(): seq<Line> {
    [Title, TitleRule, FetchingAddress]
  }

  /** `if not ip`: no address, or an empty one. */
  predicate Missing(ip: Option<string>) {
    ip.None? || ip.value == []
  }

  /** The location line, when city, region and country are all present. */
  function LocationLine(details: map<string, string>): seq<Line> {
    if "city" in details && "region" in details && "country" in details
    then [Location(details["city"] + ", " + details["region"] + ", " + details["country"])]
    else []
  }

  /** The lines of the other fields, each when its key is present. */
  function FieldLines(details: map<string, string>): seq<Line> {
    (if "org" in details then [Organization(details["org"])] else [])
    + (if "timezone" in details then [Timezone(details["timezone"])] else [])
    + (if "hostname" in details then [Hostname(details["hostname"])] else [])
  }

  /** The details section: nothing for an empty map, otherwise a heading and
      one line per present field. */
  function DetailsSection(details: map<string, string>): seq<Line> {
    if details == map[] then []
    else [DetailsHeading, DetailsRule] + LocationLine(details) + FieldLines(details)
  }

  /** The output of `main` for the address found and the details fetched;
      the exit status is 1 exactly when there is no address, 0 otherwise. */
  function Present(ip: Option<string>, details: map<string, string>): (r: Report)
    ensures r.exitCode == if Missing(ip) then 1 else 0
  {
    if Missing(ip) then
      Report(Banner() + [Unavailable, CheckConnection], 1)
    else
      Report(Banner() + [YourAddress(ip.value), FetchingDetails] + DetailsSection(details)
             + [Retrieved(ip.value)], 0)
  }

  /** Without an address only the banner and the error are printed; with
      one, the address follows the banner and the success line is last. */
  lemma PresentFrame(ip: Option<string>, details: map<string, string>)
    ensures Missing(ip) ==> Present(ip, details).lines == Banner() + [Unavailable, CheckConnection]
    ensures !Missing(ip) ==>
              var lines := Present(ip, details).lines;
              |lines| >= 6 && lines[3] == YourAddress(ip.value) && lines[|lines| - 1] == Retrieved(ip.value)
  {
    if !Missing(ip) {
      var head := [Title, TitleRule, FetchingAddress, YourAddress(ip.value), FetchingDetails];
      var section := DetailsSection(details);
      var lines := head + section + [Retrieved(ip.value)];
      assert Present(ip, details).lines == lines;
      assert |lines| == |head| + |section| + 1;
      assert lines[3] == head[3];
      assert lines[|lines| - 1] == Retrieved(ip.value);
    }
  }

  /** The error lines are printed exactly when there is no address. */
  lemma PresentError(ip: Option<string>, details: map<string, string>)
    ensures Unavailable in Present(ip, details).lines <==> Missing(ip)
    ensures CheckConnection in Present(ip, details).lines <==> Missing(ip)
  {
    if !Missing(ip) {
      var head := [Title, TitleRule, FetchingAddress, YourAddress(ip.value), FetchingDetails];
      var section := DetailsSection(details);
      var lines := head + section + [Retrieved(ip.value)];
      assert Present(ip, details).lines == lines;
      assert Unavailable !in head && CheckConnection !in head;
      assert Unavailable !in section && CheckConnection !in section;
    }
  }

  /** The details section appears exactly for an address and a non-empty map. */
  lemma PresentDetailsHeading(ip: Option<string>, details: map<string, string>)
    ensures DetailsHeading in Present(ip, details).lines <==> !Missing(ip) && details != map[]
  {
  }

  /** The location line appears exactly when city, region and country are all
      present, and then reads "city, region, country". */
  lemma PresentLocation(ip: Option<string>, details: map<string, string>, place: string)
    ensures Location(place) in Present(ip, details).lines <==>
              !Missing(ip) && "city" in details && "region" in details && "country" in details &&
              place == details["city"] + ", " + details["region"] + ", " + details["country"]
  {
    PresentSectionLine(ip, details, Location(place));
    assert "city" in details ==> details != map[];
  }

  /** Lines of the details section appear in the report exactly when an
      address was found and they appear in the section. */
  lemma PresentSectionLine(ip: Option<string>, details: map<string, string>, x: Line)
    requires x.Location? || x.Organization? || x.Timezone? || x.Hostname? || x.DetailsHeading?
    ensures x in Present(ip, details).lines <==> !Missing(ip) && x in DetailsSection(details)
  {
    if !Missing(ip) {
      var lines := Present(ip, details).lines;
      var head := Banner() + [YourAddress(ip.value), FetchingDetails];
      assert lines == head + DetailsSection(details) + [Retrieved(ip.value)];
      assert x !in head;
    }
  }

  /** The organization line appears exactly when "org" is present. */
  lemma PresentOrganization(ip: Option<string>, details: map<string, string>, org: string)
    ensures Organization(org) in Present(ip, details).lines <==>
              !Missing(ip) && "org" in details && org == details["org"]
  {
    PresentSectionLine(ip, details, Organization(org));
    assert "org" in details ==> details != map[];
  }

  /** The timezone line appears exactly when "timezone" is present. */
  lemma PresentTimezone(ip: Option<string>, details: map<string, string>, zone: string)
    ensures Timezone(zone) in Present(ip, details).lines <==>
              !Missing(ip) && "timezone" in details && zone == details["timezone"]
  {
    PresentSectionLine(ip, details, Timezone(zone));
    assert "timezone" in details ==> details != map[];
  }

  /** The hostname line appears exactly when "hostname" is present. */
  lemma PresentHostname(ip: Option<string>, details: map<string, string>, host: string)
    ensures Hostname(host) in Present(ip, details).lines <==>
              !Missing(ip) && "hostname" in details && host == details["hostname"]
  {
    PresentSectionLine(ip, details, Hostname(host));
    assert "hostname" in details ==> details != map[];
  }

  /** The report for the example lookup answer: a location line
      "Seattle, WA, US" and an organization line "ACME". */
  lemma PresentExample()
    ensures var d := map["city" := "Seattle", "region" := "WA", "country" := "US",
                         "org" := "ACME", "timezone" := "America/Los_Angeles"];
            var r := Present(Some("8.8.8.8"), d);
            Location("Seattle, WA, US") in r.lines && Organization("ACME") in r.lines &&
            r.exitCode == 0
  {
    var d := map["city" := "Seattle", "region" := "WA", "country" := "US",
                 "org" := "ACME", "timezone" := "America/Los_Angeles"];
    PresentLocation(Some("8.8.8.8"), d, "Seattle, WA, US");
    PresentOrganization(Some("8.8.8.8"), d, "ACME");
  }

  /** `main`: resolve the address; with none, report the error and exit 1
      without any details lookup; otherwise fetch the details once and report
      them, exiting 0. `requested` is every URL requested, in order. */
  method Run(fetch: string -> Outcome) returns (r: Report, requested: seq<string>)
    ensures var ip := FirstSome(Candidates(fetch, IpServices));
            r == Present(ip, if ip.Some? then GetIpDetails(fetch, ip.value) else map[])
    ensures var ip := FirstSome(Candidates(fetch, IpServices));
            (r.exitCode == 1 <==> ip.None?) && (r.exitCode == 0 <==> ip.Some?)
    ensures var ip := FirstSome(Candidates(fetch, IpServices));
            ip.None? ==> requested == IpServices
    ensures var ip := FirstSome(Candidates(fetch, IpServices));
            ip.Some? ==> requested != [] && requested[|requested| - 1] == DetailsUrl(ip.value) &&
                         requested[..|requested| - 1] <= IpServices
  {
    var ip, tried := GetPublicIp(fetch, IpServices);
    if ip.Some? {
      FoundAddressShape(fetch, IpServices);
    }
    if Missing(ip) {
      r := Present(ip, map[]);
      requested := tried;
      return;
    }
    var details := GetIpDetails(fetch, ip.value);
    requested := tried + [DetailsUrl(ip.value)];
    r := Present(ip, details);
  }

  /** A details lookup that fails, is not 200, or is not a JSON object still
      leaves a report with the address, exit status 0 and no details section. */
  lemma PresentWithoutDetails(ip: string, lookup: Outcome)
    requires ip != []
    requires lookup.Failure? || lookup.status != 200 || lookup.json.None?
    ensures var r := Present(Some(ip), DetailsOf(lookup));
            r.exitCode == 0 && YourAddress(ip) in r.lines && DetailsHeading !in r.lines
  {
    PresentFrame(Some(ip), DetailsOf(lookup));
    PresentDetailsHeading(Some(ip), DetailsOf(lookup));
  }
}
