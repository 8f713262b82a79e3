// The discovery procedure of ai-catalog-discover: a prioritised search that requests
// no URL twice. Fetching, URL parsing and HTML parsing are parameters.

module Discover {
  import opened Basics
  import opened Catalog
  import Header = LinkHeader

  const WELL_KNOWN_PATH := "/.well-known/ai-catalog.json"
  const LINK_RELATION := "ai-catalog"

  datatype Url = Url(scheme: string, host: string, resource: string, fragment: Option<string>)

  datatype Response = Response(
    url: Url,
    status: nat,
    contentType: Option<string>,
    linkHeaders: seq<string>,
    body: Bytes)

  /** The `<base href>` and the matching `<link href>` values of an HTML document. */
  datatype HtmlLinks = HtmlLinks(base: Option<string>, hrefs: seq<string>)

  datatype Web = Web(
    get: Url -> Option<Response>,
    parseUrl: string -> Option<Url>,
    join: (Url, string) -> Option<Url>,
    parseCatalog: Bytes -> Option<AiCatalog>,
    findLinks: Bytes -> HtmlLinks)

  datatype Means = Direct | LinkHeader | HtmlLink | WellKnown

  datatype Reason = NoResponse | HttpStatus(status: nat) | HtmlPage | NotADocument | NoSpecVersion | NotHttps

  datatype Attempt = Attempt(url: Url, means: Means, reason: Reason)

  datatype Discovery = Discovery(url: Url, means: Means, catalog: AiCatalog, bytes: Bytes)

  datatype Finding = Found(discovery: Discovery) | NotFound(attempts: seq<Attempt>) | InvalidInput

  datatype Candidate = Candidate(url: Url, means: Means)

  // ---------------------------------------------------------------- responses

  predicate IsSuccess(r: Response) { 200 <= r.status < 300 }

  predicate IsHtml(r: Response) {
    match r.contentType
    case None => false
    case Some(value) => Lower(Trim(Split(value, ';')[0])) in ["text/html", "application/xhtml+xml"]
  }

  /** A response is a catalog when it succeeded and holds a document with a `specVersion`. */
  function AsCatalog(web: Web, r: Response): Result<AiCatalog, Reason> {
    if !IsSuccess(r) then Err(HttpStatus(r.status))
    else
      match web.parseCatalog(r.body)
      case None => Err(if IsHtml(r) then HtmlPage else NotADocument)
      case Some(c) => if Trim(c.specVersion) == "" then Err(NoSpecVersion) else Ok(c)
  }

  /** The response succeeded and holds a catalog whose `specVersion` is not blank. */
  predicate IsCatalogOf(web: Web, r: Response, c: AiCatalog) {
    200 <= r.status < 300 && web.parseCatalog(r.body) == Some(c) && HasText(c.specVersion)
  }

  /** What a response is, and why it is no catalog: its status, then its body, then its version. */
  lemma AsCatalogExact(web: Web, r: Response)
    ensures forall c :: AsCatalog(web, r) == Ok(c) <==> IsCatalogOf(web, r, c)
    ensures AsCatalog(web, r) == Err(HttpStatus(r.status)) <==> !(200 <= r.status < 300)
    ensures AsCatalog(web, r) == Err(HtmlPage) <==> 200 <= r.status < 300 && web.parseCatalog(r.body) == None && IsHtml(r)
    ensures AsCatalog(web, r) == Err(NotADocument) <==> 200 <= r.status < 300 && web.parseCatalog(r.body) == None && !IsHtml(r)
    ensures AsCatalog(web, r) == Err(NoSpecVersion) <==>
            200 <= r.status < 300 && web.parseCatalog(r.body).Some? && !HasText(web.parseCatalog(r.body).value.specVersion)
  {
    if web.parseCatalog(r.body).Some? {
      var _, _ := TrimExact(web.parseCatalog(r.body).value.specVersion);
    }
    hide Trim, HasText, IsHtml;
  }

  function Resolve(web: Web, base: Url, references: seq<string>): seq<Url> {
    if references == [] then []
    else
      var rest := Resolve(web, base, references[1..]);
      match web.join(base, references[0])
      case Some(url) => [url] + rest
      case None => rest
  }

  function HeaderTargets(web: Web, r: Response): seq<Url> {
    Resolve(web, r.url, Header.TargetsWithRel(r.linkHeaders, LINK_RELATION))
  }

  function HtmlBase(web: Web, r: Response): Url {
    match web.findLinks(r.body).base
    case None => r.url
    case Some(base) => (match web.join(r.url, base) case Some(url) => url case None => r.url)
  }

  function HtmlTargets(web: Web, r: Response): seq<Url> {
    Resolve(web, HtmlBase(web, r), web.findLinks(r.body).hrefs)
  }

  function By(urls: seq<Url>, means: Means): (cs: seq<Candidate>)
    ensures |cs| == |urls|
    ensures forall i :: 0 <= i < |cs| ==> cs[i] == Candidate(urls[i], means)
  {
    seq(|urls|, i requires 0 <= i < |urls| => Candidate(urls[i], means))
  }

  /** The links of a page: those of its headers, then those of its HTML. */
  function LinksOf(web: Web, r: Response): seq<Candidate> {
    if !IsSuccess(r) then []
    else By(HeaderTargets(web, r), LinkHeader) + if IsHtml(r) then By(HtmlTargets(web, r), HtmlLink) else []
  }

  // ---------------------------------------------------------------- specification

  predicate Contains(s: string, part: string) {
    exists i :: 0 <= i <= |s| && HasPrefix(s[i..], part)
  }

  function ParseInput(web: Web, input: string): Option<Url> {
    var trimmed := Trim(input);
    if trimmed == "" then None
    else
      match web.parseUrl(if Contains(trimmed, "://") then trimmed else "https://" + trimmed)
      case None => None
      case Some(url) => if url.scheme != "https" || url.host == "" then None else Some(url)
  }

  /** A URL without its fragment, which is never sent to the server. */
  function RequestKey(url: Url): Url { url.(fragment := None) }

  predicate SameOrigin(a: Url, b: Url) { a.scheme == b.scheme && a.host == b.host }

  function Links(web: Web, start: Url): seq<Candidate> {
    match web.get(start)
    case None => []
    case Some(r) => LinksOf(web, r)
  }

  function Https(cs: seq<Candidate>): seq<Candidate> {
    if cs == [] then []
    else (if cs[0].url.scheme == "https" then [cs[0]] else []) + Https(cs[1..])
  }

  function Refused(cs: seq<Candidate>): seq<Attempt> {
    if cs == [] then []
    else (if cs[0].url.scheme == "https" then [] else [Attempt(cs[0].url, cs[0].means, NotHttps)]) + Refused(cs[1..])
  }

  /** The host reached after redirects, if it is another one, and the host that was asked for. */
  function WellKnownBases(web: Web, start: Url): seq<Url> {
    match web.get(start)
    case None => [start]
    case Some(r) => if SameOrigin(r.url, start) then [start] else [r.url, start]
  }

  function WellKnowns(web: Web, bases: seq<Url>): seq<Candidate> {
    if bases == [] then []
    else
      var rest := WellKnowns(web, bases[1..]);
      match web.join(bases[0], WELL_KNOWN_PATH)
      case Some(url) => [Candidate(url, WellKnown)] + rest
      case None => rest
  }

  /** Everything to try after the URL itself, in order of priority. */
  function Queue(web: Web, start: Url): seq<Candidate> {
    Https(Links(web, start)) + WellKnowns(web, WellKnownBases(web, start))
  }

  /** The first candidate for every request key that is not in `seen`. */
  function Unseen(seen: set<Url>, cs: seq<Candidate>): seq<Candidate>
    decreases cs
  {
    if cs == [] then []
    else
      var key := RequestKey(cs[0].url);
      if key in seen then Unseen(seen, cs[1..]) else [cs[0]] + Unseen(seen + {key}, cs[1..])
  }

  /** The whole search, were nothing found: the URL itself, then each new candidate. */
  function Plan(web: Web, start: Url): seq<Candidate> {
    [Candidate(start, Direct)] + Unseen({RequestKey(start)}, Queue(web, start))
  }

  predicate IsCatalog(web: Web, c: Candidate) {
    match web.get(c.url)
    case None => false
    case Some(r) => AsCatalog(web, r).Ok?
  }

  /** Position of the first catalog, or the number of candidates. */
  function FirstCatalog(web: Web, cs: seq<Candidate>): (k: nat)
    ensures k <= |cs| && (k < |cs| ==> IsCatalog(web, cs[k]))
    ensures forall i :: 0 <= i < k ==> !IsCatalog(web, cs[i])
  {
    if cs == [] || IsCatalog(web, cs[0]) then 0 else 1 + FirstCatalog(web, cs[1..])
  }

  /** What a candidate that is no catalog contributes to the report. */
  function Failure(web: Web, c: Candidate): Attempt {
    match web.get(c.url)
    case None => Attempt(c.url, c.means, NoResponse)
    case Some(r) =>
      match AsCatalog(web, r)
      case Err(reason) => Attempt(r.url, c.means, reason)
      case Ok(_) => Attempt(r.url, c.means, NoResponse)
  }

  function Failures(web: Web, cs: seq<Candidate>): (r: seq<Attempt>)
    ensures |r| == |cs|
    ensures forall i :: 0 <= i < |cs| ==> r[i] == Failure(web, cs[i])
  {
    if cs == [] then [] else [Failure(web, cs[0])] + Failures(web, cs[1..])
  }

  function DiscoveryOf(web: Web, c: Candidate): Discovery
    requires IsCatalog(web, c)
  {
    var r := web.get(c.url).value;
    Discovery(r.url, c.means, AsCatalog(web, r).value, r.body)
  }

  function UrlsOf(cs: seq<Candidate>): (urls: seq<Url>)
    ensures |urls| == |cs|
    ensures forall i :: 0 <= i < |cs| ==> urls[i] == cs[i].url
  {
    if cs == [] then [] else [cs[0].url] + UrlsOf(cs[1..])
  }

  function Attempts(web: Web, start: Url): seq<Attempt> {
    [Failure(web, Candidate(start, Direct))] + Refused(Links(web, start)) + Failures(web, Plan(web, start)[1..])
  }

  /** The first catalog of the plan, or a report of everything that was tried. */
  function Outcome(web: Web, start: Url): Finding {
    var plan := Plan(web, start);
    var k := FirstCatalog(web, plan);
    if k < |plan| then Found(DiscoveryOf(web, plan[k])) else NotFound(Attempts(web, start))
  }

  /** The URLs that are requested: the plan up to its first catalog. */
  function Requests(web: Web, start: Url): seq<Url> {
    var plan := Plan(web, start);
    var k := FirstCatalog(web, plan);
    UrlsOf(if k < |plan| then plan[..k + 1] else plan)
  }

  // ---------------------------------------------------------------- the procedure

  method KeepHttps(candidates: seq<Candidate>, unresolved: seq<Attempt>)
    returns (kept: seq<Candidate>, attempts: seq<Attempt>)
    ensures kept == Https(candidates)
    ensures attempts == unresolved + Refused(candidates)
  {
    kept, attempts := [], unresolved;
    assert candidates[0..] == candidates;
    Append([], Https(candidates));
    for i := 0 to |candidates|
      invariant kept + Https(candidates[i..]) == Https(candidates)
      invariant attempts + Refused(candidates[i..]) == unresolved + Refused(candidates)
    {
      var c := candidates[i];
      assert candidates[i..][0] == c && candidates[i..][1..] == candidates[i + 1..];
      var rest, refused := Https(candidates[i + 1..]), Refused(candidates[i + 1..]);
      hide Https, Refused;
      if c.url.scheme == "https" {
        Associate(kept, [c], rest);
        Append([], refused);
        kept := kept + [c];
      } else {
        var refusal := Attempt(c.url, c.means, NotHttps);
        Associate(attempts, [refusal], refused);
        Append([], rest);
        attempts := attempts + [refusal];
      }
    }
    Append(kept, []);
    Append(attempts, []);
  }

  method JoinWellKnown(web: Web, bases: seq<Url>) returns (candidates: seq<Candidate>)
    ensures candidates == WellKnowns(web, bases)
  {
    candidates := [];
    assert bases[0..] == bases;
    Append([], WellKnowns(web, bases));
    for i := 0 to |bases|
      invariant candidates + WellKnowns(web, bases[i..]) == WellKnowns(web, bases)
    {
      assert bases[i..][0] == bases[i] && bases[i..][1..] == bases[i + 1..];
      var rest := WellKnowns(web, bases[i + 1..]);
      hide WellKnowns;
      match web.join(bases[i], WELL_KNOWN_PATH) {
        case Some(url) =>
          Associate(candidates, [Candidate(url, WellKnown)], rest);
          candidates := candidates + [Candidate(url, WellKnown)];
        case None =>
      }
    }
    Append(candidates, []);
  }

  /** Tries candidates in order until one is a catalog; skips what was requested before. */
  method Search(web: Web, queue: seq<Candidate>, seen: set<Url>)
    returns (found: Option<Discovery>, attempts: seq<Attempt>, ghost requests: seq<Url>)
    ensures var plan := Unseen(seen, queue);
            var k := FirstCatalog(web, plan);
            && found == (if k < |plan| then Some(DiscoveryOf(web, plan[k])) else None)
            && (k == |plan| ==> attempts == Failures(web, plan))
    ensures var plan := Unseen(seen, queue);
            var k := FirstCatalog(web, plan);
            requests == UrlsOf(if k < |plan| then plan[..k + 1] else plan)
  {
    hide IsCatalog, Failure, RequestKey, DiscoveryOf, AsCatalog;
    var requested := seen;
    attempts, requests, found := [], [], None;
    ghost var plan := Unseen(seen, queue);
    ghost var done: seq<Candidate> := [];
    assert queue[0..] == queue;
    Append([], plan);
    for i := 0 to |queue|
      invariant done + Unseen(requested, queue[i..]) == plan
      invariant attempts == Failures(web, done) && requests == UrlsOf(done)
      invariant forall j :: 0 <= j < |done| ==> !IsCatalog(web, done[j])
      invariant found == None
    {
      var c := queue[i];
      assert queue[i..][0] == c && queue[i..][1..] == queue[i + 1..];
      var key := RequestKey(c.url);
      ghost var rest := Unseen(requested, queue[i..]);
      if key in requested {
        continue;
      }
      requested := requested + {key};
      ghost var later := Unseen(requested, queue[i + 1..]);
      assert rest == [c] + later;
      hide Unseen;
      Associate(done, [c], later);
      requests := requests + [c.url];
      UrlsSnoc(done, c);
      if IsCatalog(web, c) {
        FirstIs(web, done, c, later);
        return Some(DiscoveryOf(web, c)), attempts, requests;
      }
      attempts := attempts + [Failure(web, c)];
      FailuresSnoc(web, done, c);
      done := done + [c];
    }
    Append(done, []);
    NoneIs(web, done);
  }

  lemma UrlsSnoc(cs: seq<Candidate>, c: Candidate)
    ensures UrlsOf(cs + [c]) == UrlsOf(cs) + [c.url]
  {
    assert forall i :: 0 <= i < |cs| + 1 ==> UrlsOf(cs + [c])[i] == (UrlsOf(cs) + [c.url])[i];
  }

  lemma FailuresSnoc(web: Web, cs: seq<Candidate>, c: Candidate)
    ensures Failures(web, cs + [c]) == Failures(web, cs) + [Failure(web, c)]
  {
    hide Failure;
    assert forall i :: 0 <= i < |cs| + 1 ==> Failures(web, cs + [c])[i] == (Failures(web, cs) + [Failure(web, c)])[i];
  }

  lemma FirstIs(web: Web, done: seq<Candidate>, c: Candidate, later: seq<Candidate>)
    requires IsCatalog(web, c) && forall j :: 0 <= j < |done| ==> !IsCatalog(web, done[j])
    ensures var plan := done + [c] + later;
            && FirstCatalog(web, plan) == |done| < |plan| && plan[|done|] == c
            && plan[..|done| + 1] == done + [c]
  {
    hide IsCatalog;
    var plan := done + [c] + later;
    assert plan[|done|] == c && forall j :: 0 <= j < |done| ==> plan[j] == done[j];
    var k := FirstCatalog(web, plan);
    hide FirstCatalog;
  }

  lemma NoneIs(web: Web, done: seq<Candidate>)
    requires forall j :: 0 <= j < |done| ==> !IsCatalog(web, done[j])
    ensures FirstCatalog(web, done) == |done|
  {
    hide IsCatalog;
    var k := FirstCatalog(web, done);
  }

  /** The discovery procedure; `requests` is the trace of URLs that it asks the fetcher for. */
  method DiscoverWith(web: Web, input: string) returns (result: Finding, ghost requests: seq<Url>)
    ensures result == match ParseInput(web, input) {
                        case None => InvalidInput
                        case Some(start) => Outcome(web, start)
                      }
    ensures requests == match ParseInput(web, input) {
                          case None => []
                          case Some(start) => Requests(web, start)
                        }
    ensures TakesOwnResponse(web, input, result, requests)
  {
    ServedDirectly(web, input);
    hide TakesOwnResponse, IsCatalog, Failure, Links, WellKnownBases, DiscoveryOf, SameOrigin, AsCatalog, LinksOf, ParseInput, Outcome, Requests, Https, WellKnowns, Refused;
    requests := [];
    var parsed := ParseInput(web, input);
    if parsed.None? {
      return InvalidInput, [];
    }
    var start := parsed.value;
    var bases := [start];
    var candidates: seq<Candidate> := [];
    var first: Attempt;
    requests := [start];
    StartIs(web, start);
    match web.get(start) {
      case None =>
        first := Attempt(start, Direct, NoResponse);
      case Some(r) =>
        if !SameOrigin(r.url, start) {
          bases := [r.url] + bases;
        }
        match AsCatalog(web, r) {
          case Ok(catalog) =>
            OutcomeDirect(web, start);
            return Found(Discovery(r.url, Direct, catalog, r.body)), requests;
          case Err(reason) =>
            first := Attempt(r.url, Direct, reason);
        }
        candidates := LinksOf(web, r);
    }
    ghost var asked;
    result, asked := TryLinks(web, start, bases, candidates, first);
    requests := [start] + asked;
  }

  /** The search after the first request: the links, then the well-known URLs. */
  method TryLinks(web: Web, start: Url, bases: seq<Url>, candidates: seq<Candidate>, first: Attempt)
    returns (result: Finding, ghost asked: seq<Url>)
    requires bases == WellKnownBases(web, start) && candidates == Links(web, start)
    requires first == Failure(web, Candidate(start, Direct)) && !IsCatalog(web, Candidate(start, Direct))
    ensures result == Outcome(web, start)
    ensures [start] + asked == Requests(web, start)
  {
    hide *;
    QueueIs(web, start);
    RequestsLater(web, start, Unseen({RequestKey(start)}, Queue(web, start)));
    OutcomeLater(web, start, Unseen({RequestKey(start)}, Queue(web, start)));
    var https, attempts := KeepHttps(candidates, [first]);
    var wellKnown := JoinWellKnown(web, bases);
    var found, failed;
    found, failed, asked := Search(web, https + wellKnown, {RequestKey(start)});
    match found {
      case Some(discovery) => result := Found(discovery);
      case None => result := NotFound(attempts + failed);
    }
  }

  /** What the response to the first request decides. */
  lemma StartIs(web: Web, start: Url)
    ensures var direct := Candidate(start, Direct);
            match web.get(start)
            case None =>
              && WellKnownBases(web, start) == [start] && Links(web, start) == []
              && !IsCatalog(web, direct) && Failure(web, direct) == Attempt(start, Direct, NoResponse)
            case Some(r) =>
              && WellKnownBases(web, start) == (if SameOrigin(r.url, start) then [start] else [r.url] + [start])
              && Links(web, start) == LinksOf(web, r)
              && match AsCatalog(web, r)
                 case Ok(c) => IsCatalog(web, direct) && DiscoveryOf(web, direct) == Discovery(r.url, Direct, c, r.body)
                 case Err(reason) => !IsCatalog(web, direct) && Failure(web, direct) == Attempt(r.url, Direct, reason)
  {
    hide AsCatalog, LinksOf, SameOrigin;
  }

  /** When the URL itself serves a catalog, that is what is found, and nothing else is requested. */
  ghost predicate TakesOwnResponse(web: Web, input: string, result: Finding, requests: seq<Url>) {
    forall start, r, c :: ParseInput(web, input) == Some(start) && web.get(start) == Some(r) && IsCatalogOf(web, r, c) ==>
      result == Found(Discovery(r.url, Direct, c, r.body)) && requests == [start]
  }

  lemma ServedDirectly(web: Web, input: string)
    ensures TakesOwnResponse(web, input,
                             match ParseInput(web, input) { case None => InvalidInput case Some(start) => Outcome(web, start) },
                             match ParseInput(web, input) { case None => [] case Some(start) => Requests(web, start) })
  {
    hide ParseInput, Outcome, Requests, IsCatalogOf, AsCatalog;
    forall start, r, c | web.get(start) == Some(r) && IsCatalogOf(web, r, c)
      ensures Outcome(web, start) == Found(Discovery(r.url, Direct, c, r.body)) && Requests(web, start) == [start]
    {
      AsCatalogExact(web, r);
      OutcomeDirect(web, start);
    }
  }

  lemma OutcomeDirect(web: Web, start: Url)
    requires IsCatalog(web, Candidate(start, Direct))
    ensures Outcome(web, start) == Found(DiscoveryOf(web, Candidate(start, Direct)))
    ensures Requests(web, start) == [start]
  {
    PlanHead(web, start);
    hide IsCatalog, Plan, FirstCatalog, DiscoveryOf, Attempts, Requests;
  }

  lemma QueueIs(web: Web, start: Url)
    ensures Queue(web, start) == Https(Links(web, start)) + WellKnowns(web, WellKnownBases(web, start))
  {
  }

  lemma RequestsLater(web: Web, start: Url, rest: seq<Candidate>)
    requires !IsCatalog(web, Candidate(start, Direct)) && rest == Unseen({RequestKey(start)}, Queue(web, start))
    ensures var k := FirstCatalog(web, rest);
            Requests(web, start) == [start] + UrlsOf(if k < |rest| then rest[..k + 1] else rest)
  {
    PlanHead(web, start);
    hide *;
  }

  lemma OutcomeLater(web: Web, start: Url, rest: seq<Candidate>)
    requires !IsCatalog(web, Candidate(start, Direct)) && rest == Unseen({RequestKey(start)}, Queue(web, start))
    ensures var k := FirstCatalog(web, rest);
            && (k < |rest| ==> Outcome(web, start) == Found(DiscoveryOf(web, rest[k])))
            && (k == |rest| ==>
                  Outcome(web, start) ==
                  NotFound([Failure(web, Candidate(start, Direct))] + Refused(Links(web, start)) + Failures(web, rest)))
  {
    PlanHead(web, start);
    var plan := Plan(web, start);
    assert |plan| == 1 + |rest| && plan[1..] == rest;
    hide Plan, IsCatalog, DiscoveryOf, Failures, Failure, Refused, Links, Unseen, Queue, RequestKey, FirstCatalog, Requests;
  }

  /** The plan starts with the URL itself. */
  lemma PlanHead(web: Web, start: Url)
    ensures var plan, rest := Plan(web, start), Unseen({RequestKey(start)}, Queue(web, start));
            var direct := Candidate(start, Direct);
            && plan[0] == direct && plan[1..] == rest
            && (IsCatalog(web, direct) ==> FirstCatalog(web, plan) == 0 < |plan| && Requests(web, start) == [start])
            && (!IsCatalog(web, direct) ==>
                  var k := FirstCatalog(web, rest);
                  && FirstCatalog(web, plan) == 1 + k && (k < |rest| ==> plan[k + 1] == rest[k])
                  && Requests(web, start) == [start] + UrlsOf(if k < |rest| then rest[..k + 1] else rest))
  {
    hide IsCatalog, Unseen, Queue, RequestKey;
    var plan, rest := Plan(web, start), Unseen({RequestKey(start)}, Queue(web, start));
    var direct := Candidate(start, Direct);
    assert plan == [direct] + rest && plan[1..] == rest;
    if IsCatalog(web, direct) {
      assert plan[..1] == [direct] && [direct][1..] == [];
    } else {
      var k := FirstCatalog(web, rest);
      if k < |rest| {
        assert plan[..k + 2] == [direct] + rest[..k + 1] && ([direct] + rest[..k + 1])[1..] == rest[..k + 1];
      }
    }
  }
}
