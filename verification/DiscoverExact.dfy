// What discovery finds, said of responses and links alone: no plan, queue or key is named here.

module DiscoverExact {
  import opened Basics
  import opened Discover
  import opened DiscoverProofs
  import Header = LinkHeader
  import opened LinkCombination

  // ---------------------------------------------------------------- inputs and media types

  /** `part` occurs in `s`. */
  ghost predicate HasInside(s: string, part: string) {
    exists before, after :: IsAround(s, part, before, after)
  }

  predicate IsAround(s: string, part: string, before: string, after: string) { s == before + (part + after) }

  lemma ContainsExact(s: string, part: string)
    ensures Contains(s, part) <==> HasInside(s, part)
  {
    if i :| 0 <= i <= |s| && HasPrefix(s[i..], part) {
      assert s == s[..i] + (part + s[i + |part|..]) by { assert s[i..] == part + s[i..][|part|..]; }
      assert IsAround(s, part, s[..i], s[i + |part|..]);
    }
    if before, after :| IsAround(s, part, before, after) {
      assert s[|before|..] == part + after;
      assert HasPrefix(s[|before|..], part);
    }
  }

  /** The URL that an input stands for: https is added when no scheme is given, and required when one is. */
  lemma ParseInputExact(web: Web, input: string, url: Url)
    ensures ParseInput(web, input) == Some(url) <==>
            && HasText(input)
            && (if HasInside(Trim(input), "://") then web.parseUrl(Trim(input)) else web.parseUrl("https://" + Trim(input))) == Some(url)
            && url.scheme == "https" && url.host != ""
  {
    var _, _ := TrimExact(input);
    ContainsExact(Trim(input), "://");
    hide Trim, HasText, Contains, HasInside;
  }

  /** HTML is what has one of the two media types, whatever its parameters, letter case and surrounding white space. */
  lemma HtmlExact(r: Response)
    ensures IsHtml(r) <==>
            exists value, essence ::
              && r.contentType == Some(value) && HasNo(essence, ';') && StartsAs(value, essence, ';')
              && (Lower(Trim(essence)) == "text/html" || Lower(Trim(essence)) == "application/xhtml+xml")
  {
    if r.contentType.Some? {
      forall essence ensures Split(r.contentType.value, ';')[0] == essence <==> HasNo(essence, ';') && StartsAs(r.contentType.value, essence, ';') {
        FirstPartExact(r.contentType.value, ';', essence);
      }
    }
    hide Split, Trim, Lower, StartsAs;
  }

  // ---------------------------------------------------------------- links

  /** One of the links in the Link header leads to the target and has the relation. */
  predicate HasLink(r: Response, target: string) {
    exists n, m :: 0 <= n < |r.linkHeaders| && 0 <= m < |Header.Links(r.linkHeaders[n])|
                   && Header.Links(r.linkHeaders[n])[m].target == target && "ai-catalog" in Header.Links(r.linkHeaders[n])[m].rel
  }

  lemma {:induction false} MatchingMembers(links: seq<Header.Link>, rel: string, target: string)
    ensures target in Header.Matching(links, rel) <==>
            exists m :: 0 <= m < |links| && links[m].target == target && rel in links[m].rel
  {
    if links != [] {
      MatchingMembers(links[1..], rel, target);
      assert forall m :: 0 < m < |links| ==> links[m] == links[1..][m - 1];
      assert forall m :: 0 <= m < |links[1..]| ==> links[1..][m] == links[m + 1];
    }
  }

  /** Line `n` has a link that leads to the target and has the relation. */
  predicate LineHasLink(lines: seq<string>, n: nat, rel: string, target: string)
    requires n < |lines|
  {
    exists m :: 0 <= m < |Header.Links(lines[n])| && Header.Links(lines[n])[m].target == target && rel in Header.Links(lines[n])[m].rel
  }

  lemma {:induction false} TargetMembers(lines: seq<string>, rel: string, target: string)
    ensures target in Header.TargetsWithRel(lines, rel) <==> exists n :: 0 <= n < |lines| && LineHasLink(lines, n, rel, target)
  {
    hide Header.Links, Header.Matching;
    if lines != [] {
      MatchingMembers(Header.Links(lines[0]), rel, target);
      TargetMembers(lines[1..], rel, target);
      assert LineHasLink(lines, 0, rel, target) <==> target in Header.Matching(Header.Links(lines[0]), rel);
      forall n | 0 < n < |lines| ensures LineHasLink(lines, n, rel, target) <==> LineHasLink(lines[1..], n - 1, rel, target) {
        assert lines[n] == lines[1..][n - 1];
      }
      hide LineHasLink;
      if n :| 0 <= n < |lines[1..]| && LineHasLink(lines[1..], n, rel, target) {
        assert LineHasLink(lines, n + 1, rel, target);
      }
    }
  }

  lemma LinkedExact(r: Response, target: string)
    ensures target in Header.TargetsWithRel(r.linkHeaders, LINK_RELATION) <==> HasLink(r, target)
  {
    TargetMembers(r.linkHeaders, LINK_RELATION, target);
    hide Header.Links, Header.TargetsWithRel;
    if HasLink(r, target) {
      var n, m :| 0 <= n < |r.linkHeaders| && 0 <= m < |Header.Links(r.linkHeaders[n])|
                   && Header.Links(r.linkHeaders[n])[m].target == target && "ai-catalog" in Header.Links(r.linkHeaders[n])[m].rel;
      assert LineHasLink(r.linkHeaders, n, LINK_RELATION, target);
    }
  }

  lemma {:induction false} ResolveMembers(web: Web, base: Url, references: seq<string>, url: Url)
    ensures url in Resolve(web, base, references) <==> exists t :: t in references && web.join(base, t) == Some(url)
  {
    if references != [] {
      ResolveMembers(web, base, references[1..], url);
      assert forall t :: t in references <==> t == references[0] || t in references[1..];
    }
  }

  /** The page links to the URL in its Link header. */
  predicate LinksTo(web: Web, r: Response, url: Url) {
    200 <= r.status < 300 && exists target | target in Header.TargetsWithRel(r.linkHeaders, LINK_RELATION) ::
                               HasLink(r, target) && web.join(r.url, target) == Some(url)
  }

  /** What references in the HTML of a page are relative to: its base, if it has one that resolves. */
  function BaseOf(web: Web, r: Response): Url {
    if web.findLinks(r.body).base.Some? && web.join(r.url, web.findLinks(r.body).base.value).Some?
    then web.join(r.url, web.findLinks(r.body).base.value).value
    else r.url
  }

  /** The page is HTML and links to the URL in it. */
  predicate HtmlLinksTo(web: Web, r: Response, url: Url) {
    && 200 <= r.status < 300 && IsHtml(r)
    && exists n :: 0 <= n < |web.findLinks(r.body).hrefs| && web.join(BaseOf(web, r), web.findLinks(r.body).hrefs[n]) == Some(url)
  }

  /** The host reached is another one than was asked for. */
  predicate IsElsewhere(r: Response, start: Url) { r.url.scheme != start.scheme || r.url.host != start.host }

  /** The places where a catalog is looked for: the URL itself, https links in its Link header and in its HTML,
      and the well-known URLs of the host asked for and of the host reached. */
  predicate Offers(web: Web, start: Url, c: Candidate) {
    match c.means
    case Direct => c.url == start
    case LinkHeader => c.url.scheme == "https" && web.get(start).Some? && LinksTo(web, web.get(start).value, c.url)
    case HtmlLink => c.url.scheme == "https" && web.get(start).Some? && HtmlLinksTo(web, web.get(start).value, c.url)
    case WellKnown =>
      || web.join(start, "/.well-known/ai-catalog.json") == Some(c.url)
      || (&& web.get(start).Some? && IsElsewhere(web.get(start).value, start)
          && web.join(web.get(start).value.url, "/.well-known/ai-catalog.json") == Some(c.url))
  }

  lemma {:induction false} HttpsMembers(cs: seq<Candidate>, c: Candidate)
    ensures c in Https(cs) <==> c in cs && c.url.scheme == "https"
  {
    if cs != [] {
      HttpsMembers(cs[1..], c);
      assert c in cs <==> c == cs[0] || c in cs[1..];
    }
  }

  lemma {:induction false} WellKnownMembers(web: Web, bases: seq<Url>, c: Candidate)
    ensures c in WellKnowns(web, bases) <==>
            c.means == WellKnown && exists b :: b in bases && web.join(b, WELL_KNOWN_PATH) == Some(c.url)
  {
    if bases != [] {
      WellKnownMembers(web, bases[1..], c);
      assert forall b :: b in bases <==> b == bases[0] || b in bases[1..];
    }
  }

  lemma ByMembers(urls: seq<Url>, means: Means, c: Candidate)
    ensures c in By(urls, means) <==> c.means == means && c.url in urls
  {
    if c.means == means && c.url in urls {
      var i :| 0 <= i < |urls| && urls[i] == c.url;
      assert By(urls, means)[i] == c;
    }
  }

  lemma HeaderTargetsExact(web: Web, r: Response, url: Url)
    ensures 200 <= r.status < 300 ==> (url in HeaderTargets(web, r) <==> LinksTo(web, r, url))
  {
    ResolveMembers(web, r.url, Header.TargetsWithRel(r.linkHeaders, LINK_RELATION), url);
    forall t ensures t in Header.TargetsWithRel(r.linkHeaders, LINK_RELATION) <==> HasLink(r, t) {
      LinkedExact(r, t);
    }
    hide Resolve, HasLink, Header.TargetsWithRel;
  }

  lemma HtmlTargetsExact(web: Web, r: Response, url: Url)
    ensures 200 <= r.status < 300 && IsHtml(r) ==> (url in HtmlTargets(web, r) <==> HtmlLinksTo(web, r, url))
  {
    var hrefs := web.findLinks(r.body).hrefs;
    ResolveMembers(web, HtmlBase(web, r), hrefs, url);
    assert HtmlBase(web, r) == BaseOf(web, r);
    hide Resolve, IsHtml, HtmlBase, BaseOf;
    if t :| t in hrefs && web.join(BaseOf(web, r), t) == Some(url) {
      var n :| 0 <= n < |hrefs| && hrefs[n] == t;
    }
  }

  lemma LinksMembers(web: Web, start: Url, c: Candidate)
    ensures c in Https(Links(web, start)) <==> c.means in {LinkHeader, HtmlLink} && Offers(web, start, c)
  {
    HttpsMembers(Links(web, start), c);
    if web.get(start).Some? {
      var r := web.get(start).value;
      HeaderTargetsExact(web, r, c.url);
      HtmlTargetsExact(web, r, c.url);
      ByMembers(HeaderTargets(web, r), LinkHeader, c);
      ByMembers(HtmlTargets(web, r), HtmlLink, c);
      hide HeaderTargets, HtmlTargets, IsHtml, LinksTo, By, Https;
      if !IsHtml(r) {
        assert !HtmlLinksTo(web, r, c.url);
      }
    }
    hide Https, By, HeaderTargets, HtmlTargets, IsHtml, LinksTo, HtmlLinksTo;
  }

  lemma QueueMembers(web: Web, start: Url, c: Candidate)
    ensures c in Queue(web, start) <==> c.means != Direct && Offers(web, start, c)
  {
    LinksMembers(web, start, c);
    WellKnownMembers(web, WellKnownBases(web, start), c);
    KnownBases(web, start);
    hide Https, Links, WellKnowns, WellKnownBases, LinksTo, HtmlLinksTo;
  }

  lemma KnownBases(web: Web, start: Url)
    ensures forall b :: b in WellKnownBases(web, start) <==>
              b == start || (web.get(start).Some? && IsElsewhere(web.get(start).value, start) && b == web.get(start).value.url)
  {
  }

  // ---------------------------------------------------------------- what is found

  /** The URL serves a catalog. */
  predicate Serves(web: Web, url: Url) {
    match web.get(url)
    case Some(r) => 200 <= r.status < 300 && web.parseCatalog(r.body).Some? && HasText(web.parseCatalog(r.body).value.specVersion)
    case None => false
  }

  lemma ServesExact(web: Web, c: Candidate)
    ensures IsCatalog(web, c) <==> Serves(web, c.url)
    ensures IsCatalog(web, c) ==>
              && web.get(c.url).Some? && IsCatalogOf(web, web.get(c.url).value, DiscoveryOf(web, c).catalog)
              && DiscoveryOf(web, c).url == web.get(c.url).value.url && DiscoveryOf(web, c).means == c.means
              && DiscoveryOf(web, c).bytes == web.get(c.url).value.body
  {
    if web.get(c.url).Some? {
      AsCatalogExact(web, web.get(c.url).value);
    }
    hide AsCatalog, HasText;
  }

  /** Every place is in the plan, up to the fragment of its URL, and nothing else is. */
  lemma PlanMembers(web: Web, start: Url)
    ensures forall i :: 0 <= i < |Plan(web, start)| ==> Offers(web, start, Plan(web, start)[i])
    ensures forall c :: Offers(web, start, c) ==> IsPlanned(web, start, c)
  {
    var queue := Queue(web, start);
    var at := UnseenExact({RequestKey(start)}, queue);
    forall c ensures c in queue <==> c.means != Direct && Offers(web, start, c) {
      QueueMembers(web, start, c);
    }
    hide Offers, Queue, IsPlanned;
    PlanOffered(web, start, queue, at);
    forall c | Offers(web, start, c) ensures IsPlanned(web, start, c) {
      if c.means == Direct {
        DirectPlanned(web, start, c);
      } else {
        var p :| 0 <= p < |queue| && queue[p] == c;
        QueuePlanned(web, start, queue, at, p);
      }
    }
  }

  lemma PlanOffered(web: Web, start: Url, queue: seq<Candidate>, at: seq<int>)
    requires queue == Queue(web, start) && |Unseen({RequestKey(start)}, queue)| == |at|
    requires forall i :: 0 <= i < |at| ==> 0 <= at[i] < |queue| && Unseen({RequestKey(start)}, queue)[i] == queue[at[i]]
    requires forall c :: c in queue ==> Offers(web, start, c)
    ensures forall i :: 0 <= i < |Plan(web, start)| ==> Offers(web, start, Plan(web, start)[i])
  {
    hide Unseen, Queue;
    var plan := Plan(web, start);
    DirectOffered(web, start);
    hide Offers;
    forall i | 0 <= i < |plan| ensures Offers(web, start, plan[i]) {
      assert plan[i] == if i == 0 then Candidate(start, Direct) else queue[at[i - 1]];
    }
  }

  lemma DirectPlanned(web: Web, start: Url, c: Candidate)
    requires Offers(web, start, c) && c.means == Direct
    ensures IsPlanned(web, start, c)
  {
    DirectIs(web, start, c);
    assert Plan(web, start)[0].url == c.url;
    hide Unseen, Queue, Offers;
  }

  /** A planned URL differs from that of the candidate in its fragment at most. */
  predicate IsPlanned(web: Web, start: Url, c: Candidate) {
    exists i :: 0 <= i < |Plan(web, start)| && SameButFragment(Plan(web, start)[i].url, c.url)
  }

  lemma DirectOffered(web: Web, start: Url)
    ensures Offers(web, start, Candidate(start, Direct))
  {
  }

  lemma DirectIs(web: Web, start: Url, c: Candidate)
    requires Offers(web, start, c) && c.means == Direct
    ensures c.url == start
  {
  }

  lemma {:induction false} FirstWithKey(seen: set<Url>, cs: seq<Candidate>, p: nat) returns (q: nat)
    requires p < |cs| && RequestKey(cs[p].url) !in seen
    ensures q <= p && IsNew(seen, cs, q) && RequestKey(cs[q].url) == RequestKey(cs[p].url)
  {
    hide RequestKey;
    if q' :| 0 <= q' < p && RequestKey(cs[q'].url) == RequestKey(cs[p].url) {
      q := FirstWithKey(seen, cs, q');
    } else {
      q := p;
    }
  }

  lemma QueuePlanned(web: Web, start: Url, queue: seq<Candidate>, at: seq<int>, p: nat)
    requires p < |queue| && queue == Queue(web, start) && Selects({RequestKey(start)}, queue, at)
    requires |Unseen({RequestKey(start)}, queue)| == |at|
    requires forall i :: 0 <= i < |at| ==> 0 <= at[i] < |queue| && Unseen({RequestKey(start)}, queue)[i] == queue[at[i]]
    ensures IsPlanned(web, start, queue[p])
  {
    hide Queue, Unseen;
    var plan := Plan(web, start);
    if RequestKey(queue[p].url) == RequestKey(start) {
      assert SameButFragment(plan[0].url, queue[p].url);
    } else {
      var q := FirstWithKey({RequestKey(start)}, queue, p);
      var i :| 0 <= i < |at| && at[i] == q;
      assert plan[i + 1] == queue[q];
      assert SameButFragment(plan[i + 1].url, queue[p].url);
    }
  }

  /** A fragment is not sent, so it does not matter for what is served. */
  ghost predicate IgnoresFragments(web: Web) {
    forall a, b :: SameButFragment(a, b) ==> (Serves(web, a) <==> Serves(web, b))
  }

  /** Nothing is found exactly when none of the places serves a catalog; what is found is what one of them serves. */
  lemma {:induction false} FoundExact(web: Web, start: Url)
    requires IgnoresFragments(web)
    ensures Outcome(web, start).NotFound? <==> forall c :: Offers(web, start, c) ==> !Serves(web, c.url)
    ensures Outcome(web, start).Found? ==>
              var d := Outcome(web, start).discovery;
              exists c :: Offers(web, start, c) && IsFrom(web, c, d)
  {
    NothingFound(web, start);
    PlanMembers(web, start);
    var plan := Plan(web, start);
    forall i | 0 <= i < |plan| ensures IsCatalog(web, plan[i]) <==> Serves(web, plan[i].url) {
      ServesExact(web, plan[i]);
    }
    hide Offers, Serves, IsCatalog, Plan, Outcome, SameButFragment;
    if Outcome(web, start).NotFound? {
      forall c | Offers(web, start, c) ensures !Serves(web, c.url) {
        var i :| 0 <= i < |plan| && SameButFragment(plan[i].url, c.url);
      }
    } else {
      var k := FoundFrom(web, start);
      assert Offers(web, start, plan[k]);
    }
  }

  /** The discovery is the catalog that the candidate's URL serves, at the URL where the response came from. */
  predicate IsFrom(web: Web, c: Candidate, d: Discovery) {
    match web.get(c.url)
    case Some(r) => IsCatalogOf(web, r, d.catalog) && d.url == r.url && d.means == c.means && d.bytes == r.body
    case None => false
  }

  lemma FoundFrom(web: Web, start: Url) returns (k: nat)
    requires !Outcome(web, start).NotFound?
    ensures k < |Plan(web, start)| && IsCatalog(web, Plan(web, start)[k])
    ensures Outcome(web, start).Found? && IsFrom(web, Plan(web, start)[k], Outcome(web, start).discovery)
  {
    k := FirstCatalog(web, Plan(web, start));
    ServesExact(web, Plan(web, start)[k]);
    hide IsCatalog, Plan, FirstCatalog, DiscoveryOf, IsCatalogOf;
  }

  /** The start's own response is returned, and nothing else asked, exactly when it is a catalog. */
  lemma {:induction false} DirectExact(web: Web, start: Url)
    ensures Serves(web, start) <==> Outcome(web, start).Found? && Outcome(web, start).discovery.means == Direct
    ensures Serves(web, start) ==>
              && Requests(web, start) == [start]
              && IsFrom(web, Candidate(start, Direct), Outcome(web, start).discovery)
  {
    var direct := Candidate(start, Direct);
    ServesExact(web, direct);
    if IsCatalog(web, direct) {
      OutcomeDirect(web, start);
    } else {
      RequestsLater(web, start, Unseen({RequestKey(start)}, Queue(web, start)));
      OutcomeLater(web, start, Unseen({RequestKey(start)}, Queue(web, start)));
      LaterIsNotDirect(web, start);
    }
    hide Serves, IsCatalog, Outcome, Requests, DiscoveryOf, IsCatalogOf, Queue, Unseen, FirstCatalog;
  }

  lemma LaterIsNotDirect(web: Web, start: Url)
    ensures forall i :: 0 <= i < |Unseen({RequestKey(start)}, Queue(web, start))| ==>
              Unseen({RequestKey(start)}, Queue(web, start))[i].means != Direct
  {
    var queue := Queue(web, start);
    var at := UnseenExact({RequestKey(start)}, queue);
    forall c ensures c in queue ==> c.means != Direct {
      QueueMembers(web, start, c);
    }
    hide Queue, Unseen;
  }

  // ---------------------------------------------------------------- order

  /** References are resolved one by one, in order; those that do not resolve are dropped. */
  lemma {:induction false} ResolveInOrder(web: Web, base: Url, a: seq<string>, b: seq<string>, t: string)
    ensures Resolve(web, base, a + b) == Resolve(web, base, a) + Resolve(web, base, b)
    ensures Resolve(web, base, [t]) == if web.join(base, t).Some? then [web.join(base, t).value] else []
  {
    assert [t][1..] == [];
    if a == [] {
      Append(a, b);
    } else {
      assert (a + b)[1..] == a[1..] + b;
      ResolveInOrder(web, base, a[1..], b, t);
    }
  }

  /** Links are taken line by line and link by link, in order; those without the relation are passed over. */
  lemma {:induction false} TargetsInOrder(a: seq<string>, b: seq<string>, line: string, links: seq<Header.Link>, link: Header.Link, rel: string)
    ensures Header.TargetsWithRel(a + b, rel) == Header.TargetsWithRel(a, rel) + Header.TargetsWithRel(b, rel)
    ensures Header.TargetsWithRel([line], rel) == Header.Matching(Header.Links(line), rel)
    ensures Header.Matching(links + [link], rel) == Header.Matching(links, rel) + if rel in link.rel then [link.target] else []
  {
    hide Header.Links;
    OneLine(line, rel);
    MatchingAppend(links, [link], rel);
    assert [link][1..] == [];
    hide Header.Matching;
    if a == [] {
      Append(a, b);
    } else {
      assert (a + b)[1..] == a[1..] + b;
      TargetsInOrder(a[1..], b, line, links, link, rel);
      Associate(Header.Matching(Header.Links(a[0]), rel), Header.TargetsWithRel(a[1..], rel), Header.TargetsWithRel(b, rel));
    }
  }

  /** The well-known URL of the host reached comes before that of the host asked for. */
  lemma WellKnownInOrder(web: Web, start: Url)
    ensures WellKnowns(web, WellKnownBases(web, start)) ==
            (if web.get(start).Some? && IsElsewhere(web.get(start).value, start) then KnownAt(web, web.get(start).value.url) else [])
            + KnownAt(web, start)
  {
    KnownOne(web, start, []);
    Append(KnownAt(web, start), []);
    if web.get(start).Some? && IsElsewhere(web.get(start).value, start) {
      KnownOne(web, web.get(start).value.url, [start]);
      assert WellKnownBases(web, start) == [web.get(start).value.url] + [start];
    } else {
      assert WellKnownBases(web, start) == [start] + [];
      Append([], KnownAt(web, start));
    }
    hide WellKnowns, KnownAt, WellKnownBases;
  }

  lemma KnownOne(web: Web, base: Url, bases: seq<Url>)
    ensures WellKnowns(web, [base] + bases) == KnownAt(web, base) + WellKnowns(web, bases)
    ensures WellKnowns(web, []) == []
  {
    assert ([base] + bases)[1..] == bases;
    Append([], WellKnowns(web, bases));
  }

  function KnownAt(web: Web, base: Url): seq<Candidate> {
    if web.join(base, "/.well-known/ai-catalog.json").Some?
    then [Candidate(web.join(base, "/.well-known/ai-catalog.json").value, WellKnown)]
    else []
  }

  // ---------------------------------------------------------------- the report

  /** What is reported of a place that was asked without success: where the response came from, and why it is no catalog. */
  predicate Reports(web: Web, c: Candidate, a: Attempt) {
    && a.means == c.means
    && match web.get(c.url)
       case None => a.url == c.url && a.reason == NoResponse
       case Some(r) =>
         && a.url == r.url
         && a.reason ==
            (if !(200 <= r.status < 300) then HttpStatus(r.status)
             else if web.parseCatalog(r.body).Some? then NoSpecVersion
             else if IsHtml(r) then HtmlPage else NotADocument)
  }

  lemma FailureExact(web: Web, c: Candidate)
    requires !Serves(web, c.url)
    ensures Reports(web, c, Failure(web, c))
  {
    if web.get(c.url).Some? {
      AsCatalogExact(web, web.get(c.url).value);
    }
    hide HasText, IsHtml, AsCatalog;
  }

  /** A report lists the start, then the links that are not https, then every other place that was asked, in order. */
  lemma {:induction false} ReportExact(web: Web, start: Url)
    requires Outcome(web, start).NotFound?
    ensures var attempts := Outcome(web, start).attempts;
            var plan, refused := Plan(web, start), Refused(Links(web, start));
            && |attempts| == |plan| + |refused|
            && Reports(web, plan[0], attempts[0])
            && (forall i :: 0 <= i < |refused| ==> attempts[1 + i] == refused[i])
            && (forall i :: 1 <= i < |plan| ==> Reports(web, plan[i], attempts[|refused| + i]))
  {
    hide *;
    PlannedFails(web, start);
    AttemptsAre(web, start);
    ReportsOf(web, Plan(web, start), Refused(Links(web, start)), Outcome(web, start).attempts);
  }

  lemma PlannedFails(web: Web, start: Url)
    requires Outcome(web, start).NotFound?
    ensures forall i :: 0 <= i < |Plan(web, start)| ==> Reports(web, Plan(web, start)[i], Failure(web, Plan(web, start)[i]))
  {
    hide *;
    NothingFound(web, start);
    forall i | 0 <= i < |Plan(web, start)| ensures Reports(web, Plan(web, start)[i], Failure(web, Plan(web, start)[i])) {
      ServesExact(web, Plan(web, start)[i]);
      FailureExact(web, Plan(web, start)[i]);
    }
  }

  lemma AttemptsAre(web: Web, start: Url)
    requires Outcome(web, start).NotFound?
    ensures var plan := Plan(web, start);
            && plan != [] && plan[0] == Candidate(start, Direct)
            && Outcome(web, start).attempts == [Failure(web, plan[0])] + Refused(Links(web, start)) + Failures(web, plan[1..])
  {
    assert Plan(web, start)[0] == Candidate(start, Direct);
    hide Plan, Failure, Refused, Links, Failures, FirstCatalog, DiscoveryOf;
  }

  lemma ReportsOf(web: Web, plan: seq<Candidate>, refused: seq<Attempt>, attempts: seq<Attempt>)
    requires plan != [] && attempts == [Failure(web, plan[0])] + refused + Failures(web, plan[1..])
    requires forall i :: 0 <= i < |plan| ==> Reports(web, plan[i], Failure(web, plan[i]))
    ensures |attempts| == |plan| + |refused| && Reports(web, plan[0], attempts[0])
    ensures forall i :: 0 <= i < |refused| ==> attempts[1 + i] == refused[i]
    ensures forall i :: 1 <= i < |plan| ==> Reports(web, plan[i], attempts[|refused| + i])
  {
    hide Reports, Failure;
    var failures := Failures(web, plan[1..]);
    InThreeParts(Failure(web, plan[0]), refused, failures);
    forall i | 1 <= i < |plan| ensures Reports(web, plan[i], attempts[|refused| + i]) {
      assert plan[1..][i - 1] == plan[i] && failures[i - 1] == Failure(web, plan[i]);
      assert attempts[1 + |refused| + (i - 1)] == failures[i - 1];
    }
  }

  lemma InThreeParts(first: Attempt, middle: seq<Attempt>, last: seq<Attempt>)
    ensures var all := [first] + middle + last;
            && |all| == 1 + |middle| + |last| && all[0] == first
            && (forall i :: 0 <= i < |middle| ==> all[1 + i] == middle[i])
            && (forall i :: 0 <= i < |last| ==> all[1 + |middle| + i] == last[i])
  {
  }

  /** The links that are not https are reported as such, in order. */
  lemma {:induction false} RefusedInOrder(a: seq<Candidate>, b: seq<Candidate>, c: Candidate)
    ensures Refused(a + b) == Refused(a) + Refused(b) && Https(a + b) == Https(a) + Https(b)
    ensures Refused([c]) == if c.url.scheme == "https" then [] else [Attempt(c.url, c.means, NotHttps)]
    ensures Https([c]) == if c.url.scheme == "https" then [c] else []
  {
    assert [c][1..] == [];
    RefusedAppend(a, b);
    HttpsAppend(a, b);
  }

  lemma {:induction false} RefusedAppend(a: seq<Candidate>, b: seq<Candidate>)
    ensures Refused(a + b) == Refused(a) + Refused(b)
  {
    if a == [] {
      Append(a, b);
      Append(Refused(a), Refused(b));
    } else {
      assert (a + b)[1..] == a[1..] + b && (a + b)[0] == a[0];
      RefusedAppend(a[1..], b);
      Associate(if a[0].url.scheme == "https" then [] else [Attempt(a[0].url, a[0].means, NotHttps)], Refused(a[1..]), Refused(b));
    }
  }

  lemma {:induction false} HttpsAppend(a: seq<Candidate>, b: seq<Candidate>)
    ensures Https(a + b) == Https(a) + Https(b)
  {
    if a == [] {
      Append(a, b);
      Append(Https(a), Https(b));
    } else {
      assert (a + b)[1..] == a[1..] + b && (a + b)[0] == a[0];
      HttpsAppend(a[1..], b);
      Associate(if a[0].url.scheme == "https" then [a[0]] else [], Https(a[1..]), Https(b));
    }
  }
}
